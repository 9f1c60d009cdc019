/** The demonstration program of `src/main.rs`: a loop that adds one to the
    word at 0x0100 until it equals a literal, then stops on the 0xFE byte
    that ends the program. The literal is 3 there; here it is any `n`. */
module Scenario {
  import opened Bytes
  import opened Outcomes
  import opened Registers
  import opened Opcodes
  import opened Machine
  import MachineLaws

  const R1: nat := 3
  const R2: nat := 4
  const COUNTER: nat := 0x0100
  const HALT: Byte := 0xFE
  const MEMORY_SIZE: nat := 0xFFFF

  /** The 21 program bytes. */
  function Program(n: Word): seq<Byte>
  {
    [MOV_MEM_REG, 0x01, 0x00, R1,
     MOV_LIT_REG, 0x00, 0x01, R2,
     ADD_REG_REG, R1, R2,
     MOV_REG_MEM, ACC, 0x01, 0x00,
     JNE_LIT_ADR, Hi(n), Lo(n), 0x00, 0x00,
     HALT]
  }

  /** `u16::MAX` bytes of zeroed memory with the program at address 0. */
  function Image(n: Word): (m: seq<Byte>)
    ensures |m| == MEMORY_SIZE
  {
    Program(n) + Zeros(MEMORY_SIZE - |Program(n)|)
  }

  /** `m` is a full memory holding the bytes of `Program(n)` at address 0. */
  ghost predicate Loaded(m: seq<Byte>, n: Word)
  {
    |m| == MEMORY_SIZE && m[..|Program(n)|] == Program(n)
  }

  /** The program bytes of a loaded memory, one by one. */
  lemma LoadedBytes(m: seq<Byte>, n: Word)
    requires Loaded(m, n)
    ensures m[0] == MOV_MEM_REG && m[1] == 0x01 && m[2] == 0x00 && m[3] == R1
    ensures m[4] == MOV_LIT_REG && m[5] == 0x00 && m[6] == 0x01 && m[7] == R2
    ensures m[8] == ADD_REG_REG && m[9] == R1 && m[10] == R2
    ensures m[11] == MOV_REG_MEM && m[12] == ACC && m[13] == 0x01 && m[14] == 0x00
    ensures m[15] == JNE_LIT_ADR && Join(m[16], m[17]) == n && m[18] == 0x00 && m[19] == 0x00
    ensures m[20] == HALT
  {
    var p := m[..|Program(n)|];
    assert p[0] == m[0] && p[1] == m[1] && p[2] == m[2] && p[3] == m[3];
    assert p[4] == m[4] && p[5] == m[5] && p[6] == m[6] && p[7] == m[7];
    assert p[8] == m[8] && p[9] == m[9] && p[10] == m[10];
    assert p[11] == m[11] && p[12] == m[12] && p[13] == m[13] && p[14] == m[14];
    assert p[15] == m[15] && p[16] == m[16] && p[17] == m[17] && p[18] == m[18] && p[19] == m[19];
    assert p[20] == m[20];
    JoinSplit(n);
  }

  /** Storing a word in the counter leaves the program in place. */
  lemma StoreKeepsProgram(m: seq<Byte>, n: Word, v: Word)
    requires Loaded(m, n)
    ensures Loaded(WriteWord(m, COUNTER, v), n) && ReadWord(WriteWord(m, COUNTER, v), COUNTER) == v
  {
    var m' := WriteWord(m, COUNTER, v);
    ReadOfWrite(m, COUNTER, v);
    assert m'[..|Program(n)|] == m[..|Program(n)|];
  }

  /** The machine runs the program with `c` in the counter word and `ip`
      at `ip`. */
  ghost predicate At(s: State, n: Word, c: Word, ip: Word)
  {
    WellFormed(s) && Loaded(s.memory, n) && ReadWord(s.memory, COUNTER) == c && Reg(s, IP) == ip
  }

  /** The loop of `main`: at most `fuel` times, stop if the next byte is
      0xFE, else take a step. */
  function Run(s: State, fuel: nat): (r: Result<State>)
    requires WellFormed(s)
    ensures r.Ok? ==> WellFormed(r.value)
    decreases fuel
  {
    if fuel == 0 then Ok(s)
    else
      var stop :- NextEquals(s, HALT);
      if stop then Ok(s)
      else
        var t :- Step(s);
        Run(t, fuel - 1)
  }

  /** The memory `main` builds holds the program and a zero counter. */
  lemma ImageLoaded(n: Word)
    ensures Loaded(Image(n), n) && ReadWord(Image(n), COUNTER) == 0
  {
    var m := Image(n);
    assert m[..|Program(n)|] == Program(n);
    assert m[COUNTER] == 0 && m[COUNTER + 1] == 0;
  }

  /** One step of `main`'s loop at an instruction that is not the halt byte. */
  lemma RunStep(s: State, fuel: nat)
    requires WellFormed(s) && fuel > 0 && NextEquals(s, HALT) == Ok(false) && Step(s).Ok?
    ensures Run(s, fuel) == Run(Step(s).value, fuel - 1)
  {
  }

  /** The opcode `op` at `ip` is fetched, leaving `ip` at `ip1`, and the
      instruction it names runs. */
  lemma StepAt(s: State, ip: Word, ip1: Word, op: Byte)
    requires WellFormed(s) && Reg(s, IP) == ip && ip < |s.memory| && ip1 == ip + 1 && s.memory[ip] == op
    ensures NextEquals(s, HALT) == Ok(op == HALT)
    ensures op == MOV_LIT_REG ==> Step(s) == MovLitReg(WithReg(s, IP, ip1))
    ensures op == MOV_REG_REG ==> Step(s) == MovRegReg(WithReg(s, IP, ip1))
    ensures op == MOV_REG_MEM ==> Step(s) == MovRegMem(WithReg(s, IP, ip1))
    ensures op == MOV_MEM_REG ==> Step(s) == MovMemReg(WithReg(s, IP, ip1))
    ensures op == ADD_REG_REG ==> Step(s) == AddRegReg(WithReg(s, IP, ip1))
    ensures op == JNE_LIT_ADR ==> Step(s) == JneLitAdr(WithReg(s, IP, ip1))
    ensures op == PSH_LIT ==> Step(s) == PshLit(WithReg(s, IP, ip1))
    ensures op == PSH_REG ==> Step(s) == PshReg(WithReg(s, IP, ip1))
    ensures op == POP ==> Step(s) == PopReg(WithReg(s, IP, ip1))
  {
    assert Fetch(s) == Ok((op, WithReg(s, IP, ip1)));
  }

  /** `MOV_MEM_REG 0x0100, r1`, its opcode at 0 fetched, loads the counter
      into `r1`. */
  lemma LoadOperands(s: State, n: Word, c: Word)
    requires At(s, n, c, 0)
    ensures MovMemReg(WithReg(s, IP, 1)).Ok?
    ensures var t := MovMemReg(WithReg(s, IP, 1)).value; At(t, n, c, 4) && Reg(t, R1) == c
  {
    var s1 := WithReg(s, IP, 1);
    LoadedBytes(s.memory, n);
    RegOfWithReg(s, IP, 1, IP);
    assert s1.memory == s.memory;
    assert ReadWord(s1.memory, 1) == COUNTER && s1.memory[3] == R1;
    MachineLaws.MovMemRegSpec(s1);
  }

  /** `MOV_MEM_REG 0x0100, r1` at 0 loads the counter into `r1`. */
  lemma Load(s: State, n: Word, c: Word)
    requires At(s, n, c, 0)
    ensures Step(s).Ok? && At(Step(s).value, n, c, 4) && Reg(Step(s).value, R1) == c
    ensures NextEquals(s, HALT) == Ok(false)
  {
    StepAt(s, 0, 1, MOV_MEM_REG);
    LoadOperands(s, n, c);
  }

  /** `MOV_LIT_REG 0x0001, r2`, its opcode at 4 fetched, sets `r2` to one
      and keeps `r1`. */
  lemma LoadOneOperands(s: State, n: Word, c: Word)
    requires At(s, n, c, 4)
    ensures MovLitReg(WithReg(s, IP, 5)).Ok?
    ensures var t := MovLitReg(WithReg(s, IP, 5)).value;
      At(t, n, c, 8) && Reg(t, R2) == 1 && Reg(t, R1) == Reg(s, R1)
  {
    var s1 := WithReg(s, IP, 5);
    LoadedBytes(s.memory, n);
    RegOfWithReg(s, IP, 5, IP);
    RegOfWithReg(s, IP, 5, R1);
    assert s1.memory == s.memory;
    assert ReadWord(s1.memory, 5) == 1 && s1.memory[7] == R2;
    MachineLaws.MovLitRegSpec(s1);
  }

  /** `MOV_LIT_REG 0x0001, r2` at 4 sets `r2` to one and keeps `r1`. */
  lemma LoadOne(s: State, n: Word, c: Word)
    requires At(s, n, c, 4)
    ensures Step(s).Ok? && At(Step(s).value, n, c, 8)
    ensures Reg(Step(s).value, R2) == 1 && Reg(Step(s).value, R1) == Reg(s, R1)
    ensures NextEquals(s, HALT) == Ok(false)
  {
    StepAt(s, 4, 5, MOV_LIT_REG);
    LoadOneOperands(s, n, c);
  }

  /** `ADD_REG_REG r1, r2`, its opcode at 8 fetched, puts their sum in
      `acc`. */
  lemma AddOperands(s: State, n: Word, c: Word)
    requires At(s, n, c, 8) && Reg(s, R1) + Reg(s, R2) < 0x1_0000
    ensures AddRegReg(WithReg(s, IP, 9)).Ok?
    ensures var t := AddRegReg(WithReg(s, IP, 9)).value;
      At(t, n, c, 11) && Reg(t, ACC) == Reg(s, R1) + Reg(s, R2)
  {
    var s1 := WithReg(s, IP, 9);
    LoadedBytes(s.memory, n);
    RegOfWithReg(s, IP, 9, IP);
    RegOfWithReg(s, IP, 9, R1);
    RegOfWithReg(s, IP, 9, R2);
    assert s1.memory == s.memory;
    assert s1.memory[9] == R1 && s1.memory[10] == R2;
    MachineLaws.AddRegRegSpec(s1);
  }

  /** `ADD_REG_REG r1, r2` at 8 puts their sum in `acc`. */
  lemma Add(s: State, n: Word, c: Word)
    requires At(s, n, c, 8) && Reg(s, R1) + Reg(s, R2) < 0x1_0000
    ensures Step(s).Ok? && At(Step(s).value, n, c, 11)
    ensures Reg(Step(s).value, ACC) == Reg(s, R1) + Reg(s, R2)
    ensures NextEquals(s, HALT) == Ok(false)
  {
    StepAt(s, 8, 9, ADD_REG_REG);
    AddOperands(s, n, c);
  }

  /** `MOV_REG_MEM acc, 0x0100`, its opcode at 11 fetched, stores `acc`
      into the counter. */
  lemma StoreOperands(s: State, n: Word, c: Word)
    requires At(s, n, c, 11)
    ensures MovRegMem(WithReg(s, IP, 12)).Ok?
    ensures var t := MovRegMem(WithReg(s, IP, 12)).value;
      At(t, n, Reg(s, ACC), 15) && Reg(t, ACC) == Reg(s, ACC)
  {
    var s1 := WithReg(s, IP, 12);
    LoadedBytes(s.memory, n);
    RegOfWithReg(s, IP, 12, IP);
    RegOfWithReg(s, IP, 12, ACC);
    assert s1.memory == s.memory;
    assert s1.memory[12] == ACC && ReadWord(s1.memory, 13) == COUNTER;
    assert MachineLaws.OperandValue(s1, ACC, 13) == Reg(s, ACC);
    MachineLaws.MovRegMemAt(s1, 12, ACC, COUNTER);
    StoreKeepsProgram(s.memory, n, Reg(s, ACC));
  }

  /** `MOV_REG_MEM acc, 0x0100` at 11 stores `acc` into the counter. */
  lemma Store(s: State, n: Word, c: Word)
    requires At(s, n, c, 11)
    ensures Step(s).Ok? && At(Step(s).value, n, Reg(s, ACC), 15)
    ensures Reg(Step(s).value, ACC) == Reg(s, ACC)
    ensures NextEquals(s, HALT) == Ok(false)
  {
    StepAt(s, 11, 12, MOV_REG_MEM);
    StoreOperands(s, n, c);
  }

  /** `JNE_LIT_ADR n, 0x0000`, its opcode at 15 fetched: the jump target
      of the branch, or the halt byte after it, with memory and `acc` kept. */
  lemma BranchOperands(s: State, n: Word, c: Word, target: Word)
    requires At(s, n, c, 15)
    requires target == if n != Reg(s, ACC) then 0 else 20
    ensures JneLitAdr(WithReg(s, IP, 16)).Ok?
    ensures var t := JneLitAdr(WithReg(s, IP, 16)).value;
      At(t, n, c, target) && Reg(t, ACC) == Reg(s, ACC)
  {
    var s1 := WithReg(s, IP, 16);
    LoadedBytes(s.memory, n);
    RegOfWithReg(s, IP, 16, IP);
    RegOfWithReg(s, IP, 16, ACC);
    assert s1.memory == s.memory;
    MachineLaws.JneLitAdrAt(s1, 16, n, 0);
  }

  /** `JNE_LIT_ADR n, 0x0000` at 15 jumps back to the start unless `acc` is
      `n`, and otherwise falls through to the halt byte. */
  lemma Branch(s: State, n: Word, c: Word, target: Word)
    requires At(s, n, c, 15)
    requires target == if n != Reg(s, ACC) then 0 else 20
    ensures Step(s).Ok? && At(Step(s).value, n, c, target)
    ensures Reg(Step(s).value, ACC) == Reg(s, ACC)
    ensures NextEquals(s, HALT) == Ok(false)
  {
    StepAt(s, 15, 16, JNE_LIT_ADR);
    BranchOperands(s, n, c, target);
  }

  /** One pass through the loop body, from the top with the counter at
      `c < n`: five steps later the counter and `acc` hold `c + 1`, and the
      machine is back at the top, or at the halt byte once `c + 1 == n`. */
  lemma Iteration(s: State, n: Word, c: Word, fuel: nat, rest: nat, target: Word) returns (t: State)
    requires At(s, n, c, 0) && c < n && fuel == rest + 5
    requires target == if c + 1 < n then 0 else 20
    ensures At(t, n, c + 1, target) && Reg(t, ACC) == c + 1
    ensures Run(s, fuel) == Run(t, rest)
  {
    Load(s, n, c);
    var s1 := Step(s).value;
    RunStep(s, fuel);
    LoadOne(s1, n, c);
    var s2 := Step(s1).value;
    RunStep(s1, fuel - 1);
    Add(s2, n, c);
    var s3 := Step(s2).value;
    RunStep(s2, fuel - 2);
    Store(s3, n, c);
    var s4 := Step(s3).value;
    RunStep(s3, fuel - 3);
    Branch(s4, n, c + 1, target);
    t := Step(s4).value;
    RunStep(s4, fuel - 4);
  }

  /** At the halt byte the loop stops where it is. */
  lemma Halts(s: State, n: Word, fuel: nat)
    requires At(s, n, n, 20) && fuel >= 1
    ensures NextEquals(s, HALT) == Ok(true) && Run(s, fuel) == Ok(s)
  {
    StepAt(s, 20, 21, HALT);
  }

  /** From the top of the loop with the counter at `c < n`, `main`'s loop
      stops at the halt byte with the counter and `acc` both at `n`. */
  lemma {:induction false} RunFrom(s: State, n: Word, c: Word, fuel: nat)
    requires At(s, n, c, 0) && c < n && fuel >= 5 * (n - c) + 1
    ensures Run(s, fuel).Ok?
    ensures var t := Run(s, fuel).value;
      At(t, n, n, 20) && Reg(t, ACC) == n && NextEquals(t, HALT) == Ok(true)
    decreases n - c
  {
    var rest: nat := fuel - 5;
    if c + 1 < n {
      var t := Iteration(s, n, c, fuel, rest, 0);
      RunFrom(t, n, c + 1, rest);
    } else {
      var t := Iteration(s, n, c, fuel, rest, 20);
      Halts(t, n, rest);
    }
  }

  /** After `insert`, the CPU of `main` sits at the top of the loop with a
      zero counter. */
  lemma Started(n: Word)
    ensures Insert(New(1), Image(n)).Ok?
    ensures At(Insert(New(1), Image(n)).value, n, 0, 0)
  {
    ImageLoaded(n);
    InsertLoaded(Image(n), n);
  }

  /** `insert` of a loaded memory into `Cpu::new(1)` starts at address 0. */
  lemma InsertLoaded(m: seq<Byte>, n: Word)
    requires Loaded(m, n) && ReadWord(m, COUNTER) == 0
    ensures Insert(New(1), m).Ok? && At(Insert(New(1), m).value, n, 0, 0)
  {
    MachineLaws.NewIsZero(1);
    MachineLaws.InsertSpec(New(1), m);
  }

  /** `main`: a 0xFFFF-byte memory holding the program, inserted into a CPU
      made by `Cpu::new(1)`, then looped over at most `fuel` times, where
      `main` takes the memory's length, 0xFFFF, as `fuel`. For any literal `n`
      the loop can count up to within that bound, it stops at the 0xFE byte
      with the program intact and both the counter word and `acc` at `n`. */
  lemma MainCountsTo(n: Word, fuel: nat)
    requires 1 <= n && 5 * n + 1 <= fuel
    ensures Insert(New(1), Image(n)).Ok?
    ensures var t := Run(Insert(New(1), Image(n)).value, fuel);
      t.Ok? && At(t.value, n, n, 20) && Reg(t.value, ACC) == n &&
      NextEquals(t.value, HALT) == Ok(true)
  {
    Started(n);
    RunFrom(Insert(New(1), Image(n)).value, n, 0, fuel);
  }
}

/** The CPU of `src/cpu.rs` as a function of its two byte buffers: what each
    operation returns and what state it leaves, or the error at which the
    Rust code would panic. The class `Cpu.Cpu` is proved to compute these. */
module Machine {
  import opened Bytes
  import opened Outcomes
  import opened Registers
  import opened Opcodes

  /** Main memory and the 24-byte register buffer. */
  datatype State = State(memory: seq<Byte>, registers: seq<Byte>)

  predicate WellFormed(s: State)
  {
    |s.registers| == BUFFER_SIZE
  }

  /** The value of register `i`. */
  function Reg(s: State, i: nat): Word
    requires WellFormed(s) && i < COUNT
  {
    ReadWord(s.registers, Offset(i))
  }

  /** `t` has the memory of `s` and the registers of `s` except possibly register `i`. */
  predicate OnlyRegChanged(s: State, t: State, i: nat)
    requires WellFormed(s) && WellFormed(t)
  {
    t.memory == s.memory && forall j :: 0 <= j < COUNT && j != i ==> Reg(t, j) == Reg(s, j)
  }

  /** `s` with register `i` set to `v`. */
  function WithReg(s: State, i: nat, v: Word): (t: State)
    requires WellFormed(s) && i < COUNT
    ensures WellFormed(t) && t.memory == s.memory
  {
    s.(registers := WriteWord(s.registers, Offset(i), v))
  }

  /** Setting register `i` changes register `i` and no other. */
  lemma RegOfWithReg(s: State, i: nat, v: Word, j: nat)
    requires WellFormed(s) && i < COUNT && j < COUNT
    ensures Reg(WithReg(s, i, v), j) == if j == i then v else Reg(s, j)
  {
    if j == i {
      ReadOfWrite(s.registers, Offset(i), v);
    } else {
      ReadOfOtherWrite(s.registers, Offset(i), Offset(j), v);
    }
  }

  /** The same, for every register at once. */
  lemma WithRegFrame(s: State, i: nat, v: Word)
    requires WellFormed(s) && i < COUNT
    ensures Reg(WithReg(s, i, v), i) == v && OnlyRegChanged(s, WithReg(s, i, v), i)
  {
    forall j | 0 <= j < COUNT
      ensures Reg(WithReg(s, i, v), j) == if j == i then v else Reg(s, j)
    {
      RegOfWithReg(s, i, v, j);
    }
  }

  /** `Cpu::new(size)`: zeroed memory of `size` bytes and zeroed registers. */
  function New(size: Word): (s: State)
    ensures WellFormed(s) && |s.memory| == size
  {
    State(Zeros(size), Zeros(BUFFER_SIZE))
  }

  /** `get_register`: the value of the register called `name`. */
  function GetRegister(s: State, name: string): (r: Result<Word>)
    requires WellFormed(s)
    ensures r.Err? ==> r.error == UnknownRegister
  {
    match IndexOf(name)
    case None => Err(UnknownRegister)
    case Some(i) => Ok(Reg(s, i))
  }

  /** `set_register`: store `v` in the register called `name`. */
  function SetRegister(s: State, name: string, v: Word): (r: Result<State>)
    requires WellFormed(s)
    ensures r.Ok? ==> WellFormed(r.value)
  {
    match IndexOf(name)
    case None => Err(UnknownRegister)
    case Some(i) => Ok(WithReg(s, i, v))
  }

  /** `get_register_value`: the register at a position taken from an operand
      byte; a position past the last register indexes past the buffer. */
  function GetRegisterValue(s: State, index: Byte): (r: Result<Word>)
    requires WellFormed(s)
    ensures r.Ok? <==> index < COUNT
  {
    if index < COUNT then Ok(Reg(s, index)) else Err(OutOfBounds)
  }

  /** `self.register_names[index]` followed by `set_register` on that name, as
      every instruction that writes a register operand does. */
  function SetRegisterAt(s: State, index: Byte, v: Word): (r: Result<State>)
    requires WellFormed(s)
    ensures r.Ok? ==> WellFormed(r.value)
  {
    if index < COUNT then Ok(WithReg(s, index, v)) else Err(OutOfBounds)
  }

  /** `fetch`: the byte at `ip`, with `ip` moved past it. */
  function Fetch(s: State): (r: Result<(Byte, State)>)
    requires WellFormed(s)
    ensures r.Ok? ==> WellFormed(r.value.1)
  {
    var ip := Reg(s, IP);
    if ip >= |s.memory| then Err(OutOfBounds)
    else if ip + 1 >= 0x1_0000 then Err(Overflow)
    else Ok((s.memory[ip], WithReg(s, IP, ip + 1)))
  }

  /** `fetch_16`: the big-endian word at `ip`, with `ip` moved past it. */
  function Fetch16(s: State): (r: Result<(Word, State)>)
    requires WellFormed(s)
    ensures r.Ok? ==> WellFormed(r.value.1)
  {
    var ip := Reg(s, IP);
    if ip >= |s.memory| || ip + 1 >= |s.memory| then Err(OutOfBounds)
    else if ip + 2 >= 0x1_0000 then Err(Overflow)
    else Ok((ReadWord(s.memory, ip), WithReg(s, IP, ip + 2)))
  }

  /** `push`: store `v` big-endian at `sp` and move `sp` down one slot. */
  function Push(s: State, v: Word): (r: Result<State>)
    requires WellFormed(s)
    ensures r.Ok? ==> WellFormed(r.value)
  {
    var sp := Reg(s, SP);
    if sp >= |s.memory| then Err(OutOfBounds)
    else if sp + 1 >= 0x1_0000 then Err(Overflow)
    else if sp + 1 >= |s.memory| then Err(OutOfBounds)
    else if sp < 2 then Err(Overflow)
    else Ok(WithReg(s.(memory := WriteWord(s.memory, sp, v)), SP, sp - 2))
  }

  /** The stack half of the `POP` instruction: move `sp` up one slot, then read
      the big-endian word there. */
  function Pop(s: State): (r: Result<(Word, State)>)
    requires WellFormed(s)
    ensures r.Ok? ==> WellFormed(r.value.1)
  {
    var sp := Reg(s, SP);
    if sp + 2 >= 0x1_0000 then Err(Overflow)
    else
      var t := WithReg(s, SP, sp + 2);
      if sp + 3 >= |s.memory| then Err(OutOfBounds)
      else Ok((ReadWord(t.memory, sp + 2), t))
  }

  /** A register operand: fetch its index, then read the register there, as
      `MOV_REG_REG`, `MOV_REG_MEM`, `ADD_REG_REG` and `PSH_REG` all begin. */
  function FetchRegValue(s: State): (r: Result<(Word, State)>)
    requires WellFormed(s)
    ensures r.Ok? ==> WellFormed(r.value.1)
  {
    var (index, s1) :- Fetch(s);
    var v :- GetRegisterValue(s1, index);
    Ok((v, s1))
  }

  // One function per arm of `execute`; each starts after the opcode byte was fetched.

  function MovLitReg(s: State): (r: Result<State>)
    requires WellFormed(s)
    ensures r.Ok? ==> WellFormed(r.value)
  {
    var (literal, s1) :- Fetch16(s);
    var (index, s2) :- Fetch(s1);
    SetRegisterAt(s2, index, literal)
  }

  function MovRegReg(s: State): (r: Result<State>)
    requires WellFormed(s)
    ensures r.Ok? ==> WellFormed(r.value)
  {
    var (v, s1) :- FetchRegValue(s);
    var (dst, s2) :- Fetch(s1);
    SetRegisterAt(s2, dst, v)
  }

  function MovRegMem(s: State): (r: Result<State>)
    requires WellFormed(s)
    ensures r.Ok? ==> WellFormed(r.value)
  {
    var (v, s1) :- FetchRegValue(s);
    var (address, s2) :- Fetch16(s1);
    if address + 1 >= |s2.memory| then Err(OutOfBounds)
    else Ok(s2.(memory := WriteWord(s2.memory, address, v)))
  }

  function MovMemReg(s: State): (r: Result<State>)
    requires WellFormed(s)
    ensures r.Ok? ==> WellFormed(r.value)
  {
    var (address, s1) :- Fetch16(s);
    if address + 1 >= |s1.memory| then Err(OutOfBounds)
    else
      var v := ReadWord(s1.memory, address);
      var (dst, s2) :- Fetch(s1);
      SetRegisterAt(s2, dst, v)
  }

  function AddRegReg(s: State): (r: Result<State>)
    requires WellFormed(s)
    ensures r.Ok? ==> WellFormed(r.value)
  {
    var (v1, s1) :- FetchRegValue(s);
    var (v2, s2) :- FetchRegValue(s1);
    if v1 as int + v2 as int >= 0x1_0000 then Err(Overflow)
    else Ok(WithReg(s2, ACC, v1 + v2))
  }

  function JneLitAdr(s: State): (r: Result<State>)
    requires WellFormed(s)
    ensures r.Ok? ==> WellFormed(r.value)
  {
    var (literal, s1) :- Fetch16(s);
    var (address, s2) :- Fetch16(s1);
    if literal != Reg(s2, ACC) then Ok(WithReg(s2, IP, address)) else Ok(s2)
  }

  function PshLit(s: State): (r: Result<State>)
    requires WellFormed(s)
    ensures r.Ok? ==> WellFormed(r.value)
  {
    var (v, s1) :- Fetch16(s);
    Push(s1, v)
  }

  function PshReg(s: State): (r: Result<State>)
    requires WellFormed(s)
    ensures r.Ok? ==> WellFormed(r.value)
  {
    var (v, s1) :- FetchRegValue(s);
    Push(s1, v)
  }

  function PopReg(s: State): (r: Result<State>)
    requires WellFormed(s)
    ensures r.Ok? ==> WellFormed(r.value)
  {
    var (dst, s1) :- Fetch(s);
    var (v, s2) :- Pop(s1);
    SetRegisterAt(s2, dst, v)
  }

  /** `PopReg` once the destination operand was fetched and `sp` read. */
  lemma PopRegOperands(s: State, dst: Byte, s1: State, sp: Word)
    requires WellFormed(s) && Fetch(s) == Ok((dst, s1)) && sp == Reg(s1, SP)
    ensures PopReg(s) ==
      if sp + 2 >= 0x1_0000 then Err(Overflow)
      else if sp + 2 >= |s1.memory| || sp + 2 + 1 >= |s1.memory| then Err(OutOfBounds)
      else SetRegisterAt(WithReg(s1, SP, sp + 2), dst, Join(s1.memory[sp + 2], s1.memory[sp + 2 + 1]))
  {
  }

  /** `execute`: run the instruction whose opcode was already fetched. */
  function Execute(s: State, op: Byte): (r: Result<State>)
    requires WellFormed(s)
    ensures r.Ok? ==> WellFormed(r.value)
    ensures !IsOpcode(op) ==> r == Ok(s)
  {
    if op == MOV_LIT_REG then MovLitReg(s)
    else if op == MOV_REG_REG then MovRegReg(s)
    else if op == MOV_REG_MEM then MovRegMem(s)
    else if op == MOV_MEM_REG then MovMemReg(s)
    else if op == ADD_REG_REG then AddRegReg(s)
    else if op == JNE_LIT_ADR then JneLitAdr(s)
    else if op == PSH_LIT then PshLit(s)
    else if op == PSH_REG then PshReg(s)
    else if op == POP then PopReg(s)
    else Ok(s)
  }

  /** `step`: fetch one opcode and execute it. */
  function Step(s: State): (r: Result<State>)
    requires WellFormed(s)
    ensures r.Ok? ==> WellFormed(r.value)
  {
    var (op, s1) :- Fetch(s);
    Execute(s1, op)
  }

  /** `insert`: replace memory by `program` and set `sp` and `fp` to its
      length cast to `u16` (so taken modulo 0x10000) minus 2; that is the
      program's last word only when it is shorter than 0x10000 bytes. */
  function Insert(s: State, program: seq<Byte>): (r: Result<State>)
    requires WellFormed(s)
    ensures r.Ok? ==> WellFormed(r.value)
  {
    var length := |program| % 0x1_0000;
    if length < 2 then Err(Overflow)
    else Ok(WithReg(WithReg(s.(memory := program), SP, length - 2), FP, length - 2))
  }

  /** `next_equals`: whether the byte at `ip` is `value`. */
  function NextEquals(s: State, value: Byte): (r: Result<bool>)
    requires WellFormed(s)
    ensures r.Ok? <==> Reg(s, IP) < |s.memory|
  {
    var ip := Reg(s, IP);
    if ip < |s.memory| then Ok(s.memory[ip] == value) else Err(OutOfBounds)
  }
}

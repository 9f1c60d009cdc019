/** What the operations of `Machine` guarantee: the register file behaves as
    twelve independent 16-bit cells, fetches read at `ip` and move it on,
    the stack grows downwards, and each instruction changes exactly what it
    names. */
module MachineLaws {
  import opened Bytes
  import opened Outcomes
  import opened Registers
  import opened Opcodes
  import opened Machine

  /** A fresh CPU holds zero in every register and every memory byte. */
  lemma NewIsZero(size: Word)
    ensures forall i :: 0 <= i < COUNT ==> Reg(New(size), i) == 0
    ensures forall a :: 0 <= a < size ==> New(size).memory[a] == 0
  {
    var s := New(size);
    forall i | 0 <= i < COUNT
      ensures Reg(s, i) == 0
    {
      assert s.registers[Offset(i)] == 0 && s.registers[Offset(i) + 1] == 0;
    }
  }

  /** Exactly the twelve names are registers: `get_register` and
      `set_register` succeed on them and fail with `UnknownRegister` on
      any other name, and the failing `set_register` writes nothing. */
  lemma RegisterNames(s: State, name: string, v: Word)
    requires WellFormed(s)
    ensures GetRegister(s, name).Ok? <==> name in NAMES
    ensures SetRegister(s, name, v).Ok? <==> name in NAMES
    ensures name !in NAMES ==>
      GetRegister(s, name) == Err(UnknownRegister) && SetRegister(s, name, v) == Err(UnknownRegister)
  {
  }

  /** A value stored under a name is the value read back under it. */
  lemma GetOfSetRegister(s: State, name: string, v: Word)
    requires WellFormed(s) && name in NAMES
    ensures SetRegister(s, name, v).Ok?
    ensures GetRegister(SetRegister(s, name, v).value, name) == Ok(v)
  {
    var i := IndexOf(name).value;
    RegOfWithReg(s, i, v, i);
  }

  /** `set_register` leaves memory and every other register as they were,
      and stores the two bytes of the value at offsets `2i` and `2i + 1`. */
  lemma SetRegisterFrame(s: State, name: string, v: Word, other: string)
    requires WellFormed(s) && name in NAMES && other in NAMES && other != name
    ensures SetRegister(s, name, v).Ok?
    ensures SetRegister(s, name, v).value.memory == s.memory
    ensures GetRegister(SetRegister(s, name, v).value, other) == GetRegister(s, other)
  {
    var i := IndexOf(name).value;
    var j := IndexOf(other).value;
    RegOfWithReg(s, i, v, j);
  }

  /** The byte-level picture of `set_register` on the i-th name: the high
      byte at `2i`, the low byte at `2i + 1`, every other byte unchanged. */
  lemma SetRegisterBytes(s: State, i: nat, v: Word)
    requires WellFormed(s) && i < COUNT
    ensures SetRegister(s, NAMES[i], v).Ok?
    ensures var t := SetRegister(s, NAMES[i], v).value;
      t.registers[Offset(i)] == Hi(v) && t.registers[Offset(i) + 1] == Lo(v) &&
      forall b :: 0 <= b < BUFFER_SIZE && b != Offset(i) && b != Offset(i) + 1 ==>
        t.registers[b] == s.registers[b]
  {
    IndexOfName(i);
  }

  /** `get_register_value(i)` reads the register `get_register` calls by the
      i-th name, and indexes past the buffer for any larger `i`. */
  lemma GetRegisterValueByName(s: State, i: Byte)
    requires WellFormed(s)
    ensures i < COUNT ==> GetRegisterValue(s, i) == GetRegister(s, NAMES[i])
    ensures i >= COUNT ==> GetRegisterValue(s, i) == Err(OutOfBounds)
  {
    if i < COUNT {
      IndexOfName(i);
    }
  }

  /** `fetch` succeeds exactly when `ip` indexes memory and `ip + 1` fits in
      16 bits; it then returns the byte at `ip`, moves `ip` on by one and
      changes nothing else. Otherwise the index fails first, the addition
      second. */
  lemma FetchSpec(s: State)
    requires WellFormed(s)
    ensures var ip := Reg(s, IP);
      Fetch(s).Ok? <==> ip < |s.memory| && ip + 1 < 0x1_0000
    ensures var ip := Reg(s, IP);
      Fetch(s).Ok? ==>
        var (b, t) := Fetch(s).value;
        b == s.memory[ip] && Reg(t, IP) == ip + 1 && OnlyRegChanged(s, t, IP)
    ensures Reg(s, IP) >= |s.memory| ==> Fetch(s) == Err(OutOfBounds)
    ensures Reg(s, IP) < |s.memory| && Reg(s, IP) + 1 >= 0x1_0000 ==> Fetch(s) == Err(Overflow)
  {
    var ip := Reg(s, IP);
    if ip < |s.memory| && ip + 1 < 0x1_0000 {
      WithRegFrame(s, IP, ip + 1);
    }
  }

  /** `fetch_16` succeeds exactly when `ip` and `ip + 1` index memory and
      `ip + 2` fits in 16 bits; it then returns the big-endian word there
      and moves `ip` on by two. */
  lemma Fetch16Spec(s: State)
    requires WellFormed(s)
    ensures var ip := Reg(s, IP);
      Fetch16(s).Ok? <==> ip + 1 < |s.memory| && ip + 2 < 0x1_0000
    ensures var ip := Reg(s, IP);
      Fetch16(s).Ok? ==>
        var (w, t) := Fetch16(s).value;
        w == s.memory[ip] as int * 0x100 + s.memory[ip + 1] as int && Reg(t, IP) == ip + 2 &&
        OnlyRegChanged(s, t, IP)
    ensures Reg(s, IP) + 1 >= |s.memory| ==> Fetch16(s) == Err(OutOfBounds)
  {
    var ip := Reg(s, IP);
    if ip + 1 < |s.memory| && ip + 2 < 0x1_0000 {
      WithRegFrame(s, IP, ip + 2);
    }
  }

  /** `fetch_16` is two `fetch`es, high byte first: one succeeds exactly
      when both do, and then they return the same word and the same state. */
  lemma Fetch16IsTwoFetches(s: State)
    requires WellFormed(s)
    ensures Fetch16(s).Ok? <==> Fetch(s).Ok? && Fetch(Fetch(s).value.1).Ok?
    ensures Fetch16(s).Ok? ==>
      var (hi, s1) := Fetch(s).value;
      var (lo, s2) := Fetch(s1).value;
      Fetch16(s) == Ok((Join(hi, lo), s2))
  {
    var ip: int := Reg(s, IP);
    if ip < |s.memory| && ip + 1 < 0x1_0000 {
      var s1 := WithReg(s, IP, ip + 1);
      assert Fetch(s) == Ok((s.memory[ip], s1));
      RegOfWithReg(s, IP, ip + 1, IP);
      if ip + 1 < |s.memory| && ip + 2 < 0x1_0000 {
        var s2 := WithReg(s1, IP, ip + 2);
        assert Fetch(s1) == Ok((s.memory[ip + 1], s2));
        WithRegTwice(s, IP, ip + 1, ip + 2);
        assert Fetch16(s) == Ok((ReadWord(s.memory, ip), s2));
      } else {
        assert Fetch(s1).Err? && Fetch16(s).Err?;
      }
    } else {
      assert Fetch(s).Err? && Fetch16(s).Err?;
    }
  }


  /** `push(v)` succeeds exactly when `sp` and `sp + 1` index memory, `sp + 1`
      fits in 16 bits and `sp >= 2`; it then stores `v` big-endian at `sp`,
      moves `sp` down by two, and changes no other byte or register. */
  lemma PushSpec(s: State, v: Word)
    requires WellFormed(s)
    ensures var sp := Reg(s, SP);
      Push(s, v).Ok? <==> 2 <= sp && sp + 1 < |s.memory| && sp + 1 < 0x1_0000
    ensures var sp := Reg(s, SP);
      Push(s, v).Ok? ==>
        var t := Push(s, v).value;
        |t.memory| == |s.memory| && ReadWord(t.memory, sp) == v &&
        t.memory[sp] == Hi(v) && t.memory[sp + 1] == Lo(v) &&
        (forall a :: 0 <= a < |s.memory| && a != sp && a != sp + 1 ==> t.memory[a] == s.memory[a]) &&
        Reg(t, SP) == sp - 2 &&
        (forall j :: 0 <= j < COUNT && j != SP ==> Reg(t, j) == Reg(s, j))
    ensures Reg(s, SP) >= |s.memory| ==> Push(s, v) == Err(OutOfBounds)
    ensures Reg(s, SP) + 1 < |s.memory| && Reg(s, SP) < 2 ==> Push(s, v) == Err(Overflow)
  {
    var sp := Reg(s, SP);
    if 2 <= sp && sp + 1 < |s.memory| && sp + 1 < 0x1_0000 {
      var s1 := s.(memory := WriteWord(s.memory, sp, v));
      ReadOfWrite(s.memory, sp, v);
      WithRegFrame(s1, SP, sp - 2);
      forall j | 0 <= j < COUNT
        ensures Reg(s1, j) == Reg(s, j)
      {
      }
    }
  }

  /** The stack half of `POP` succeeds exactly when `sp + 2` fits in 16 bits
      and `sp + 3` indexes memory; it then returns the word at `sp + 2`,
      moves `sp` up by two, and changes neither memory nor other registers. */
  lemma PopSpec(s: State)
    requires WellFormed(s)
    ensures var sp := Reg(s, SP);
      Pop(s).Ok? <==> sp + 2 < 0x1_0000 && sp + 3 < |s.memory|
    ensures var sp := Reg(s, SP);
      Pop(s).Ok? ==>
        var (v, t) := Pop(s).value;
        v == ReadWord(s.memory, sp + 2) && Reg(t, SP) == sp + 2 && OnlyRegChanged(s, t, SP)
  {
    var sp: int := Reg(s, SP);
    if sp + 2 < 0x1_0000 && sp + 3 < |s.memory| {
      var t := WithReg(s, SP, sp + 2);
      assert Pop(s) == Ok((ReadWord(s.memory, sp + 2), t));
      WithRegFrame(s, SP, sp + 2);
    }
  }

  /** Popping right after a push returns the pushed value and restores the
      register buffer exactly, `sp` included. */
  lemma PushThenPop(s: State, v: Word)
    requires WellFormed(s) && Push(s, v).Ok?
    ensures Pop(Push(s, v).value).Ok?
    ensures var (w, u) := Pop(Push(s, v).value).value;
      w == v && u.registers == s.registers && u.memory == Push(s, v).value.memory
  {
    var sp: int := Reg(s, SP);
    var s1 := s.(memory := WriteWord(s.memory, sp, v));
    assert Reg(s1, SP) == sp;
    var t := WithReg(s1, SP, sp - 2);
    assert Push(s, v) == Ok(t);
    RegOfWithReg(s1, SP, sp - 2, SP);
    var u := WithReg(t, SP, sp);
    assert Pop(t) == Ok((ReadWord(t.memory, sp), u));
    ReadOfWrite(s.memory, sp, v);
    WithRegTwice(s1, SP, sp - 2, sp);
    WriteOfRead(s.registers, Offset(SP));
  }


  /** The value a register operand yields: the operand byte at `ip` names a
      register, read after `ip` has moved past the operand. */
  function OperandValue(s: State, index: Byte, ip: nat): Word
    requires WellFormed(s) && index < COUNT && ip < 0x1_0000
  {
    if index == IP then ip else Reg(s, index)
  }

  /** Fetching a register operand succeeds exactly when the operand byte can
      be fetched and names one of the twelve registers, and yields that
      register's value (for `ip` itself, the value after the fetch). */
  lemma FetchRegValueSpec(s: State)
    requires WellFormed(s)
    ensures var ip := Reg(s, IP);
      FetchRegValue(s).Ok? <==> ip < |s.memory| && ip + 1 < 0x1_0000 && s.memory[ip] < COUNT
    ensures var ip := Reg(s, IP);
      FetchRegValue(s).Ok? ==>
        FetchRegValue(s).value == (OperandValue(s, s.memory[ip], ip + 1), WithReg(s, IP, ip + 1))
    ensures var ip := Reg(s, IP);
      ip < |s.memory| && ip + 1 < 0x1_0000 && s.memory[ip] >= COUNT ==>
        FetchRegValue(s) == Err(OutOfBounds)
  {
    var ip: int := Reg(s, IP);
    if ip < |s.memory| && ip + 1 < 0x1_0000 {
      var s1 := WithReg(s, IP, ip + 1);
      assert Fetch(s) == Ok((s.memory[ip], s1));
      if s.memory[ip] < COUNT {
        RegOfWithReg(s, IP, ip + 1, s.memory[ip]);
      }
    }
  }

  /** Of two writes to the same register, the second wins. */
  lemma WithRegTwice(s: State, i: nat, a: Word, b: Word)
    requires WellFormed(s) && i < COUNT
    ensures WithReg(WithReg(s, i, a), i, b) == WithReg(s, i, b)
  {
    WriteOfWrite(s.registers, Offset(i), a, b);
  }

  /** Register `dst` set to `v` after `ip` moved to `ip1`: what every
      instruction writing a register operand leaves behind. */
  ghost predicate AdvancedAndSet(s: State, t: State, ip1: nat, dst: nat, v: Word)
    requires WellFormed(s) && WellFormed(t) && dst < COUNT
  {
    t.memory == s.memory && Reg(t, dst) == v &&
    (dst != IP ==> Reg(t, IP) == ip1) &&
    forall j :: 0 <= j < COUNT && j != dst && j != IP ==> Reg(t, j) == Reg(s, j)
  }

  lemma AdvanceThenSet(s: State, ip1: Word, dst: nat, v: Word)
    requires WellFormed(s) && dst < COUNT
    ensures AdvancedAndSet(s, WithReg(WithReg(s, IP, ip1), dst, v), ip1, dst, v)
  {
    var s1 := WithReg(s, IP, ip1);
    WithRegFrame(s, IP, ip1);
    WithRegFrame(s1, dst, v);
  }

  /** MOV_LIT_REG: the word at `ip` goes into the register the byte at
      `ip + 2` names, and `ip` ends past the three operand bytes. */
  lemma MovLitRegSpec(s: State)
    requires WellFormed(s)
    ensures var ip := Reg(s, IP);
      MovLitReg(s).Ok? <==> ip + 2 < |s.memory| && ip + 3 < 0x1_0000 && s.memory[ip + 2] < COUNT
    ensures var ip := Reg(s, IP);
      MovLitReg(s).Ok? ==>
        AdvancedAndSet(s, MovLitReg(s).value, ip + 3, s.memory[ip + 2], ReadWord(s.memory, ip))
  {
    var ip: int := Reg(s, IP);
    if ip + 1 < |s.memory| && ip + 2 < 0x1_0000 {
      var s1 := WithReg(s, IP, ip + 2);
      assert Fetch16(s) == Ok((ReadWord(s.memory, ip), s1));
      RegOfWithReg(s, IP, ip + 2, IP);
      if ip + 2 < |s.memory| && ip + 3 < 0x1_0000 {
        var s2 := WithReg(s1, IP, ip + 3);
        assert Fetch(s1) == Ok((s.memory[ip + 2], s2));
        WithRegTwice(s, IP, ip + 2, ip + 3);
        if s.memory[ip + 2] < COUNT {
          AdvanceThenSet(s, ip + 3, s.memory[ip + 2], ReadWord(s.memory, ip));
        }
      }
    }
  }

  /** MOV_REG_REG: the register named at `ip` is copied into the register
      named at `ip + 1`, and `ip` ends past both operand bytes. */
  lemma MovRegRegSpec(s: State)
    requires WellFormed(s)
    ensures var ip := Reg(s, IP);
      MovRegReg(s).Ok? <==>
        ip + 1 < |s.memory| && ip + 2 < 0x1_0000 && s.memory[ip] < COUNT && s.memory[ip + 1] < COUNT
    ensures var ip := Reg(s, IP);
      MovRegReg(s).Ok? ==>
        AdvancedAndSet(s, MovRegReg(s).value, ip + 2, s.memory[ip + 1], OperandValue(s, s.memory[ip], ip + 1))
  {
    var ip: int := Reg(s, IP);
    FetchRegValueSpec(s);
    if ip < |s.memory| && ip + 1 < 0x1_0000 && s.memory[ip] < COUNT {
      var s1 := WithReg(s, IP, ip + 1);
      var v := OperandValue(s, s.memory[ip], ip + 1);
      assert FetchRegValue(s) == Ok((v, s1));
      RegOfWithReg(s, IP, ip + 1, IP);
      if ip + 1 < |s.memory| && ip + 2 < 0x1_0000 {
        var s2 := WithReg(s1, IP, ip + 2);
        assert Fetch(s1) == Ok((s.memory[ip + 1], s2));
        WithRegTwice(s, IP, ip + 1, ip + 2);
        if s.memory[ip + 1] < COUNT {
          AdvanceThenSet(s, ip + 2, s.memory[ip + 1], v);
        }
      }
    }
  }

  /** MOV_MEM_REG: the word at the address given at `ip` goes into the
      register named at `ip + 2`, and `ip` ends past the three operand bytes. */
  lemma MovMemRegSpec(s: State)
    requires WellFormed(s)
    ensures var ip := Reg(s, IP);
      MovMemReg(s).Ok? <==>
        ip + 2 < |s.memory| && ip + 3 < 0x1_0000 &&
        ReadWord(s.memory, ip) + 1 < |s.memory| && s.memory[ip + 2] < COUNT
    ensures var ip := Reg(s, IP);
      MovMemReg(s).Ok? ==>
        AdvancedAndSet(s, MovMemReg(s).value, ip + 3, s.memory[ip + 2],
          ReadWord(s.memory, ReadWord(s.memory, ip)))
  {
    var ip: int := Reg(s, IP);
    if ip + 2 < |s.memory| && ip + 3 < 0x1_0000 {
      var address := ReadWord(s.memory, ip);
      MovMemRegAt(s, ip, address);
    } else if ip + 1 < |s.memory| && ip + 2 < 0x1_0000 {
      var s1 := WithReg(s, IP, ip + 2);
      assert Fetch16(s) == Ok((ReadWord(s.memory, ip), s1));
      RegOfWithReg(s, IP, ip + 2, IP);
      assert Fetch(s1).Err?;
    } else {
      assert Fetch16(s).Err?;
    }
  }

  /** `MovMemRegSpec` once both operands lie in memory. */
  lemma MovMemRegAt(s: State, ip: Word, address: Word)
    requires WellFormed(s) && ip == Reg(s, IP) && ip + 2 < |s.memory| && ip + 3 < 0x1_0000
    requires address == ReadWord(s.memory, ip)
    ensures MovMemReg(s).Ok? <==> address + 1 < |s.memory| && s.memory[ip + 2] < COUNT
    ensures MovMemReg(s).Ok? ==>
      AdvancedAndSet(s, MovMemReg(s).value, ip + 3, s.memory[ip + 2], ReadWord(s.memory, address))
  {
    var s1 := WithReg(s, IP, ip + 2);
    assert Fetch16(s) == Ok((address, s1));
    if address + 1 >= |s.memory| {
      assert MovMemReg(s) == Err(OutOfBounds);
    } else {
      RegOfWithReg(s, IP, ip + 2, IP);
      var v := ReadWord(s.memory, address);
      var s2 := WithReg(s1, IP, ip + 3);
      assert Fetch(s1) == Ok((s.memory[ip + 2], s2));
      assert MovMemReg(s) == SetRegisterAt(s2, s.memory[ip + 2], v);
      WithRegTwice(s, IP, ip + 2, ip + 3);
      if s.memory[ip + 2] < COUNT {
        var t := WithReg(WithReg(s, IP, ip + 3), s.memory[ip + 2], v);
        assert MovMemReg(s) == Ok(t);
        AdvanceThenSet(s, ip + 3, s.memory[ip + 2], v);
      }
    }
  }


  /** MOV_REG_MEM: the register named at `ip` is stored big-endian at the
      address given at `ip + 1`; no other memory byte and no register but
      `ip` changes, and `ip` ends past the three operand bytes. */
  lemma MovRegMemSpec(s: State)
    requires WellFormed(s)
    ensures var ip := Reg(s, IP);
      MovRegMem(s).Ok? <==>
        ip + 2 < |s.memory| && ip + 3 < 0x1_0000 && s.memory[ip] < COUNT &&
        ReadWord(s.memory, ip + 1) + 1 < |s.memory|
    ensures var ip := Reg(s, IP);
      MovRegMem(s).Ok? ==>
        var t := MovRegMem(s).value;
        var address := ReadWord(s.memory, ip + 1);
        |t.memory| == |s.memory| &&
        ReadWord(t.memory, address) == OperandValue(s, s.memory[ip], ip + 1) &&
        (forall a :: 0 <= a < |s.memory| && a != address && a != address + 1 ==> t.memory[a] == s.memory[a]) &&
        Reg(t, IP) == ip + 3 &&
        (forall j :: 0 <= j < COUNT && j != IP ==> Reg(t, j) == Reg(s, j))
  {
    var ip: int := Reg(s, IP);
    FetchRegValueSpec(s);
    if ip < |s.memory| && ip + 1 < 0x1_0000 && s.memory[ip] < COUNT {
      var s1 := WithReg(s, IP, ip + 1);
      var v := OperandValue(s, s.memory[ip], ip + 1);
      assert FetchRegValue(s) == Ok((v, s1));
      RegOfWithReg(s, IP, ip + 1, IP);
      if ip + 2 < |s.memory| && ip + 3 < 0x1_0000 {
        var address := ReadWord(s.memory, ip + 1);
        var s2 := WithReg(s1, IP, ip + 3);
        assert Fetch16(s1) == Ok((address, s2));
        WithRegTwice(s, IP, ip + 1, ip + 3);
        WithRegFrame(s, IP, ip + 3);
        if address + 1 < |s.memory| {
          var t := s2.(memory := WriteWord(s.memory, address, v));
          assert MovRegMem(s) == Ok(t);
          ReadOfWrite(s.memory, address, v);
          forall j | 0 <= j < COUNT
            ensures Reg(t, j) == Reg(s2, j)
          {
          }
        }
      }
    }
  }

  /** ADD_REG_REG: `acc` receives the sum of the registers named at `ip` and
      `ip + 1`, or the instruction fails with `Overflow` when the sum does
      not fit in 16 bits; `ip` ends past both operand bytes. */
  lemma AddRegRegSpec(s: State)
    requires WellFormed(s)
    requires var ip := Reg(s, IP);
      ip + 1 < |s.memory| && ip + 2 < 0x1_0000 && s.memory[ip] < COUNT && s.memory[ip + 1] < COUNT
    ensures var ip := Reg(s, IP);
      var sum := OperandValue(s, s.memory[ip], ip + 1) as int + OperandValue(s, s.memory[ip + 1], ip + 2) as int;
      (sum < 0x1_0000 ==>
        AddRegReg(s).Ok? && AdvancedAndSet(s, AddRegReg(s).value, ip + 2, ACC, sum)) &&
      (sum >= 0x1_0000 ==> AddRegReg(s) == Err(Overflow))
  {
    var ip: int := Reg(s, IP);
    FetchRegValueSpec(s);
    var s1 := WithReg(s, IP, ip + 1);
    var v1 := OperandValue(s, s.memory[ip], ip + 1);
    assert FetchRegValue(s) == Ok((v1, s1));
    RegOfWithReg(s, IP, ip + 1, IP);
    FetchRegValueSpec(s1);
    var s2 := WithReg(s1, IP, ip + 2);
    var v2 := OperandValue(s, s.memory[ip + 1], ip + 2);
    RegOfWithReg(s, IP, ip + 1, s.memory[ip + 1]);
    assert FetchRegValue(s1) == Ok((v2, s2));
    WithRegTwice(s, IP, ip + 1, ip + 2);
    if v1 as int + v2 as int < 0x1_0000 {
      AdvanceThenSet(s, ip + 2, ACC, v1 + v2);
    }
  }

  /** JNE_LIT_ADR: `ip` jumps to the address at `ip + 2` when the literal at
      `ip` differs from `acc`, and otherwise ends past the four operand
      bytes; nothing else changes. */
  lemma JneLitAdrSpec(s: State)
    requires WellFormed(s)
    ensures var ip := Reg(s, IP);
      JneLitAdr(s).Ok? <==> ip + 3 < |s.memory| && ip + 4 < 0x1_0000
    ensures var ip := Reg(s, IP);
      JneLitAdr(s).Ok? ==>
        var t := JneLitAdr(s).value;
        OnlyRegChanged(s, t, IP) &&
        Reg(t, IP) == if ReadWord(s.memory, ip) != Reg(s, ACC) then ReadWord(s.memory, ip + 2) else ip + 4
  {
    var ip: int := Reg(s, IP);
    if ip + 1 < |s.memory| && ip + 2 < 0x1_0000 {
      var s1 := WithReg(s, IP, ip + 2);
      assert Fetch16(s) == Ok((ReadWord(s.memory, ip), s1));
      RegOfWithReg(s, IP, ip + 2, IP);
      if ip + 3 < |s.memory| && ip + 4 < 0x1_0000 {
        var s2 := WithReg(s1, IP, ip + 4);
        assert Fetch16(s1) == Ok((ReadWord(s.memory, ip + 2), s2));
        WithRegTwice(s, IP, ip + 2, ip + 4);
        RegOfWithReg(s, IP, ip + 4, ACC);
        WithRegFrame(s, IP, ip + 4);
        var address := ReadWord(s.memory, ip + 2);
        WithRegTwice(s, IP, ip + 4, address);
        WithRegFrame(s, IP, address);
      } else {
        assert Fetch16(s1).Err?;
      }
    } else {
      assert Fetch16(s).Err?;
    }
  }

  /** `MovRegMemSpec` for a source register `src` and an address already
      known: the source's value (for `ip`, the value after the operand
      fetch) lands at `address` and every other byte of memory stays. */
  lemma MovRegMemAt(s: State, ip: Word, src: Byte, address: Word)
    requires WellFormed(s) && ip == Reg(s, IP) && ip + 2 < |s.memory| && ip + 3 < 0x1_0000
    requires src == s.memory[ip] && src < COUNT
    requires address == ReadWord(s.memory, ip + 1) && address + 1 < |s.memory|
    ensures MovRegMem(s).Ok?
    ensures var t := MovRegMem(s).value;
      t.memory == WriteWord(s.memory, address, OperandValue(s, src, ip + 1)) &&
      Reg(t, IP) == ip + 3 &&
      forall j :: 0 <= j < COUNT && j != IP ==> Reg(t, j) == Reg(s, j)
  {
    MovRegMemSpec(s);
    var t := MovRegMem(s).value;
    var v := OperandValue(s, src, ip + 1);
    var m := WriteWord(s.memory, address, v);
    ReadOfWrite(s.memory, address, v);
    SplitJoin(t.memory[address], t.memory[address + 1]);
    SplitJoin(m[address], m[address + 1]);
    assert t.memory == m;
  }

  /** `JneLitAdrSpec` for operands `literal` and `address` already known. */
  lemma JneLitAdrAt(s: State, ip: Word, literal: Word, address: Word)
    requires WellFormed(s) && ip == Reg(s, IP) && ip + 3 < |s.memory| && ip + 4 < 0x1_0000
    requires literal == ReadWord(s.memory, ip) && address == ReadWord(s.memory, ip + 2)
    ensures JneLitAdr(s).Ok?
    ensures OnlyRegChanged(s, JneLitAdr(s).value, IP)
    ensures Reg(JneLitAdr(s).value, IP) == if literal != Reg(s, ACC) then address else ip + 4
  {
    JneLitAdrSpec(s);
  }

  /** What pushing `v` leaves behind, with `ip` moved to `ip1`: `v` stored
      big-endian at the old `sp`, `sp` one slot lower, and no other memory
      byte and no other register changed. */
  ghost predicate PushedAndAdvanced(s: State, t: State, ip1: nat, v: Word)
    requires WellFormed(s) && WellFormed(t) && Reg(s, SP) + 1 < |s.memory|
  {
    var sp := Reg(s, SP);
    |t.memory| == |s.memory| && ReadWord(t.memory, sp) == v &&
    (forall a :: 0 <= a < |s.memory| && a != sp && a != sp + 1 ==> t.memory[a] == s.memory[a]) &&
    Reg(t, SP) == sp - 2 && Reg(t, IP) == ip1 &&
    (forall j :: 0 <= j < COUNT && j != SP && j != IP ==> Reg(t, j) == Reg(s, j))
  }

  /** Pushing onto a state whose only difference is `ip`. */
  lemma PushAfterAdvance(s: State, ip1: Word, v: Word)
    requires WellFormed(s)
    ensures var sp := Reg(s, SP);
      Push(WithReg(s, IP, ip1), v).Ok? <==> 2 <= sp && sp + 1 < |s.memory| && sp + 1 < 0x1_0000
    ensures var sp := Reg(s, SP);
      Push(WithReg(s, IP, ip1), v).Ok? ==>
        PushedAndAdvanced(s, Push(WithReg(s, IP, ip1), v).value, ip1, v)
  {
    var s1 := WithReg(s, IP, ip1);
    WithRegFrame(s, IP, ip1);
    PushSpec(s1, v);
  }

  /** PSH_LIT: the literal at `ip` is pushed, and `ip` ends past it. */
  lemma PshLitSpec(s: State)
    requires WellFormed(s)
    ensures var ip := Reg(s, IP); var sp := Reg(s, SP);
      PshLit(s).Ok? <==>
        ip + 1 < |s.memory| && ip + 2 < 0x1_0000 && 2 <= sp && sp + 1 < |s.memory| && sp + 1 < 0x1_0000
    ensures var ip := Reg(s, IP);
      PshLit(s).Ok? ==> PushedAndAdvanced(s, PshLit(s).value, ip + 2, ReadWord(s.memory, ip))
  {
    var ip: int := Reg(s, IP);
    if ip + 1 < |s.memory| && ip + 2 < 0x1_0000 {
      var s1 := WithReg(s, IP, ip + 2);
      assert Fetch16(s) == Ok((ReadWord(s.memory, ip), s1));
      assert PshLit(s) == Push(s1, ReadWord(s.memory, ip));
      PushAfterAdvance(s, ip + 2, ReadWord(s.memory, ip));
    } else {
      assert Fetch16(s).Err?;
    }
  }

  /** PSH_REG: the register named at `ip` is pushed, and `ip` ends past its
      operand byte. */
  lemma PshRegSpec(s: State)
    requires WellFormed(s)
    ensures var ip := Reg(s, IP); var sp := Reg(s, SP);
      PshReg(s).Ok? <==>
        ip < |s.memory| && ip + 1 < 0x1_0000 && s.memory[ip] < COUNT &&
        2 <= sp && sp + 1 < |s.memory| && sp + 1 < 0x1_0000
    ensures var ip := Reg(s, IP);
      PshReg(s).Ok? ==>
        PushedAndAdvanced(s, PshReg(s).value, ip + 1, OperandValue(s, s.memory[ip], ip + 1))
  {
    var ip: int := Reg(s, IP);
    FetchRegValueSpec(s);
    if ip < |s.memory| && ip + 1 < 0x1_0000 && s.memory[ip] < COUNT {
      var s1 := WithReg(s, IP, ip + 1);
      var v := OperandValue(s, s.memory[ip], ip + 1);
      assert FetchRegValue(s) == Ok((v, s1));
      assert PshReg(s) == Push(s1, v);
      PushAfterAdvance(s, ip + 1, v);
    }
  }

  /** POP: the word one slot above `sp` goes into the register named at
      `ip`, `sp` moves up one slot and `ip` past the operand byte (unless
      the destination is `sp` or `ip` itself, which then holds the word). */
  lemma PopRegSpec(s: State)
    requires WellFormed(s)
    ensures var ip := Reg(s, IP); var sp := Reg(s, SP);
      PopReg(s).Ok? <==>
        ip < |s.memory| && ip + 1 < 0x1_0000 && sp + 2 < 0x1_0000 && sp + 3 < |s.memory| &&
        s.memory[ip] < COUNT
    ensures var ip := Reg(s, IP); var sp := Reg(s, SP);
      PopReg(s).Ok? ==>
        var t := PopReg(s).value;
        var dst := s.memory[ip];
        t.memory == s.memory && Reg(t, dst) == ReadWord(s.memory, sp + 2) &&
        (dst != SP ==> Reg(t, SP) == sp + 2) && (dst != IP ==> Reg(t, IP) == ip + 1) &&
        (forall j :: 0 <= j < COUNT && j != dst && j != SP && j != IP ==> Reg(t, j) == Reg(s, j))
  {
    var ip: int := Reg(s, IP);
    var sp: int := Reg(s, SP);
    if ip < |s.memory| && ip + 1 < 0x1_0000 {
      var dst := s.memory[ip];
      var s1 := WithReg(s, IP, ip + 1);
      assert Fetch(s) == Ok((dst, s1));
      RegOfWithReg(s, IP, ip + 1, SP);
      WithRegFrame(s, IP, ip + 1);
      PopSpec(s1);
      if sp + 2 < 0x1_0000 && sp + 3 < |s.memory| {
        var s2 := WithReg(s1, SP, sp + 2);
        assert Pop(s1) == Ok((ReadWord(s.memory, sp + 2), s2));
        assert PopReg(s) == SetRegisterAt(s2, dst, ReadWord(s.memory, sp + 2));
        WithRegFrame(s1, SP, sp + 2);
        if dst < COUNT {
          WithRegFrame(s2, dst, ReadWord(s.memory, sp + 2));
        }
      }
    } else {
      assert Fetch(s).Err?;
    }
  }

  /** Where, counted from the first operand byte, an instruction keeps the
      register operand it writes; `None` for instructions that write no
      register named by an operand. */
  function DestinationOperand(op: Byte): (k: Option<nat>)
    ensures k.Some? ==> k.value + 1 < Length(op)
  {
    if op == MOV_LIT_REG || op == MOV_MEM_REG then Some(2)
    else if op == MOV_REG_REG then Some(1)
    else if op == POP then Some(0)
    else None
  }

  /** The instruction at `ip` names `ip` itself as the register it writes. */
  predicate WritesIp(memory: seq<Byte>, ip: nat)
    requires ip < |memory|
  {
    var k := DestinationOperand(memory[ip]);
    k.Some? && ip + 1 + k.value < |memory| && memory[ip + 1 + k.value] == IP
  }

  /** `step` over a byte that is no opcode only moves `ip` past it. */
  lemma StepUnknownOpcode(s: State)
    requires WellFormed(s)
    requires Reg(s, IP) < |s.memory| && Reg(s, IP) + 1 < 0x1_0000 && !IsOpcode(s.memory[Reg(s, IP)])
    ensures Step(s) == Ok(WithReg(s, IP, Reg(s, IP) + 1))
  {
    var ip: int := Reg(s, IP);
    assert Fetch(s) == Ok((s.memory[ip], WithReg(s, IP, ip + 1)));
  }

  /** `execute` of a non-jump that does not write `ip` through a register
      operand leaves `ip` past the operands, which start at `ip`. */
  lemma ExecuteAdvancesIp(s: State, op: Byte)
    requires WellFormed(s)
    ensures var ip := Reg(s, IP); var k := DestinationOperand(op);
      Execute(s, op).Ok? && op != JNE_LIT_ADR &&
      !(k.Some? && ip + k.value < |s.memory| && s.memory[ip + k.value] == IP) ==>
        Reg(Execute(s, op).value, IP) == ip + Length(op) - 1
  {
    if op == MOV_LIT_REG || op == MOV_REG_REG || op == MOV_REG_MEM || op == MOV_MEM_REG {
      MovAdvancesIp(s, op);
    } else if op == ADD_REG_REG {
      assert Execute(s, op) == AddRegReg(s);
      AddRegRegOk(s);
    } else if op == PSH_LIT {
      assert Execute(s, op) == PshLit(s);
      PshLitSpec(s);
    } else if op == PSH_REG {
      assert Execute(s, op) == PshReg(s);
      PshRegSpec(s);
    } else if op == POP {
      assert Execute(s, op) == PopReg(s);
      PopRegSpec(s);
    }
  }

  /** `ExecuteAdvancesIp` for the four MOV instructions. */
  lemma MovAdvancesIp(s: State, op: Byte)
    requires WellFormed(s)
    requires op == MOV_LIT_REG || op == MOV_REG_REG || op == MOV_REG_MEM || op == MOV_MEM_REG
    ensures var ip := Reg(s, IP); var k := DestinationOperand(op);
      Execute(s, op).Ok? &&
      !(k.Some? && ip + k.value < |s.memory| && s.memory[ip + k.value] == IP) ==>
        Reg(Execute(s, op).value, IP) == ip + Length(op) - 1
  {
    if op == MOV_LIT_REG {
      assert Execute(s, op) == MovLitReg(s);
      MovLitRegSpec(s);
    } else if op == MOV_REG_REG {
      assert Execute(s, op) == MovRegReg(s);
      MovRegRegSpec(s);
    } else if op == MOV_REG_MEM {
      assert Execute(s, op) == MovRegMem(s);
      MovRegMemSpec(s);
    } else {
      assert Execute(s, op) == MovMemReg(s);
      MovMemRegSpec(s);
    }
  }


  /** `AddRegRegSpec` without its precondition: when ADD_REG_REG succeeds,
      both operand bytes were in memory and named registers, and `ip` ends
      past them. */
  lemma AddRegRegOk(s: State)
    requires WellFormed(s)
    ensures var ip := Reg(s, IP);
      AddRegReg(s).Ok? ==>
        ip + 1 < |s.memory| && ip + 2 < 0x1_0000 && s.memory[ip] < COUNT && s.memory[ip + 1] < COUNT
    ensures var ip := Reg(s, IP);
      AddRegReg(s).Ok? ==> Reg(AddRegReg(s).value, IP) == ip + 2
  {
    var ip: int := Reg(s, IP);
    FetchRegValueSpec(s);
    if ip < |s.memory| && ip + 1 < 0x1_0000 && s.memory[ip] < COUNT {
      var s1 := WithReg(s, IP, ip + 1);
      assert FetchRegValue(s).value.1 == s1;
      RegOfWithReg(s, IP, ip + 1, IP);
      FetchRegValueSpec(s1);
      if ip + 1 < |s.memory| && ip + 2 < 0x1_0000 && s.memory[ip + 1] < COUNT {
        AddRegRegSpec(s);
      }
    }
  }

  /** A `step` that succeeds, does not jump and does not write `ip` through a
      register operand leaves `ip` just past the instruction. */
  lemma StepAdvancesIp(s: State)
    requires WellFormed(s)
    ensures var ip := Reg(s, IP);
      ip < |s.memory| && Step(s).Ok? && s.memory[ip] != JNE_LIT_ADR && !WritesIp(s.memory, ip) ==>
        Reg(Step(s).value, IP) == ip + Length(s.memory[ip])
  {
    var ip: int := Reg(s, IP);
    if ip < |s.memory| && ip + 1 < 0x1_0000 {
      var op := s.memory[ip];
      var s1 := WithReg(s, IP, ip + 1);
      assert Fetch(s) == Ok((op, s1));
      assert Step(s) == Execute(s1, op);
      RegOfWithReg(s, IP, ip + 1, IP);
      ExecuteAdvancesIp(s1, op);
    }
  }

  /** A register stored by MOV_REG_MEM is read back by a MOV_MEM_REG from the
      same address. */
  lemma StoreThenLoad(s: State)
    requires WellFormed(s) && MovRegMem(s).Ok?
    requires var t := MovRegMem(s).value;
      MovMemReg(t).Ok? && Reg(t, IP) + 2 < |t.memory| &&
      ReadWord(t.memory, Reg(t, IP)) == ReadWord(s.memory, Reg(s, IP) + 1)
    ensures var ip := Reg(s, IP); var t := MovRegMem(s).value;
      Reg(MovMemReg(t).value, t.memory[Reg(t, IP) + 2]) == OperandValue(s, s.memory[ip], ip + 1)
  {
    MovRegMemSpec(s);
    MovMemRegSpec(MovRegMem(s).value);
  }

  /** A register pushed by PSH_REG and popped by the POP after it lands in
      the register POP names, and `sp` is back where it was. */
  lemma PushRegThenPop(s: State)
    requires WellFormed(s) && PshReg(s).Ok? && PopReg(PshReg(s).value).Ok?
    ensures var ip := Reg(s, IP); var t := PshReg(s).value; var u := PopReg(t).value;
      var dst := t.memory[Reg(t, IP)];
      Reg(u, dst) == OperandValue(s, s.memory[ip], ip + 1) &&
      (dst != SP ==> Reg(u, SP) == Reg(s, SP))
  {
    PshRegSpec(s);
    var t := PshReg(s).value;
    PopRegSpec(t);
  }

  /** `insert` fails with `Overflow` when the program length, taken modulo
      0x10000, is below 2; otherwise memory becomes the program and `sp`
      and `fp` both become that length minus 2 (the program's last word
      when it is shorter than 0x10000 bytes), with the other registers kept. */
  lemma InsertSpec(s: State, program: seq<Byte>)
    requires WellFormed(s)
    ensures Insert(s, program).Ok? <==> |program| % 0x1_0000 >= 2
    ensures !Insert(s, program).Ok? ==> Insert(s, program) == Err(Overflow)
    ensures Insert(s, program).Ok? ==>
      var t := Insert(s, program).value;
      t.memory == program &&
      Reg(t, SP) == |program| % 0x1_0000 - 2 && Reg(t, FP) == |program| % 0x1_0000 - 2 &&
      (forall j :: 0 <= j < COUNT && j != SP && j != FP ==> Reg(t, j) == Reg(s, j))
  {
    var length := |program| % 0x1_0000;
    if length >= 2 {
      var s1 := s.(memory := program);
      var s2 := WithReg(s1, SP, length - 2);
      WithRegFrame(s1, SP, length - 2);
      WithRegFrame(s2, FP, length - 2);
      forall j | 0 <= j < COUNT
        ensures Reg(s1, j) == Reg(s, j)
      {
      }
    }
  }

  /** `next_equals` answers whether the byte the next `fetch` returns is
      `value`, and fails exactly where that fetch would fail for lack of
      memory. */
  lemma NextEqualsPeeks(s: State, value: Byte)
    requires WellFormed(s)
    ensures NextEquals(s, value).Ok? <==> Reg(s, IP) < |s.memory|
    ensures Fetch(s).Ok? ==> NextEquals(s, value) == Ok(Fetch(s).value.0 == value)
    ensures Reg(s, IP) >= |s.memory| ==> NextEquals(s, value) == Err(OutOfBounds) && Fetch(s) == Err(OutOfBounds)
  {
  }
}

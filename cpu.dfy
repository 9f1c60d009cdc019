/** The `Cpu` of `src/cpu.rs` as a class over two byte arrays. Every method
    does what the Rust method does, in the same order, and is proved to
    produce the state (or the error) the matching `Machine` function gives. */
module Cpu {
  import opened Bytes
  import opened Outcomes
  import opened Registers
  import opened Opcodes
  import Machine

  /** `spec` is the outcome the model prescribes; `r` and `now` are what a
      method returned and left. After an error the Rust code has panicked,
      so the state it leaves is not constrained. */
  ghost predicate Follows(spec: Result<Machine.State>, r: Result<()>, now: Machine.State)
  {
    if spec.Ok? then r.Ok? && now == spec.value else r.Err? && r.error == spec.error
  }

  class Cpu {
    var memory: array<Byte>
    const registers: array<Byte>
    const registerMap: map<string, nat>

    ghost predicate Valid()
      reads this
    {
      registers.Length == BUFFER_SIZE && memory != registers && IsRegisterMap(registerMap)
    }

    /** The machine state the two buffers hold. */
    ghost function Model(): (s: Machine.State)
      reads this, memory, registers
      requires Valid()
      ensures Machine.WellFormed(s)
    {
      Machine.State(memory[..], registers[..])
    }

    /** `Cpu::new`: zeroed memory of `size` bytes, a zeroed register buffer, and
        the name-to-offset map. */
    constructor (size: Word)
      ensures Valid() && fresh(memory) && fresh(registers)
      ensures Model() == Machine.New(size)
    {
      memory := new Byte[size](_ => 0);
      registers := new Byte[BUFFER_SIZE](_ => 0);
      var map_ := BuildRegisterMap();
      registerMap := map_;
      new;
      assert memory[..] == Zeros(size);
      assert registers[..] == Zeros(BUFFER_SIZE);
    }

    /** `get_register`: looks the name up in `registerMap` and joins the two bytes there. */
    function GetRegister(name: string): (r: Result<Word>)
      reads this, memory, registers
      requires Valid()
      ensures r == Machine.GetRegister(Model(), name)
    {
      if name !in NAMES then Err(UnknownRegister)
      else
        assert registerMap[name] == Offset(IndexOf(name).value);
        var idx := if name in registerMap then registerMap[name] else 0;
        Ok(Join(registers[idx], registers[idx + 1]))
    }

    /** `get_register_value`: joins the two bytes at offset `2 * index`. */
    function GetRegisterValue(index: Byte): (r: Result<Word>)
      reads this, memory, registers
      requires Valid()
      ensures r == Machine.GetRegisterValue(Model(), index)
    {
      if 2 * index + 1 >= registers.Length then Err(OutOfBounds)
      else Ok(ReadWord(registers[..], 2 * index))
    }

    /** `next_equals`: compares the byte at `ip` without moving `ip`. */
    function NextEquals(value: Byte): (r: Result<bool>)
      reads this, memory, registers
      requires Valid()
      ensures r == Machine.NextEquals(Model(), value)
    {
      var index := GetRegister("ip").value;
      if index < memory.Length then Ok(memory[index] == value) else Err(OutOfBounds)
    }

    /** `set_register`: splits `value` into the two bytes at the name's offset. */
    method SetRegister(name: string, value: Word) returns (r: Result<()>)
      requires Valid()
      modifies registers
      ensures Valid()
      ensures Machine.SetRegister(old(Model()), name, value) == if r.Ok? then Ok(Model()) else Err(r.error)
      ensures r.Err? ==> Model() == old(Model())
    {
      if name !in NAMES {
        return Err(UnknownRegister);
      }
      ghost var i := IndexOf(name).value;
      var idx := if name in registerMap then registerMap[name] else 0;
      assert idx == Offset(i);
      registers[idx] := Hi(value);
      registers[idx + 1] := Lo(value);
      assert registers[..] == WriteWord(old(registers[..]), Offset(i), value);
      r := Ok(());
    }

    /** `set_register` on `register_names[index]`, with the index check that
        indexing `register_names` performs. */
    method SetRegisterAt(index: Byte, value: Word) returns (r: Result<()>)
      requires Valid()
      modifies registers
      ensures Valid()
      ensures Machine.SetRegisterAt(old(Model()), index, value) == if r.Ok? then Ok(Model()) else Err(r.error)
    {
      if index >= |NAMES| {
        return Err(OutOfBounds);
      }
      IndexOfName(index);
      r := SetRegister(NAMES[index], value);
    }

    /** `fetch`: the byte at `ip`; `ip` moves on by one. */
    method Fetch() returns (r: Result<Byte>)
      requires Valid()
      modifies registers
      ensures Valid()
      ensures Machine.Fetch(old(Model())) == if r.Ok? then Ok((r.value, Model())) else Err(r.error)
      ensures r.Err? ==> Model() == old(Model())
    {
      var nextAddr := GetRegister("ip").value;
      if nextAddr >= memory.Length {
        return Err(OutOfBounds);
      }
      var instruction := memory[nextAddr];
      if nextAddr + 1 >= 0x1_0000 {
        return Err(Overflow);
      }
      var _ := SetRegister("ip", nextAddr + 1);
      r := Ok(instruction);
    }

    /** `fetch_16`: the big-endian word at `ip`; `ip` moves on by two. */
    method Fetch16() returns (r: Result<Word>)
      requires Valid()
      modifies registers
      ensures Valid()
      ensures Machine.Fetch16(old(Model())) == if r.Ok? then Ok((r.value, Model())) else Err(r.error)
      ensures r.Err? ==> Model() == old(Model())
    {
      var nextAddr := GetRegister("ip").value;
      if nextAddr >= memory.Length || nextAddr + 1 >= memory.Length {
        return Err(OutOfBounds);
      }
      var instruction := Join(memory[nextAddr], memory[nextAddr + 1]);
      if nextAddr + 2 >= 0x1_0000 {
        return Err(Overflow);
      }
      var _ := SetRegister("ip", nextAddr + 2);
      r := Ok(instruction);
    }

    /** Fetch a register index and read that register. */
    method FetchRegValue() returns (r: Result<Word>)
      requires Valid()
      modifies registers
      ensures Valid()
      ensures Machine.FetchRegValue(old(Model())) == if r.Ok? then Ok((r.value, Model())) else Err(r.error)
    {
      var index :- Fetch();
      r := GetRegisterValue(index);
    }

    /** `push`: the high byte at `sp`, the low byte at `sp + 1`, then `sp -= 2`. */
    method Push(value: Word) returns (r: Result<()>)
      requires Valid()
      modifies memory, registers
      ensures Valid() && memory == old(memory)
      ensures Follows(Machine.Push(old(Model()), value), r, Model())
    {
      var spAddr := GetRegister("sp").value;
      if spAddr >= memory.Length {
        return Err(OutOfBounds);
      }
      memory[spAddr] := Hi(value);
      if spAddr + 1 >= 0x1_0000 {
        return Err(Overflow);
      }
      if spAddr + 1 >= memory.Length {
        return Err(OutOfBounds);
      }
      memory[spAddr + 1] := Lo(value);
      if spAddr < 2 {
        return Err(Overflow);
      }
      assert memory[..] == WriteWord(old(memory[..]), spAddr, value);
      var _ := SetRegister("sp", spAddr - 2);
      r := Ok(());
    }

    method MovLitReg() returns (r: Result<()>)
      requires Valid()
      modifies memory, registers
      ensures Valid() && memory == old(memory)
      ensures Follows(Machine.MovLitReg(old(Model())), r, Model())
    {
      var literal :- Fetch16();
      var index :- Fetch();
      r := SetRegisterAt(index, literal);
    }

    method MovRegReg() returns (r: Result<()>)
      requires Valid()
      modifies memory, registers
      ensures Valid() && memory == old(memory)
      ensures Follows(Machine.MovRegReg(old(Model())), r, Model())
    {
      var value :- FetchRegValue();
      var dst :- Fetch();
      r := SetRegisterAt(dst, value);
    }

    method MovRegMem() returns (r: Result<()>)
      requires Valid()
      modifies memory, registers
      ensures Valid() && memory == old(memory)
      ensures Follows(Machine.MovRegMem(old(Model())), r, Model())
    {
      var value :- FetchRegValue();
      var address :- Fetch16();
      if address >= memory.Length {
        return Err(OutOfBounds);
      }
      memory[address] := Hi(value);
      if address + 1 >= memory.Length {
        return Err(OutOfBounds);
      }
      memory[address + 1] := Lo(value);
      r := Ok(());
    }

    method MovMemReg() returns (r: Result<()>)
      requires Valid()
      modifies memory, registers
      ensures Valid() && memory == old(memory)
      ensures Follows(Machine.MovMemReg(old(Model())), r, Model())
    {
      var address :- Fetch16();
      ghost var s1 := Model();
      if address >= memory.Length || address + 1 >= memory.Length {
        return Err(OutOfBounds);
      }
      var value := Join(memory[address], memory[address + 1]);
      assert value == ReadWord(s1.memory, address);
      var dst :- Fetch();
      r := SetRegisterAt(dst, value);
    }

    method AddRegReg() returns (r: Result<()>)
      requires Valid()
      modifies memory, registers
      ensures Valid() && memory == old(memory)
      ensures Follows(Machine.AddRegReg(old(Model())), r, Model())
    {
      var v1 :- FetchRegValue();
      var v2 :- FetchRegValue();
      if v1 as int + v2 as int >= 0x1_0000 {
        return Err(Overflow);
      }
      ghost var s2 := Model();
      r := SetRegister("acc", v1 + v2);
      assert Model() == Machine.WithReg(s2, ACC, v1 + v2);
    }

    method JneLitAdr() returns (r: Result<()>)
      requires Valid()
      modifies memory, registers
      ensures Valid() && memory == old(memory)
      ensures Follows(Machine.JneLitAdr(old(Model())), r, Model())
    {
      var value :- Fetch16();
      var address :- Fetch16();
      var acc := GetRegister("acc").value;
      if value != acc {
        r := SetRegister("ip", address);
      } else {
        r := Ok(());
      }
    }

    method PshLit() returns (r: Result<()>)
      requires Valid()
      modifies memory, registers
      ensures Valid() && memory == old(memory)
      ensures Follows(Machine.PshLit(old(Model())), r, Model())
    {
      var value :- Fetch16();
      r := Push(value);
    }

    method PshReg() returns (r: Result<()>)
      requires Valid()
      modifies memory, registers
      ensures Valid() && memory == old(memory)
      ensures Follows(Machine.PshReg(old(Model())), r, Model())
    {
      var value :- FetchRegValue();
      r := Push(value);
    }

    method PopReg() returns (r: Result<()>)
      requires Valid()
      modifies memory, registers
      ensures Valid() && memory == old(memory)
      ensures Follows(Machine.PopReg(old(Model())), r, Model())
    {
      ghost var s0 := Model();
      var dst :- Fetch();
      ghost var s1 := Model();
      var spAddr := GetRegister("sp").value;
      Machine.PopRegOperands(s0, dst, s1, spAddr);
      if spAddr as int + 2 >= 0x1_0000 {
        return Err(Overflow);
      }
      var nextSpAddr := spAddr + 2;
      var _ := SetRegister("sp", nextSpAddr);
      ghost var s2 := Model();
      assert s2 == Machine.WithReg(s1, SP, nextSpAddr);
      if nextSpAddr >= memory.Length || nextSpAddr + 1 >= memory.Length {
        return Err(OutOfBounds);
      }
      var value := Join(memory[nextSpAddr], memory[nextSpAddr + 1]);
      assert value == Join(s1.memory[spAddr + 2], s1.memory[spAddr + 2 + 1]);
      r := SetRegisterAt(dst, value);
    }

    /** `execute`: dispatch on the opcode; an unknown opcode does nothing. */
    method Execute(op: Byte) returns (r: Result<()>)
      requires Valid()
      modifies memory, registers
      ensures Valid() && memory == old(memory)
      ensures Follows(Machine.Execute(old(Model()), op), r, Model())
    {
      if op == MOV_LIT_REG {
        r := MovLitReg();
      } else if op == MOV_REG_REG {
        r := MovRegReg();
      } else if op == MOV_REG_MEM {
        r := MovRegMem();
      } else if op == MOV_MEM_REG {
        r := MovMemReg();
      } else if op == ADD_REG_REG {
        r := AddRegReg();
      } else if op == JNE_LIT_ADR {
        r := JneLitAdr();
      } else if op == PSH_LIT {
        r := PshLit();
      } else if op == PSH_REG {
        r := PshReg();
      } else if op == POP {
        r := PopReg();
      } else {
        r := Ok(());
      }
    }

    /** `step`: fetch an opcode and execute it. */
    method Step() returns (r: Result<()>)
      requires Valid()
      modifies memory, registers
      ensures Valid() && memory == old(memory)
      ensures Follows(Machine.Step(old(Model())), r, Model())
    {
      var op :- Fetch();
      r := Execute(op);
    }

    /** `insert`: take `program` as the new memory and set `sp` and `fp` to
        its length (cast to 16 bits) minus 2. */
    method Insert(program: seq<Byte>) returns (r: Result<()>)
      requires Valid()
      modifies this, registers
      ensures Valid() && fresh(memory)
      ensures Follows(Machine.Insert(old(Model()), program), r, Model())
    {
      var length := |program| % 0x1_0000;
      memory := new Byte[|program|](i requires 0 <= i < |program| => program[i]);
      assert memory[..] == program;
      if length < 2 {
        return Err(Overflow);
      }
      ghost var s1 := old(Model()).(memory := program);
      assert Model() == s1;
      var _ := SetRegister("sp", length - 2);
      ghost var s2 := Model();
      assert s2 == Machine.WithReg(s1, SP, length - 2);
      var _ := SetRegister("fp", length - 2);
      assert Model() == Machine.WithReg(s2, FP, length - 2);
      r := Ok(());
    }
  }
}

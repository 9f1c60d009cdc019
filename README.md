# vm-16bit CPU in Dafny

A model of the virtual 16-bit CPU of `src/cpu.rs`, with proofs about it.

The CPU keeps two byte buffers:
- a main memory;
- a 24-byte register file. It holds twelve 16-bit registers (`ip`, `acc`, `r0`..`r7`, `sp`, `fp`), register `i` big-endian at byte offset `2i`.

`fetch` and `fetch_16` read at `ip` and advance it. `push` stores a word at `sp` and lowers `sp` by two. `execute` runs one of nine instructions (MOV_LIT_REG, MOV_REG_REG, MOV_REG_MEM, MOV_MEM_REG, ADD_REG_REG, JNE_LIT_ADR, PSH_LIT, PSH_REG, POP) and ignores any other opcode. `step` fetches an opcode and executes it. `insert` swaps in a new memory and sets `sp` and `fp` to its length, cast to 16 bits (so taken modulo 0x10000), minus 2. For a memory shorter than 0x10000 bytes, that is the address of its last word.

Wherever the Rust code would panic, the model returns an `Err`, in the order the Rust code meets the failures:
- `OutOfBounds` for an index past the end of a buffer;
- `Overflow` for `u16` arithmetic that leaves `0..0xFFFF`;
- `UnknownRegister` for a register name that is not one of the twelve.

The project has these modules:
- `Bytes`: bytes, words and the big-endian word layout, with its round-trip lemmas.
- `Registers`: the twelve register names and their offsets, and the loop of `Cpu::new` that builds the name-to-offset map.
- `Opcodes`: the opcodes and each instruction's length in bytes.
- `Outcomes`: the error and result types.
- `Machine`: the CPU as pure functions of its two buffers. This is the reference definition.
- `Cpu`: the class `Cpu` with array fields. Its methods update the buffers in place, step by step as the Rust methods do, and each is proved to reach the state (or the error) the matching `Machine` function prescribes.
- `MachineLaws`: what each operation and instruction does, in terms of bytes and registers. It covers:
  - when each operation succeeds;
  - exact `ip` advance;
  - frame conditions;
  - register and memory round-trips;
  - branch semantics.
- `StackLaws`: the stack discipline of `push` and `POP` for whole runs of pushes and pops.
- `Scenario`: the counting program that `src/main.rs` assembles, followed through the loop of `main` to the halt byte.

## Model

| member | source | states |
|---|---|---|
| Bytes.JoinSplit | src/cpu.rs:120-124 | splitting a word into its high and low byte and joining them back gives the word |
| Bytes.SplitJoin | src/cpu.rs:96-98 | the high and low byte of a joined word are the two bytes it was joined from |
| Bytes.ReadOfWrite | src/cpu.rs:212-220 | a word written big-endian at an address reads back unchanged from that address |
| Bytes.ReadOfOtherWrite | src/cpu.rs:212-213 | writing a word leaves every non-overlapping word unchanged |
| Bytes.WriteOfRead | src/cpu.rs:212-213 | writing back the word already at an address leaves the buffer unchanged |
| Bytes.WriteOfWrite | src/cpu.rs:212-213 | of two writes to the same address, the second wins |
| Bytes.Zeros | src/cpu.rs:52 | a freshly created buffer has the requested length and holds only zero bytes |
| Registers.NamesDistinct | src/cpu.rs:53-61 | there are twelve register names and no two are equal |
| Registers.IndexOf | src/cpu.rs:87-94 | a name has a position exactly when it is one of the twelve names, and the name at that position is the name looked up |
| Registers.IndexOfName | src/cpu.rs:64-76 | looking up the i-th name finds position i |
| Registers.BuildRegisterMap | src/cpu.rs:70-76 | the loop maps each of the twelve names to byte offset `2i` and maps no other name |
| Opcodes.Length | src/cpu.rs:178-294 | every instruction is one to five bytes long; exactly the unknown opcodes are one byte long |
| Machine.RegOfWithReg | src/cpu.rs:110-127 | after register `i` is set to `v`, register `i` reads `v` and every other register reads as before |
| Machine.WithRegFrame | src/cpu.rs:110-127 | setting register `i` changes neither memory nor any register but `i` |
| Machine.New | src/cpu.rs:51-84 | a new CPU has a well-formed register buffer and a memory of the requested size |
| Machine.Execute | src/cpu.rs:178-296 | an opcode outside the nine leaves the state untouched |
| Machine.GetRegister | src/cpu.rs:86-101 | the only error is `UnknownRegister`; MachineLaws.RegisterNames states when it succeeds, and MachineLaws.GetOfSetRegister and SetRegisterFrame state the value |
| Machine.SetRegister | src/cpu.rs:110-127 | the contract only keeps the register buffer well formed; MachineLaws.RegisterNames, GetOfSetRegister, SetRegisterFrame and SetRegisterBytes state the behaviour |
| Machine.GetRegisterValue | src/cpu.rs:170-176 | succeeds exactly on the twelve positions; MachineLaws.GetRegisterValueByName states the value and the error |
| Machine.SetRegisterAt | src/cpu.rs:185-190 | the contract only keeps the register buffer well formed; Machine.RegOfWithReg and WithRegFrame state the write, and an index past the twelfth is `OutOfBounds` |
| Machine.Fetch | src/cpu.rs:129-141 | the contract only keeps the register buffer well formed; MachineLaws.FetchSpec states the behaviour |
| Machine.Fetch16 | src/cpu.rs:143-157 | the contract only keeps the register buffer well formed; MachineLaws.Fetch16Spec and Fetch16IsTwoFetches state the behaviour |
| Machine.Push | src/cpu.rs:159-168 | the contract only keeps the register buffer well formed; MachineLaws.PushSpec and StackLaws.PushKeeps state the behaviour |
| Machine.Pop | src/cpu.rs:273-284 | the contract only keeps the register buffer well formed; MachineLaws.PopSpec and StackLaws.PopGives state the behaviour |
| Machine.FetchRegValue | src/cpu.rs:194-195 | the contract only keeps the register buffer well formed; MachineLaws.FetchRegValueSpec states the behaviour |
| Machine.MovLitReg | src/cpu.rs:181-191 | the contract only keeps the register buffer well formed; MachineLaws.MovLitRegSpec states the behaviour |
| Machine.MovRegReg | src/cpu.rs:193-204 | the contract only keeps the register buffer well formed; MachineLaws.MovRegRegSpec states the behaviour |
| Machine.MovRegMem | src/cpu.rs:206-214 | the contract only keeps the register buffer well formed; MachineLaws.MovRegMemSpec and MovRegMemAt state the behaviour |
| Machine.MovMemReg | src/cpu.rs:216-229 | the contract only keeps the register buffer well formed; MachineLaws.MovMemRegSpec and MovMemRegAt state the behaviour |
| Machine.AddRegReg | src/cpu.rs:231-241 | the contract only keeps the register buffer well formed; MachineLaws.AddRegRegSpec and AddRegRegOk state the behaviour |
| Machine.JneLitAdr | src/cpu.rs:243-258 | the contract only keeps the register buffer well formed; MachineLaws.JneLitAdrSpec and JneLitAdrAt state the behaviour |
| Machine.PshLit | src/cpu.rs:260-263 | the contract only keeps the register buffer well formed; MachineLaws.PshLitSpec states the behaviour |
| Machine.PshReg | src/cpu.rs:265-269 | the contract only keeps the register buffer well formed; MachineLaws.PshRegSpec states the behaviour |
| Machine.PopReg | src/cpu.rs:271-293 | the contract only keeps the register buffer well formed; MachineLaws.PopRegSpec states the behaviour |
| Machine.Step | src/cpu.rs:298-301 | the contract only keeps the register buffer well formed; MachineLaws.StepUnknownOpcode and StepAdvancesIp state the behaviour |
| Machine.Insert | src/cpu.rs:44-49 | the contract only keeps the register buffer well formed; MachineLaws.InsertSpec states the behaviour |
| Machine.NextEquals | src/cpu.rs:35-42 | succeeds exactly when `ip` is inside memory; MachineLaws.NextEqualsPeeks states the answer |
| Cpu.Cpu.constructor | src/cpu.rs:51-84 | `new` allocates zeroed memory and registers and builds the name-to-offset map; the buffers hold `Machine.New(size)` |
| Cpu.Cpu.GetRegister | src/cpu.rs:86-101 | the lookup through the map gives the register of that name, or `UnknownRegister` |
| Cpu.Cpu.GetRegisterValue | src/cpu.rs:170-176 | reading by position gives the register there, or `OutOfBounds` past the twelfth |
| Cpu.Cpu.NextEquals | src/cpu.rs:35-42 | compares the byte at `ip` with the value; fails with `OutOfBounds` past the end of memory |
| Cpu.Cpu.SetRegister | src/cpu.rs:110-127 | the two writes into the register buffer give the state `Machine.SetRegister` prescribes; an unknown name changes nothing |
| Cpu.Cpu.SetRegisterAt | src/cpu.rs:184-190 | the name lookup by operand index, then `set_register`; an index past the twelfth fails with `OutOfBounds` |
| Cpu.Cpu.Fetch | src/cpu.rs:129-141 | returns the byte at `ip` and advances `ip`, as `Machine.Fetch`; on failure the state is unchanged |
| Cpu.Cpu.Fetch16 | src/cpu.rs:143-157 | returns the big-endian word at `ip` and advances `ip` by two, as `Machine.Fetch16`; on failure the state is unchanged |
| Cpu.Cpu.FetchRegValue | src/cpu.rs:194-195 | fetches a register operand and reads that register, as `Machine.FetchRegValue` |
| Cpu.Cpu.Push | src/cpu.rs:159-168 | the two byte writes and the `sp` update reach the state `Machine.Push` prescribes, or its error |
| Cpu.Cpu.MovLitReg | src/cpu.rs:181-191 | reaches the state `Machine.MovLitReg` prescribes, or its error |
| Cpu.Cpu.MovRegReg | src/cpu.rs:193-204 | reaches the state `Machine.MovRegReg` prescribes, or its error |
| Cpu.Cpu.MovRegMem | src/cpu.rs:206-214 | reaches the state `Machine.MovRegMem` prescribes, or its error |
| Cpu.Cpu.MovMemReg | src/cpu.rs:216-229 | reaches the state `Machine.MovMemReg` prescribes, or its error |
| Cpu.Cpu.AddRegReg | src/cpu.rs:231-241 | reaches the state `Machine.AddRegReg` prescribes, or `Overflow` when the sum exceeds 16 bits |
| Cpu.Cpu.JneLitAdr | src/cpu.rs:243-258 | reaches the state `Machine.JneLitAdr` prescribes, or its error |
| Cpu.Cpu.PshLit | src/cpu.rs:260-263 | reaches the state `Machine.PshLit` prescribes, or its error |
| Cpu.Cpu.PshReg | src/cpu.rs:265-269 | reaches the state `Machine.PshReg` prescribes, or its error |
| Cpu.Cpu.PopReg | src/cpu.rs:271-293 | reaches the state `Machine.PopReg` prescribes, or its error |
| Cpu.Cpu.Execute | src/cpu.rs:178-296 | dispatches on the opcode and reaches the state `Machine.Execute` prescribes; other opcodes do nothing |
| Cpu.Cpu.Step | src/cpu.rs:298-301 | fetch then execute, reaching the state `Machine.Step` prescribes |
| Cpu.Cpu.Insert | src/cpu.rs:44-49 | installs the new memory and sets `sp` and `fp` as `Machine.Insert` prescribes |
| MachineLaws.NewIsZero | src/cpu.rs:51-62 | every register and every memory byte of a new CPU is zero |
| MachineLaws.RegisterNames | src/cpu.rs:86-127 | `get_register` and `set_register` succeed exactly on the twelve names and otherwise fail with `UnknownRegister` |
| MachineLaws.GetOfSetRegister | src/cpu.rs:86-127 | for every register name and value, setting then getting that register returns the value |
| MachineLaws.SetRegisterFrame | src/cpu.rs:110-127 | setting one register leaves memory and every other named register unchanged |
| MachineLaws.SetRegisterBytes | src/cpu.rs:120-124 | `set_register` on the i-th name writes the high byte at `2i` and the low byte at `2i+1`, and no other register byte |
| MachineLaws.GetRegisterValueByName | src/cpu.rs:170-176 | reading by position `i` agrees with `get_register` on the i-th name; positions past the twelfth fail with `OutOfBounds` |
| MachineLaws.FetchSpec | src/cpu.rs:129-141 | `fetch` succeeds exactly when `ip` is in memory and `ip + 1` fits 16 bits; it returns `memory[ip]`, sets `ip + 1` and changes nothing else; each failure has its error |
| MachineLaws.Fetch16Spec | src/cpu.rs:143-157 | `fetch_16` succeeds exactly when `ip + 1` is in memory and `ip + 2` fits; it returns `memory[ip]*256 + memory[ip+1]`, sets `ip + 2` and changes nothing else |
| MachineLaws.Fetch16IsTwoFetches | src/cpu.rs:129-157 | `fetch_16` succeeds exactly when two `fetch`es do, and equals them joined big-endian |
| MachineLaws.PushSpec | src/cpu.rs:159-168 | `push` succeeds exactly when `2 <= sp`, `sp + 1` is in memory and `sp + 1` fits 16 bits; it writes the word's high byte at `sp` and low byte at `sp+1`, sets `sp - 2`, and changes no other byte or register |
| MachineLaws.PopSpec | src/cpu.rs:273-284 | the stack half of `POP` succeeds exactly when `sp + 2` fits and `sp + 3` is in memory; it raises `sp` by two, reads the word there and changes nothing else |
| MachineLaws.PushThenPop | src/cpu.rs:159-168 | a pop (the stack half of `POP`, src/cpu.rs lines 273-284) right after a push returns the pushed word and restores every register |
| MachineLaws.FetchRegValueSpec | src/cpu.rs:194-195 | a register operand can be read exactly when its byte is in memory, `ip + 1` fits 16 bits and the byte names one of the twelve registers; it yields that register's value |
| MachineLaws.WithRegTwice | src/cpu.rs:110-127 | of two writes to the same register, the second wins |
| MachineLaws.MovLitRegSpec | src/cpu.rs:181-191 | MOV_LIT_REG succeeds exactly when its three operand bytes are in memory, `ip + 3` fits 16 bits and the third byte names a register; it puts the literal there, moves `ip` over the operands, and changes nothing else |
| MachineLaws.MovRegRegSpec | src/cpu.rs:193-204 | MOV_REG_REG succeeds exactly when both operand bytes are in memory, `ip + 2` fits 16 bits and both bytes name registers; it copies the source into the destination, moves `ip` by two, and changes nothing else |
| MachineLaws.MovMemRegSpec | src/cpu.rs:216-229 | MOV_MEM_REG succeeds exactly when the operands and the addressed word are in memory, `ip + 3` fits 16 bits and the destination byte names one of the twelve registers; it loads that word into the destination register and changes nothing else |
| MachineLaws.MovMemRegAt | src/cpu.rs:216-229 | MOV_MEM_REG with its address operand already known |
| MachineLaws.MovRegMemSpec | src/cpu.rs:206-214 | MOV_REG_MEM succeeds exactly when the operands and the addressed word are in memory, `ip + 3` fits 16 bits and the source byte names one of the twelve registers; the register's value reads back at the address, no other memory byte changes, `ip` moves by three and no other register changes |
| MachineLaws.MovRegMemAt | src/cpu.rs:206-214 | MOV_REG_MEM with its operands already known, for any source register: memory becomes the old memory with the source's value (`ip + 1` when the source is `ip`) written at the address, `ip` moves by three and no other register changes |
| MachineLaws.AddRegRegSpec | src/cpu.rs:231-241 | with both register operands readable, ADD_REG_REG sets `acc` to the sum of the two registers, moves `ip` by two and changes nothing else; a sum that needs 17 bits is `Overflow` |
| MachineLaws.AddRegRegOk | src/cpu.rs:231-241 | a successful ADD_REG_REG had both operand bytes in memory, each naming a register, and leaves `ip` two past its operands' start; with AddRegRegSpec, ADD_REG_REG succeeds exactly when its operands are readable and the sum fits 16 bits |
| MachineLaws.JneLitAdrSpec | src/cpu.rs:243-258 | JNE_LIT_ADR succeeds exactly when its four operand bytes are in memory and `ip + 4` fits 16 bits; it sets `ip` to the address when the literal differs from `acc`, and otherwise past its operands; it changes nothing but `ip` |
| MachineLaws.JneLitAdrAt | src/cpu.rs:243-258 | JNE_LIT_ADR with its literal and address already known |
| MachineLaws.PshLitSpec | src/cpu.rs:260-263 | PSH_LIT succeeds exactly when its two operand bytes are in memory, `ip + 2` fits 16 bits, `2 <= sp`, `sp + 1` is in memory and `sp + 1` fits 16 bits; it pushes the literal and moves `ip` by two |
| MachineLaws.PshRegSpec | src/cpu.rs:265-269 | PSH_REG succeeds exactly when its operand byte is in memory, `ip + 1` fits 16 bits, the byte names a register, `2 <= sp`, `sp + 1` is in memory and `sp + 1` fits 16 bits; it pushes that register and moves `ip` by one |
| MachineLaws.PopRegSpec | src/cpu.rs:271-293 | POP succeeds exactly when its operand byte is in memory, `ip + 1` fits 16 bits, the byte names a register, `sp + 2` fits 16 bits and `sp + 3` is in memory; it loads that word into the destination register, raises `sp` by two and moves `ip` over its operand (unless one of them is the destination), and changes no memory and no other register |
| MachineLaws.StepUnknownOpcode | src/cpu.rs:294-301 | a step over an unknown opcode only advances `ip` by one |
| MachineLaws.ExecuteAdvancesIp | src/cpu.rs:178-296 | every instruction but JNE_LIT_ADR leaves `ip` just past its operands, unless it writes `ip` itself |
| MachineLaws.MovAdvancesIp | src/cpu.rs:181-229 | the four MOV instructions leave `ip` just past their operands, unless their destination is `ip` |
| MachineLaws.StepAdvancesIp | src/cpu.rs:298-301 | a successful step advances `ip` by the opcode byte plus its operands (`Opcodes.Length`), except for JNE_LIT_ADR and an instruction whose destination register is `ip` |
| MachineLaws.StoreThenLoad | src/cpu.rs:206-229 | a law about two instruction bodies, with no opcode fetch between them (not two consecutive `step`s): MOV_REG_MEM to an address, then MOV_MEM_REG from that address, loads the stored register's value |
| MachineLaws.PushRegThenPop | src/cpu.rs:265-293 | a law about two instruction bodies, with no opcode fetch between them (not two consecutive `step`s): PSH_REG, then POP, puts the pushed register's value in the destination and restores `sp` unless `sp` is the destination |
| MachineLaws.InsertSpec | src/cpu.rs:44-49 | `insert` succeeds exactly when the length modulo 0x10000 is at least 2; memory becomes the program, `sp` and `fp` become that length minus 2, and no other register changes; otherwise `Overflow` |
| MachineLaws.NextEqualsPeeks | src/cpu.rs:35-42 | `next_equals` answers whether the byte the next `fetch` returns is the value, without changing anything, and fails exactly when `ip` is past memory |
| StackLaws.PushKeeps | src/cpu.rs:159-168 | a push puts its word on top of the words already on the stack and lowers `sp` by one slot |
| StackLaws.PopGives | src/cpu.rs:271-284 | a pop returns the top word, leaves the rest of the stack, and raises `sp` by one slot |
| StackLaws.PushAllSpec | src/cpu.rs:159-168 | a run of pushes lays the words last-on-top above what was there and lowers `sp` by one slot per word |
| StackLaws.PopNSpec | src/cpu.rs:271-284 | `n` pops return the top `n` words, top first, and leave the rest of the stack |
| StackLaws.PushAllThenPopN | src/cpu.rs:159-168 | as many pops as pushes return the pushed words in reverse order and restore `sp` |
| Scenario.Image | src/main.rs:11-44 | the memory `main` builds is 0xFFFF bytes long |
| Scenario.ImageLoaded | src/main.rs:11-44 | that memory holds the program at address 0 and a zero counter word at 0x0100 |
| Scenario.Run | src/main.rs:56-68 | the loop of `main` with its bound as `fuel`; the contract only keeps the register buffer well formed; Scenario.RunStep, Halts and RunFrom state the behaviour |
| Scenario.RunStep | src/main.rs:56-61 | an iteration of `main`'s loop that does not stop takes exactly one step |
| Scenario.StepAt | src/main.rs:57-60 | at a byte `op`, `next_equals(0xFE)` answers whether `op` is 0xFE, and for each of the nine opcodes the step fetches it and runs that opcode's instruction |
| Scenario.Load | src/main.rs:16-19 | the first instruction loads the counter into `r1` |
| Scenario.LoadOne | src/main.rs:21-24 | the second instruction sets `r2` to 1 and keeps `r1` |
| Scenario.Add | src/main.rs:26-28 | the third instruction puts `r1 + r2` in `acc` |
| Scenario.Store | src/main.rs:30-33 | the fourth instruction stores `acc` into the counter and keeps the program intact |
| Scenario.Branch | src/main.rs:35-39 | the branch returns to address 0 while `acc` differs from the limit, and otherwise falls through to the 0xFE byte |
| Scenario.Iteration | src/main.rs:16-39 | one pass of the program adds one to the counter and to `acc` in five steps |
| Scenario.Halts | src/main.rs:56-59 | at the 0xFE byte the loop stops and leaves the state unchanged |
| Scenario.RunFrom | src/main.rs:56-68 | from counter `c` below the limit `n`, the loop stops at the 0xFE byte with counter and `acc` equal to `n` |
| Scenario.Started | src/main.rs:47-51 | after `Cpu::new(1)` and `insert`, execution starts at address 0 with a zero counter |
| Scenario.InsertLoaded | src/main.rs:47-51 | `insert` of any memory holding the program starts at address 0 with the counter it holds |
| Scenario.MainCountsTo | src/main.rs:10-68 | for any limit `n` that fits the loop bound, `main` halts on the 0xFE byte with the program intact and counter and `acc` equal to `n` |

## Left out

- `debug` and `view_mem_at` (src/cpu.rs:14-33) only print; they are not modelled. Neither are the calls to them, nor the `get_register("ip")` check, inside `main`'s loop.
- After a panic the Rust program is gone. So when a `Cpu` method returns `Err`, its contract does not say what the buffers hold. `SetRegister`, `Fetch` and `Fetch16` do state that a failure changes nothing.
- The `HashMap<String, u8>` becomes a `map<string, nat>`. Error messages become the three `Error` values.
- `cpu::instructions` is not part of this model, so the opcode values come from the comments in `src/main.rs`: MOV_LIT_REG 0x10, MOV_REG_MEM 0x12, MOV_MEM_REG 0x13, ADD_REG_REG 0x14, JNE_LIT_ADR 0x15. MOV_REG_REG 0x11, PSH_LIT 0x17, PSH_REG 0x18 and POP 0x1A are assumed values. The laws depend only on the nine being distinct; the scenario also depends on the five values from the comments.
- `cpu::memory` is not part of this model. `create_memory(n)` is taken to return `n` zero bytes.
- `u16` arithmetic follows a debug build, where overflow panics. So ADD_REG_REG with a sum of 0x10000 or more is `Overflow`. A wrapping 16-bit add would give 0x0001 for 0xFFFF + 2; the code as written panics there in a debug build, and the model follows the code. A release build would wrap this and every other `u16` addition or subtraction; that is not modelled.
- Scenario.MainCountsTo: the loop bound is a parameter `fuel` of at least `5n + 1` rather than `main`'s fixed 0xFFFF, and the limit is any `n >= 1` rather than only the 3 that `main` hard-codes. 0xFFFF meets the bound for every `n <= 13106`.

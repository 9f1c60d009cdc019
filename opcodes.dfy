/** The nine opcodes of the instruction set and the length of each
    instruction in bytes (the opcode byte plus its operands). */
module Opcodes {
  import opened Bytes

  const MOV_LIT_REG: Byte := 0x10
  const MOV_REG_REG: Byte := 0x11
  const MOV_REG_MEM: Byte := 0x12
  const MOV_MEM_REG: Byte := 0x13
  const ADD_REG_REG: Byte := 0x14
  const JNE_LIT_ADR: Byte := 0x15
  const PSH_LIT: Byte := 0x17
  const PSH_REG: Byte := 0x18
  const POP: Byte := 0x1A

  predicate IsOpcode(op: Byte)
  {
    op in {MOV_LIT_REG, MOV_REG_REG, MOV_REG_MEM, MOV_MEM_REG, ADD_REG_REG,
           JNE_LIT_ADR, PSH_LIT, PSH_REG, POP}
  }

  /** How far `ip` moves over an instruction whose opcode is `op` when it does
      not jump: one opcode byte, one byte per register operand, two per
      literal or address. An unknown opcode is a one-byte no-op. */
  function Length(op: Byte): (n: nat)
    ensures 1 <= n <= 5
    ensures n == 1 <==> !IsOpcode(op)
  {
    if op == MOV_LIT_REG then 1 + 2 + 1
    else if op == MOV_REG_REG then 1 + 1 + 1
    else if op == MOV_REG_MEM then 1 + 1 + 2
    else if op == MOV_MEM_REG then 1 + 2 + 1
    else if op == ADD_REG_REG then 1 + 1 + 1
    else if op == JNE_LIT_ADR then 1 + 2 + 2
    else if op == PSH_LIT then 1 + 2
    else if op == PSH_REG then 1 + 1
    else if op == POP then 1 + 1
    else 1
  }
}

/** The fixed register file: twelve named 16-bit registers, the i-th stored
    big-endian at byte offset 2*i of a 24-byte buffer. */
module Registers {
  import opened Outcomes

  /** The register names in positional order; an instruction operand names a
      register by its index in this list. */
  const NAMES: seq<string> :=
    ["ip", "acc", "r0", "r1", "r2", "r3", "r4", "r5", "r6", "r7", "sp", "fp"]

  const COUNT: nat := 12

  /** Positions of the registers the CPU itself uses. */
  const IP: nat := 0
  const ACC: nat := 1
  const SP: nat := 10
  const FP: nat := 11

  /** Size of the register buffer in bytes. */
  const BUFFER_SIZE: nat := 2 * COUNT

  /** Byte offset of register `i` in the register buffer. */
  function Offset(i: nat): nat { 2 * i }

  lemma NamesDistinct()
    ensures |NAMES| == COUNT
    ensures forall i, j :: 0 <= i < j < |NAMES| ==> NAMES[i] != NAMES[j]
  {
  }

  /** Where `name` stands in `NAMES`, or `None` when it is not a register. */
  function IndexOf(name: string): (r: Option<nat>)
    ensures r.Some? ==> r.value < COUNT && NAMES[r.value] == name
    ensures r.None? <==> name !in NAMES
  {
    if name == "ip" then Some(0)
    else if name == "acc" then Some(1)
    else if name == "r0" then Some(2)
    else if name == "r1" then Some(3)
    else if name == "r2" then Some(4)
    else if name == "r3" then Some(5)
    else if name == "r4" then Some(6)
    else if name == "r5" then Some(7)
    else if name == "r6" then Some(8)
    else if name == "r7" then Some(9)
    else if name == "sp" then Some(10)
    else if name == "fp" then Some(11)
    else None
  }

  /** Looking up the i-th name finds position i. */
  lemma IndexOfName(i: nat)
    requires i < COUNT
    ensures IndexOf(NAMES[i]) == Some(i)
  {
    NamesDistinct();
  }

  /** `m` sends every register name to its byte offset and knows no other name. */
  ghost predicate IsRegisterMap(m: map<string, nat>)
  {
    (forall i :: 0 <= i < COUNT ==> NAMES[i] in m && m[NAMES[i]] == Offset(i)) &&
    (forall name :: name in m ==> name in NAMES)
  }

  /** The loop in `Cpu::new` that fills the name-to-offset map. */
  method BuildRegisterMap() returns (m: map<string, nat>)
    ensures IsRegisterMap(m)
  {
    NamesDistinct();
    m := map[];
    for i := 0 to |NAMES|
      invariant forall j :: 0 <= j < i ==> NAMES[j] in m && m[NAMES[j]] == Offset(j)
      invariant forall name :: name in m ==> name in NAMES[..i]
    {
      m := m[NAMES[i] := Offset(i)];
    }
  }
}

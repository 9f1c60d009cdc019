/** Bytes, 16-bit words, and the big-endian layout the CPU uses both for its
    register buffer and for words in main memory. */
module Bytes {

  type Byte = b: int | 0 <= b < 0x100
  type Word = w: int | 0 <= w < 0x1_0000

  /** The high byte of `v`, as `(v >> 8) as u8`. */
  function Hi(v: Word): Byte { v / 0x100 }

  /** The low byte of `v`, as `v as u8`. */
  function Lo(v: Word): Byte { v % 0x100 }

  /** `((hi as u16) << 8) | lo as u16`: since `lo < 256` the or is an addition. */
  function Join(hi: Byte, lo: Byte): Word { hi * 0x100 + lo }

  lemma JoinSplit(v: Word)
    ensures Join(Hi(v), Lo(v)) == v
  {
  }

  lemma SplitJoin(hi: Byte, lo: Byte)
    ensures Hi(Join(hi, lo)) == hi && Lo(Join(hi, lo)) == lo
  {
  }

  /** The big-endian word stored at `buf[a]` (high) and `buf[a + 1]` (low). */
  function ReadWord(buf: seq<Byte>, a: nat): Word
    requires a + 1 < |buf|
  {
    Join(buf[a], buf[a + 1])
  }

  /** `buf` with `v` stored big-endian at `a` and `a + 1`. */
  function WriteWord(buf: seq<Byte>, a: nat, v: Word): (r: seq<Byte>)
    requires a + 1 < |buf|
    ensures |r| == |buf|
  {
    buf[a := Hi(v)][a + 1 := Lo(v)]
  }

  /** A word written is the word read back. */
  lemma ReadOfWrite(buf: seq<Byte>, a: nat, v: Word)
    requires a + 1 < |buf|
    ensures ReadWord(WriteWord(buf, a, v), a) == v
  {
    JoinSplit(v);
  }

  /** Writing a word leaves every word that does not overlap it alone. */
  lemma ReadOfOtherWrite(buf: seq<Byte>, a: nat, b: nat, v: Word)
    requires a + 1 < |buf| && b + 1 < |buf|
    requires b + 1 < a || a + 1 < b
    ensures ReadWord(WriteWord(buf, a, v), b) == ReadWord(buf, b)
  {
  }

  /** Storing the word already there changes nothing. */
  lemma WriteOfRead(buf: seq<Byte>, a: nat)
    requires a + 1 < |buf|
    ensures WriteWord(buf, a, ReadWord(buf, a)) == buf
  {
    SplitJoin(buf[a], buf[a + 1]);
  }

  /** The second of two writes to the same word wins. */
  lemma WriteOfWrite(buf: seq<Byte>, a: nat, v: Word, w: Word)
    requires a + 1 < |buf|
    ensures WriteWord(WriteWord(buf, a, v), a, w) == WriteWord(buf, a, w)
  {
  }

  /** A buffer of `n` zero bytes, as `memory::create_memory(n)` allocates. */
  function Zeros(n: nat): (r: seq<Byte>)
    ensures |r| == n && forall j :: 0 <= j < n ==> r[j] == 0
  {
    seq(n, _ => 0)
  }
}

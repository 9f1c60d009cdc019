/** The stack discipline that `push` and the stack half of `POP` obey: the
    stack grows downwards from `sp`, the word on top sits one slot above
    `sp`, and any run of pushes is undone, in reverse order, by as many
    pops. */
module StackLaws {
  import opened Bytes
  import opened Outcomes
  import opened Registers
  import opened Machine
  import MachineLaws

  /** Memory holds the words `vs` big-endian from address `a` upwards. */
  ghost predicate WordsAt(m: seq<Byte>, a: nat, vs: seq<Word>)
  {
    a + 2 * |vs| <= |m| &&
    forall i :: 0 <= i < |vs| ==> ReadWord(m, a + 2 * i) == vs[i]
  }

  /** A run of words is its first word followed by the rest. */
  lemma WordsAtCons(m: seq<Byte>, a: nat, v: Word, vs: seq<Word>)
    ensures WordsAt(m, a, [v] + vs) <==> a + 1 < |m| && ReadWord(m, a) == v && WordsAt(m, a + 2, vs)
  {
    var ws := [v] + vs;
    if WordsAt(m, a, ws) {
      assert ReadWord(m, a + 2 * 0) == ws[0];
      forall i | 0 <= i < |vs|
        ensures ReadWord(m, a + 2 + 2 * i) == vs[i]
      {
        assert ReadWord(m, a + 2 * (i + 1)) == ws[i + 1];
      }
    }
    if a + 1 < |m| && ReadWord(m, a) == v && WordsAt(m, a + 2, vs) {
      forall i | 0 <= i < |ws|
        ensures ReadWord(m, a + 2 * i) == ws[i]
      {
        if i > 0 {
          assert ReadWord(m, a + 2 + 2 * (i - 1)) == vs[i - 1];
        }
      }
    }
  }

  /** The words from the top of the stack downwards are `vs`: `vs[i]` sits
      big-endian at `sp + 2 + 2i`. */
  ghost predicate StackHolds(s: State, vs: seq<Word>)
    requires WellFormed(s)
  {
    WordsAt(s.memory, Reg(s, SP) + 2, vs)
  }

  function Reversed(vs: seq<Word>): (r: seq<Word>)
    ensures |r| == |vs|
  {
    if |vs| == 0 then [] else Reversed(vs[1..]) + [vs[0]]
  }

  /** `push` each of `vs`, first to last, stopping at the first error. */
  function PushAll(s: State, vs: seq<Word>): (r: Result<State>)
    requires WellFormed(s)
    ensures r.Ok? ==> WellFormed(r.value)
    decreases |vs|
  {
    if |vs| == 0 then Ok(s)
    else
      var t :- Push(s, vs[0]);
      PushAll(t, vs[1..])
  }

  /** Pop `n` words, listing them in the order they came off the stack. */
  function PopN(s: State, n: nat): (r: Result<(seq<Word>, State)>)
    requires WellFormed(s)
    ensures r.Ok? ==> WellFormed(r.value.1) && |r.value.0| == n
    decreases n
  {
    if n == 0 then Ok(([], s))
    else
      var (v, t) :- Pop(s);
      var (ws, u) :- PopN(t, n - 1);
      Ok(([v] + ws, u))
  }

  /** A push puts its word on top of what the stack held. */
  lemma PushKeeps(s: State, v: Word, vs: seq<Word>)
    requires WellFormed(s) && StackHolds(s, vs) && Push(s, v).Ok?
    ensures var t := Push(s, v).value;
      StackHolds(t, [v] + vs) && Reg(t, SP) == Reg(s, SP) - 2 &&
      forall j :: 0 <= j < COUNT && j != SP ==> Reg(t, j) == Reg(s, j)
  {
    var sp: int := Reg(s, SP);
    var t := Push(s, v).value;
    MachineLaws.PushSpec(s, v);
    forall i | 0 <= i < |vs|
      ensures ReadWord(t.memory, sp + 2 + 2 * i) == vs[i]
    {
      assert ReadWord(s.memory, sp + 2 + 2 * i) == vs[i];
    }
    assert WordsAt(t.memory, sp + 2, vs);
    WordsAtCons(t.memory, sp, v, vs);
  }

  /** A pop takes the top word off the stack and leaves the rest. */
  lemma PopGives(s: State, v: Word, vs: seq<Word>)
    requires WellFormed(s) && StackHolds(s, [v] + vs) && Reg(s, SP) + 2 < 0x1_0000
    ensures Pop(s).Ok?
    ensures var (w, t) := Pop(s).value;
      w == v && StackHolds(t, vs) && Reg(t, SP) == Reg(s, SP) + 2 && OnlyRegChanged(s, t, SP)
  {
    var sp: int := Reg(s, SP);
    var t := WithReg(s, SP, sp + 2);
    WordsAtCons(s.memory, sp + 2, v, vs);
    assert Pop(s) == Ok((v, t));
    WithRegFrame(s, SP, sp + 2);
  }

  /** Pushing `vs` lays them on the stack last-on-top and lowers `sp` by one
      slot per word; only `sp` among the registers changes. */
  lemma {:induction false} PushAllSpec(s: State, vs: seq<Word>, ws: seq<Word>)
    requires WellFormed(s) && StackHolds(s, ws) && PushAll(s, vs).Ok?
    ensures var t := PushAll(s, vs).value;
      StackHolds(t, Reversed(vs) + ws) && Reg(t, SP) == Reg(s, SP) - 2 * |vs| &&
      forall j :: 0 <= j < COUNT && j != SP ==> Reg(t, j) == Reg(s, j)
    decreases |vs|
  {
    if |vs| > 0 {
      var t1 := Push(s, vs[0]).value;
      PushKeeps(s, vs[0], ws);
      PushAllSpec(t1, vs[1..], [vs[0]] + ws);
      assert Reversed(vs[1..]) + ([vs[0]] + ws) == Reversed(vs) + ws;
    }
  }

  /** Popping `n` words off a stack holding `ws` returns its first `n`
      words, top first, and leaves the rest. */
  lemma {:induction false} PopNSpec(s: State, ws: seq<Word>, n: nat)
    requires WellFormed(s) && StackHolds(s, ws) && n <= |ws| && Reg(s, SP) + 2 * n < 0x1_0000
    ensures PopN(s, n).Ok?
    ensures var (vs, u) := PopN(s, n).value;
      vs == ws[..n] && StackHolds(u, ws[n..]) && Reg(u, SP) == Reg(s, SP) + 2 * n &&
      OnlyRegChanged(s, u, SP)
    decreases n
  {
    if n > 0 {
      assert ws == [ws[0]] + ws[1..];
      PopGives(s, ws[0], ws[1..]);
      var t := Pop(s).value.1;
      PopNSpec(t, ws[1..], n - 1);
      assert [ws[0]] + ws[1..][..n - 1] == ws[..n];
      assert ws[1..][n - 1..] == ws[n..];
    }
  }

  /** Pushes are undone by as many pops: the words come back last first and
      `sp` returns to where it was. The bound on `sp + 1` only matters for an
      empty `vs`: any successful push already implies it. */
  lemma PushAllThenPopN(s: State, vs: seq<Word>)
    requires WellFormed(s) && Reg(s, SP) + 1 < |s.memory| && PushAll(s, vs).Ok?
    ensures var t := PushAll(s, vs).value;
      PopN(t, |vs|).Ok? && PopN(t, |vs|).value.0 == Reversed(vs) &&
      Reg(PopN(t, |vs|).value.1, SP) == Reg(s, SP)
  {
    var t := PushAll(s, vs).value;
    PushAllSpec(s, vs, []);
    assert Reversed(vs) + [] == Reversed(vs);
    PopNSpec(t, Reversed(vs), |vs|);
    assert Reversed(vs)[..|vs|] == Reversed(vs);
  }
}

/**
 Which bodies expression() as written accepts: below 256 tokens those that it accepts with the documented stack.
 No byte of a saved counter is then ever as large as 128, so no misplaced read is negative, and a group that is
 not empty never looks empty.
 */
module AcceptanceAsWritten {
  import opened Sequences
  import opened Tokens
  import opened Bits
  import opened Syntax
  import opened Machine
  import opened Acceptance
  import opened AsWritten

  // ---------- Bytes that stay small ----------

  predicate BytesUpTo(b: seq<Byte>, m: nat) {
    forall i :: 0 <= i < |b| ==> b[i] <= m
  }

  /** A counter none of whose bytes is above m. */
  predicate IntUpTo(n: int, m: nat) {
    0 <= n < 0x1_0000_0000 && BytesUpTo(IntBytes(n), m)
  }

  /** The digits of a number in base 256, the lowest apart. */
  lemma LowestDigit(q: nat, r: nat)
    requires r < 0x100
    ensures var n := 0x100 * q + r;
      n % 0x100 == r && n / 0x100 == q && n / 0x1_0000 == q / 0x100 && n / 0x100_0000 == q / 0x1_0000
  {
    assert q == 0x100 * (q / 0x100) + q % 0x100;
    assert q == 0x1_0000 * (q / 0x1_0000) + q % 0x1_0000;
  }

  lemma ReadUpTo(b: seq<Byte>, m: nat)
    requires |b| == 4 && BytesUpTo(b, m) && m < 0x80
    ensures IntUpTo(BytesInt(b), m)
  {
    var q2 := (b[2] as int) + 0x100 * (b[3] as int);
    var q1 := (b[1] as int) + 0x100 * q2;
    LowestDigit(q1, b[0]);
    LowestDigit(q2, b[1]);
    LowestDigit(b[3], b[2]);
    assert BytesInt(b) == 0x100 * q1 + b[0];
    assert IntBytes(BytesInt(b)) == b;
  }

  /** Counting one bar changes the lowest byte alone. */
  lemma OneMoreUpTo(n: int, m: nat)
    requires IntUpTo(n, m) && m < 0xFF
    ensures IntUpTo(n + 1, m + 1)
  {
    var b, q, r := IntBytes(n), n / 0x100, n % 0x100;
    assert b[0] == r;
    LowestDigit(q, r);
    LowestDigit(q, r + 1);
    assert IntBytes(n + 1) == b[0 := r + 1];
  }

  lemma SmallUpTo(n: int, m: nat)
    requires 0 <= n <= m < 0x100
    ensures IntUpTo(n, m)
  {
    assert IntBytes(n) == [n, 0, 0, 0];
  }

  // ---------- Two machines that refuse together ----------

  /** The atoms a push would save. */
  function Squeezed(atoms: int): int {
    if atoms > 1 then atoms - 1 else atoms
  }

  /** n tokens on: the same groups are open, the same are empty, and no byte is above m. */
  predicate Level(s: State, r: Raw, n: nat, m: nat) {
    && |r.saved| == |s.saved|
    && r.atoms >= 0 && (r.atoms == 0 <==> s.atoms == 0)
    && BytesUpTo(StackBytes(r.saved), m) && IntUpTo(r.alts, m) && IntUpTo(Squeezed(r.atoms), m)
    && 1 <= m && 2 * m + (if s.atoms > 0 then 1 else 0) <= n + 2
  }

  lemma PushUpTo(saved: seq<Pushed>, p: Pushed, m: nat)
    requires BytesUpTo(StackBytes(saved), m) && IntUpTo(p.alts, m) && IntUpTo(p.atoms, m)
    ensures BytesUpTo(StackBytes(saved + [p]), m)
  {
    hide IntBytes;
    assert (saved + [p])[..|saved|] == saved;
  }

  lemma SliceUpTo(b: seq<Byte>, lo: nat, hi: nat, m: nat)
    requires lo <= hi <= |b| && BytesUpTo(b, m)
    ensures BytesUpTo(b[lo..hi], m)
  {
  }

  lemma PopUpTo(saved: seq<Pushed>, m: nat)
    requires saved != [] && BytesUpTo(StackBytes(saved), m) && m < 0x80
    ensures IntUpTo(Popped(saved).alts, m) && IntUpTo(Popped(saved).atoms, m)
  {
    hide StackBytes, BytesInt, IntUpTo, BytesUpTo, Popped;
    var k, b := |saved|, StackBytes(saved);
    assert saved[..k] == saved;
    PoppedAt(saved, k);
    SliceUpTo(b, k - 1, k + 3, m);
    SliceUpTo(b, k + 3, k + 7, m);
    ReadUpTo(b[k - 1..k + 3], m);
    ReadUpTo(b[k + 3..k + 7], m);
  }

  lemma LeftUpTo(saved: seq<Pushed>, m: nat)
    requires saved != [] && BytesUpTo(StackBytes(saved), m)
    ensures BytesUpTo(StackBytes(saved[..|saved| - 1]), m)
  {
    hide StackBytes;
    PrefixBytes(saved, |saved| - 1);
  }

  /** The largest byte grows with the bars. */
  function Grown(k: Kind, m: nat): nat {
    if k.Pipe? then m + 1 else m
  }

  lemma StepLevel(s: State, r: Raw, t: Token, n: nat, m: nat)
    requires Level(s, r, n, m) && n < 0xFF
    ensures Step(s, t).Next? <==> StepAsWritten(r, t).Some?
    ensures Step(s, t).Next? ==> Level(Step(s, t).state, StepAsWritten(r, t).value, n + 1, Grown(t.kind, m))
  {
    hide StackBytes, Popped, IntUpTo, BytesUpTo, Flush, FlushAsWritten, Catenates;
    SmallUpTo(0, m);
    SmallUpTo(1, m);
    if Step(s, t).Next? {
      if t.kind.Pipe? {
        OneMoreUpTo(r.alts, m);
        MoreUpTo(StackBytes(r.saved), m);
        SmallUpTo(0, m + 1);
      } else if t.kind.OpenParen? {
        PushUpTo(r.saved, Pushed(r.alts, Squeezed(r.atoms)), m);
      } else if t.kind.CloseParen? {
        PopUpTo(r.saved, m);
        LeftUpTo(r.saved, m);
        NotNegative(Popped(r.saved).atoms, m);
      }
    }
  }

  lemma MoreUpTo(b: seq<Byte>, m: nat)
    requires BytesUpTo(b, m)
    ensures BytesUpTo(b, m + 1)
  {
  }

  lemma NotNegative(n: int, m: nat)
    requires IntUpTo(n, m)
    ensures n >= 0
  {
  }

  lemma {:induction false} FeedLevel(s: State, r: Raw, body: seq<Token>, n: nat, m: nat)
    requires Level(s, r, n, m) && n + |body| <= 0xFF
    ensures Feed(s, body).Some? <==> FeedAsWritten(r, body).Some?
    ensures Feed(s, body).Some? ==> |FeedAsWritten(r, body).value.saved| == |Feed(s, body).value.saved|
    decreases |body|
  {
    hide Step, StepAsWritten;
    if body != [] {
      StepLevel(s, r, body[0], n, m);
      if Step(s, body[0]).Next? {
        FeedLevel(Step(s, body[0]).state, StepAsWritten(r, body[0]).value, body[1..], n + 1, Grown(body[0].kind, m));
      }
    }
  }

  lemma Starts()
    ensures Level(START, RAW_START, 0, 1)
  {
    assert IntBytes(0) == [0, 0, 0, 0];
  }

  /** Below 256 tokens the misplaced reads change no verdict. */
  lemma SameAcceptance(body: seq<Token>)
    requires |body| < 0x100
    ensures CompileAsWritten(body).Some? <==> Compile(body).Some?
  {
    hide Feed, FeedAsWritten, Level, Catenates, Pipes;
    Starts();
    FeedLevel(START, RAW_START, body, 0, 1);
  }

  /** So as written, too, a body is accepted exactly when the grammar derives it, it is empty, or it is a derivable
      body followed by one bar. */
  lemma ExactAcceptanceAsWritten(body: seq<Token>)
    requires |body| < 0x100
    ensures CompileAsWritten(body).Some? <==> body == [] || Derivable(body) || EndsInBar(body)
  {
    hide Derivable, EndsInBar, Compile, CompileAsWritten;
    SameAcceptance(body);
    ExactAcceptance(body);
  }

  // ---------- A longer body ----------

  /** An atom and a bar, n times. */
  function Barred(n: nat): (body: seq<Token>)
    ensures |body| == 2 * n
  {
    if n == 0 then [] else [A] + ([PIPE_TOKEN] + Barred(n - 1))
  }

  /** ( A| ... A| A ( A ) | ) with this many bars before the inner group. */
  const BARS := 129

  function LongBody(): (body: seq<Token>)
    ensures |body| == 265
  {
    [OPEN] + (Barred(BARS) + ([A] + ([OPEN] + ([A] + ([CLOSE] + ([PIPE_TOKEN] + [CLOSE]))))))
  }

  lemma StepFirst(s: State, t: Token, rest: seq<Token>)
    ensures Feed(s, [t] + rest) == if Step(s, t).Next? then Feed(Step(s, t).state, rest) else None
  {
    assert ([t] + rest)[1..] == rest;
  }

  lemma AtomThenBar(s: State, r: Raw)
    requires s.atoms == r.atoms == 0
    ensures var s2, r2 := s.(atoms := 1, out := s.out + [A]), r.(atoms := 1, out := r.out + [A]);
      && Step(s, A) == Next(s2) && Step(s2, PIPE_TOKEN) == Next(s2.(alts := s.alts + 1, atoms := 0))
      && StepAsWritten(r, A) == Some(r2) && StepAsWritten(r2, PIPE_TOKEN) == Some(r2.(alts := r.alts + 1, atoms := 0))
  {
    hide Popped, Flush, FlushAsWritten;
    assert Catenates(1) == [];
    assert s.out + [A] + [] == s.out + [A] && r.out + [A] + [] == r.out + [A];
  }

  lemma AtomAndBar(s: State, r: Raw, rest: seq<Token>)
    requires s.atoms == r.atoms == 0
    ensures var s2, r2 := s.(alts := s.alts + 1, out := s.out + [A]), r.(alts := r.alts + 1, out := r.out + [A]);
      && Feed(s, [A] + ([PIPE_TOKEN] + rest)) == Feed(s2, rest)
      && FeedAsWritten(r, [A] + ([PIPE_TOKEN] + rest)) == FeedAsWritten(r2, rest)
  {
    hide Feed, FeedAsWritten, Step, StepAsWritten;
    AtomThenBar(s, r);
    StepFirst(s, A, [PIPE_TOKEN] + rest);
    FeedFirst(r, A, [PIPE_TOKEN] + rest);
    StepFirst(s.(atoms := 1, out := s.out + [A]), PIPE_TOKEN, rest);
    FeedFirst(r.(atoms := 1, out := r.out + [A]), PIPE_TOKEN, rest);
  }

  lemma {:induction false} BarredFeeds(s: State, r: Raw, n: nat, rest: seq<Token>)
    requires s.atoms == r.atoms == 0
    ensures Feed(s, Barred(n) + rest) == Feed(s.(alts := s.alts + n, out := s.out + Repeat(A, n)), rest)
    ensures FeedAsWritten(r, Barred(n) + rest) ==
            FeedAsWritten(r.(alts := r.alts + n, out := r.out + Repeat(A, n)), rest)
    decreases n
  {
    hide Feed, FeedAsWritten;
    if n == 0 {
      assert [] + rest == rest && s.out + Repeat(A, 0) == s.out && r.out + Repeat(A, 0) == r.out;
    } else {
      assert Barred(n) + rest == [A] + ([PIPE_TOKEN] + (Barred(n - 1) + rest));
      AtomAndBar(s, r, Barred(n - 1) + rest);
      var s2, r2 := s.(alts := s.alts + 1, out := s.out + [A]), r.(alts := r.alts + 1, out := r.out + [A]);
      BarredFeeds(s2, r2, n - 1, rest);
      assert Repeat(A, n) == [A] + Repeat(A, n - 1);
      Assoc(s.out, [A], Repeat(A, n - 1));
      Assoc(r.out, [A], Repeat(A, n - 1));
    }
  }

  /** The documented stack refuses the last ')', as nothing follows the bar before it. */
  lemma LongBodyRefused(s: State)
    requires s.saved == [Saved(0, 0)] && s.atoms == 0
    ensures Feed(s, [A] + ([OPEN] + ([A] + ([CLOSE] + ([PIPE_TOKEN] + [CLOSE]))))) == None
  {
    hide Feed, Flush, Catenates;
    StepFirst(s, A, [OPEN] + ([A] + ([CLOSE] + ([PIPE_TOKEN] + [CLOSE]))));
    var s1 := Step(s, A).state;
    StepFirst(s1, OPEN, [A] + ([CLOSE] + ([PIPE_TOKEN] + [CLOSE])));
    var s2 := Step(s1, OPEN).state;
    StepFirst(s2, A, [CLOSE] + ([PIPE_TOKEN] + [CLOSE]));
    var s3 := Step(s2, A).state;
    StepFirst(s3, CLOSE, [PIPE_TOKEN] + [CLOSE]);
    var s4 := Step(s3, CLOSE).state;
    StepFirst(s4, PIPE_TOKEN, [CLOSE]);
    assert [CLOSE] == [CLOSE] + [];
    StepFirst(Step(s4, PIPE_TOKEN).state, CLOSE, []);
  }

  /** As written the atoms are negative when it comes, so it is taken. */
  lemma LongBodyTaken(r: Raw)
    requires r.saved == [OUTER] && r.atoms == 0 && r.alts == BARS
    ensures var last := FeedAsWritten(r, [A] + ([OPEN] + ([A] + ([CLOSE] + ([PIPE_TOKEN] + [CLOSE])))));
      last.Some? && last.value.saved == []
  {
    hide FeedAsWritten, FlushAsWritten, Catenates, Popped;
    FeedFirst(r, A, [OPEN] + ([A] + ([CLOSE] + ([PIPE_TOKEN] + [CLOSE]))));
    var r1 := StepAsWritten(r, A).value;
    FeedFirst(r1, OPEN, [A] + ([CLOSE] + ([PIPE_TOKEN] + [CLOSE])));
    var r2 := StepAsWritten(r1, OPEN).value;
    FeedFirst(r2, A, [CLOSE] + ([PIPE_TOKEN] + [CLOSE]));
    var r3 := StepAsWritten(r2, A).value;
    FeedFirst(r3, CLOSE, [PIPE_TOKEN] + [CLOSE]);
    assert r3.saved == [OUTER, Pushed(BARS, 1)];
    PoppedFromTwo(Pushed(BARS, 1));
    var r4 := StepAsWritten(r3, CLOSE).value;
    assert r4.saved == [OUTER] && r4.atoms == 1 - 127 * 0x100_0000;
    FeedFirst(r4, PIPE_TOKEN, [CLOSE]);
    assert [CLOSE] == [CLOSE] + [];
    var r5 := StepAsWritten(r4, PIPE_TOKEN).value;
    FeedFirst(r5, CLOSE, []);
    FeedNothing(StepAsWritten(r5, CLOSE).value);
  }

  /** A body of 265 tokens that is refused with the documented stack and accepted as written. */
  lemma LongBodyDiffers()
    ensures Compile(LongBody()).None? && CompileAsWritten(LongBody()).Some?
  {
    hide Feed, FeedAsWritten, Barred;
    var tail := [A] + ([OPEN] + ([A] + ([CLOSE] + ([PIPE_TOKEN] + [CLOSE]))));
    StepFirst(START, OPEN, Barred(BARS) + tail);
    FeedFirst(RAW_START, OPEN, Barred(BARS) + tail);
    assert [] + [OUTER] == [OUTER] && [] + [Saved(0, 0)] == [Saved(0, 0)];
    var s, r := State(0, 0, [Saved(0, 0)], []), Raw(0, 0, [OUTER], []);
    BarredFeeds(s, r, BARS, tail);
    LongBodyRefused(s.(alts := BARS, out := [] + Repeat(A, BARS)));
    LongBodyTaken(r.(alts := BARS, out := [] + Repeat(A, BARS)));
  }
}

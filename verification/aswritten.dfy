/**
 expression() with pop_array as it is written: the saved pair is read at an address that counts bytes.
 On front-nested bodies that changes nothing; frontnested.dfy shows that it does on all others.
 */
module AsWritten {
  import opened Tokens
  import opened Bits
  import opened Regex
  import opened Syntax
  import opened Machine
  import opened Completeness
  import opened ByteArrays

  // ---------- The bytes of parn_stack ----------

  const INT_MIN := -0x8000_0000
  const INT_MAX := 0x7FFF_FFFF

  /** A struct parns_t, whose counters are signed. */
  datatype Pushed = Pushed(alts: int, atoms: int)

  /** A four-byte int in two's complement, lowest byte first. */
  function IntBytes(n: int): (b: seq<Byte>)
    ensures |b| == 4
  {
    [n % 0x100, n / 0x100 % 0x100, n / 0x1_0000 % 0x100, n / 0x100_0000 % 0x100]
  }

  function BytesInt(b: seq<Byte>): int
    requires |b| == 4
  {
    var n := (b[0] as int) + 0x100 * (b[1] as int) + 0x1_0000 * (b[2] as int) + 0x100_0000 * (b[3] as int);
    if b[3] < 0x80 then n else n - 0x1_0000_0000
  }

  lemma IntRoundTrip(n: int)
    requires INT_MIN <= n <= INT_MAX
    ensures BytesInt(IntBytes(n)) == n
  {
    var q1, q2, q3 := n / 0x100, n / 0x1_0000, n / 0x100_0000;
    assert q2 == q1 / 0x100 && q3 == q2 / 0x100;
    assert n == 0x100 * q1 + n % 0x100 && q1 == 0x100 * q2 + q1 % 0x100 && q2 == 0x100 * q3 + q2 % 0x100;
    assert -0x80 <= q3 < 0x80;
    assert q3 % 0x100 == if q3 < 0 then q3 + 0x100 else q3;
  }

  function PairBytes(p: Pushed): (b: seq<Byte>)
    ensures |b| == 8
  {
    IntBytes(p.alts) + IntBytes(p.atoms)
  }

  /** The buffer of parn_stack. */
  function StackBytes(saved: seq<Pushed>): (b: seq<Byte>)
    ensures |b| == 8 * |saved|
  {
    if saved == [] then [] else StackBytes(saved[..|saved| - 1]) + PairBytes(saved[|saved| - 1])
  }

  /** The pair a CPAREN reads. */
  function Popped(saved: seq<Pushed>): Pushed
    requires saved != []
  {
    var top := BytesAt(StackBytes(saved), 8, |saved|);
    Pushed(BytesInt(top[..4]), BytesInt(top[4..]))
  }

  lemma {:induction false} PrefixBytes(saved: seq<Pushed>, k: nat)
    requires k <= |saved|
    ensures StackBytes(saved[..k]) == StackBytes(saved)[..8 * k]
  {
    if k == |saved| {
      assert saved[..k] == saved;
    } else {
      var front := saved[..|saved| - 1];
      PrefixBytes(front, k);
      assert front[..k] == saved[..k];
    }
  }

  /** A pop with k pairs left reads the eight bytes from byte k - 1 on. */
  lemma PoppedAt(saved: seq<Pushed>, k: nat)
    requires 1 <= k <= |saved|
    ensures var b := StackBytes(saved);
      Popped(saved[..k]) == Pushed(BytesInt(b[k - 1..k + 3]), BytesInt(b[k + 3..k + 7]))
  {
    hide StackBytes, BytesInt;
    PrefixBytes(saved, k);
    TopSlices(StackBytes(saved), k);
  }

  lemma TopSlices(b: seq<Byte>, k: nat)
    requires 1 <= k && 8 * k <= |b|
    ensures BytesAt(b[..8 * k], 8, k)[..4] == b[k - 1..k + 3]
    ensures BytesAt(b[..8 * k], 8, k)[4..] == b[k + 3..k + 7]
  {
    assert b[..8 * k][k - 1..k + 7] == b[k - 1..k + 7];
  }

  lemma FirstPairBytes(saved: seq<Pushed>)
    requires saved != []
    ensures StackBytes(saved)[..8] == PairBytes(saved[0])
  {
    var first := saved[..1];
    PrefixBytes(saved, 1);
    assert first[..0] == [] && first[0] == saved[0];
  }

  lemma SecondPairBytes(p: Pushed, q: Pushed)
    ensures StackBytes([p, q])[8..] == PairBytes(q)
  {
    assert [p, q][..1] == [p];
  }

  lemma PoppedFromOne(p: Pushed)
    requires INT_MIN <= p.alts <= INT_MAX && INT_MIN <= p.atoms <= INT_MAX
    ensures Popped([p]) == p
  {
    var saved := [p];
    assert saved[..0] == [];
    assert StackBytes(saved) == PairBytes(p);
    var top := BytesAt(StackBytes(saved), 8, 1);
    assert top == PairBytes(p);
    assert top[..4] == IntBytes(p.alts) && top[4..] == IntBytes(p.atoms);
    IntRoundTrip(p.alts);
    IntRoundTrip(p.atoms);
  }

  // ---------- The machine ----------

  /** The counters come out of raw bytes, so they may be negative. */
  datatype Raw = Raw(alts: int, atoms: int, saved: seq<Pushed>, out: seq<Token>)

  const RAW_START := Raw(0, 0, [], [])

  function Positive(n: int): nat {
    if n > 0 then n else 0
  }

  function FlushAsWritten(s: Raw): seq<Token> {
    Catenates(Positive(s.atoms)) + Pipes(Positive(s.alts))
  }

  function SqueezeAsWritten(s: Raw): Raw {
    if s.atoms > 1 then s.(atoms := s.atoms - 1, out := s.out + [CATENATE_TOKEN]) else s
  }

  /** One token other than the closing SEMICOLON; None if expression() fails or exits at it. */
  function StepAsWritten(s: Raw, t: Token): Option<Raw> {
    if IsPostfix(t.kind) then
      if s.atoms == 0 then None else Some(s.(out := s.out + [t]))
    else if t.kind.Pipe? then
      if s.atoms == 0 then None
      else Some(s.(alts := s.alts + 1, atoms := if s.atoms > 0 then 0 else s.atoms - 1,
                   out := s.out + Catenates(Positive(s.atoms))))
    else if t.kind.OpenParen? then
      var q := SqueezeAsWritten(s);
      Some(Raw(0, 0, q.saved + [Pushed(q.alts, q.atoms)], q.out))
    else if t.kind.CloseParen? then
      if s.saved == [] || s.atoms == 0 then None
      else
        var p := Popped(s.saved);
        Some(Raw(p.alts, p.atoms + 1, s.saved[..|s.saved| - 1], s.out + FlushAsWritten(s)))
    else if IsOperand(t.kind) then
      var q := SqueezeAsWritten(s);
      Some(q.(atoms := q.atoms + 1, out := q.out + [t]))
    else None
  }

  function FeedAsWritten(s: Raw, body: seq<Token>): Option<Raw>
    decreases |body|
  {
    if body == [] then Some(s)
    else
      match StepAsWritten(s, body[0])
      case None => None
      case Some(next) => FeedAsWritten(next, body[1..])
  }

  /** The output handed back at the SEMICOLON after body, if the body is accepted there. */
  function CompileAsWritten(body: seq<Token>): Option<seq<Token>> {
    match FeedAsWritten(RAW_START, body)
    case None => None
    case Some(s) => if s.saved == [] then Some(s.out + FlushAsWritten(s)) else None
  }

  // ---------- Bodies whose inner groups stand in front ----------

  /** Every '(' inside open groups stands directly after another '(', and the outermost '(' of such a run starts
      the body or follows a '|' outside all groups. front says that a '(' here would stand so. */
  predicate FrontNested(body: seq<Token>, open: int, front: bool) {
    body != [] ==>
      var k := body[0].kind;
      (k.OpenParen? && open > 0 ==> front) && FrontNested(body[1..], open + Deeper(k), Ahead(k, open, front))
  }

  function Deeper(k: Kind): int {
    if k.OpenParen? then 1 else if k.CloseParen? then -1 else 0
  }

  predicate Ahead(k: Kind, open: int, front: bool) {
    if k.OpenParen? then front else k.Pipe? && open == 0
  }

  /** Nothing but the alternatives before the outermost group is saved. */
  predicate Clean(saved: seq<Saved>) {
    forall i :: 0 <= i < |saved| ==> saved[i].atoms == 0 && (i > 0 ==> saved[i].alts == 0)
  }

  /** What front nesting keeps true of the documented stack. */
  predicate Front(s: State, front: bool) {
    && (front ==> s.atoms == 0)
    && (front && s.saved != [] ==> s.alts == 0)
    && (front || |s.saved| >= 2 ==> Clean(s.saved))
  }

  /** Every '(' inside open groups is read with fewer than 256 bars before the outermost one, so that their number
      fits a byte; bars are those outside all groups so far. */
  predicate BarsFit(body: seq<Token>, open: int, bars: nat) {
    body != [] ==>
      var k := body[0].kind;
      (k.OpenParen? && open > 0 ==> bars < 0x100) &&
      BarsFit(body[1..], open + Deeper(k), bars + if k.Pipe? && open == 0 then 1 else 0)
  }

  lemma {:induction false} FewBarsFit(body: seq<Token>, open: int, bars: nat)
    requires bars + |body| < 0x100
    ensures BarsFit(body, open, bars)
  {
    if body != [] {
      FewBarsFit(body[1..], open + Deeper(body[0].kind), bars + if body[0].kind.Pipe? && open == 0 then 1 else 0);
    }
  }

  /** The bars read outside all groups. */
  function OuterBars(s: State): nat {
    if s.saved == [] then s.alts else s.saved[0].alts
  }

  /** The counters stay below the number of tokens read. */
  predicate Small(s: State, n: nat) {
    s.alts <= n && s.atoms <= n && forall i :: 0 <= i < |s.saved| ==> s.saved[i].alts <= n && s.saved[i].atoms <= n
  }

  /** The two machines differ in their output at most. */
  predicate Same(s: State, r: Raw) {
    r.alts == s.alts && r.atoms == s.atoms && |r.saved| == |s.saved| &&
    forall i :: 0 <= i < |s.saved| ==> r.saved[i] == Pushed(s.saved[i].alts, s.saved[i].atoms)
  }

  lemma {:induction false} CleanBytes(saved: seq<Pushed>)
    requires saved != [] && 0 <= saved[0].alts < 0x100 && saved[0].atoms == 0
    requires forall i :: 1 <= i < |saved| ==> saved[i] == Pushed(0, 0)
    ensures forall i :: 1 <= i < 8 * |saved| ==> StackBytes(saved)[i] == 0
  {
    var n := |saved| - 1;
    if n > 0 {
      CleanBytes(saved[..n]);
      assert IntBytes(0) == [0, 0, 0, 0];
    } else {
      assert IntBytes(saved[0].alts)[1..] == [0, 0, 0];
    }
  }

  lemma PoppedClean(s: State, r: Raw)
    requires Same(s, r) && Small(s, INT_MAX) && s.saved != []
    requires |s.saved| >= 2 ==> Clean(s.saved) && OuterBars(s) < 0x100
    ensures Popped(r.saved) == r.saved[|r.saved| - 1]
  {
    var n := |r.saved|;
    if n == 1 {
      assert r.saved == [r.saved[0]];
      PoppedFromOne(r.saved[0]);
    } else {
      CleanBytes(r.saved);
      assert r.saved[..n] == r.saved;
      PoppedAt(r.saved, n);
    }
  }

  /** A step that neither machine is misled by: the same verdict, and the same tokens w put out. */
  lemma StepAgrees(s: State, r: Raw, t: Token) returns (w: seq<Token>)
    requires Same(s, r)
    requires t.kind.CloseParen? && s.saved != [] ==> Popped(r.saved) == r.saved[|r.saved| - 1]
    ensures Step(s, t).Next? <==> StepAsWritten(r, t).Some?
    ensures Step(s, t).Next? ==>
            var s2, r2 := Step(s, t).state, StepAsWritten(r, t).value;
            Same(s2, r2) && s2.out == s.out + w && r2.out == r.out + w
  {
    hide Popped;
    if IsPostfix(t.kind) {
      w := [t];
    } else if t.kind.Pipe? {
      w := Catenates(s.atoms);
    } else if t.kind.OpenParen? {
      w := if s.atoms > 1 then [CATENATE_TOKEN] else [];
    } else if t.kind.CloseParen? {
      w := Flush(s);
    } else {
      w := if s.atoms > 1 then [CATENATE_TOKEN, t] else [t];
    }
  }

  lemma StepStaysFront(s: State, t: Token, front: bool, n: nat)
    requires Front(s, front) && Small(s, n) && Step(s, t).Next? && (t.kind.OpenParen? && s.saved != [] ==> front)
    ensures Front(Step(s, t).state, Ahead(t.kind, |s.saved|, front))
    ensures Small(Step(s, t).state, n + 1)
  {
  }

  /** On a front-nested stretch with few enough bars the pop as written is the documented one. */
  lemma {:induction false} FrontAgrees(s: State, r: Raw, body: seq<Token>, front: bool, n: nat) returns (w: seq<Token>)
    requires Same(s, r) && Front(s, front) && Small(s, n) && n + |body| <= INT_MAX
    requires FrontNested(body, |s.saved|, front)
    requires BarsFit(body, |s.saved|, OuterBars(s)) && (|s.saved| >= 2 ==> OuterBars(s) < 0x100)
    ensures Feed(s, body).Some? <==> FeedAsWritten(r, body).Some?
    ensures Feed(s, body).Some? ==>
            var s2, r2 := Feed(s, body).value, FeedAsWritten(r, body).value;
            Same(s2, r2) && s2.out == s.out + w && r2.out == r.out + w
    decreases |body|
  {
    hide Step, StepAsWritten, Popped, Front;
    w := [];
    if body != [] {
      var t := body[0];
      if t.kind.CloseParen? && s.saved != [] {
        if |s.saved| >= 2 { FrontIsClean(s, front); }
        PoppedClean(s, r);
      }
      var v := StepAgrees(s, r, t);
      if Step(s, t).Next? {
        StepStaysFront(s, t, front, n);
        StepHeight(s, t);
        StepBars(s, t);
        var u := FrontAgrees(Step(s, t).state, StepAsWritten(r, t).value, body[1..],
                             Ahead(t.kind, |s.saved|, front), n + 1);
        w := v + u;
      }
    }
  }

  /** A front-nested body of any length an int can count is compiled as with the documented stack, or refused as
      there, if fewer than 256 bars stand before every nested group. */
  lemma FrontCompiles(body: seq<Token>)
    requires |body| <= INT_MAX && FrontNested(body, 0, true) && BarsFit(body, 0, 0)
    ensures CompileAsWritten(body) == Compile(body)
  {
    hide Feed, FeedAsWritten, FrontNested, BarsFit, Catenates, Pipes;
    var w := FrontAgrees(START, RAW_START, body, true, 0);
  }

  lemma FrontIsClean(s: State, front: bool)
    requires Front(s, front) && |s.saved| >= 2
    ensures Clean(s.saved)
  {
  }

  lemma StepHeight(s: State, t: Token)
    requires Step(s, t).Next?
    ensures |Step(s, t).state.saved| == |s.saved| + Deeper(t.kind)
  {
  }

  lemma StepBars(s: State, t: Token)
    requires Step(s, t).Next?
    ensures OuterBars(Step(s, t).state) == OuterBars(s) + if t.kind.Pipe? && s.saved == [] then 1 else 0
  {
  }

  // ---------- Nesting depth ----------

  /** The parentheses of body never nest deeper than d, starting inside open of them. */
  predicate NestsWithin(body: seq<Token>, open: int, d: int) {
    open <= d && (body != [] ==> NestsWithin(body[1..], open + Deeper(body[0].kind), d))
  }

  lemma {:induction false} NestsMore(body: seq<Token>, open: int, d: int, e: int)
    requires NestsWithin(body, open, d) && d <= e
    ensures NestsWithin(body, open, e)
  {
    if body != [] {
      NestsMore(body[1..], open + Deeper(body[0].kind), d, e);
    }
  }

  lemma PoppedFromSmall(s: State, r: Raw, n: nat)
    requires Same(s, r) && Small(s, n) && n <= INT_MAX && |s.saved| == 1
    ensures Popped(r.saved) == r.saved[0]
  {
    assert r.saved == [r.saved[0]];
    PoppedFromOne(r.saved[0]);
  }

  lemma StepStaysSmall(s: State, t: Token, n: nat)
    requires Small(s, n) && Step(s, t).Next?
    ensures Small(Step(s, t).state, n + 1)
  {
  }

  lemma {:induction false} ShallowAgrees(s: State, r: Raw, body: seq<Token>, n: nat)
    requires Same(s, r) && r.out == s.out && Small(s, n) && n + |body| <= INT_MAX
    requires NestsWithin(body, |s.saved|, 1)
    ensures Feed(s, body).Some? <==> FeedAsWritten(r, body).Some?
    ensures Feed(s, body).Some? ==>
            var s2, r2 := Feed(s, body).value, FeedAsWritten(r, body).value; Same(s2, r2) && r2.out == s2.out
    decreases |body|
  {
    hide Step, StepAsWritten, Popped;
    if body != [] {
      var t := body[0];
      if |s.saved| == 1 { PoppedFromSmall(s, r, n); }
      var w := StepAgrees(s, r, t);
      if Step(s, t).Next? {
        StepStaysSmall(s, t, n);
        StepHeight(s, t);
        ShallowAgrees(Step(s, t).state, StepAsWritten(r, t).value, body[1..], n + 1);
      }
    }
  }

  lemma ShallowCompiles(body: seq<Token>)
    requires |body| <= INT_MAX && NestsWithin(body, 0, 1)
    ensures CompileAsWritten(body) == Compile(body)
  {
    hide Feed, FeedAsWritten, NestsWithin, Catenates, Pipes;
    ShallowAgrees(START, RAW_START, body, 0);
  }

  // ---------- Two groups deep ----------

  const X := Token(TerminalSymbol, "X")
  const A := Token(TerminalSymbol, "A")
  const X_THEN_A := [OPEN, X, OPEN, A, CLOSE, CLOSE]

  const OUTER := Pushed(0, 0)
  const INNER := Pushed(0, 1)

  /** From two pairs, the first of them zero, a pop reads the bars of the second as the sign byte of its atoms. */
  lemma PoppedFromTwo(q: Pushed)
    requires 0 <= q.alts < 0x100
    ensures Popped([OUTER, q]) == Pushed(0, BytesInt([0, 0, 0, q.alts]))
  {
    var saved := [OUTER, q];
    var b := StackBytes(saved);
    FirstPairBytes(saved);
    SecondPairBytes(OUTER, q);
    assert saved[..2] == saved;
    PoppedAt(saved, 2);
    assert IntBytes(0) == [0, 0, 0, 0];
    assert b[8] == b[8..16][0] == q.alts;
    assert b[1..5] == IntBytes(0) && b[5..9] == [0, 0, 0, q.alts];
  }

  lemma FeedFirst(r: Raw, t: Token, rest: seq<Token>)
    ensures FeedAsWritten(r, [t] + rest) ==
            match StepAsWritten(r, t) { case None => None case Some(next) => FeedAsWritten(next, rest) }
  {
    assert ([t] + rest)[1..] == rest;
  }

  /** The opening group, up to the first ')'. */
  lemma ForgottenAtomOpens()
    ensures FeedAsWritten(RAW_START, X_THEN_A) == FeedAsWritten(Raw(0, 1, [OUTER, INNER], [X, A]), [CLOSE, CLOSE])
  {
    hide FeedAsWritten, Popped;
    var rest := [CLOSE, CLOSE];
    FeedFirst(RAW_START, OPEN, [X] + ([OPEN] + ([A] + rest)));
    assert [] + [OUTER] == [OUTER];
    FeedFirst(Raw(0, 0, [OUTER], []), X, [OPEN] + ([A] + rest));
    assert [] + [X] == [X];
    FeedFirst(Raw(0, 1, [OUTER], [X]), OPEN, [A] + rest);
    assert [OUTER] + [INNER] == [OUTER, INNER];
    FeedFirst(Raw(0, 0, [OUTER, INNER], [X]), A, rest);
    assert [X] + [A] == [X, A];
    assert X_THEN_A == [OPEN] + ([X] + ([OPEN] + ([A] + rest)));
  }

  lemma ForgottenAtomCloses()
    ensures FeedAsWritten(Raw(0, 1, [OUTER, INNER], [X, A]), [CLOSE, CLOSE]) == Some(Raw(0, 1, [], [X, A]))
  {
    hide FeedAsWritten, Popped;
    var inside, outside, last :=
      Raw(0, 1, [OUTER, INNER], [X, A]), Raw(0, 1, [OUTER], [X, A]), Raw(0, 1, [], [X, A]);
    PoppedFromTwo(INNER);
    PoppedFromOne(OUTER);
    assert Catenates(1) + Pipes(0) == [] && [X, A] + [] == [X, A];
    assert [OUTER, INNER][..1] == [OUTER] && [OUTER][..0] == [];
    assert StepAsWritten(inside, CLOSE) == Some(outside) && StepAsWritten(outside, CLOSE) == Some(last);
    FeedFirst(inside, CLOSE, [CLOSE]);
    assert [CLOSE, CLOSE] == [CLOSE] + [CLOSE] && [CLOSE] == [CLOSE] + [];
    FeedFirst(outside, CLOSE, []);
    FeedNothing(last);
  }

  lemma FeedNothing(r: Raw)
    ensures FeedAsWritten(r, []) == Some(r)
  {
  }

  /** ( X ( A ) ): the atom X is forgotten, so X and A are never concatenated and no tree comes out. */
  lemma ForgottenAtom()
    ensures Derivable(X_THEN_A) && NestsWithin(X_THEN_A, 0, 2) && !FrontNested(X_THEN_A, 0, true)
    ensures Compile(X_THEN_A) == Some([X, A, CATENATE_TOKEN])
    ensures Evaluate([X, A, CATENATE_TOKEN]) == Some(Cat(Atom(X), Atom(A)))
    ensures CompileAsWritten(X_THEN_A) == Some([X, A]) && Evaluate([X, A]) == None
  {
    hide FeedAsWritten, Feed;
    XThenAParses();
    XThenANests();
    ForgottenAtomOpens();
    ForgottenAtomCloses();
    assert Catenates(1) + Pipes(0) == [] && [X, A] + [] == [X, A];
    ExecuteOne([], X, []);
    ExecuteOne([X], A, []);
    assert [] + [X] == [X] && [X] + [A] == [X, A];
  }

  lemma XThenAParses()
    ensures Derivable(X_THEN_A) && Compile(X_THEN_A) == Some([X, A, CATENATE_TOKEN])
    ensures Evaluate([X, A, CATENATE_TOKEN]) == Some(Cat(Atom(X), Atom(A)))
  {
    hide Feed;
    var c := Group(OPEN, Chain(Operand(X), Group(OPEN, Operand(A), CLOSE)), CLOSE);
    assert Yield(Chain(Operand(X), Group(OPEN, Operand(A), CLOSE))) == [X, OPEN, A, CLOSE];
    assert Yield(c) == X_THEN_A;
    CompileParse(c);
    DerivesWellFormed(c, AltLevel);
    assert Postorder(Tree(c)) == [X, A, CATENATE_TOKEN];
    ExecutePostorder(Tree(c), []);
  }

  lemma XThenANests()
    ensures NestsWithin(X_THEN_A, 0, 2) && !FrontNested(X_THEN_A, 0, true)
  {
    var b2, b3 := X_THEN_A[1..], X_THEN_A[1..][1..];
    assert b2 == [X, OPEN, A, CLOSE, CLOSE] && b3 == [OPEN, A, CLOSE, CLOSE];
    assert b3[1..] == [A, CLOSE, CLOSE] && b3[1..][1..] == [CLOSE, CLOSE];
    assert [CLOSE, CLOSE][1..] == [CLOSE] && [CLOSE][1..] == [];
    assert NestsWithin([CLOSE, CLOSE], 2, 2) by {
      assert NestsWithin([CLOSE], 1, 2) by { assert NestsWithin([], 0, 2); }
    }
    assert NestsWithin(b3, 1, 2) && !FrontNested(b3, 1, false);
    assert FrontNested(b2, 1, true) == FrontNested(b3, 1, false);
  }

  /** The depth down to which expression() as written follows the documented stack on every body: one. */
  lemma NestingExact(d: int)
    ensures (forall body: seq<Token> :: |body| <= INT_MAX && NestsWithin(body, 0, d) ==>
              CompileAsWritten(body) == Compile(body))
       <==> d <= 1
  {
    hide Compile, CompileAsWritten;
    if d <= 1 {
      forall body: seq<Token> | |body| <= INT_MAX && NestsWithin(body, 0, d)
        ensures CompileAsWritten(body) == Compile(body)
      {
        NestsMore(body, 0, d, 1);
        ShallowCompiles(body);
      }
    } else {
      ForgottenAtom();
      NestsMore(X_THEN_A, 0, 2, d);
    }
  }
}

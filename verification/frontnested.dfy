/**
 Where expression() as written goes wrong: on every body that is not front-nested. A '(' that is not in front
 leaves something on the saved counters that the misplaced read either turns into a counter of millions or
 loses, so the output has more operators than the body allows, or fewer than it needs.
 */
module FrontNesting {
  import opened Sequences
  import opened Tokens
  import opened Bits
  import opened Regex
  import opened Syntax
  import opened Machine
  import opened Completeness
  import opened AsWritten
  import opened AcceptanceAsWritten

  // ---------- Operators put out and owed ----------

  /** The operators in an output that the compiler made. */
  function Ops(ts: seq<Token>): nat {
    if ts == [] then 0 else (if Copied(ts[0].kind) then 0 else 1) + Ops(ts[1..])
  }

  lemma {:induction false} OpsAppend(a: seq<Token>, b: seq<Token>)
    ensures Ops(a + b) == Ops(a) + Ops(b)
  {
    if a == [] {
      assert a + b == b;
    } else {
      assert (a + b)[1..] == a[1..] + b;
      OpsAppend(a[1..], b);
    }
  }

  lemma OpsOne(ts: seq<Token>, t: Token)
    ensures Ops(ts + [t]) == Ops(ts) + if Copied(t.kind) then 0 else 1
  {
    OpsAppend(ts, [t]);
    assert [t][1..] == [];
  }

  lemma {:induction false} OpsRepeat(t: Token, n: nat)
    requires !Copied(t.kind)
    ensures Ops(Repeat(t, n)) == n
  {
    if n > 0 {
      assert Repeat(t, n)[1..] == Repeat(t, n - 1);
      OpsRepeat(t, n - 1);
    }
  }

  /** The concatenations that n pending atoms need. */
  function Joins(n: int): nat {
    if n > 1 then n - 1 else 0
  }

  lemma OpsCatenates(out: seq<Token>, n: nat)
    ensures Ops(out + Catenates(n)) == Ops(out) + Joins(n)
  {
    OpsAppend(out, Catenates(n));
    OpsRepeat(CATENATE_TOKEN, Joins(n));
  }

  lemma OpsFlush(out: seq<Token>, n: nat, m: nat)
    ensures Ops(out + (Catenates(n) + Pipes(m))) == Ops(out) + Joins(n) + m
  {
    OpsAppend(out, Catenates(n) + Pipes(m));
    OpsAppend(Catenates(n), Pipes(m));
    OpsRepeat(CATENATE_TOKEN, Joins(n));
    OpsRepeat(PIPE_TOKEN, m);
  }

  /** The operators a step puts out. */
  function Put(k: Kind, alts: int, atoms: int): nat {
    if IsPostfix(k) then 0
    else if k.Pipe? then Joins(atoms)
    else if k.CloseParen? then Joins(atoms) + Positive(alts)
    else if atoms > 1 then 1 else 0
  }

  lemma StepPuts(s: State, t: Token)
    requires Step(s, t).Next?
    ensures Ops(Step(s, t).state.out) == Ops(s.out) + Put(t.kind, s.alts, s.atoms)
  {
    if IsPostfix(t.kind) {
      OpsOne(s.out, t);
    } else if t.kind.Pipe? {
      OpsCatenates(s.out, s.atoms);
    } else if t.kind.OpenParen? {
      OpsOne(s.out, CATENATE_TOKEN);
    } else if t.kind.CloseParen? {
      OpsFlush(s.out, s.atoms, s.alts);
    } else {
      OpsOne(s.out, CATENATE_TOKEN);
      OpsOne(Squeeze(s).out, t);
    }
  }

  lemma StepAsWrittenPuts(r: Raw, t: Token)
    requires StepAsWritten(r, t).Some?
    ensures var next := StepAsWritten(r, t).value;
      && Ops(next.out) == Ops(r.out) + Put(t.kind, r.alts, r.atoms)
      && Carried(next.out) == Carried(r.out) + if Copied(t.kind) then [t] else []
  {
    hide Popped, Carried, Ops;
    if IsPostfix(t.kind) {
      OpsOne(r.out, t);
      CarriedOne(r.out, t);
    } else if t.kind.Pipe? {
      OpsCatenates(r.out, Positive(r.atoms));
      CatenatesCarryNothing(r.out, Positive(r.atoms));
    } else if t.kind.OpenParen? {
      OpsOne(r.out, CATENATE_TOKEN);
      CarriedOne(r.out, CATENATE_TOKEN);
    } else if t.kind.CloseParen? {
      OpsFlush(r.out, Positive(r.atoms), Positive(r.alts));
      FlushCarriesPipes(State(Positive(r.alts), Positive(r.atoms), [], r.out));
    } else {
      OpsOne(r.out, CATENATE_TOKEN);
      OpsOne(SqueezeAsWritten(r).out, t);
      CarriedOne(r.out, CATENATE_TOKEN);
      CarriedOne(SqueezeAsWritten(r).out, t);
    }
  }

  /** The operators owed by the groups saved from index k on. */
  function Owed(saved: seq<Saved>, k: nat): nat {
    if |saved| <= k then 0
    else
      var n := |saved| - 1;
      Owed(saved[..n], k) + saved[n].alts + saved[n].atoms
  }

  lemma OwedPush(saved: seq<Saved>, p: Saved, k: nat)
    ensures Owed(saved + [p], k) == if |saved| < k then 0 else Owed(saved, k) + p.alts + p.atoms
  {
    assert (saved + [p])[..|saved|] == saved;
  }

  lemma {:induction false} OwedFirst(saved: seq<Saved>)
    requires saved != []
    ensures Owed(saved, 0) == saved[0].alts + saved[0].atoms + Owed(saved, 1)
  {
    var n := |saved| - 1;
    if n > 0 {
      OwedFirst(saved[..n]);
    }
  }

  /** Operators put out and owed, by the documented stack. */
  function Load(s: State): nat {
    Ops(s.out) + s.alts + Joins(s.atoms) + Owed(s.saved, 0)
  }

  lemma OpenLoad(s: State, t: Token)
    requires t.kind.OpenParen?
    ensures Load(Step(s, t).state) <= Load(s) + 1
  {
    hide Ops;
    StepPuts(s, t);
    var q := Squeeze(s);
    OwedPush(s.saved, Saved(q.alts, q.atoms), 0);
  }

  lemma StepLoad(s: State, t: Token)
    requires Step(s, t).Next?
    ensures Load(Step(s, t).state) <= Load(s) + 1
  {
    hide Ops, Flush, Catenates;
    if t.kind.OpenParen? {
      OpenLoad(s, t);
    } else {
      StepPuts(s, t);
    }
  }

  // ---------- What the two outputs come to ----------

  /** The output when body is followed by the SEMICOLON. */
  function Finish(s: State, body: seq<Token>): Option<seq<Token>> {
    match Feed(s, body)
    case None => None
    case Some(e) => if e.saved == [] then Some(e.out + Flush(e)) else None
  }

  function FinishAsWritten(r: Raw, body: seq<Token>): Option<seq<Token>> {
    match FeedAsWritten(r, body)
    case None => None
    case Some(e) => if e.saved == [] then Some(e.out + FlushAsWritten(e)) else None
  }

  /** The documented output has at most one operator a token. */
  lemma {:induction false} FinishLoad(s: State, body: seq<Token>)
    requires Finish(s, body).Some?
    ensures Ops(Finish(s, body).value) <= Load(s) + |body|
    decreases |body|
  {
    hide Step, Ops;
    if body == [] {
      OpsFlush(s.out, s.atoms, s.alts);
    } else {
      StepLoad(s, body[0]);
      FinishLoad(Step(s, body[0]).state, body[1..]);
    }
  }

  lemma {:induction false} FinishExtends(s: State, body: seq<Token>)
    requires Finish(s, body).Some?
    ensures s.out <= Finish(s, body).value
    decreases |body|
  {
    if body != [] {
      FinishExtends(Step(s, body[0]).state, body[1..]);
    }
  }

  lemma {:induction false} FinishAsWrittenExtends(r: Raw, body: seq<Token>)
    requires FinishAsWritten(r, body).Some?
    ensures r.out <= FinishAsWritten(r, body).value
    ensures Ops(r.out) <= Ops(FinishAsWritten(r, body).value)
    decreases |body|
  {
    hide Popped, Ops;
    var last := FinishAsWritten(r, body).value;
    if body != [] {
      FinishAsWrittenExtends(StepAsWritten(r, body[0]).value, body[1..]);
    }
    assert last == r.out + last[|r.out|..];
    OpsAppend(r.out, last[|r.out|..]);
  }

  // ---------- Two machines on one body ----------

  /** In a group that is not empty in front, some counter of it or of a group around it, the bars before the
      outermost group aside, is not zero. */
  predicate Stained(s: State) {
    s.atoms > 0 || (s.saved != [] && (s.alts > 0 || s.saved[0].atoms > 0 || Owed(s.saved, 1) > 0))
  }

  /** n tokens on, whatever the pops read: the machines are at the same depth, and outside all groups they differ
      in their output only. */
  predicate Linked(s: State, r: Raw, front: bool, n: nat) {
    && |r.saved| == |s.saved|
    && (s.saved == [] ==> r.alts == s.alts && r.atoms == s.atoms)
    && (s.saved != [] ==> r.saved[0] == Pushed(s.saved[0].alts, s.saved[0].atoms))
    && Carried(r.out) == Carried(s.out)
    && Load(s) <= n
    && s.atoms <= 2 && (forall i :: 0 <= i < |s.saved| ==> s.saved[i].atoms <= 1)
    && (!front ==> Stained(s))
  }

  lemma OpenStains(s: State, t: Token)
    requires Stained(s) && t.kind.OpenParen?
    ensures Stained(Step(s, t).state)
  {
    hide Ops;
    var q := Squeeze(s);
    var p := Saved(q.alts, q.atoms);
    OwedPush(s.saved, p, 1);
    assert (s.saved + [p])[0] == if s.saved == [] then p else s.saved[0];
  }

  lemma StepStains(s: State, t: Token, front: bool)
    requires (!front ==> Stained(s)) && Step(s, t).Next? && !Ahead(t.kind, |s.saved|, front)
    ensures Stained(Step(s, t).state)
  {
    hide Owed, Flush, Catenates;
    if t.kind.OpenParen? { OpenStains(s, t); }
  }

  lemma OuterBounded(s: State, n: nat)
    requires Load(s) <= n && s.saved != []
    ensures s.saved[0].alts + s.saved[0].atoms + Owed(s.saved, 1) <= n
  {
    OwedFirst(s.saved);
  }

  lemma PoppedOuter(s: State, r: Raw, front: bool, n: nat)
    requires Linked(s, r, front, n) && n <= 0xFF && |s.saved| == 1
    ensures Popped(r.saved) == r.saved[0]
  {
    OuterBounded(s, n);
    assert r.saved == [r.saved[0]];
    PoppedFromOne(r.saved[0]);
  }

  lemma StepKeepsLink(s: State, r: Raw, t: Token, front: bool, n: nat)
    requires Linked(s, r, front, n) && n <= 0xFF
    requires Step(s, t).Next? && StepAsWritten(r, t).Some?
    ensures Linked(Step(s, t).state, StepAsWritten(r, t).value, Ahead(t.kind, |s.saved|, front), n + 1)
  {
    hide Popped, Carried, Load, Stained, Flush, FlushAsWritten, Catenates;
    StepCarries(s, t);
    StepAsWrittenPuts(r, t);
    StepLoad(s, t);
    if !Ahead(t.kind, |s.saved|, front) { StepStains(s, t, front); }
    if t.kind.CloseParen? && |s.saved| == 1 { PoppedOuter(s, r, front, n); }
  }

  lemma CarriesMore(p: seq<Token>, m: seq<Token>, t: Token)
    requires Copied(t.kind)
    ensures Carried(p + (m + [t])) != Carried(p)
  {
    hide Carried, Copied;
    CarriedAppend(p, m + [t]);
    CarriedOne(m, t);
    assert |Carried(p) + (Carried(m) + [t])| > |Carried(p)|;
  }

  lemma Longer<T>(p: seq<T>, q: seq<T>, all: seq<T>)
    requires p <= all && q <= all && |p| < |q|
    ensures q == p + (q[|p|..|q| - 1] + [q[|q| - 1]])
  {
    assert p == all[..|p|] && q == all[..|q|];
  }

  /** Two beginnings of one output that end in the same operand and carry over the same tokens are equal. */
  lemma Aligned(p: seq<Token>, q: seq<Token>, all: seq<Token>)
    requires p <= all && q <= all && |p| <= |q| && Carried(p) == Carried(q)
    requires q != [] && Copied(q[|q| - 1].kind)
    ensures p == q
  {
    hide Carried, Copied;
    if |p| < |q| {
      Longer(p, q, all);
      CarriesMore(p, q[|p|..|q| - 1], q[|q| - 1]);
    }
  }

  // ---------- A read that is too large ----------

  lemma {:induction false} TailPays(r: Raw, body: seq<Token>)
    requires FrontNested(body, |r.saved|, false) && r.saved != []
    requires FinishAsWritten(r, body).Some?
    requires r.alts >= 0x100 || r.atoms > 0x100
    ensures Ops(FinishAsWritten(r, body).value) >= 0x100
    decreases |body|
  {
    hide Popped, Ops;
    var t := body[0];
    var next := StepAsWritten(r, t).value;
    StepAsWrittenPuts(r, t);
    if Put(t.kind, r.alts, r.atoms) >= 0x100 {
      FinishAsWrittenExtends(next, body[1..]);
    } else {
      TailPays(next, body[1..]);
    }
  }

  lemma {:induction false} TailHuge(r: Raw, body: seq<Token>, k: nat)
    requires FrontNested(body, |r.saved|, false) && 2 <= k <= |r.saved|
    requires FinishAsWritten(r, body).Some?
    requires Popped(r.saved[..k]).alts >= 0x100 || Popped(r.saved[..k]).atoms >= 0x100
    ensures Ops(FinishAsWritten(r, body).value) >= 0x100
    decreases |body|
  {
    hide Popped, Ops;
    var t := body[0];
    var next := StepAsWritten(r, t).value;
    if t.kind.CloseParen? && k == |r.saved| {
      assert r.saved[..k] == r.saved;
      TailPays(next, body[1..]);
    } else {
      assert next.saved[..k] == r.saved[..k];
      TailHuge(next, body[1..], k);
    }
  }

  // ---------- Reads that lose counters ----------

  /** Every pop above the outermost group reads no atom and no bar. */
  predicate Loses(saved: seq<Pushed>) {
    forall k :: 2 <= k <= |saved| ==> Popped(saved[..k]).alts <= 0 && Popped(saved[..k]).atoms <= 0
  }

  /** The machine as written owes less than the documented one, and no group is opened until all are closed. */
  predicate Behind(s: State, r: Raw) {
    && |r.saved| == |s.saved| >= 1
    && r.saved[0] == Pushed(s.saved[0].alts, s.saved[0].atoms)
    && Loses(r.saved)
    && r.atoms <= s.atoms && r.alts <= s.alts
    && Ops(r.out) + Positive(r.alts) + Joins(r.atoms) < Ops(s.out) + s.alts + Joins(s.atoms) + Owed(s.saved, 1)
  }

  lemma LosesLess(saved: seq<Pushed>)
    requires saved != [] && Loses(saved)
    ensures Loses(saved[..|saved| - 1])
  {
    var front := saved[..|saved| - 1];
    forall k | 2 <= k <= |front| ensures Popped(front[..k]).alts <= 0 && Popped(front[..k]).atoms <= 0 {
      assert front[..k] == saved[..k];
    }
  }

  lemma StepBehind(s: State, r: Raw, t: Token)
    requires Behind(s, r) && Step(s, t).Next? && StepAsWritten(r, t).Some?
    requires !t.kind.OpenParen? && (t.kind.CloseParen? ==> |s.saved| >= 2)
    ensures Behind(Step(s, t).state, StepAsWritten(r, t).value)
  {
    hide Popped, Ops, Flush, FlushAsWritten, Catenates;
    StepPuts(s, t);
    StepAsWrittenPuts(r, t);
    if t.kind.CloseParen? {
      assert r.saved[..|r.saved|] == r.saved;
      LosesLess(r.saved);
    }
  }

  lemma {:induction false} TailShort(s: State, r: Raw, body: seq<Token>, n: nat)
    requires Behind(s, r) && s.saved[0].alts <= n && s.saved[0].atoms < n && n + |body| <= 0xFF
    requires FrontNested(body, |s.saved|, false)
    requires Finish(s, body).Some? && FinishAsWritten(r, body).Some?
    ensures Ops(FinishAsWritten(r, body).value) < Ops(Finish(s, body).value)
    decreases |body|
  {
    hide Step, StepAsWritten, Popped, Ops, Behind;
    BehindHeight(s, r);
    var t := body[0];
    var s2, r2 := Step(s, t).state, StepAsWritten(r, t).value;
    if t.kind.CloseParen? && |s.saved| == 1 {
      LastClose(s, r, t, n);
      FewBarsFit(body[1..], 0, s2.alts);
      var w := FrontAgrees(s2, r2, body[1..], false, n);
      var e, f := Feed(s2, body[1..]).value, FeedAsWritten(r2, body[1..]).value;
      assert FlushAsWritten(f) == Flush(e);
      OpsAppend(s2.out, w);
      OpsAppend(r2.out, w);
      OpsAppend(e.out, Flush(e));
      OpsAppend(f.out, Flush(e));
    } else {
      StepBehind(s, r, t);
      StepHeight(s, t);
      StepOuter(s, t);
      TailShort(s2, r2, body[1..], n);
    }
  }

  lemma BehindHeight(s: State, r: Raw)
    requires Behind(s, r)
    ensures |r.saved| == |s.saved| >= 1
  {
  }

  lemma StepOuter(s: State, t: Token)
    requires Step(s, t).Next? && s.saved != [] && (t.kind.CloseParen? ==> |s.saved| >= 2)
    ensures var next := Step(s, t).state; next.saved != [] && next.saved[0] == s.saved[0]
  {
  }

  /** Closing the outermost group leaves only the outputs different. */
  lemma LastClose(s: State, r: Raw, t: Token, n: nat)
    requires Behind(s, r) && |s.saved| == 1 && s.saved[0].alts <= n && s.saved[0].atoms < n <= 0xFF
    requires t.kind.CloseParen? && Step(s, t).Next? && StepAsWritten(r, t).Some?
    ensures var s2, r2 := Step(s, t).state, StepAsWritten(r, t).value;
      Same(s2, r2) && s2.saved == [] && Small(s2, n) && Front(s2, false) && Ops(r2.out) < Ops(s2.out)
  {
    hide Popped, Ops;
    StepPuts(s, t);
    StepAsWrittenPuts(r, t);
    assert r.saved == [r.saved[0]];
    PoppedFromOne(r.saved[0]);
  }

  // ---------- What misplaced reads make of the bytes ----------

  lemma IntSign(b: seq<Byte>)
    requires |b| == 4
    ensures b[3] >= 0x80 ==> BytesInt(b) < 0
    ensures b[3] < 0x80 && BytesInt(b) < 0x100 ==> b[1] == b[2] == b[3] == 0
  {
  }

  /** An atom saved with the outermost group becomes the top byte of the next group's bars. */
  lemma AtomReadAsBars(saved: seq<Pushed>)
    requires |saved| >= 2 && saved[0].atoms == 1
    ensures Popped(saved[..2]).alts >= 0x100_0000
  {
    FirstPairBytes(saved);
    PoppedAt(saved, 2);
    var b := StackBytes(saved);
    assert IntBytes(1) == [1, 0, 0, 0];
    assert b[4] == b[..8][4] == PairBytes(saved[0])[4] == 1;
    assert b[1..5][3] == b[4];
  }

  /** While no read has many atoms: from the first byte that is not 0, every byte that ends a read's atoms is
      that of a negative number. */
  lemma {:induction false} ZeroThenHigh(saved: seq<Pushed>, i: nat)
    requires |saved| >= 2 && 0 <= saved[0].alts < 0x100 && saved[0].atoms == 0
    requires forall k :: 2 <= k <= |saved| ==> Popped(saved[..k]).atoms < 0x100
    requires 1 <= i <= |saved| + 6
    ensures var b := StackBytes(saved); b[i] >= 0x80 || forall j :: 1 <= j <= i ==> b[j] == 0
  {
    hide Popped, BytesInt;
    var b := StackBytes(saved);
    if i < 8 {
      FirstPairZero(saved);
    } else {
      PoppedAt(saved, i - 6);
      IntSign(b[i - 3..i + 1]);
      ZeroThenHigh(saved, i - 1);
    }
  }

  lemma FirstPairZero(saved: seq<Pushed>)
    requires saved != [] && 0 <= saved[0].alts < 0x100 && saved[0].atoms == 0
    ensures forall j :: 1 <= j < 8 ==> StackBytes(saved)[j] == 0
  {
    PrefixBytes(saved, 1);
    CleanBytes(saved[..1]);
    forall j | 1 <= j < 8 ensures StackBytes(saved)[j] == 0 {
      assert StackBytes(saved)[j] == StackBytes(saved)[..8][j];
    }
  }

  lemma IntLow(b: seq<Byte>)
    requires |b| == 4 && (b[3] >= 0x80 || (b[0] == b[1] == b[2] == b[3] == 0))
    ensures BytesInt(b) <= 0
  {
  }

  /** With no atom saved with the outermost group, either some read has many atoms or all reads lose theirs. */
  lemma ReadsLose(saved: seq<Pushed>)
    requires |saved| >= 2 && 0 <= saved[0].alts < 0x100 && saved[0].atoms == 0
    requires forall k :: 2 <= k <= |saved| ==> Popped(saved[..k]).atoms < 0x100
    ensures Loses(saved)
  {
    hide StackBytes, BytesInt, Popped;
    var b := StackBytes(saved);
    forall k | 2 <= k <= |saved| ensures Popped(saved[..k]).alts <= 0 && Popped(saved[..k]).atoms <= 0 {
      PoppedAt(saved, k);
      ZeroThenHigh(saved, k + 2);
      ZeroThenHigh(saved, k + 6);
      IntLow(b[k - 1..k + 3]);
      IntLow(b[k + 3..k + 7]);
    }
  }

  // ---------- Exactly the front-nested bodies ----------

  /** An operand read directly after a '(' that is not in front. */
  lemma OperandAfterMisplaced(s: State, r: Raw, body: seq<Token>, n: nat)
    requires Linked(s, r, false, n) && |s.saved| >= 2 && n + |body| <= 0xFF
    requires s.alts == s.atoms == 0 && r.alts == r.atoms == 0
    requires body != [] && IsOperand(body[0].kind) && FrontNested(body[1..], |s.saved|, false)
    requires Finish(s, body).Some? && FinishAsWritten(r, body).Some?
    ensures FinishAsWritten(r, body) != Finish(s, body)
  {
    hide Popped, Ops, Carried, Load, Loses;
    var t, rest := body[0], body[1..];
    var s2, r2 := Step(s, t).state, StepAsWritten(r, t).value;
    StepKeepsLink(s, r, t, false, n);
    FinishLoad(s2, rest);
    OuterBounded(s, n);
    if s.saved[0].atoms == 1 {
      AtomReadAsBars(r2.saved);
      TailHuge(r2, rest, 2);
    } else if k :| 2 <= k <= |r2.saved| && Popped(r2.saved[..k]).atoms >= 0x100 {
      TailHuge(r2, rest, k);
    } else if FinishAsWritten(r, body) == Finish(s, body) {
      ReadsLose(r2.saved);
      FinishExtends(s2, rest);
      FinishAsWrittenExtends(r2, rest);
      var all := Finish(s, body).value;
      if |s2.out| <= |r2.out| { Aligned(s2.out, r2.out, all); } else { Aligned(r2.out, s2.out, all); }
      TailShort(s2, r2, rest, n + 1);
    }
  }

  lemma {:induction false} EqualIsFront(s: State, r: Raw, body: seq<Token>, front: bool, n: nat)
    requires Linked(s, r, front, n) && n + |body| <= 0xFF
    requires Finish(s, body).Some? && FinishAsWritten(r, body) == Finish(s, body)
    ensures FrontNested(body, |s.saved|, front)
    decreases |body|
  {
    hide Step, StepAsWritten, Linked;
    if body != [] {
      var t, rest := body[0], body[1..];
      var s1, r1 := Step(s, t).state, StepAsWritten(r, t).value;
      StepKeepsLink(s, r, t, front, n);
      StepHeight(s, t);
      EqualIsFront(s1, r1, rest, Ahead(t.kind, |s.saved|, front), n + 1);
      if t.kind.OpenParen? && s.saved != [] && !front {
        AfterOpening(s, r, t);
        NextIsOperand(s1, rest);
        OperandAfterMisplaced(s1, r1, rest, n + 1);
      }
    }
  }

  lemma AfterOpening(s: State, r: Raw, t: Token)
    requires t.kind.OpenParen?
    ensures Step(s, t).Next? && Step(s, t).state.alts == Step(s, t).state.atoms == 0
    ensures StepAsWritten(r, t).Some? && StepAsWritten(r, t).value.alts == StepAsWritten(r, t).value.atoms == 0
  {
  }

  lemma NextIsOperand(s: State, body: seq<Token>)
    requires s.saved != [] && s.atoms == 0 && Finish(s, body).Some? && FrontNested(body, |s.saved|, false)
    ensures body != [] && IsOperand(body[0].kind)
  {
  }

  lemma Starts()
    ensures Linked(START, RAW_START, true, 0)
  {
  }

  /** For bodies of fewer than 256 tokens: expression() as written does what it does with the documented stack
      exactly on those that are refused and those that are front-nested; every other one is accepted with another
      output. */
  lemma FrontNestingExact(body: seq<Token>)
    requires |body| < 0x100
    ensures CompileAsWritten(body) == Compile(body) <==> Compile(body).None? || FrontNested(body, 0, true)
    ensures CompileAsWritten(body).Some? <==> Compile(body).Some?
  {
    hide Feed, FeedAsWritten, FrontNested, Linked, Catenates, Pipes;
    Starts();
    SameAcceptance(body);
    if FrontNested(body, 0, true) {
      FewBarsFit(body, 0, 0);
      FrontCompiles(body);
    }
    if Compile(body).Some? && CompileAsWritten(body) == Compile(body) {
      EqualIsFront(START, RAW_START, body, true, 0);
    }
  }

  // ---------- Exactly there the output is the tree ----------

  /** The code of a stack of trees. */
  function Codes(stack: seq<Regex>): seq<Token> {
    if stack == [] then [] else Codes(stack[..|stack| - 1]) + Postorder(stack[|stack| - 1])
  }

  lemma CodesLast(front: seq<Regex>, t: Regex)
    ensures Codes(front + [t]) == Codes(front) + Postorder(t)
  {
    hide Postorder;
    assert (front + [t])[..|front|] == front;
  }

  /** Code is determined by the trees it leaves. */
  lemma {:induction false} CodeOfStack(code: seq<Token>, stack: seq<Regex>)
    requires OnlyOutput(code) && Execute(code, []) == Some(stack)
    ensures code == Codes(stack)
  {
    if code != [] {
      var front, t := code[..|code| - 1], code[|code| - 1];
      assert code == front + [t];
      ExecuteOne(front, t, []);
      var before := Execute(front, []).value;
      CodeOfStack(front, before);
      CodeStep(before, t, stack);
    }
  }

  lemma CodeStep(before: seq<Regex>, t: Token, stack: seq<Regex>)
    requires Copied(t.kind) || t == CATENATE_TOKEN || t == PIPE_TOKEN
    requires Execute1(t, before) == Some(stack)
    ensures Codes(stack) == Codes(before) + [t]
  {
    hide Codes, Postorder;
    var n := |before|;
    if IsOperand(t.kind) {
      CodesLast(before, Atom(t));
      assert Postorder(Atom(t)) == [t] by { PostorderAtom(t); }
    } else if IsPostfix(t.kind) {
      var front, arg := before[..n - 1], before[n - 1];
      assert before == front + [arg];
      CodesLast(front, arg);
      CodesLast(front, Post(arg, t));
      PostorderPost(arg, t);
      Assoc(Codes(front), Postorder(arg), [t]);
    } else {
      var front, l, r := before[..n - 2], before[n - 2], before[n - 1];
      assert before == front + [l] + [r];
      CodesLast(front, l);
      CodesLast(front + [l], r);
      CodesLast(front, Cat(l, r));
      CodesLast(front, Alt(l, r));
      PostorderTwo(l, r);
      Assoc(Codes(front), Postorder(l), Postorder(r));
      Assoc(Codes(front), Postorder(l) + Postorder(r), [t]);
    }
  }

  lemma PostorderAtom(t: Token)
    ensures Postorder(Atom(t)) == [t]
  {
  }

  lemma PostorderPost(arg: Regex, t: Token)
    ensures Postorder(Post(arg, t)) == Postorder(arg) + [t]
  {
  }

  lemma PostorderTwo(l: Regex, r: Regex)
    ensures Postorder(Cat(l, r)) == Postorder(l) + Postorder(r) + [CATENATE_TOKEN]
    ensures Postorder(Alt(l, r)) == Postorder(l) + Postorder(r) + [PIPE_TOKEN]
  {
  }

  lemma {:induction false} FeedAsWrittenOnlyOutput(r: Raw, body: seq<Token>)
    requires OnlyOutput(r.out) && FeedAsWritten(r, body).Some?
    ensures OnlyOutput(FeedAsWritten(r, body).value.out)
    decreases |body|
  {
    hide Popped;
    if body != [] {
      FeedAsWrittenOnlyOutput(StepAsWritten(r, body[0]).value, body[1..]);
    }
  }

  /** For a derivable body of fewer than 256 tokens the output as written is code for the body's tree exactly if
      the body is front-nested. */
  lemma TreeAsWrittenExact(body: seq<Token>, c: Syntax)
    requires Derives(c, AltLevel) && Yield(c) == body && |body| < 0x100
    ensures CompileAsWritten(body).Some? && Evaluate(CompileAsWritten(body).value) == Some(Tree(c))
       <==> FrontNested(body, 0, true)
  {
    hide FeedAsWritten, Yield, FrontNested;
    FrontNestingExact(body);
    CompileParse(c);
    DerivesWellFormed(c, AltLevel);
    ExecutePostorder(Tree(c), []);
    if CompileAsWritten(body).Some? && Evaluate(CompileAsWritten(body).value) == Some(Tree(c)) {
      var out := CompileAsWritten(body).value;
      FeedAsWrittenOnlyOutput(RAW_START, body);
      assert Execute(out, []).value == [Tree(c)];
      CodeOfStack(out, [Tree(c)]);
      assert [] + [Tree(c)] == [Tree(c)] && [] + Postorder(Tree(c)) == Postorder(Tree(c));
      CodesLast([], Tree(c));
    }
  }
}

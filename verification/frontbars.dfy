/**
 Front-nested bodies of any length an int can count: expression() as written does what it does with the
 documented stack exactly if fewer than 256 bars stand before every nested group. With more, the bars beyond the
 lowest byte are read as bars of the nested group, and come out a second time.
 */
module FrontBars {
  import opened Tokens
  import opened Bits
  import opened Machine
  import opened AsWritten
  import opened FrontNesting

  /** A pop above the outermost group reads the higher bytes of its bars. */
  lemma PoppedBars(saved: seq<Pushed>)
    requires |saved| >= 2 && 0 <= saved[0].alts <= INT_MAX && saved[0].atoms == 0
    requires forall i :: 1 <= i < |saved| ==> saved[i] == Pushed(0, 0)
    ensures Popped(saved).atoms == 0 && Popped(saved).alts >= 0
    ensures |saved| == 2 && saved[0].alts >= 0x100 ==> Popped(saved).alts > 0
  {
    hide BytesInt, Popped;
    var k, b := |saved|, StackBytes(saved);
    assert saved[..k] == saved;
    PoppedAt(saved, k);
    ZeroBytes(saved);
    var low, high := b[k - 1..k + 3], b[k + 3..k + 7];
    assert forall j :: 0 <= j < 4 ==> high[j] == b[k + 3 + j] == 0;
    IntZero(high);
    IntHigh(low);
    if k == 2 && saved[0].alts >= 0x100 {
      FirstPairBytes(saved);
      HigherBytes(saved[0].alts);
      assert forall j :: 1 <= j < 4 ==> b[j] == b[..8][j] == IntBytes(saved[0].alts)[j];
    }
  }

  lemma IntZero(b: seq<Byte>)
    requires |b| == 4 && forall j :: 0 <= j < 4 ==> b[j] == 0
    ensures BytesInt(b) == 0
  {
  }

  lemma IntHigh(b: seq<Byte>)
    requires |b| == 4 && b[3] == 0
    ensures BytesInt(b) >= 0
    ensures b[0] > 0 || b[1] > 0 || b[2] > 0 ==> BytesInt(b) > 0
  {
  }

  lemma HigherBytes(n: int)
    requires 0x100 <= n <= INT_MAX
    ensures var b := IntBytes(n); b[1] > 0 || b[2] > 0 || b[3] > 0
  {
  }

  lemma {:induction false} ZeroBytes(saved: seq<Pushed>)
    requires saved != [] && 0 <= saved[0].alts <= INT_MAX && saved[0].atoms == 0
    requires forall i :: 1 <= i < |saved| ==> saved[i] == Pushed(0, 0)
    ensures forall i :: 4 <= i < 8 * |saved| ==> StackBytes(saved)[i] == 0
  {
    var n := |saved| - 1;
    assert IntBytes(0) == [0, 0, 0, 0];
    if n > 0 {
      ZeroBytes(saved[..n]);
    }
  }

  // ---------- Bars that come out twice ----------

  /** The machines save the same; as written, an open group may have more bars and the output more operators. */
  predicate Beyond(s: State, r: Raw, front: bool) {
    && r.atoms == s.atoms && r.alts >= s.alts && |r.saved| == |s.saved|
    && (forall i :: 0 <= i < |s.saved| ==> r.saved[i] == Pushed(s.saved[i].alts, s.saved[i].atoms))
    && (s.saved == [] || front ==> r.alts == s.alts)
    && Ops(r.out) >= Ops(s.out)
  }

  /** More operators are out, pending or still to be misread. */
  predicate Gains(s: State, r: Raw) {
    || Ops(r.out) > Ops(s.out)
    || (s.saved != [] && r.alts > s.alts)
    || (|s.saved| >= 2 && OuterBars(s) >= 0x100)
  }

  lemma PopBeyond(s: State, r: Raw, front: bool)
    requires Beyond(s, r, front) && Front(s, front) && Small(s, INT_MAX) && s.saved != []
    ensures var n := |s.saved| - 1; var p := Popped(r.saved);
      && p.atoms == s.saved[n].atoms && p.alts >= s.saved[n].alts
      && (n == 0 ==> p.alts == s.saved[n].alts)
      && (n == 1 && OuterBars(s) >= 0x100 ==> p.alts > s.saved[n].alts)
  {
    hide Popped, Ops;
    if |s.saved| == 1 {
      assert r.saved == [r.saved[0]];
      PoppedFromOne(r.saved[0]);
    } else {
      PoppedBars(r.saved);
    }
  }

  lemma StepBeyond(s: State, r: Raw, t: Token, front: bool)
    requires Beyond(s, r, front) && Front(s, front) && Small(s, INT_MAX)
    requires t.kind.OpenParen? && s.saved != [] ==> front
    ensures Step(s, t).Next? <==> StepAsWritten(r, t).Some?
    ensures Step(s, t).Next? ==> Beyond(Step(s, t).state, StepAsWritten(r, t).value, Ahead(t.kind, |s.saved|, front))
    ensures Step(s, t).Next? && (Gains(s, r) || (t.kind.OpenParen? && s.saved != [] && OuterBars(s) >= 0x100)) ==>
            Gains(Step(s, t).state, StepAsWritten(r, t).value)
  {
    hide Popped, Ops, Flush, FlushAsWritten, Catenates;
    if Step(s, t).Next? {
      if t.kind.CloseParen? { PopBeyond(s, r, front); }
      StepPuts(s, t);
      StepAsWrittenPuts(r, t);
    }
  }

  lemma {:induction false} FinishBeyond(s: State, r: Raw, body: seq<Token>, front: bool, n: nat)
    requires Beyond(s, r, front) && Front(s, front) && Small(s, n) && n + |body| <= INT_MAX
    requires FrontNested(body, |s.saved|, front)
    ensures Finish(s, body).Some? <==> FinishAsWritten(r, body).Some?
    ensures Finish(s, body).Some? && (Gains(s, r) || !BarsFit(body, |s.saved|, OuterBars(s))) ==>
            Ops(FinishAsWritten(r, body).value) > Ops(Finish(s, body).value)
    decreases |body|
  {
    hide Step, StepAsWritten, Popped, Ops, Front;
    if body == [] {
      OpsFlush(s.out, s.atoms, s.alts);
      OpsFlush(r.out, Positive(r.atoms), Positive(r.alts));
    } else {
      var t := body[0];
      StepBeyond(s, r, t, front);
      if Step(s, t).Next? {
        StepStaysFront(s, t, front, n);
        StepHeight(s, t);
        StepBars(s, t);
        FinishBeyond(Step(s, t).state, StepAsWritten(r, t).value, body[1..], Ahead(t.kind, |s.saved|, front), n + 1);
      }
    }
  }

  lemma Starts()
    ensures Beyond(START, RAW_START, true) && Front(START, true) && Small(START, 0)
  {
  }

  /** A front-nested body is accepted as written exactly if it is accepted with the documented stack, and the
      outputs are equal exactly if fewer than 256 bars stand before every nested group. */
  lemma FrontBarsExact(body: seq<Token>)
    requires |body| <= INT_MAX && FrontNested(body, 0, true)
    ensures CompileAsWritten(body).Some? <==> Compile(body).Some?
    ensures CompileAsWritten(body) == Compile(body) <==> Compile(body).None? || BarsFit(body, 0, 0)
  {
    hide Feed, FeedAsWritten, FrontNested, BarsFit, Beyond, Front, Small, Catenates, Pipes;
    Starts();
    FinishBeyond(START, RAW_START, body, true, 0);
    if BarsFit(body, 0, 0) {
      FrontCompiles(body);
    }
  }
}

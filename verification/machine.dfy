/**
 The state machine inside `expression` of src/parser/parser.c: two counters, a stack of saved
 counters and the postfix output. The method that runs it in place is in ruleparser.dfy.
 */
module Machine {
  import opened Sequences
  import opened Tokens

  datatype Saved = Saved(alts: nat, atoms: nat)

  datatype State = State(alts: nat, atoms: nat, saved: seq<Saved>, out: seq<Token>)

  const START := State(0, 0, [], [])

  /** Error ends expression() with NULL; Exit is its internal error, exit(1). */
  datatype Verdict = Next(state: State) | Error | Exit

  function Repeat(t: Token, n: nat): (r: seq<Token>)
    ensures |r| == n
  {
    seq(n, _ => t)
  }

  /** The concatenations that n pending atoms need: one fewer than atoms, none for no atoms. */
  function Catenates(n: nat): seq<Token> {
    Repeat(CATENATE_TOKEN, if n == 0 then 0 else n - 1)
  }

  function Pipes(n: nat): seq<Token> {
    Repeat(PIPE_TOKEN, n)
  }

  /** What closing a group or a body appends: the delayed concatenations, then the delayed alternations. */
  function Flush(s: State): seq<Token> {
    Catenates(s.atoms) + Pipes(s.alts)
  }

  /** Before a third atom arrives the first two are concatenated. */
  function Squeeze(s: State): State {
    if s.atoms > 1 then s.(atoms := s.atoms - 1, out := s.out + [CATENATE_TOKEN]) else s
  }

  /** One token other than the closing SEMICOLON. */
  function Step(s: State, t: Token): Verdict {
    if IsDirective(t.kind) || t.kind.Colon? then Error
    else if IsPostfix(t.kind) then
      if s.atoms == 0 then Error else Next(s.(out := s.out + [t]))
    else if t.kind.Pipe? then
      if s.atoms == 0 then Error
      else Next(s.(alts := s.alts + 1, atoms := 0, out := s.out + Catenates(s.atoms)))
    else if t.kind.OpenParen? then
      var q := Squeeze(s);
      Next(State(0, 0, q.saved + [Saved(q.alts, q.atoms)], q.out))
    else if t.kind.CloseParen? then
      if s.saved == [] || s.atoms == 0 then Error
      else
        var n := |s.saved| - 1;
        Next(State(s.saved[n].alts, s.saved[n].atoms + 1, s.saved[..n], s.out + Flush(s)))
    else if IsOperand(t.kind) then
      var q := Squeeze(s);
      Next(q.(atoms := q.atoms + 1, out := q.out + [t]))
    else Exit
  }

  /** The state after a stretch of body tokens, if none of them was refused. */
  function Feed(s: State, body: seq<Token>): Option<State>
    decreases |body|
  {
    if body == [] then Some(s)
    else
      match Step(s, body[0])
      case Next(next) => Feed(next, body[1..])
      case Error => None
      case Exit => None
  }

  /** The output handed back at the SEMICOLON after body, if the body is accepted there. */
  function Compile(body: seq<Token>): Option<seq<Token>> {
    match Feed(START, body)
    case None => None
    case Some(s) => if s.saved == [] then Some(s.out + Flush(s)) else None
  }

  lemma {:induction false} FeedAppend(s: State, a: seq<Token>, b: seq<Token>)
    ensures Feed(s, a + b) == match Feed(s, a) { case None => None case Some(m) => Feed(m, b) }
    decreases |a|
  {
    if a == [] {
      assert a + b == b;
    } else {
      assert (a + b)[1..] == a[1..] + b;
      match Step(s, a[0]) {
        case Next(next) => FeedAppend(next, a[1..], b);
        case _ =>
      }
    }
  }

  lemma FeedOne(s: State, a: seq<Token>, t: Token)
    ensures Feed(s, a + [t]) ==
            match Feed(s, a) {
              case None => None
              case Some(m) => if Step(m, t).Next? then Some(Step(m, t).state) else None
            }
  {
    FeedAppend(s, a, [t]);
    assert [t][1..] == [];
  }

  // ---------- What every prefix of a body conserves ----------

  function Count(ts: seq<Token>, k: Kind): nat {
    if ts == [] then 0 else (if ts[0].kind == k then 1 else 0) + Count(ts[1..], k)
  }

  predicate Copied(k: Kind) {
    IsOperand(k) || IsPostfix(k)
  }

  /** The operands and postfix operators of a token list, in order. */
  function Carried(ts: seq<Token>): seq<Token> {
    if ts == [] then [] else (if Copied(ts[0].kind) then [ts[0]] else []) + Carried(ts[1..])
  }

  lemma {:induction false} CountAppend(a: seq<Token>, b: seq<Token>, k: Kind)
    ensures Count(a + b, k) == Count(a, k) + Count(b, k)
  {
    if a == [] {
      assert a + b == b;
    } else {
      assert (a + b)[1..] == a[1..] + b;
      CountAppend(a[1..], b, k);
    }
  }

  lemma {:induction false} CarriedAppend(a: seq<Token>, b: seq<Token>)
    ensures Carried(a + b) == Carried(a) + Carried(b)
  {
    hide Copied;
    if a == [] {
      assert a + b == b;
    } else {
      assert (a + b)[1..] == a[1..] + b;
      CarriedAppend(a[1..], b);
      Assoc(if Copied(a[0].kind) then [a[0]] else [], Carried(a[1..]), Carried(b));
    }
  }

  lemma {:induction false} CountRepeat(t: Token, n: nat, k: Kind)
    ensures Count(Repeat(t, n), k) == if t.kind == k then n else 0
  {
    if n > 0 {
      assert Repeat(t, n)[1..] == Repeat(t, n - 1);
      CountRepeat(t, n - 1, k);
    }
  }

  lemma {:induction false} CarriedRepeat(t: Token, n: nat)
    requires !Copied(t.kind)
    ensures Carried(Repeat(t, n)) == []
  {
    if n > 0 {
      assert Repeat(t, n)[1..] == Repeat(t, n - 1);
      CarriedRepeat(t, n - 1);
    }
  }

  function SavedAlts(saved: seq<Saved>): nat {
    if saved == [] then 0 else SavedAlts(saved[..|saved| - 1]) + saved[|saved| - 1].alts
  }

  /** Pipes already in the output, still owed by the open group, and owed by the groups around it. */
  function PipesDue(s: State): nat {
    Count(s.out, Pipe) + s.alts + SavedAlts(s.saved)
  }

  predicate OnlyOutput(ts: seq<Token>) {
    forall i :: 0 <= i < |ts| ==> Copied(ts[i].kind) || ts[i] == CATENATE_TOKEN || ts[i] == PIPE_TOKEN
  }

  lemma CarriedOne(ts: seq<Token>, t: Token)
    ensures Carried(ts + [t]) == Carried(ts) + if Copied(t.kind) then [t] else []
    ensures Count(ts + [t], Pipe) == Count(ts, Pipe) + if t.kind.Pipe? then 1 else 0
  {
    CarriedAppend(ts, [t]);
    CountAppend(ts, [t], Pipe);
    assert [t][1..] == [];
  }

  lemma CatenatesCarryNothing(out: seq<Token>, n: nat)
    ensures Carried(out + Catenates(n)) == Carried(out)
    ensures Count(out + Catenates(n), Pipe) == Count(out, Pipe)
  {
    var m := |Catenates(n)|;
    CarriedAppend(out, Catenates(n));
    CarriedRepeat(CATENATE_TOKEN, m);
    CountAppend(out, Catenates(n), Pipe);
    CountRepeat(CATENATE_TOKEN, m, Pipe);
  }

  lemma FlushCarriesPipes(s: State)
    ensures Carried(s.out + Flush(s)) == Carried(s.out)
    ensures Count(s.out + Flush(s), Pipe) == Count(s.out, Pipe) + s.alts
  {
    CatenatesCarryNothing(s.out, s.atoms);
    var front := s.out + Catenates(s.atoms);
    assert s.out + Flush(s) == front + Pipes(s.alts);
    CarriedAppend(front, Pipes(s.alts));
    CarriedRepeat(PIPE_TOKEN, s.alts);
    CountAppend(front, Pipes(s.alts), Pipe);
    CountRepeat(PIPE_TOKEN, s.alts, Pipe);
  }

  lemma StepCarries(s: State, t: Token)
    requires Step(s, t).Next?
    ensures Carried(Step(s, t).state.out) == Carried(s.out) + if Copied(t.kind) then [t] else []
  {
    if IsPostfix(t.kind) {
      CarriedOne(s.out, t);
    } else if t.kind.Pipe? {
      CatenatesCarryNothing(s.out, s.atoms);
    } else if t.kind.OpenParen? {
      CarriedOne(s.out, CATENATE_TOKEN);
    } else if t.kind.CloseParen? {
      FlushCarriesPipes(s);
    } else {
      CarriedOne(s.out, CATENATE_TOKEN);
      CarriedOne(Squeeze(s).out, t);
    }
  }

  lemma StepKeepsPipes(s: State, t: Token)
    requires Step(s, t).Next?
    ensures PipesDue(Step(s, t).state) == PipesDue(s) + if t.kind.Pipe? then 1 else 0
  {
    if IsPostfix(t.kind) {
      CarriedOne(s.out, t);
    } else if t.kind.Pipe? {
      CatenatesCarryNothing(s.out, s.atoms);
    } else if t.kind.OpenParen? {
      var next := Step(s, t).state;
      CarriedOne(s.out, CATENATE_TOKEN);
      assert next.saved[..|next.saved| - 1] == s.saved;
    } else if t.kind.CloseParen? {
      FlushCarriesPipes(s);
    } else {
      CarriedOne(s.out, CATENATE_TOKEN);
      CarriedOne(Squeeze(s).out, t);
    }
  }

  lemma StepOnlyOutput(s: State, t: Token)
    requires OnlyOutput(s.out) && Step(s, t).Next?
    ensures OnlyOutput(Step(s, t).state.out)
  {
  }

  lemma {:induction false} FeedConserves(body: seq<Token>)
    requires Feed(START, body).Some?
    ensures var s := Feed(START, body).value;
      Carried(s.out) == Carried(body) && PipesDue(s) == Count(body, Pipe) && OnlyOutput(s.out)
  {
    if body != [] {
      var front, t := body[..|body| - 1], body[|body| - 1];
      assert body == front + [t];
      FeedOne(START, front, t);
      FeedConserves(front);
      CarriedOne(front, t);
      StepCarries(Feed(START, front).value, t);
      var s := Feed(START, front).value;
      StepKeepsPipes(s, t);
      StepOnlyOutput(s, t);
    }
  }

  /** On every accepted body: operands and postfix operators come out once each in source order,
      as many pipes as went in, and nothing else but concatenations. */
  lemma Conservation(body: seq<Token>)
    requires Compile(body).Some?
    ensures var out := Compile(body).value;
      Carried(out) == Carried(body) && Count(out, Pipe) == Count(body, Pipe) && OnlyOutput(out)
  {
    FeedConserves(body);
    FlushCarriesPipes(Feed(START, body).value);
  }
}

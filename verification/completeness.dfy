/** Every parse of the grammar is compiled to the postorder of its tree. */
module Completeness {
  import opened Sequences
  import opened Tokens
  import opened Regex
  import opened Syntax
  import opened Machine

  /** The two halves of a chain stay unconcatenated until something follows them. */
  function Pending(c: Syntax): seq<Token> {
    if c.Chain? then Postorder(Tree(c.left)) + Postorder(Tree(c.right)) else Postorder(Tree(c))
  }

  function Atoms(c: Syntax): nat {
    if c.Chain? then 2 else 1
  }

  /** The alternatives of a group stay unjoined until the group closes. */
  function PendingAlts(c: Syntax): seq<Token> {
    if c.Choice? then Postorder(Tree(c.left)) + PendingAlts(c.right) else Pending(c)
  }

  function Bars(c: Syntax): nat {
    if c.Choice? then 1 + Bars(c.right) else 0
  }

  function LastAtoms(c: Syntax): nat {
    if c.Choice? then LastAtoms(c.right) else Atoms(c)
  }

  lemma PendingFlush(c: Syntax)
    requires !c.Choice?
    ensures Pending(c) + Catenates(Atoms(c)) == Postorder(Tree(c))
  {
    assert Repeat(CATENATE_TOKEN, 1) == [CATENATE_TOKEN];
    assert Repeat(CATENATE_TOKEN, 0) == [];
  }

  lemma {:induction false} PendingAltsFlush(c: Syntax)
    ensures PendingAlts(c) + Catenates(LastAtoms(c)) + Pipes(Bars(c)) == Postorder(Tree(c))
  {
    match c {
      case Choice(l, _, r) =>
        PendingAltsFlush(r);
        assert Pipes(Bars(c)) == Pipes(Bars(r)) + [PIPE_TOKEN];
        assert PendingAlts(c) + Catenates(LastAtoms(c)) + Pipes(Bars(c))
            == Postorder(Tree(l)) + (PendingAlts(r) + Catenates(LastAtoms(r)) + Pipes(Bars(r))) + [PIPE_TOKEN];
      case _ =>
        PendingFlush(c);
        assert Pipes(0) == [];
    }
  }

  /** Reading a unit squeezes the open group and adds one atom: the unit's postorder. */
  lemma {:induction false} FeedUnit(c: Syntax, s: State)
    requires Derives(c, UnitLevel)
    ensures var q := Squeeze(s);
      Feed(s, Yield(c)) == Some(q.(atoms := q.atoms + 1, out := q.out + Postorder(Tree(c))))
    decreases c, 0
  {
    var q := Squeeze(s);
    match c {
      case Operand(tok) =>
        FeedOne(s, [], tok);
        assert [] + [tok] == [tok];
      case Suffix(arg, op) =>
        FeedUnit(arg, s);
        FeedOne(s, Yield(arg), op);
        assert q.out + Postorder(Tree(arg)) + [op] == q.out + Postorder(Tree(c));
      case Group(open, body, close) =>
        FeedGroup(open, body, close, s);
    }
  }

  lemma {:induction false} FeedGroup(open: Token, body: Syntax, close: Token, s: State)
    requires open.kind.OpenParen? && close.kind.CloseParen? && Derives(body, AltLevel)
    ensures var q := Squeeze(s);
      Feed(s, [open] + Yield(body) + [close]) ==
      Some(q.(atoms := q.atoms + 1, out := q.out + Postorder(Tree(body))))
    decreases body, 4
  {
    var q := Squeeze(s);
    var inner := State(0, 0, q.saved + [Saved(q.alts, q.atoms)], q.out);
    FeedOne(s, [], open);
    assert [] + [open] == [open];
    FeedAppend(s, [open], Yield(body));
    FeedAlt(body, inner);
    FeedOne(s, [open] + Yield(body), close);
    StepClose(body, close, q);
  }

  lemma {:induction false} LastAtomsPositive(c: Syntax)
    ensures LastAtoms(c) > 0
  {
    if c.Choice? { LastAtomsPositive(c.right); }
  }

  lemma StepClose(body: Syntax, close: Token, q: State)
    requires close.kind.CloseParen?
    ensures Step(State(Bars(body), LastAtoms(body), q.saved + [Saved(q.alts, q.atoms)], q.out + PendingAlts(body)), close)
         == Next(q.(atoms := q.atoms + 1, out := q.out + Postorder(Tree(body))))
  {
    hide PendingAlts, Postorder, Tree, LastAtoms, Bars;
    PendingAltsFlush(body);
    LastAtomsPositive(body);
    var saved := q.saved + [Saved(q.alts, q.atoms)];
    assert saved[..|q.saved|] == q.saved;
    var pending, cats, pipes := PendingAlts(body), Catenates(LastAtoms(body)), Pipes(Bars(body));
    Assoc(pending, cats, pipes);
    Assoc(q.out, pending, cats + pipes);
    var s := State(Bars(body), LastAtoms(body), saved, q.out + pending);
    assert s.out + Flush(s) == q.out + Postorder(Tree(body));
  }

  lemma {:induction false} FeedCat(c: Syntax, s: State)
    requires Derives(c, CatLevel) && s.atoms == 0
    ensures Feed(s, Yield(c)) == Some(s.(atoms := Atoms(c), out := s.out + Pending(c)))
    decreases c, 1
  {
    hide Postorder, Feed, Tree;
    if c.Chain? {
      FeedCat(c.left, s);
      FeedAppend(s, Yield(c.left), Yield(c.right));
      var m := s.(atoms := Atoms(c.left), out := s.out + Pending(c.left));
      FeedUnit(c.right, m);
      PendingFlush(c.left);
      assert Repeat(CATENATE_TOKEN, 1) == [CATENATE_TOKEN];
      assert Repeat(CATENATE_TOKEN, 0) == [];
      assert Squeeze(m).out == s.out + Postorder(Tree(c.left));
      assert s.out + Pending(c) == Squeeze(m).out + Postorder(Tree(c.right));
    } else {
      FeedUnit(c, s);
    }
  }

  lemma {:induction false} FeedAlt(c: Syntax, s: State)
    requires Derives(c, AltLevel) && s.atoms == 0
    ensures Feed(s, Yield(c)) ==
            Some(s.(alts := s.alts + Bars(c), atoms := LastAtoms(c), out := s.out + PendingAlts(c)))
    decreases c, 3
  {
    if c.Choice? {
      var m := s.(alts := s.alts + 1, out := s.out + Postorder(Tree(c.left)));
      FeedToBar(c.left, c.bar, s);
      FeedAppend(s, Yield(c.left) + [c.bar], Yield(c.right));
      FeedAlt(c.right, m);
      Assoc(s.out, Postorder(Tree(c.left)), PendingAlts(c.right));
    } else {
      FeedCat(c, s);
    }
  }

  lemma FeedToBar(c: Syntax, bar: Token, s: State)
    requires Derives(c, CatLevel) && s.atoms == 0 && bar.kind.Pipe?
    ensures Feed(s, Yield(c) + [bar]) == Some(s.(alts := s.alts + 1, out := s.out + Postorder(Tree(c))))
    decreases c, 2
  {
    hide Pending, Postorder, Tree, Yield, Feed;
    FeedCat(c, s);
    FeedOne(s, Yield(c), bar);
    PendingFlush(c);
    Assoc(s.out, Pending(c), Catenates(Atoms(c)));
  }

  /** The output for a derivable body is the postorder of its parse. */
  lemma CompileParse(c: Syntax)
    requires Derives(c, AltLevel)
    ensures Compile(Yield(c)) == Some(Postorder(Tree(c)))
  {
    FeedAlt(c, START);
    PendingAltsFlush(c);
    assert Catenates(LastAtoms(c)) + Pipes(Bars(c)) + [] == Catenates(LastAtoms(c)) + Pipes(Bars(c));
    assert [] + PendingAlts(c) + (Catenates(LastAtoms(c)) + Pipes(Bars(c)))
        == PendingAlts(c) + Catenates(LastAtoms(c)) + Pipes(Bars(c));
  }

  /** Printing a tree, compiling the print and evaluating the code gives the tree back. */
  lemma RoundTrip(t: Regex)
    requires WellFormed(t)
    ensures Compile(Print(t)).Some?
    ensures Evaluate(Compile(Print(t)).value) == Some(t)
  {
    var c := Minimal(t, AltLevel);
    MinimalIsAParse(t, AltLevel);
    CompileParse(c);
    ExecutePostorder(t, []);
  }

  /** The grammar is unambiguous: a body has at most one tree. */
  lemma Unambiguous(c: Syntax, d: Syntax)
    requires Derives(c, AltLevel) && Derives(d, AltLevel)
    requires Yield(c) == Yield(d)
    ensures Tree(c) == Tree(d)
  {
    CompileParse(c);
    CompileParse(d);
    DerivesWellFormed(c, AltLevel);
    DerivesWellFormed(d, AltLevel);
    PostorderInjective(Tree(c), Tree(d));
  }

  // ---------- The exact size of the output ----------

  /** Operands push one tree, concatenations and alternations take one away. */
  function Balance(ts: seq<Token>): int {
    if ts == [] then 0
    else Balance(ts[1..]) + Gain(ts[0].kind)
  }

  function Gain(k: Kind): int {
    if IsOperand(k) then 1 else if k.Catenate? || k.Pipe? then -1 else 0
  }

  function Operands(ts: seq<Token>): nat {
    if ts == [] then 0 else (if IsOperand(ts[0].kind) then 1 else 0) + Operands(ts[1..])
  }

  lemma {:induction false} BalanceAppend(a: seq<Token>, b: seq<Token>)
    ensures Balance(a + b) == Balance(a) + Balance(b)
  {
    if a == [] {
      assert a + b == b;
    } else {
      assert (a + b)[1..] == a[1..] + b;
      BalanceAppend(a[1..], b);
    }
  }

  lemma BalanceOne(ts: seq<Token>, t: Token)
    ensures Balance(ts + [t]) == Balance(ts) + Gain(t.kind)
  {
    BalanceAppend(ts, [t]);
    assert [t][1..] == [];
  }

  lemma {:induction false} PostorderBalance(t: Regex)
    requires WellFormed(t)
    ensures Balance(Postorder(t)) == 1
  {
    match t {
      case Atom(tok) =>
        BalanceOne([], tok);
        assert [] + [tok] == [tok];
      case Post(arg, op) =>
        PostorderBalance(arg);
        BalanceOne(Postorder(arg), op);
      case Cat(l, r) =>
        PostorderBalance(l);
        PostorderBalance(r);
        BalanceAppend(Postorder(l), Postorder(r));
        BalanceOne(Postorder(l) + Postorder(r), CATENATE_TOKEN);
      case Alt(l, r) =>
        PostorderBalance(l);
        PostorderBalance(r);
        BalanceAppend(Postorder(l), Postorder(r));
        BalanceOne(Postorder(l) + Postorder(r), PIPE_TOKEN);
    }
  }

  /** The operators in an output are its tokens that were not carried over from the body. */
  lemma {:induction false} OutputParts(ts: seq<Token>)
    requires OnlyOutput(ts)
    ensures |ts| == |Carried(ts)| + Count(ts, Catenate) + Count(ts, Pipe)
    ensures Balance(ts) == Operands(ts) - Count(ts, Catenate) - Count(ts, Pipe)
  {
    if ts != [] {
      OutputParts(ts[1..]);
    }
  }

  lemma {:induction false} OperandsCarried(ts: seq<Token>)
    ensures Operands(Carried(ts)) == Operands(ts)
  {
    if ts != [] {
      OperandsCarried(ts[1..]);
      var rest := Carried(ts[1..]);
      assert ([ts[0]] + rest)[1..] == rest;
      assert [] + rest == rest;
    }
  }

  /** For a derivable body: one concatenation or alternation between any two operands, so the number of
      CATENATE tokens and the length of the output are known from the body alone. */
  lemma OutputSize(body: seq<Token>)
    requires Derivable(body)
    ensures Compile(body).Some?
    ensures var out := Compile(body).value;
      && Count(out, Catenate) == Operands(body) - 1 - Count(body, Pipe)
      && |out| == |Carried(body)| + Operands(body) - 1
  {
    var c :| Derives(c, AltLevel) && Yield(c) == body;
    CompileParse(c);
    DerivesWellFormed(c, AltLevel);
    var out := Compile(body).value;
    Conservation(body);
    PostorderBalance(Tree(c));
    OutputParts(out);
    OperandsCarried(out);
    OperandsCarried(body);
  }
}

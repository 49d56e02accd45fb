/**
 Why the two counters suffice: at every moment the machine's state stands for a partial parse,
 a stack of open groups each holding finished alternatives and at most two pending pieces.
 */
module Soundness {
  import opened Sequences
  import opened Tokens
  import opened Regex
  import opened Syntax
  import opened Machine

  datatype Units = Zero | One(last: Syntax) | Two(first: Syntax, last: Syntax)

  /** An open group: the alternatives already ended by a bar, and the pieces read since. */
  datatype Frame = Frame(done: seq<(Syntax, Token)>, units: Units)

  datatype Context = Outermost | Inside(outer: Context, frame: Frame, open: Token)

  datatype Reading = Reading(context: Context, top: Frame)

  function Size(u: Units): nat {
    match u
    case Zero => 0
    case One(_) => 1
    case Two(_, _) => 2
  }

  function UnitsYield(u: Units): seq<Token> {
    match u
    case Zero => []
    case One(c) => Yield(c)
    case Two(c, d) => Yield(c) + Yield(d)
  }

  function UnitsTrees(u: Units): seq<Regex> {
    match u
    case Zero => []
    case One(c) => [Tree(c)]
    case Two(c, d) => [Tree(c), Tree(d)]
  }

  function DoneYield(done: seq<(Syntax, Token)>): seq<Token> {
    if done == [] then []
    else
      var n := |done| - 1;
      DoneYield(done[..n]) + Yield(done[n].0) + [done[n].1]
  }

  function DoneTrees(done: seq<(Syntax, Token)>): seq<Regex> {
    if done == [] then []
    else
      var n := |done| - 1;
      DoneTrees(done[..n]) + [Tree(done[n].0)]
  }

  function FrameYield(f: Frame): seq<Token> {
    DoneYield(f.done) + UnitsYield(f.units)
  }

  function FrameTrees(f: Frame): seq<Regex> {
    DoneTrees(f.done) + UnitsTrees(f.units)
  }

  function ContextYield(c: Context): seq<Token> {
    match c
    case Outermost => []
    case Inside(outer, frame, open) => ContextYield(outer) + FrameYield(frame) + [open]
  }

  function ContextTrees(c: Context): seq<Regex> {
    match c
    case Outermost => []
    case Inside(outer, frame, _) => ContextTrees(outer) + FrameTrees(frame)
  }

  ghost predicate DoneOk(done: seq<(Syntax, Token)>) {
    forall i :: 0 <= i < |done| ==> Derives(done[i].0, CatLevel) && done[i].1.kind.Pipe?
  }

  /** The last piece of the group being read is a unit, so that a postfix operator applies to it alone. */
  predicate UnitsOk(u: Units, squeezed: bool) {
    match u
    case Zero => true
    case One(c) => Derives(c, if squeezed then CatLevel else UnitLevel)
    case Two(c, d) => !squeezed && Derives(c, CatLevel) && Derives(d, UnitLevel)
  }

  ghost predicate ContextOk(c: Context, saved: seq<Saved>) {
    match c
    case Outermost => saved == []
    case Inside(outer, f, open) =>
      && saved != []
      && saved[|saved| - 1] == Saved(|f.done|, Size(f.units))
      && DoneOk(f.done) && UnitsOk(f.units, true) && open.kind.OpenParen?
      && ContextOk(outer, saved[..|saved| - 1])
  }

  function ReadingYield(r: Reading): seq<Token> {
    ContextYield(r.context) + FrameYield(r.top)
  }

  function ReadingTrees(r: Reading): seq<Regex> {
    ContextTrees(r.context) + FrameTrees(r.top)
  }

  /** The counters are the sizes of the partial parse. */
  ghost predicate Shaped(r: Reading, s: State, squeezed: bool) {
    && ContextOk(r.context, s.saved)
    && DoneOk(r.top.done) && UnitsOk(r.top.units, squeezed)
    && s.alts == |r.top.done| && s.atoms == Size(r.top.units)
  }

  /** The output, run as postfix code, leaves exactly the trees of the partial parse. */
  ghost predicate Holds(r: Reading, out: seq<Token>) {
    Execute(out, []) == Some(ReadingTrees(r))
  }

  /** State s, reached after reading body, stands for the partial parse r. */
  ghost predicate Represents(r: Reading, s: State, body: seq<Token>) {
    Shaped(r, s, false) && Holds(r, s.out) && ReadingYield(r) == body
  }

  lemma WidenUnit(c: Syntax)
    requires Derives(c, UnitLevel)
    ensures Derives(c, CatLevel)
  {
  }

  lemma WidenCat(c: Syntax)
    requires Derives(c, CatLevel)
    ensures Derives(c, AltLevel)
  {
  }

  // ---------- Joining pieces ----------

  function Merge(u: Units): Syntax
    requires u != Zero
  {
    match u
    case One(c) => c
    case Two(c, d) => Chain(c, d)
  }

  /** The group's alternatives, nested to the right. */
  function Build(done: seq<(Syntax, Token)>, last: Syntax): Syntax {
    if done == [] then last
    else
      var n := |done| - 1;
      Build(done[..n], Choice(done[n].0, done[n].1, last))
  }

  lemma {:induction false} BuildDerives(done: seq<(Syntax, Token)>, last: Syntax)
    requires DoneOk(done) && Derives(last, AltLevel)
    ensures Derives(Build(done, last), AltLevel)
    ensures Yield(Build(done, last)) == DoneYield(done) + Yield(last)
  {
    if done != [] {
      var n := |done| - 1;
      BuildDerives(done[..n], Choice(done[n].0, done[n].1, last));
      assert DoneYield(done) + Yield(last)
          == DoneYield(done[..n]) + (Yield(done[n].0) + [done[n].1] + Yield(last));
    }
  }

  /** The pipes emitted when a group closes nest its alternatives to the right. */
  lemma {:induction false} ExecutePipes(done: seq<(Syntax, Token)>, last: Syntax, base: seq<Regex>)
    ensures Execute(Pipes(|done|), base + DoneTrees(done) + [Tree(last)]) == Some(base + [Tree(Build(done, last))])
  {
    if done == [] {
      assert Pipes(0) == [];
      assert base + DoneTrees(done) + [Tree(last)] == base + [Tree(last)];
    } else {
      var n := |done| - 1;
      var next := Choice(done[n].0, done[n].1, last);
      var stack := base + DoneTrees(done) + [Tree(last)];
      assert Pipes(|done|)[1..] == Pipes(n);
      assert stack[..|stack| - 2] == base + DoneTrees(done[..n]);
      assert Execute1(PIPE_TOKEN, stack) == Some(base + DoneTrees(done[..n]) + [Tree(next)]);
      ExecutePipes(done[..n], next, base);
    }
  }

  lemma ExecuteCatenates(u: Units, base: seq<Regex>)
    requires u != Zero
    ensures Execute(Catenates(Size(u)), base + UnitsTrees(u)) == Some(base + [Tree(Merge(u))])
  {
    if u.Two? {
      var stack := base + UnitsTrees(u);
      assert Catenates(2) == [CATENATE_TOKEN];
      ExecuteOne([], CATENATE_TOKEN, stack);
      assert [] + [CATENATE_TOKEN] == [CATENATE_TOKEN];
      assert stack[..|stack| - 2] == base;
    } else {
      assert Catenates(1) == [];
    }
  }

  lemma FlushBuilds(r: Reading, s: State)
    requires Shaped(r, s, false) && Holds(r, s.out) && s.atoms > 0
    ensures Execute(s.out + Flush(s), []) == Some(ContextTrees(r.context) + [Tree(Build(r.top.done, Merge(r.top.units)))])
  {
    var base := ContextTrees(r.context);
    var done, u := r.top.done, r.top.units;
    ExecuteAppend(s.out, Flush(s), []);
    ExecuteAppend(Catenates(s.atoms), Pipes(s.alts), base + FrameTrees(r.top));
    assert base + FrameTrees(r.top) == base + DoneTrees(done) + UnitsTrees(u);
    ExecuteCatenates(u, base + DoneTrees(done));
    ExecutePipes(done, Merge(u), base);
  }

  // ---------- One step ----------

  function Squeezed(r: Reading): Reading {
    if r.top.units.Two? then Reading(r.context, Frame(r.top.done, One(Merge(r.top.units)))) else r
  }

  lemma SqueezeReads(r: Reading, s: State)
    requires Shaped(r, s, false) && Holds(r, s.out)
    ensures Shaped(Squeezed(r), Squeeze(s), true) && Holds(Squeezed(r), Squeeze(s).out)
    ensures ReadingYield(Squeezed(r)) == ReadingYield(r)
  {
    match r.top.units {
      case Zero =>
      case One(c) => WidenUnit(c);
      case Two(c, d) =>
        ExecuteOne(s.out, CATENATE_TOKEN, []);
        var base := ContextTrees(r.context) + DoneTrees(r.top.done);
        var stack := ReadingTrees(r);
        assert stack == base + [Tree(c), Tree(d)];
        assert stack[..|stack| - 2] == base;
        assert ReadingTrees(Squeezed(r)) == base + [Tree(Chain(c, d))];
    }
  }

  /** Adding one unit to a squeezed group. */
  function Attach(r: Reading, c: Syntax): Reading
    requires !r.top.units.Two?
  {
    Reading(r.context, Frame(r.top.done, if r.top.units.Zero? then One(c) else Two(r.top.units.last, c)))
  }

  lemma UnitsAttach(u: Units, c: Syntax)
    requires !u.Two?
    ensures UnitsYield(if u.Zero? then One(c) else Two(u.last, c)) == UnitsYield(u) + Yield(c)
    ensures UnitsTrees(if u.Zero? then One(c) else Two(u.last, c)) == UnitsTrees(u) + [Tree(c)]
  {
  }

  lemma AttachReads(r: Reading, c: Syntax)
    requires !r.top.units.Two?
    ensures ReadingYield(Attach(r, c)) == ReadingYield(r) + Yield(c)
    ensures ReadingTrees(Attach(r, c)) == ReadingTrees(r) + [Tree(c)]
  {
    hide Yield, Tree, DoneYield, DoneTrees, ContextYield, ContextTrees, UnitsYield, UnitsTrees;
    UnitsAttach(r.top.units, c);
    AssocIn(ContextYield(r.context), DoneYield(r.top.done), UnitsYield(r.top.units), Yield(c));
    AssocIn(ContextTrees(r.context), DoneTrees(r.top.done), UnitsTrees(r.top.units), [Tree(c)]);
  }

  lemma ReadOneMore(r: Reading, s: State, t: Token) returns (q: Reading)
    requires Shaped(r, s, true) && Holds(r, s.out) && IsOperand(t.kind)
    ensures Shaped(q, s.(atoms := s.atoms + 1, out := s.out + [t]), false) && Holds(q, s.out + [t])
    ensures ReadingYield(q) == ReadingYield(r) + [t]
  {
    q := Attach(r, Operand(t));
    AttachReads(r, Operand(t));
    ExecuteOne(s.out, t, []);
  }

  lemma ReadOperand(r: Reading, s: State, body: seq<Token>, t: Token) returns (q: Reading)
    requires Represents(r, s, body) && IsOperand(t.kind)
    ensures Represents(q, Step(s, t).state, body + [t])
  {
    hide Yield, Tree, Execute, Derives, ContextOk, ContextYield, ContextTrees, FrameYield, FrameTrees;
    SqueezeReads(r, s);
    var m := Squeeze(s);
    assert Step(s, t) == Next(m.(atoms := m.atoms + 1, out := m.out + [t]));
    q := ReadOneMore(Squeezed(r), m, t);
  }

  function Suffixed(r: Reading, t: Token): Reading
    requires !r.top.units.Zero?
  {
    var c := Suffix(r.top.units.last, t);
    Reading(r.context, Frame(r.top.done, if r.top.units.One? then One(c) else Two(r.top.units.first, c)))
  }

  lemma SuffixReads(r: Reading, t: Token)
    requires !r.top.units.Zero?
    ensures ReadingYield(Suffixed(r, t)) == ReadingYield(r) + [t]
    ensures var stack := ReadingTrees(r);
      && |stack| > 0
      && ReadingTrees(Suffixed(r, t)) == stack[..|stack| - 1] + [Post(stack[|stack| - 1], t)]
  {
    hide Yield, Tree, DoneYield, DoneTrees, ContextYield, ContextTrees, UnitsYield, UnitsTrees;
    var u := r.top.units;
    var trees := UnitsSuffix(u, t);
    AssocIn(ContextYield(r.context), DoneYield(r.top.done), UnitsYield(u), [t]);
    AssocIn(ContextTrees(r.context), DoneTrees(r.top.done), trees, [Tree(u.last)]);
    AssocIn(ContextTrees(r.context), DoneTrees(r.top.done), trees, [Post(Tree(u.last), t)]);
    var base := ContextTrees(r.context) + (DoneTrees(r.top.done) + trees);
    assert (base + [Tree(u.last)])[..|base|] == base;
  }

  lemma UnitsSuffix(u: Units, t: Token) returns (trees: seq<Regex>)
    requires !u.Zero?
    ensures var c := Suffix(u.last, t);
      var v := if u.One? then One(c) else Two(u.first, c);
      && UnitsYield(v) == UnitsYield(u) + [t]
      && UnitsTrees(u) == trees + [Tree(u.last)]
      && UnitsTrees(v) == trees + [Post(Tree(u.last), t)]
  {
    trees := if u.One? then [] else [Tree(u.first)];
  }

  lemma ReadPostfix(r: Reading, s: State, body: seq<Token>, t: Token) returns (q: Reading)
    requires Represents(r, s, body) && IsPostfix(t.kind) && s.atoms > 0
    ensures Represents(q, Step(s, t).state, body + [t])
  {
    q := Suffixed(r, t);
    SuffixReads(r, t);
    ExecuteOne(s.out, t, []);
  }

  lemma PipeTrees(r: Reading, out: seq<Token>)
    requires Holds(r, out) && !r.top.units.Zero?
    ensures Execute(out + Catenates(Size(r.top.units)), [])
         == Some(ContextTrees(r.context) + (DoneTrees(r.top.done) + [Tree(Merge(r.top.units))]))
  {
    var base := ContextTrees(r.context) + DoneTrees(r.top.done);
    ExecuteAppend(out, Catenates(Size(r.top.units)), []);
    ExecuteCatenates(r.top.units, base);
    assert ReadingTrees(r) == base + UnitsTrees(r.top.units);
    assert base + [Tree(Merge(r.top.units))]
        == ContextTrees(r.context) + (DoneTrees(r.top.done) + [Tree(Merge(r.top.units))]);
  }

  lemma ReadPipe(r: Reading, s: State, body: seq<Token>, t: Token) returns (q: Reading)
    requires Represents(r, s, body) && t.kind.Pipe? && s.atoms > 0
    ensures Represents(q, Step(s, t).state, body + [t])
  {
    var c := Merge(r.top.units);
    var done := r.top.done + [(c, t)];
    q := Reading(r.context, Frame(done, Zero));
    if r.top.units.One? { WidenUnit(c); }
    assert done[..|done| - 1] == r.top.done;
    PipeTrees(r, s.out);
    assert FrameTrees(q.top) == DoneTrees(r.top.done) + [Tree(c)];
    assert ReadingYield(q) == ReadingYield(r) + [t];
  }

  lemma ReadOpen(r: Reading, s: State, body: seq<Token>, t: Token) returns (q: Reading)
    requires Represents(r, s, body) && t.kind.OpenParen?
    ensures Represents(q, Step(s, t).state, body + [t])
  {
    hide Yield, Tree, Execute, Derives;
    hide Squeezed;
    SqueezeReads(r, s);
    var m := Squeezed(r);
    q := Reading(Inside(m.context, m.top, t), Frame([], Zero));
    var next := Step(s, t).state;
    assert next.saved[..|next.saved| - 1] == Squeeze(s).saved;
    assert ReadingTrees(q) == ReadingTrees(m);
  }

  /** The parse of the group that a closing parenthesis ends. */
  function Closed(r: Reading, close: Token): Syntax
    requires r.context.Inside? && !r.top.units.Zero?
  {
    Group(r.context.open, Build(r.top.done, Merge(r.top.units)), close)
  }

  lemma ClosedDerives(r: Reading, s: State, t: Token)
    requires Shaped(r, s, false) && r.context.Inside? && s.atoms > 0 && t.kind.CloseParen?
    ensures Derives(Closed(r, t), UnitLevel)
    ensures Tree(Closed(r, t)) == Tree(Build(r.top.done, Merge(r.top.units)))
    ensures ContextYield(r.context.outer) + FrameYield(r.context.frame) + Yield(Closed(r, t)) == ReadingYield(r) + [t]
  {
    var u := r.top.units;
    if u.One? { WidenUnit(u.last); }
    WidenCat(Merge(u));
    BuildDerives(r.top.done, Merge(u));
  }

  lemma ReadClose(r: Reading, s: State, body: seq<Token>, t: Token) returns (q: Reading)
    requires Represents(r, s, body) && t.kind.CloseParen? && s.atoms > 0 && s.saved != []
    ensures Represents(q, Step(s, t).state, body + [t])
  {
    hide Yield, Tree, Execute, FrameTrees, FrameYield, ContextYield, Build;
    var m := Reading(r.context.outer, r.context.frame);
    var group := Closed(r, t);
    ClosedDerives(r, s, t);
    FlushBuilds(r, s);
    AttachReads(m, group);
    q := Attach(m, group);
  }

  lemma ReadToken(r: Reading, s: State, body: seq<Token>, t: Token) returns (q: Reading)
    requires Represents(r, s, body) && Step(s, t).Next?
    ensures Represents(q, Step(s, t).state, body + [t])
  {
    if IsPostfix(t.kind) {
      q := ReadPostfix(r, s, body, t);
    } else if t.kind.Pipe? {
      q := ReadPipe(r, s, body, t);
    } else if t.kind.OpenParen? {
      q := ReadOpen(r, s, body, t);
    } else if t.kind.CloseParen? {
      q := ReadClose(r, s, body, t);
    } else {
      q := ReadOperand(r, s, body, t);
    }
  }

  /** Every reachable state stands for a partial parse of exactly the tokens read. */
  lemma {:induction false} ReadBody(body: seq<Token>) returns (r: Reading)
    requires Feed(START, body).Some?
    ensures Represents(r, Feed(START, body).value, body)
  {
    if body == [] {
      r := Reading(Outermost, Frame([], Zero));
      assert ReadingTrees(r) == [];
    } else {
      var n := |body| - 1;
      assert body == body[..n] + [body[n]];
      FeedOne(START, body[..n], body[n]);
      var q := ReadBody(body[..n]);
      r := ReadToken(q, Feed(START, body[..n]).value, body[..n], body[n]);
    }
  }

  // ---------- What follows for whole bodies ----------

  function SavedHeight(saved: seq<Saved>): nat {
    if saved == [] then 0
    else
      var n := |saved| - 1;
      SavedHeight(saved[..n]) + saved[n].alts + saved[n].atoms
  }

  lemma {:induction false} DoneHeight(done: seq<(Syntax, Token)>)
    ensures |DoneTrees(done)| == |done|
  {
    if done != [] { DoneHeight(done[..|done| - 1]); }
  }

  lemma {:induction false} ContextHeight(c: Context, saved: seq<Saved>)
    requires ContextOk(c, saved)
    ensures |ContextTrees(c)| == SavedHeight(saved)
    ensures forall i :: 0 <= i < |saved| ==> saved[i].atoms <= 1
  {
    match c {
      case Outermost =>
      case Inside(outer, frame, _) =>
        var n := |saved| - 1;
        ContextHeight(outer, saved[..n]);
        DoneHeight(frame.done);
        assert forall i :: 0 <= i < n ==> saved[i] == saved[..n][i];
    }
  }

  /** After every token: the output never underflows a postfix machine, the machine's height is the sum of
      the current and all saved counters, num_atoms is at most 2 and every saved num_atoms at most 1. */
  lemma StackDiscipline(body: seq<Token>)
    requires Feed(START, body).Some?
    ensures var s := Feed(START, body).value;
      && Execute(s.out, []).Some?
      && |Execute(s.out, []).value| == s.alts + s.atoms + SavedHeight(s.saved)
      && s.atoms <= 2
      && forall i :: 0 <= i < |s.saved| ==> s.saved[i].atoms <= 1
  {
    var s := Feed(START, body).value;
    var r := ReadBody(body);
    ContextHeight(r.context, s.saved);
    DoneHeight(r.top.done);
  }
}

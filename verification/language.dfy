/** Compilation preserves the regular language of a body, however its chains and choices are associated. */
module Language {
  import opened Tokens
  import opened Regex
  import opened Syntax
  import opened Machine
  import opened Completeness

  /** The word w of operands is in the language of t. */
  ghost predicate Matches(t: Regex, w: seq<Token>)
    decreases t, 0
  {
    match t
    case Atom(tok) => w == [tok]
    case Cat(l, r) => exists i :: 0 <= i <= |w| && Matches(l, w[..i]) && Matches(r, w[i..])
    case Alt(l, r) => Matches(l, w) || Matches(r, w)
    case Post(arg, op) =>
      if op.kind.Question? then w == [] || Matches(arg, w)
      else if op.kind.Star? then Repeats(arg, w)
      else exists i :: 0 <= i <= |w| && Matches(arg, w[..i]) && Repeats(arg, w[i..])
  }

  /** w is a concatenation of any number of non-empty words of t. */
  ghost predicate Repeats(t: Regex, w: seq<Token>)
    decreases t, 1 + |w|
  {
    w == [] || exists i :: 0 < i <= |w| && Matches(t, w[..i]) && Repeats(t, w[i..])
  }

  ghost predicate Equivalent(a: Regex, b: Regex) {
    forall w :: Matches(a, w) <==> Matches(b, w)
  }

  lemma EquivalentUse(a: Regex, b: Regex, w: seq<Token>)
    requires Equivalent(a, b) && Matches(a, w)
    ensures Matches(b, w)
  {
  }

  // ---------- Equivalence is a congruence ----------

  lemma {:induction false} RepeatsOne(a: Regex, b: Regex, w: seq<Token>)
    requires Equivalent(a, b) && Repeats(a, w)
    ensures Repeats(b, w)
    decreases |w|
  {
    if w != [] {
      var i :| 0 < i <= |w| && Matches(a, w[..i]) && Repeats(a, w[i..]);
      EquivalentUse(a, b, w[..i]);
      RepeatsOne(a, b, w[i..]);
    }
  }

  lemma PostOne(a: Regex, b: Regex, op: Token, w: seq<Token>)
    requires Equivalent(a, b) && Matches(Post(a, op), w)
    ensures Matches(Post(b, op), w)
  {
    if op.kind.Question? {
      if w != [] { EquivalentUse(a, b, w); }
    } else if op.kind.Star? {
      RepeatsOne(a, b, w);
    } else {
      var i :| 0 <= i <= |w| && Matches(a, w[..i]) && Repeats(a, w[i..]);
      EquivalentUse(a, b, w[..i]);
      RepeatsOne(a, b, w[i..]);
    }
  }

  lemma PostCongruent(a: Regex, b: Regex, op: Token)
    requires Equivalent(a, b)
    ensures Equivalent(Post(a, op), Post(b, op))
  {
    forall w ensures Matches(Post(a, op), w) <==> Matches(Post(b, op), w) {
      if Matches(Post(a, op), w) { PostOne(a, b, op, w); }
      if Matches(Post(b, op), w) { PostOne(b, a, op, w); }
    }
  }

  lemma CatOne(a: Regex, b: Regex, c: Regex, d: Regex, w: seq<Token>)
    requires Equivalent(a, b) && Equivalent(c, d) && Matches(Cat(a, c), w)
    ensures Matches(Cat(b, d), w)
  {
    var i :| 0 <= i <= |w| && Matches(a, w[..i]) && Matches(c, w[i..]);
    EquivalentUse(a, b, w[..i]);
    EquivalentUse(c, d, w[i..]);
  }

  lemma CatCongruent(a: Regex, b: Regex, c: Regex, d: Regex)
    requires Equivalent(a, b) && Equivalent(c, d)
    ensures Equivalent(Cat(a, c), Cat(b, d))
  {
    forall w ensures Matches(Cat(a, c), w) <==> Matches(Cat(b, d), w) {
      if Matches(Cat(a, c), w) { CatOne(a, b, c, d, w); }
      if Matches(Cat(b, d), w) { CatOne(b, a, d, c, w); }
    }
  }

  // ---------- What the postfix operators mean ----------

  /** + is once and then any number of times, * is nothing or +, ? is nothing or once. */
  lemma SuffixLaws(a: Regex, w: seq<Token>)
    ensures var (plus, star, question) := (Token(Plus, "+"), Token(Star, "*"), Token(Question, "?"));
      && (Matches(Post(a, plus), w) <==> Matches(Cat(a, Post(a, star)), w))
      && (Matches(Post(a, star), w) <==> w == [] || Matches(Post(a, plus), w))
      && (Matches(Post(a, question), w) <==> w == [] || Matches(a, w))
  {
    var plus, star := Token(Plus, "+"), Token(Star, "*");
    if Matches(Cat(a, Post(a, star)), w) {
      var i := CatSplit(a, Post(a, star), w);
      assert Matches(a, w[..i]) && Repeats(a, w[i..]);
    }
    if Matches(Post(a, plus), w) {
      var i :| 0 <= i <= |w| && Matches(a, w[..i]) && Repeats(a, w[i..]);
      CatMatches(a, Post(a, star), w, i);
      if i == 0 { assert w[0..] == w; }
    }
    if w != [] && Repeats(a, w) {
      var i :| 0 < i <= |w| && Matches(a, w[..i]) && Repeats(a, w[i..]);
      assert Matches(Post(a, plus), w);
    }
  }

  // ---------- Concatenation is associative ----------

  lemma CatSplit(l: Regex, r: Regex, w: seq<Token>) returns (i: nat)
    requires Matches(Cat(l, r), w)
    ensures i <= |w| && Matches(l, w[..i]) && Matches(r, w[i..])
  {
    i :| 0 <= i <= |w| && Matches(l, w[..i]) && Matches(r, w[i..]);
  }

  lemma CatMatches(l: Regex, r: Regex, w: seq<Token>, i: nat)
    requires i <= |w| && Matches(l, w[..i]) && Matches(r, w[i..])
    ensures Matches(Cat(l, r), w)
  {
  }

  lemma CatToRight(a: Regex, b: Regex, c: Regex, w: seq<Token>)
    requires Matches(Cat(Cat(a, b), c), w)
    ensures Matches(Cat(a, Cat(b, c)), w)
  {
    hide Matches;
    var j := CatSplit(Cat(a, b), c, w);
    var i := CatSplit(a, b, w[..j]);
    assert w[..j][..i] == w[..i];
    assert w[..j][i..] == w[i..][..j - i];
    assert w[j..] == w[i..][j - i..];
    CatMatches(b, c, w[i..], j - i);
    CatMatches(a, Cat(b, c), w, i);
  }

  lemma CatToLeft(a: Regex, b: Regex, c: Regex, w: seq<Token>)
    requires Matches(Cat(a, Cat(b, c)), w)
    ensures Matches(Cat(Cat(a, b), c), w)
  {
    hide Matches;
    var i := CatSplit(a, Cat(b, c), w);
    var k := CatSplit(b, c, w[i..]);
    assert w[..i + k][..i] == w[..i];
    assert w[..i + k][i..] == w[i..][..k];
    assert w[i + k..] == w[i..][k..];
    CatMatches(a, b, w[..i + k], i);
    CatMatches(Cat(a, b), c, w, i + k);
  }

  lemma CatAssociative(a: Regex, b: Regex, c: Regex)
    ensures Equivalent(Cat(Cat(a, b), c), Cat(a, Cat(b, c)))
  {
    forall w ensures Matches(Cat(Cat(a, b), c), w) <==> Matches(Cat(a, Cat(b, c)), w) {
      if Matches(Cat(Cat(a, b), c), w) { CatToRight(a, b, c, w); }
      if Matches(Cat(a, Cat(b, c)), w) { CatToLeft(a, b, c, w); }
    }
  }

  // ---------- Loose parses and their canonical form ----------

  /** As Derives, but a chain or a choice may be split anywhere. */
  predicate DerivesLoosely(c: Syntax, level: Level) {
    match c
    case Operand(tok) => IsOperand(tok.kind)
    case Group(open, body, close) => open.kind.OpenParen? && close.kind.CloseParen? && DerivesLoosely(body, AltLevel)
    case Suffix(arg, op) => IsPostfix(op.kind) && DerivesLoosely(arg, UnitLevel)
    case Chain(l, r) => level != UnitLevel && DerivesLoosely(l, CatLevel) && DerivesLoosely(r, CatLevel)
    case Choice(l, bar, r) =>
      level == AltLevel && bar.kind.Pipe? && DerivesLoosely(l, AltLevel) && DerivesLoosely(r, AltLevel)
  }

  function JoinCat(x: Syntax, y: Syntax): Syntax {
    if y.Chain? then Chain(JoinCat(x, y.left), y.right) else Chain(x, y)
  }

  function JoinAlt(x: Syntax, bar: Token, y: Syntax): Syntax {
    if x.Choice? then Choice(x.left, x.bar, JoinAlt(x.right, bar, y)) else Choice(x, bar, y)
  }

  /** The parse of the grammar proper: chains turned left, choices turned right. */
  function Canonical(c: Syntax): Syntax {
    match c
    case Operand(_) => c
    case Group(open, body, close) => Group(open, Canonical(body), close)
    case Suffix(arg, op) => Suffix(Canonical(arg), op)
    case Chain(l, r) => JoinCat(Canonical(l), Canonical(r))
    case Choice(l, bar, r) => JoinAlt(Canonical(l), bar, Canonical(r))
  }

  lemma {:induction false} JoinCatFits(x: Syntax, y: Syntax)
    requires Derives(x, CatLevel) && Derives(y, CatLevel)
    ensures Derives(JoinCat(x, y), CatLevel)
    ensures Yield(JoinCat(x, y)) == Yield(x) + Yield(y)
    ensures Equivalent(Tree(JoinCat(x, y)), Cat(Tree(x), Tree(y)))
  {
    if y.Chain? {
      JoinCatFits(x, y.left);
      var t := Tree(y.right);
      CatCongruent(Tree(JoinCat(x, y.left)), Cat(Tree(x), Tree(y.left)), t, t);
      CatAssociative(Tree(x), Tree(y.left), t);
    }
  }

  lemma {:induction false} JoinAltFits(x: Syntax, bar: Token, y: Syntax)
    requires Derives(x, AltLevel) && Derives(y, AltLevel) && bar.kind.Pipe?
    ensures Derives(JoinAlt(x, bar, y), AltLevel)
    ensures Yield(JoinAlt(x, bar, y)) == Yield(x) + [bar] + Yield(y)
    ensures Equivalent(Tree(JoinAlt(x, bar, y)), Alt(Tree(x), Tree(y)))
  {
    if x.Choice? {
      JoinAltFits(x.right, bar, y);
    }
  }

  lemma {:induction false} CanonicalFits(c: Syntax, level: Level)
    requires DerivesLoosely(c, level)
    ensures Derives(Canonical(c), level)
    ensures Yield(Canonical(c)) == Yield(c)
    ensures Equivalent(Tree(Canonical(c)), Tree(c))
  {
    match c {
      case Operand(_) =>
      case Group(_, body, _) =>
        CanonicalFits(body, AltLevel);
      case Suffix(arg, op) =>
        CanonicalFits(arg, UnitLevel);
        PostCongruent(Tree(Canonical(arg)), Tree(arg), op);
      case Chain(l, r) =>
        CanonicalFits(l, CatLevel);
        CanonicalFits(r, CatLevel);
        JoinCatFits(Canonical(l), Canonical(r));
        CatCongruent(Tree(Canonical(l)), Tree(l), Tree(Canonical(r)), Tree(r));
      case Choice(l, bar, r) =>
        CanonicalFits(l, AltLevel);
        CanonicalFits(r, AltLevel);
        JoinAltFits(Canonical(l), bar, Canonical(r));
    }
  }

  /** The output denotes the language of the body under any association of its chains and choices. */
  lemma MeaningPreserved(c: Syntax)
    requires DerivesLoosely(c, AltLevel)
    ensures Compile(Yield(c)).Some?
    ensures Evaluate(Compile(Yield(c)).value).Some?
    ensures Equivalent(Evaluate(Compile(Yield(c)).value).value, Tree(c))
  {
    CanonicalFits(c, AltLevel);
    var d := Canonical(c);
    CompileParse(d);
    DerivesWellFormed(d, AltLevel);
    ExecutePostorder(Tree(d), []);
  }

  // ---------- Parentheses ----------

  datatype Path = Here | Left(rest: Path) | Right(rest: Path)

  /** c with parentheses put around the whole sub-expression that path leads to. */
  function Parenthesise(c: Syntax, path: Path): Syntax
    decreases path
  {
    match (path, c)
    case (Left(p), Group(open, body, close)) => Group(open, Parenthesise(body, p), close)
    case (Left(p), Suffix(arg, op)) => Suffix(Parenthesise(arg, p), op)
    case (Left(p), Chain(l, r)) => Chain(Parenthesise(l, p), r)
    case (Left(p), Choice(l, bar, r)) => Choice(Parenthesise(l, p), bar, r)
    case (Right(p), Chain(l, r)) => Chain(l, Parenthesise(r, p))
    case (Right(p), Choice(l, bar, r)) => Choice(l, bar, Parenthesise(r, p))
    case _ => Group(OPEN, c, CLOSE)
  }

  lemma {:induction false} WidenLoose(c: Syntax, level: Level)
    requires DerivesLoosely(c, level)
    ensures DerivesLoosely(c, AltLevel)
  {
  }

  lemma {:induction false} ParenthesiseFits(c: Syntax, path: Path, level: Level)
    requires DerivesLoosely(c, level)
    ensures DerivesLoosely(Parenthesise(c, path), level)
    ensures Tree(Parenthesise(c, path)) == Tree(c)
    decreases path
  {
    match (path, c) {
      case (Left(p), Group(_, body, _)) => ParenthesiseFits(body, p, AltLevel);
      case (Left(p), Suffix(arg, _)) => ParenthesiseFits(arg, p, UnitLevel);
      case (Left(p), Chain(l, _)) => ParenthesiseFits(l, p, CatLevel);
      case (Left(p), Choice(l, _, _)) => ParenthesiseFits(l, p, AltLevel);
      case (Right(p), Chain(_, r)) => ParenthesiseFits(r, p, CatLevel);
      case (Right(p), Choice(_, _, r)) => ParenthesiseFits(r, p, AltLevel);
      case _ => WidenLoose(c, level);
    }
  }

  /** Parenthesising any whole sub-expression leaves the language of the output unchanged. */
  lemma ParenthesesKeepMeaning(c: Syntax, path: Path)
    requires DerivesLoosely(c, AltLevel)
    ensures var plain, grouped := Compile(Yield(c)), Compile(Yield(Parenthesise(c, path)));
      && plain.Some? && grouped.Some?
      && Evaluate(plain.value).Some? && Evaluate(grouped.value).Some?
      && Equivalent(Evaluate(plain.value).value, Evaluate(grouped.value).value)
  {
    MeaningPreserved(c);
    ParenthesiseFits(c, path, AltLevel);
    MeaningPreserved(Parenthesise(c, path));
  }
}

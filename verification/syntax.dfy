/**
 The infix grammar of rule bodies as parse trees that keep every token:

   alt  ::= cat | cat '|' alt
   cat  ::= unit | cat unit
   unit ::= operand | '(' alt ')' | unit ('+' | '*' | '?')
 */
module Syntax {
  import opened Tokens
  import opened Regex

  datatype Syntax =
    | Operand(tok: Token)
    | Group(open: Token, body: Syntax, close: Token)
    | Suffix(arg: Syntax, op: Token)
    | Chain(left: Syntax, right: Syntax)
    | Choice(left: Syntax, bar: Token, right: Syntax)

  datatype Level = AltLevel | CatLevel | UnitLevel

  /** c is a derivation of the grammar from the nonterminal that level names. */
  predicate Derives(c: Syntax, level: Level) {
    match c
    case Operand(tok) => IsOperand(tok.kind)
    case Group(open, body, close) => open.kind.OpenParen? && close.kind.CloseParen? && Derives(body, AltLevel)
    case Suffix(arg, op) => IsPostfix(op.kind) && Derives(arg, UnitLevel)
    case Chain(l, r) => level != UnitLevel && Derives(l, CatLevel) && Derives(r, UnitLevel)
    case Choice(l, bar, r) => level == AltLevel && bar.kind.Pipe? && Derives(l, CatLevel) && Derives(r, AltLevel)
  }

  /** The tokens of a parse tree, left to right. */
  function Yield(c: Syntax): seq<Token> {
    match c
    case Operand(tok) => [tok]
    case Group(open, body, close) => [open] + Yield(body) + [close]
    case Suffix(arg, op) => Yield(arg) + [op]
    case Chain(l, r) => Yield(l) + Yield(r)
    case Choice(l, bar, r) => Yield(l) + [bar] + Yield(r)
  }

  /** The tree a parse stands for; grouping leaves no trace. */
  function Tree(c: Syntax): Regex {
    match c
    case Operand(tok) => Atom(tok)
    case Group(_, body, _) => Tree(body)
    case Suffix(arg, op) => Post(Tree(arg), op)
    case Chain(l, r) => Cat(Tree(l), Tree(r))
    case Choice(l, _, r) => Alt(Tree(l), Tree(r))
  }

  /** Some parse of the grammar yields exactly this body. */
  ghost predicate Derivable(body: seq<Token>) {
    exists c :: Derives(c, AltLevel) && Yield(c) == body
  }

  lemma {:induction false} DerivesWellFormed(c: Syntax, level: Level)
    requires Derives(c, level)
    ensures WellFormed(Tree(c))
  {
    match c {
      case Operand(_) =>
      case Group(_, body, _) => DerivesWellFormed(body, AltLevel);
      case Suffix(arg, _) => DerivesWellFormed(arg, UnitLevel);
      case Chain(l, r) => DerivesWellFormed(l, CatLevel); DerivesWellFormed(r, UnitLevel);
      case Choice(l, _, r) => DerivesWellFormed(l, CatLevel); DerivesWellFormed(r, AltLevel);
    }
  }

  // ---------- Printing with as few parentheses as the grammar allows ----------

  const OPEN := Token(OpenParen, "(")
  const CLOSE := Token(CloseParen, ")")

  predicate Fits(t: Regex, level: Level) {
    (t.Cat? ==> level != UnitLevel) && (t.Alt? ==> level == AltLevel)
  }

  /** The parse of a tree that groups a subtree only where its level does not allow it bare. */
  function Minimal(t: Regex, level: Level): Syntax
    decreases t, 1
  {
    if Fits(t, level) then Bare(t) else Group(OPEN, Bare(t), CLOSE)
  }

  function Bare(t: Regex): Syntax
    decreases t, 0
  {
    match t
    case Atom(tok) => Operand(tok)
    case Post(arg, op) => Suffix(Minimal(arg, UnitLevel), op)
    case Cat(l, r) => Chain(Minimal(l, CatLevel), Minimal(r, UnitLevel))
    case Alt(l, r) => Choice(Minimal(l, CatLevel), PIPE_TOKEN, Minimal(r, AltLevel))
  }

  /** The printed form of a tree. */
  function Print(t: Regex): seq<Token> {
    Yield(Minimal(t, AltLevel))
  }

  lemma {:induction false} MinimalIsAParse(t: Regex, level: Level)
    requires WellFormed(t)
    ensures Derives(Minimal(t, level), level)
    ensures Tree(Minimal(t, level)) == t
  {
    match t {
      case Atom(_) =>
      case Post(arg, _) => MinimalIsAParse(arg, UnitLevel);
      case Cat(l, r) => MinimalIsAParse(l, CatLevel); MinimalIsAParse(r, UnitLevel);
      case Alt(l, r) => MinimalIsAParse(l, CatLevel); MinimalIsAParse(r, AltLevel);
    }
  }

  /** No parse of the same tree at the same level is shorter, so the printer adds no needless parenthesis. */
  lemma {:induction false} MinimalIsShortest(c: Syntax, level: Level)
    requires Derives(c, level)
    ensures |Yield(Minimal(Tree(c), level))| <= |Yield(c)|
  {
    match c {
      case Operand(_) =>
      case Group(_, body, _) => MinimalIsShortest(body, AltLevel);
      case Suffix(arg, _) => MinimalIsShortest(arg, UnitLevel);
      case Chain(l, r) => MinimalIsShortest(l, CatLevel); MinimalIsShortest(r, UnitLevel);
      case Choice(l, _, r) => MinimalIsShortest(l, CatLevel); MinimalIsShortest(r, AltLevel);
    }
  }
}

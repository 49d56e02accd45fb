/** What expression() does with every kind of token, kind by kind, and the output for a few bodies written out. */
module Kinds {
  import opened Tokens
  import opened Regex
  import opened Syntax
  import opened Machine
  import opened Completeness

  /** The internal error is for the two kinds that are never given to the switch. */
  lemma StepExits(s: State, t: Token)
    ensures Step(s, t).Exit? <==> t.kind.Catenate? || t.kind.Semicolon?
  {
  }

  /** What is refused: directives and ':' anywhere, an operator or ')' where no operand is pending, and a ')' that
      closes nothing. */
  lemma StepRefuses(s: State, t: Token)
    ensures Step(s, t).Error? <==>
            match t.kind {
              case Pretext => true case Posttext => true case Precode => true case Postcode => true
              case TermDef => true case NtermDef => true case Provides => true case Requires => true
              case Colon => true
              case Plus => s.atoms == 0 case Star => s.atoms == 0 case Question => s.atoms == 0
              case Pipe => s.atoms == 0
              case CloseParen => s.atoms == 0 || s.saved == []
              case _ => false
            }
  {
  }

  /** The five kinds of operand, each a body of its own. */
  lemma OneOperand(t: Token)
    requires t.kind.CodeBlock? || t.kind.NonTerminal? || t.kind.TerminalSymbol? || t.kind.TerminalKeyword?
      || t.kind.TerminalOper?
    ensures Compile([t]) == Some([t])
  {
    CompileParse(Operand(t));
  }

  /** The three postfix operators, after an operand of any kind. */
  lemma OneSuffix(t: Token, op: Token)
    requires t.kind.CodeBlock? || t.kind.NonTerminal? || t.kind.TerminalSymbol? || t.kind.TerminalKeyword?
      || t.kind.TerminalOper?
    requires op.kind.Plus? || op.kind.Star? || op.kind.Question?
    ensures Compile([t, op]) == Some([t, op])
  {
    var c := Suffix(Operand(t), op);
    assert Yield(c) == [t, op];
    CompileParse(c);
  }

  const A := Token(TerminalSymbol, "A")
  const B := Token(TerminalSymbol, "B")
  const C := Token(TerminalSymbol, "C")

  /** A B C concatenates to the left, A | B | C chooses to the right. */
  lemma ThreeInARow()
    ensures Compile([A, B, C]) == Some([A, B, Token(Catenate, "."), C, Token(Catenate, ".")])
    ensures Compile([A, Token(Pipe, "|"), B, Token(Pipe, "|"), C]) ==
            Some([A, B, C, Token(Pipe, "|"), Token(Pipe, "|")])
  {
    var bar := Token(Pipe, "|");
    var chain := Chain(Chain(Operand(A), Operand(B)), Operand(C));
    assert Yield(chain) == [A, B, C];
    assert Postorder(Tree(chain)) == [A, B, Token(Catenate, "."), C, Token(Catenate, ".")];
    CompileParse(chain);
    var choice := Choice(Operand(A), bar, Choice(Operand(B), bar, Operand(C)));
    assert Yield(choice) == [A, bar, B, bar, C];
    assert Postorder(Tree(choice)) == [A, B, C, bar, bar];
    CompileParse(choice);
  }

  /** In (A B | C)+ A the postfix operator applies to the group, the alternatives of which are joined first. */
  lemma GroupInARow()
    ensures var (plus, dot, bar) := (Token(Plus, "+"), Token(Catenate, "."), Token(Pipe, "|"));
      Compile([Token(OpenParen, "("), A, B, bar, C, Token(CloseParen, ")"), plus, A]) ==
      Some([A, B, dot, C, bar, plus, A, dot])
  {
    var plus, bar := Token(Plus, "+"), Token(Pipe, "|");
    var inner := Choice(Chain(Operand(A), Operand(B)), bar, Operand(C));
    assert Yield(inner) == [A, B, bar, C];
    var group := Group(Token(OpenParen, "("), inner, Token(CloseParen, ")"));
    var c := Chain(Suffix(group, plus), Operand(A));
    assert Yield(group) == [Token(OpenParen, "("), A, B, bar, C, Token(CloseParen, ")")];
    assert Yield(c) == [Token(OpenParen, "("), A, B, bar, C, Token(CloseParen, ")"), plus, A];
    assert Postorder(Tree(inner)) == [A, B, Token(Catenate, "."), C, bar];
    assert Postorder(Tree(c)) == [A, B, Token(Catenate, "."), C, bar, plus, A, Token(Catenate, ".")];
    CompileParse(c);
  }
}

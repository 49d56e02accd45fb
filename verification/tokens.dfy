/** The vocabulary of the grammar language: src/parser/tokens.h. */
module Tokens {

  datatype Option<+T> = None | Some(value: T)

  datatype Kind =
    | Pretext | Posttext | Precode | Postcode
    | TermDef | NtermDef | Provides | Requires
    | Plus | Star | Question | Pipe
    | OpenParen | CloseParen | Colon | Semicolon
    | CodeBlock | NonTerminal | TerminalSymbol | TerminalKeyword | TerminalOper
    | Catenate  // made by the compiler, never by the scanner

  /** A token. Line numbers, used in messages only, are not modelled. */
  datatype Token = Token(kind: Kind, text: string)

  const CATENATE_TOKEN := Token(Catenate, ".")
  const PIPE_TOKEN := Token(Pipe, "|")

  predicate IsDirective(k: Kind) {
    || k.Pretext? || k.Posttext? || k.Precode? || k.Postcode?
    || k.TermDef? || k.NtermDef? || k.Provides? || k.Requires?
  }

  predicate IsPostfix(k: Kind) {
    k.Plus? || k.Star? || k.Question?
  }

  predicate IsOperand(k: Kind) {
    k.CodeBlock? || k.NonTerminal? || k.TerminalSymbol? || k.TerminalKeyword? || k.TerminalOper?
  }
}

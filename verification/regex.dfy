/** Regular expressions as trees, their postorder code, and the stack machine that runs such code. */
module Regex {
  import opened Tokens

  datatype Regex =
    | Atom(tok: Token)
    | Post(arg: Regex, op: Token)
    | Cat(left: Regex, right: Regex)
    | Alt(left: Regex, right: Regex)

  predicate WellFormed(t: Regex) {
    match t
    case Atom(tok) => IsOperand(tok.kind)
    case Post(arg, op) => WellFormed(arg) && IsPostfix(op.kind)
    case Cat(l, r) => WellFormed(l) && WellFormed(r)
    case Alt(l, r) => WellFormed(l) && WellFormed(r)
  }

  /** The postfix code of a tree, as the compiler spells it. */
  function Postorder(t: Regex): seq<Token> {
    match t
    case Atom(tok) => [tok]
    case Post(arg, op) => Postorder(arg) + [op]
    case Cat(l, r) => Postorder(l) + Postorder(r) + [CATENATE_TOKEN]
    case Alt(l, r) => Postorder(l) + Postorder(r) + [PIPE_TOKEN]
  }

  /** One instruction of the postfix machine; None is an underflow or a token that is no instruction. */
  function Execute1(t: Token, stack: seq<Regex>): Option<seq<Regex>> {
    var n := |stack|;
    if IsOperand(t.kind) then Some(stack + [Atom(t)])
    else if IsPostfix(t.kind) && n >= 1 then Some(stack[..n - 1] + [Post(stack[n - 1], t)])
    else if t.kind.Catenate? && n >= 2 then Some(stack[..n - 2] + [Cat(stack[n - 2], stack[n - 1])])
    else if t.kind.Pipe? && n >= 2 then Some(stack[..n - 2] + [Alt(stack[n - 2], stack[n - 1])])
    else None
  }

  /** Runs postfix code on a stack of trees whose last element is the top. */
  function Execute(code: seq<Token>, stack: seq<Regex>): Option<seq<Regex>> {
    if code == [] then Some(stack)
    else
      match Execute1(code[0], stack)
      case None => None
      case Some(next) => Execute(code[1..], next)
  }

  /** What the code denotes: the one tree it leaves on an empty stack, if it leaves exactly one. */
  function Evaluate(code: seq<Token>): Option<Regex> {
    match Execute(code, [])
    case None => None
    case Some(stack) => if |stack| == 1 then Some(stack[0]) else None
  }

  lemma {:induction false} ExecuteAppend(a: seq<Token>, b: seq<Token>, stack: seq<Regex>)
    ensures Execute(a + b, stack) ==
            match Execute(a, stack) { case None => None case Some(s) => Execute(b, s) }
  {
    if a == [] {
      assert a + b == b;
    } else {
      assert (a + b)[1..] == a[1..] + b;
      match Execute1(a[0], stack) {
        case None =>
        case Some(next) => ExecuteAppend(a[1..], b, next);
      }
    }
  }

  lemma {:induction false} ExecuteOne(code: seq<Token>, t: Token, stack: seq<Regex>)
    ensures Execute(code + [t], stack) ==
            match Execute(code, stack) { case None => None case Some(s) => Execute1(t, s) }
  {
    ExecuteAppend(code, [t], stack);
    match Execute(code, stack) {
      case None =>
      case Some(s) =>
        assert [t][1..] == [];
        match Execute1(t, s) {
          case None =>
          case Some(next) => assert Execute([t][1..], next) == Some(next);
        }
    }
  }

  /** Running the code of a tree pushes that tree and touches nothing below it. */
  lemma {:induction false} ExecutePostorder(t: Regex, stack: seq<Regex>)
    requires WellFormed(t)
    ensures Execute(Postorder(t), stack) == Some(stack + [t])
  {
    match t {
      case Atom(tok) =>
        ExecuteOne([], tok, stack);
        assert [] + [tok] == [tok];
      case Post(arg, op) =>
        ExecutePostorder(arg, stack);
        ExecuteOne(Postorder(arg), op, stack);
      case Cat(l, r) =>
        ExecutePostorder(l, stack);
        ExecutePostorder(r, stack + [l]);
        ExecuteTwo(l, r, CATENATE_TOKEN, stack);
      case Alt(l, r) =>
        ExecutePostorder(l, stack);
        ExecutePostorder(r, stack + [l]);
        ExecuteTwo(l, r, PIPE_TOKEN, stack);
    }
  }

  lemma ExecuteTwo(l: Regex, r: Regex, t: Token, stack: seq<Regex>)
    requires t == CATENATE_TOKEN || t == PIPE_TOKEN
    requires Execute(Postorder(l), stack) == Some(stack + [l])
    requires Execute(Postorder(r), stack + [l]) == Some(stack + [l] + [r])
    ensures Execute(Postorder(l) + Postorder(r) + [t], stack) ==
            Some(stack + [if t == CATENATE_TOKEN then Cat(l, r) else Alt(l, r)])
  {
    ExecuteAppend(Postorder(l), Postorder(r), stack);
    ExecuteOne(Postorder(l) + Postorder(r), t, stack);
    var s := stack + [l] + [r];
    assert s[..|s| - 2] == stack;
  }

  /** Postorder code determines its tree. */
  lemma PostorderInjective(a: Regex, b: Regex)
    requires WellFormed(a) && WellFormed(b)
    requires Postorder(a) == Postorder(b)
    ensures a == b
  {
    ExecutePostorder(a, []);
    ExecutePostorder(b, []);
    assert ([] + [a])[0] == ([] + [b])[0];
  }
}

/** `expression`, `rule`, `directive` and `parser` of src/parser/parser.c, in place. */
module RuleParser {
  import opened Tokens
  import opened Machine
  import opened Grammar

  /** What a call hands back: a value, NULL / no match, or nothing because the program has ended. */
  datatype Returned<+T> = Value(value: T) | Nothing | Ended

  lemma RepeatMore(t: Token, n: nat)
    ensures Repeat(t, n) + [t] == Repeat(t, n + 1)
  {
  }

  class Parser {
    const tokens: seq<Token>
    var pos: nat
    var errors: nat
    var rules: seq<Rule>
    var startRule: Option<Rule>
    var sections: map<Kind, string>

    ghost predicate Valid()
      reads this
    {
      pos <= |tokens|
    }

    /** The current token and everything after it. */
    ghost function Remaining(): seq<Token>
      requires Valid()
      reads this
    {
      tokens[pos..]
    }

    ghost function Contents(): Store
      reads this
    {
      Store(rules, startRule, sections, errors)
    }

    constructor (tokens: seq<Token>)
      ensures Valid() && Remaining() == tokens && Contents() == EMPTY
    {
      this.tokens := tokens;
      pos, errors := 0, 0;
      rules, startRule, sections := [], None, map[];
    }

    function GetToken(): (t: Option<Token>)
      requires Valid()
      reads this
      ensures t == if Remaining() == [] then None else Some(Remaining()[0])
    {
      if pos < |tokens| then Some(tokens[pos]) else None
    }

    method ConsumeToken() returns (t: Option<Token>)
      requires Valid()
      modifies this`pos
      ensures Valid()
      ensures Remaining() == if old(Remaining()) == [] then [] else old(Remaining())[1..]
      ensures t == GetToken()
    {
      if pos < |tokens| {
        pos := pos + 1;
      }
      t := GetToken();
    }

    /** The loop that concatenates the pending atoms; it leaves the counter at 0, or at -1 if there were none. */
    method EmitCatenates(out: seq<Token>, atoms: nat) returns (out': seq<Token>, atoms': int)
      ensures out' == out + Catenates(atoms)
      ensures atoms' == if atoms == 0 then -1 else 0
    {
      out', atoms' := out, atoms - 1;
      while atoms' > 0
        invariant atoms == 0 ==> atoms' == -1
        invariant atoms > 0 ==> 0 <= atoms' <= atoms - 1
        invariant out' == out + Repeat(CATENATE_TOKEN, if atoms == 0 then 0 else atoms - 1 - atoms')
      {
        RepeatMore(CATENATE_TOKEN, atoms - 1 - atoms');
        out' := out' + [CATENATE_TOKEN];
        atoms' := atoms' - 1;
      }
    }

    /** The loop that joins the pending alternatives. */
    method EmitPipes(out: seq<Token>, alts: nat) returns (out': seq<Token>)
      ensures out' == out + Pipes(alts)
    {
      out' := out;
      var left := alts;
      assert out + Repeat(PIPE_TOKEN, 0) == out;
      while left > 0
        invariant 0 <= left <= alts
        invariant out' == out + Repeat(PIPE_TOKEN, alts - left)
      {
        RepeatMore(PIPE_TOKEN, alts - left);
        out' := out' + [PIPE_TOKEN];
        left := left - 1;
      }
    }

    /** One pass of the switch in expression() over a token other than the SEMICOLON: the verdict,
        the new counters and the new output. The token is consumed unless it is refused. */
    method Switch(tok: Token, alts: nat, atoms: nat, stack: seq<Saved>, out: seq<Token>)
      returns (ok: Returned<()>, alts': nat, atoms': nat, stack': seq<Saved>, out': seq<Token>)
      requires Valid() && Remaining() != [] && Remaining()[0] == tok
      modifies this`pos, this`errors
      ensures Valid()
      ensures match Step(State(alts, atoms, stack, out), tok)
              case Next(next) =>
                && ok == Value(()) && State(alts', atoms', stack', out') == next
                && Remaining() == old(Remaining())[1..] && errors == old(errors)
              case Error => ok == Nothing && Remaining() == old(Remaining()) && errors == old(errors) + 1
              case Exit => ok == Ended
    {
      ok, alts', atoms', stack', out' := Value(()), alts, atoms, stack, out;
      if IsDirective(tok.kind) || tok.kind.Colon? {
        errors := errors + 1;
        ok := Nothing;
        return;
      } else if IsPostfix(tok.kind) {
        if atoms == 0 {
          errors := errors + 1;
          ok := Nothing;
          return;
        }
        out' := out + [tok];
      } else if tok.kind.Pipe? {
        if atoms == 0 {
          errors := errors + 1;
          ok := Nothing;
          return;
        }
        out', atoms' := EmitCatenates(out, atoms);
        alts' := alts + 1;
      } else if tok.kind.OpenParen? {
        if atoms > 1 {
          atoms' := atoms - 1;
          out' := out + [CATENATE_TOKEN];
        }
        stack' := stack + [Saved(alts, atoms')];
        alts', atoms' := 0, 0;
      } else if tok.kind.CloseParen? {
        if stack == [] {
          errors := errors + 1;
          ok := Nothing;
          return;
        }
        if atoms == 0 {
          errors := errors + 1;
          ok := Nothing;
          return;
        }
        out', atoms' := EmitCatenates(out, atoms);
        out' := EmitPipes(out', alts);
        assert out' == out + Flush(State(alts, atoms, stack, out));
        var top := stack[|stack| - 1];
        stack' := stack[..|stack| - 1];
        alts' := top.alts;
        atoms' := top.atoms + 1;
      } else if IsOperand(tok.kind) {
        if atoms > 1 {
          atoms' := atoms - 1;
          out' := out + [CATENATE_TOKEN];
        }
        out' := out' + [tok];
        atoms' := atoms' + 1;
      } else {
        ok := Ended;
        return;
      }
      var _ := ConsumeToken();
    }

    method Expression() returns (r: Returned<seq<Token>>)
      requires Valid()
      modifies this`pos, this`errors
      ensures Valid()
      ensures match ExpressionFrom(START, old(Remaining()))
              case Parsed(out, rest) => r == Value(out) && Remaining() == rest && errors == old(errors)
              case Failed(rest) => r == Nothing && Remaining() == rest && errors == old(errors) + 1
              case Exited => r == Ended
    {
      var out: seq<Token> := [];
      var parnStack: seq<Saved> := [];
      var numAlts: nat, numAtoms: nat := 0, 0;
      ghost var goal := ExpressionFrom(START, Remaining());
      while true
        invariant Valid() && errors == old(errors)
        invariant ExpressionFrom(State(numAlts, numAtoms, parnStack, out), Remaining()) == goal
        decreases |Remaining()|
      {
        var current := GetToken();
        if current.None? {
          errors := errors + 1;
          return Nothing;
        }
        var tok := current.value;
        if tok.kind.Semicolon? {
          if parnStack != [] {
            errors := errors + 1;
            return Nothing;
          }
          ghost var s := State(numAlts, numAtoms, parnStack, out);
          var spent: int;
          out, spent := EmitCatenates(out, numAtoms);
          out := EmitPipes(out, numAlts);
          assert out == s.out + Flush(s);
          return Value(out);
        }
        var ok;
        ok, numAlts, numAtoms, parnStack, out := Switch(tok, numAlts, numAtoms, parnStack, out);
        if !ok.Value? {
          return if ok.Nothing? then Nothing else Ended;
        }
      }
    }

    /** How far the state machine of rule() still has to go. */
    static function Steps(state: int): nat {
      if state == 0 then 5 else if state == 1 then 4 else if state == 2 then 3 else if state == 3 then 2 else 1
    }

    method ParseRule() returns (result: Returned<()>)
      requires Valid()
      modifies this
      ensures Valid()
      ensures match RuleOf(old(Remaining()))
              case Halted => result == Ended
              case Matched(rule, rest) =>
                result == Value(()) && Remaining() == rest && Contents() == AddRule(old(Contents()), rule)
              case NoMatch(rest, e) =>
                && result == Nothing && Remaining() == rest
                && Contents() == old(Contents()).(errors := old(errors) + e)
      ensures sections == old(sections)
      ensures result == Value(()) ==>
        && errors == old(errors) && old(Remaining()) != []
        && |rules| == |old(rules)| + 1 && rules[..|old(rules)|] == old(rules)
        && rules[|old(rules)|].name == old(Remaining())[0]
        && startRule == if old(startRule) == None then Some(rules[|old(rules)|]) else old(startRule)
      ensures result == Nothing ==>
        rules == old(rules) && startRule == old(startRule) && old(errors) <= errors <= old(errors) + 1
    {
      result := Nothing;
      var finished := false;
      var state := 0;
      var name := CATENATE_TOKEN;
      var expr: seq<Token> := [];
      ghost var input := Remaining();
      while !finished
        invariant Valid()
        invariant !finished || state != 100 ==>
          rules == old(rules) && startRule == old(startRule) && sections == old(sections)
        invariant state in {0, 1, 2, 3, 100, 101, 102}
        invariant state == 0 ==> Remaining() == input && errors == old(errors)
        invariant state in {1, 2, 3, 100} ==> errors == old(errors) && input != [] && input[0].kind.NonTerminal? && name == input[0]
        invariant state == 1 ==> Remaining() == input[1..]
        invariant state in {2, 3, 100} ==> |input| >= 2 && input[1].kind.Colon?
        invariant state == 2 ==> Remaining() == input[2..]
        invariant state == 3 ==> ExpressionFrom(START, input[2..]) == Parsed(expr, Remaining())
        invariant state == 100 ==> RuleOf(input) == Matched(Rule(name, expr), Remaining())
        invariant state == 101 || state == 102 ==>
          errors >= old(errors) && RuleOf(input) == NoMatch(Remaining(), errors - old(errors))
        invariant !finished ==> result == Nothing
        invariant finished && state != 100 ==> state in {101, 102} && result == Nothing
        invariant finished && state == 100 ==>
          result == Value(()) && Contents() == AddRule(old(Contents()), Rule(name, expr))
        decreases if finished then 0 else Steps(state)
      {
        var current := GetToken();
        if state == 0 {
          if current.None? { return Ended; }
          if current.value.kind.NonTerminal? {
            name := current.value;
            var _ := ConsumeToken();
            state := 1;
          } else {
            state := 101;
          }
        } else if state == 1 {
          if current.None? { return Ended; }
          if current.value.kind.Colon? {
            var _ := ConsumeToken();
            state := 2;
          } else {
            errors := errors + 1;
            state := 102;
          }
        } else if state == 2 {
          var e := Expression();
          if e.Ended? { return Ended; }
          if e.Value? {
            expr := e.value;
            state := 3;
          } else {
            state := 102;
          }
        } else if state == 3 {
          if current.None? { return Ended; }
          if current.value.kind.Semicolon? {
            var _ := ConsumeToken();
            state := 100;
          } else {
            errors := errors + 1;
            state := 102;
          }
        } else if state == 100 {
          var rule := Rule(name, expr);
          if startRule == None {
            startRule := Some(rule);
          }
          rules := rules + [rule];
          result := Value(());
          finished := true;
        } else {
          finished := true;
        }
      }
    }

    /** The eight branches of directive() differ only in the section they store. */
    method ParseDirective() returns (result: Returned<()>)
      requires Valid()
      modifies this
      ensures Valid()
      ensures match DirectiveOf(old(Remaining()))
              case NoToken => result == Ended
              case Section(kind, text, rest) =>
                && result == Value(()) && Remaining() == rest
                && Contents() == AddSection(old(Contents()), kind, text)
              case NoSection(rest, e) =>
                && result == Nothing && Remaining() == rest
                && Contents() == old(Contents()).(errors := old(errors) + e)
      ensures rules == old(rules) && startRule == old(startRule)
      ensures result == Value(()) ==>
        && |old(Remaining())| >= 2 && errors == old(errors)
        && old(Remaining())[1].kind.CodeBlock? && Remaining() == old(Remaining())[1..]
        && sections == old(sections)[old(Remaining())[0].kind := old(Remaining())[1].text]
      ensures result == Nothing ==>
        && sections == old(sections)
        && errors == old(errors) + if IsDirective(old(Remaining())[0].kind) then 1 else 0
    {
      var current := GetToken();
      if current.None? { return Ended; }
      if IsDirective(current.value.kind) {
        var cb := ConsumeToken();
        if cb.None? { return Ended; }
        if cb.value.kind.CodeBlock? {
          sections := sections[current.value.kind := cb.value.text];
          return Value(());
        }
        errors := errors + 1;
        return Nothing;
      }
      return Nothing;
    }

    /** parser(): the number of errors, or Ended. */
    method Parse() returns (r: Returned<nat>)
      requires Valid()
      modifies this
      ensures Valid()
      ensures match Grammar.Parse(old(Contents()), old(Remaining()))
              case None => r == Ended
              case Some((store, rest)) => r == Value(store.errors) && Contents() == store && Remaining() == rest
    {
      hide RuleOf, ExpressionFrom;
      var finished := false;
      ghost var goal := Grammar.Parse(Contents(), Remaining());
      while !finished
        invariant Valid()
        invariant Grammar.Parse(Contents(), Remaining()) == goal
        invariant finished ==> goal == Some((Contents(), Remaining()))
        decreases !finished, if errors == 0 then |Remaining()| + 1 else 0
      {
        ghost var input, store := Remaining(), Contents();
        RuleConsumes(input);
        var current := GetToken();
        if current.None? {
          finished := true;
        } else if errors != 0 {
          finished := true;
        } else {
          var rule := ParseRule();
          if rule.Ended? { return Ended; }
          if rule.Nothing? {
            var directive := ParseDirective();
            if directive.Ended? { return Ended; }
            if directive.Nothing? {
              errors := errors + 1;
            }
          }
        }
      }
      return Value(errors);
    }
  }
}

/** Which bodies the machine accepts, and for which of them the output is postfix code of one tree. */
module Acceptance {
  import opened Tokens
  import opened Regex
  import opened Syntax
  import opened Machine
  import opened Completeness
  import opened Soundness

  /** A derivable body with one more bar after it. */
  ghost predicate EndsInBar(body: seq<Token>) {
    body != [] && body[|body| - 1].kind.Pipe? && Derivable(body[..|body| - 1])
  }

  lemma ParseOf(body: seq<Token>) returns (c: Syntax)
    requires Feed(START, body).Some?
    requires Feed(START, body).value.saved == [] && Feed(START, body).value.atoms > 0
    ensures Derives(c, AltLevel) && Yield(c) == body
  {
    var r := ReadBody(body);
    if r.top.units.One? { WidenUnit(r.top.units.last); }
    c := Build(r.top.done, Merge(r.top.units));
    WidenCat(Merge(r.top.units));
    BuildDerives(r.top.done, Merge(r.top.units));
  }

  lemma BarOf(body: seq<Token>)
    requires body != [] && Feed(START, body).Some?
    requires Feed(START, body).value.saved == [] && Feed(START, body).value.atoms == 0
    ensures EndsInBar(body)
  {
    var r := ReadBody(body);
    var done := r.top.done;
    var n := |done| - 1;
    var c := Build(done[..n], done[n].0);
    WidenCat(done[n].0);
    BuildDerives(done[..n], done[n].0);
    assert body == Yield(c) + [done[n].1];
    assert body[..|body| - 1] == Yield(c);
  }

  lemma FeedDerivable(body: seq<Token>)
    requires Derivable(body)
    ensures Feed(START, body).Some?
    ensures Feed(START, body).value.saved == [] && Feed(START, body).value.atoms > 0
  {
    var c :| Derives(c, AltLevel) && Yield(c) == body;
    FeedAlt(c, START);
    LastAtomsPositive(c);
  }

  /** A body is accepted at its SEMICOLON exactly when the grammar derives it, it is empty,
      or it is a derivable body followed by one bar. */
  lemma ExactAcceptance(body: seq<Token>)
    ensures Compile(body).Some? <==> body == [] || Derivable(body) || EndsInBar(body)
  {
    if Compile(body).Some? && body != [] {
      if Feed(START, body).value.atoms > 0 {
        var c := ParseOf(body);
      } else {
        BarOf(body);
      }
    }
    if Derivable(body) {
      FeedDerivable(body);
    }
    if EndsInBar(body) {
      var n := |body| - 1;
      FeedDerivable(body[..n]);
      assert body == body[..n] + [body[n]];
      FeedOne(START, body[..n], body[n]);
    }
  }

  lemma {:induction false} PipesUnderflow(n: nat, stack: seq<Regex>)
    requires n == |stack| > 0
    ensures Execute(Pipes(n), stack) == None
  {
    if n > 1 {
      var next := Execute1(PIPE_TOKEN, stack).value;
      assert Pipes(n)[1..] == Pipes(n - 1);
      PipesUnderflow(n - 1, next);
    }
  }

  /** An accepted body's output is code for one tree exactly when an atom is pending at the SEMICOLON,
      the check expression() makes at '|' and ')' but not there; those are the derivable bodies. */
  lemma WellFormedOutput(body: seq<Token>)
    requires Compile(body).Some?
    ensures Evaluate(Compile(body).value).Some? <==> Feed(START, body).value.atoms >= 1
    ensures Evaluate(Compile(body).value).Some? <==> Derivable(body)
  {
    var s := Feed(START, body).value;
    if s.atoms >= 1 {
      var r := ReadBody(body);
      FlushBuilds(r, s);
      var c := ParseOf(body);
    } else {
      var r := ReadBody(body);
      DoneHeight(r.top.done);
      assert Catenates(0) == [];
      assert Flush(s) == Pipes(s.alts);
      ExecuteAppend(s.out, Pipes(s.alts), []);
      assert ReadingTrees(r) == DoneTrees(r.top.done);
      if s.alts > 0 {
        PipesUnderflow(s.alts, ReadingTrees(r));
      } else {
        assert Pipes(0) == [];
      }
      if Derivable(body) { FeedDerivable(body); }
    }
  }

  /** The two accepted shapes whose output is not code for a tree. */
  lemma IllFormedBodies()
    ensures Compile([]) == Some([]) && Evaluate([]) == None
    ensures var a := Token(TerminalSymbol, "A");
      Compile([a, PIPE_TOKEN]) == Some([a, PIPE_TOKEN]) && Evaluate([a, PIPE_TOKEN]) == None
  {
    var a := Token(TerminalSymbol, "A");
    assert Flush(START) == [];
    assert Catenates(1) == [] && Catenates(0) == [] && Pipes(1) == [PIPE_TOKEN];
    FeedOne(START, [], a);
    assert [] + [a] == [a];
    FeedOne(START, [a], PIPE_TOKEN);
    assert [a] + [PIPE_TOKEN] == [a, PIPE_TOKEN];
    var s := State(1, 0, [], [a]);
    assert Feed(START, [a]) == Some(State(0, 1, [], [a]));
    assert [a] + Catenates(1) == [a];
    assert Feed(START, [a, PIPE_TOKEN]) == Some(s);
    assert Flush(s) == [PIPE_TOKEN];
    ExecuteOne([], a, []);
    ExecuteOne([a], PIPE_TOKEN, []);
  }

  /** For a derivable body the output is the postorder of its only tree. */
  lemma OutputIsPostorder(body: seq<Token>, c: Syntax)
    requires Derives(c, AltLevel) && Yield(c) == body
    ensures Compile(body) == Some(Postorder(Tree(c)))
    ensures Evaluate(Compile(body).value) == Some(Tree(c))
  {
    CompileParse(c);
    DerivesWellFormed(c, AltLevel);
    ExecutePostorder(Tree(c), []);
  }
}

/** The CODEBLOCK start condition of src/parser/scanner.l: a depth counter and a text buffer. */
module CodeBlocks {
  import opened Tokens

  /** How far the braces of w stay open; None if some prefix closes more than it opened. */
  function Depth(w: string): Option<nat> {
    if w == [] then Some(0)
    else
      var n := |w| - 1;
      match Depth(w[..n])
      case None => None
      case Some(d) =>
        if w[n] == '{' then Some(d + 1)
        else if w[n] != '}' then Some(d)
        else if d > 0 then Some(d - 1)
        else None
  }

  predicate Balanced(w: string) {
    Depth(w) == Some(0)
  }

  lemma EmptyDepth()
    ensures Depth([]) == Some(0)
  {
  }

  /** One more character. */
  lemma DepthNext(w: string, i: nat)
    requires i < |w| && Depth(w[..i]).Some?
    ensures var d := Depth(w[..i]).value;
      Depth(w[..i + 1]) ==
      if w[i] == '{' then Some(d + 1) else if w[i] != '}' then Some(d) else if d > 0 then Some(d - 1) else None
    ensures w[..i + 1] == w[..i] + [w[i]]
  {
    assert w[..i + 1][..i] == w[..i];
  }

  lemma {:induction false} DepthOfPrefix(w: string, i: nat)
    requires i <= |w| && Depth(w).Some?
    ensures Depth(w[..i]).Some?
  {
    if i < |w| {
      var n := |w| - 1;
      assert w[..n][..i] == w[..i];
      DepthOfPrefix(w[..n], i);
    } else {
      assert w[..i] == w;
    }
  }

  /** A text has at most one balanced start that is followed by a closing brace. */
  lemma BlockIsUnique(text: string, i: nat, j: nat)
    requires i < |text| && text[i] == '}' && Balanced(text[..i])
    requires j < |text| && text[j] == '}' && Balanced(text[..j])
    ensures i == j
  {
    if i < j {
      NoLongerBlock(text, i, j);
    } else if j < i {
      NoLongerBlock(text, j, i);
    }
  }

  lemma NoLongerBlock(text: string, i: nat, j: nat)
    requires i < j <= |text| && text[i] == '}' && Balanced(text[..i])
    ensures Depth(text[..j]) == None
  {
    assert text[..i + 1][..i] == text[..i];
    assert Depth(text[..i + 1]) == None;
    assert text[..j][..i + 1] == text[..i + 1];
    if Depth(text[..j]).Some? {
      DepthOfPrefix(text[..j], i + 1);
    }
  }

  lemma {:induction false} DepthAdds(u: string, w: string)
    requires Depth(u).Some? && Depth(w).Some?
    ensures Depth(u + w) == Some(Depth(u).value + Depth(w).value)
  {
    if w == [] {
      assert u + w == u;
    } else {
      var n := |w| - 1;
      DepthAdds(u, w[..n]);
      assert (u + w)[..|u| + n] == u + w[..n];
    }
  }

  /** Blocks nest and follow one another to any depth. */
  lemma BalancedTexts(u: string, w: string)
    requires Balanced(u) && Balanced(w)
    ensures Balanced(u + w) && Balanced("{" + w + "}")
  {
    DepthAdds(u, w);
    assert Depth("{") == Some(1) by { assert "{"[..0] == []; }
    DepthAdds("{", w);
    assert ("{" + w + "}")[..1 + |w|] == "{" + w;
  }

  function Count(w: string, ch: char): nat {
    if w == [] then 0 else Count(w[..|w| - 1], ch) + if w[|w| - 1] == ch then 1 else 0
  }

  /** No prefix closes more braces than it opens. */
  ghost predicate NeverBelow(w: string) {
    forall n {:trigger w[..n]} :: 0 <= n <= |w| ==> Count(w[..n], '{') >= Count(w[..n], '}')
  }

  lemma NeverBelowNext(w: string)
    requires w != []
    ensures NeverBelow(w) <==> NeverBelow(w[..|w| - 1]) && Count(w, '{') >= Count(w, '}')
  {
    hide Count;
    var front := w[..|w| - 1];
    assert w[..|w|] == w;
    forall k | 0 <= k <= |front| ensures front[..k] == w[..k] {
    }
    if NeverBelow(w) {
      forall k | 0 <= k <= |front| ensures Count(front[..k], '{') >= Count(front[..k], '}') {
        assert front[..k] == w[..k];
      }
    }
    if NeverBelow(front) && Count(w, '{') >= Count(w, '}') {
      forall k | 0 <= k <= |w| ensures Count(w[..k], '{') >= Count(w[..k], '}') {
        if k <= |front| { assert front[..k] == w[..k]; } else { assert w[..k] == w; }
      }
    }
  }

  lemma {:induction false} DepthIsCount(w: string)
    ensures Depth(w).Some? <==> NeverBelow(w)
    ensures Depth(w).Some? ==> Depth(w).value == Count(w, '{') - Count(w, '}')
  {
    if w != [] {
      DepthIsCount(w[..|w| - 1]);
      NeverBelowNext(w);
    }
  }

  /** Balanced as everyone counts it: as many braces closed as opened, and never more on the way. */
  lemma BalancedExact(w: string)
    ensures Balanced(w) <==>
            && Count(w, '{') == Count(w, '}')
            && forall n {:trigger w[..n]} :: 0 <= n <= |w| ==> Count(w[..n], '{') >= Count(w[..n], '}')
  {
    DepthIsCount(w);
  }

  class Scanner {
    const text: string
    var pos: nat
    var depth: int
    var strbuf: Option<string>  // NULL until the first block
    var token: Option<Token>

    constructor (text: string)
      ensures this.text == text && pos == 0 && strbuf == None && token == None
    {
      this.text := text;
      pos, depth, strbuf, token := 0, 0, None, None;
    }

    /** Scans from an opening brace at pos. The block found is the one balanced text before a closing brace;
        with none, the end of input is reached and no token is made. The buffer of an earlier block does not matter. */
    method ScanBlock() returns (found: bool)
      requires pos < |text| && text[pos] == '{'
      modifies this
      ensures var rest := text[old(pos) + 1..];
        && (found <==> exists n :: 0 <= n < |rest| && rest[n] == '}' && Balanced(rest[..n]))
        && (forall n :: 0 <= n < |rest| && rest[n] == '}' && Balanced(rest[..n]) ==>
              token == Some(Token(CodeBlock, rest[..n])) && pos == old(pos) + n + 2)
      ensures !found ==> token == old(token) && pos == |text|
    {
      hide Depth;
      ghost var rest := text[pos + 1..];
      ghost var n: nat := 0;
      assert rest[..0] == [] && Depth([]) == Some(0) by { EmptyDepth(); }
      depth := 0;
      strbuf := Some([]);  // created, or cleared
      pos := pos + 1;
      while pos < |text|
        invariant n <= |rest| && pos == old(pos) + 1 + n
        invariant strbuf == Some(rest[..n]) && token == old(token)
        invariant depth >= 0 && Depth(rest[..n]) == Some(depth)
        invariant forall m :: 0 <= m < n ==> !(rest[m] == '}' && Balanced(rest[..m]))
      {
        var ch := text[pos];
        assert rest[n] == ch;
        DepthNext(rest, n);
        pos := pos + 1;
        if ch == '{' {
          depth := depth + 1;
          strbuf := Some(strbuf.value + ['{']);
        } else if ch != '}' {
          strbuf := Some(strbuf.value + [ch]);
        } else if depth > 0 {
          depth := depth - 1;
          strbuf := Some(strbuf.value + ['}']);
        } else {
          token := Some(Token(CodeBlock, strbuf.value));
          forall m | 0 <= m < |rest| && rest[m] == '}' && Balanced(rest[..m]) ensures m == n {
            BlockIsUnique(rest, m, n);
          }
          return true;
        }
        n := n + 1;
      }
      return false;
    }
  }
}

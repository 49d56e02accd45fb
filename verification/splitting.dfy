/** split_string and the list operations built on it: src/common/string_list.c. */
module Splitting {
  import opened Sequences

  /** strchr: the first position of ch in s, or |s|. */
  function Find(s: string, ch: char): (i: nat)
    ensures i <= |s| && ch !in s[..i] && (i < |s| ==> s[i] == ch)
    ensures i == |s| <==> ch !in s
  {
    if s == [] || s[0] == ch then 0
    else
      var i := Find(s[1..], ch);
      assert s[..1 + i] == [s[0]] + s[1..][..i];
      1 + i
  }

  /** The pieces between separators; a separator that ends the string does not start an empty piece. */
  function Split(s: string, ch: char): (pieces: seq<string>)
    ensures pieces != []
    decreases |s|
  {
    var i := Find(s, ch);
    if i == |s| then [s]
    else if i + 1 == |s| then [s[..i]]
    else [s[..i]] + Split(s[i + 1..], ch)
  }

  function Join(pieces: seq<string>, ch: char): string
    requires pieces != []
  {
    if |pieces| == 1 then pieces[0] else pieces[0] + [ch] + Join(pieces[1..], ch)
  }

  predicate EndsIn(s: string, ch: char) {
    s != [] && s[|s| - 1] == ch
  }

  lemma {:induction false} FindAt(s: string, t: string, ch: char)
    requires ch !in s
    ensures Find(s + [ch] + t, ch) == |s|
  {
    if s == [] {
      assert s + [ch] + t == [ch] + t;
    } else {
      assert (s + [ch] + t)[1..] == s[1..] + [ch] + t;
      FindAt(s[1..], t, ch);
    }
  }

  /** How a string with a separator in it splits. */
  lemma SplitStep(s: string, rest: string, ch: char)
    requires ch !in s
    ensures Split(s, ch) == [s]
    ensures Split(s + [ch] + rest, ch) == if rest == [] then [s] else [s] + Split(rest, ch)
  {
    FindAt(s, rest, ch);
    var w := s + [ch] + rest;
    assert w[..|s|] == s && w[|s| + 1..] == rest;
  }

  /** The string before the first separator and after it. */
  lemma Cut(s: string, ch: char) returns (head: string, rest: string)
    requires ch in s
    ensures ch !in head && s == head + [ch] + rest
    ensures EndsIn(s, ch) == (rest == [] || EndsIn(rest, ch))
  {
    var i := Find(s, ch);
    head, rest := s[..i], s[i + 1..];
  }

  lemma NoEnd(s: string, ch: char)
    requires ch !in s
    ensures !EndsIn(s, ch)
  {
  }

  /** Every piece is free of the separator, and joining the pieces gives the string back
      but for one separator at its very end. */
  lemma {:induction false} JoinSplit(s: string, ch: char)
    ensures forall i :: 0 <= i < |Split(s, ch)| ==> ch !in Split(s, ch)[i]
    ensures Join(Split(s, ch), ch) == if EndsIn(s, ch) then s[..|s| - 1] else s
    decreases |s|
  {
    hide Split, Find, EndsIn;
    if ch !in s {
      SplitStep(s, [], ch);
      NoEnd(s, ch);
    } else {
      var head, rest := Cut(s, ch);
      SplitStep(head, rest, ch);
      if rest == [] {
        assert s[..|s| - 1] == head;
      } else {
        JoinSplit(rest, ch);
        var pieces := Split(s, ch);
        assert pieces[1..] == Split(rest, ch);
        assert Join(pieces, ch) == head + [ch] + Join(Split(rest, ch), ch);
        assert s[..|s| - 1] == head + [ch] + rest[..|rest| - 1];
      }
    }
  }

  lemma ConsAssoc(head: string, rest: string, ch: char, t: string)
    ensures (head + [ch] + rest) + [ch] + t == head + [ch] + (rest + [ch] + t)
  {
  }

  /** What a separator and more text add to the pieces. */
  lemma {:induction false} SplitMore(s: string, t: string, ch: char)
    ensures Split(s + [ch] + t, ch) ==
            Split(s, ch) + (if EndsIn(s, ch) then [[]] else []) + (if t == [] then [] else Split(t, ch))
    decreases |s|
  {
    hide Split, Find, EndsIn;
    if ch !in s {
      SplitStep(s, t, ch);
      NoEnd(s, ch);
    } else {
      var head, rest := Cut(s, ch);
      ConsAssoc(head, rest, ch, t);
      SplitStep(head, rest, ch);
      SplitStep(head, rest + [ch] + t, ch);
      if rest == [] {
        SplitStep([], t, ch);
        assert [] + [ch] + t == rest + [ch] + t;
      } else {
        SplitMore(rest, t, ch);
        var more := if t == [] then [] else Split(t, ch);
        AssocIn([], [head], Split(rest, ch) + (if EndsIn(rest, ch) then [[]] else []), more);
        Assoc([head], Split(rest, ch), if EndsIn(rest, ch) then [[]] else []);
        Assoc([head], Split(rest, ch) + (if EndsIn(rest, ch) then [[]] else []), more);
      }
    }
  }

  /** Splitting distributes over a separator exactly when the left part does not end in one and the right part
      is not empty, or both fail. */
  lemma SplitDistributes(s: string, t: string, ch: char)
    ensures Split(s + [ch] + t, ch) == Split(s, ch) + Split(t, ch) <==> (t == [] <==> EndsIn(s, ch))
  {
    hide Split, Find, EndsIn;
    SplitMore(s, t, ch);
    SplitStep([], [], ch);
    var a, b := Split(s, ch), Split(t, ch);
    var extra := if EndsIn(s, ch) then [[]] else [];
    var more := if t == [] then [] else b;
    assert Split(s + [ch] + t, ch) == a + extra + more;
    assert |a + b| == |a| + |b| && |a + extra + more| == |a| + |extra| + |more|;
  }

  /** split_string: head and tail walk through the text; an accumulated list of pieces is returned. Its strchr
      would find the end of the text as a separator '\0' and walk on. */
  method SplitString(str: string, ch: char) returns (sl: seq<string>)
    requires ch != '\0'
    ensures sl == Split(str, ch)
  {
    hide Split, Find;
    sl := [];
    var head := 0;
    var finished := false;
    assert str[0..] == str && [] + Split(str, ch) == Split(str, ch);
    while !finished
      invariant head <= |str|
      invariant !finished ==> sl + Split(str[head..], ch) == Split(str, ch)
      invariant finished ==> sl == Split(str, ch)
      decreases !finished, |str| - head
    {
      var i := Find(str[head..], ch);  // strchr
      SplitFrom(str, head, ch);
      if head + i < |str| {
        var tail := head + i;
        Assoc(sl, [str[head..tail]], Split(str[tail + 1..], ch));
        sl := sl + [str[head..tail]];
        head := tail + 1;
        finished := head == |str|;
      } else {
        sl := sl + [str[head..]];
        finished := true;
      }
    }
  }

  lemma SplitFrom(str: string, head: nat, ch: char)
    requires head <= |str|
    ensures var i := Find(str[head..], ch);
      Split(str[head..], ch) ==
      if head + i == |str| then [str[head..]]
      else if head + i + 1 == |str| then [str[head..head + i]]
      else [str[head..head + i]] + Split(str[head + i + 1..], ch)
  {
    hide Find;
    var rest, i := str[head..], Find(str[head..], ch);
    if i < |rest| {
      assert rest[..i] == str[head..head + i] && rest[i + 1..] == str[head + i + 1..];
    }
  }

  /** add_string_list: append unless already there. */
  method AddString(lst: seq<string>, str: string) returns (r: seq<string>)
    ensures r == if str in lst then lst else lst + [str]
  {
    var mark := 0;
    while mark < |lst|
      invariant mark <= |lst| && str !in lst[..mark]
    {
      if lst[mark] == str {
        return lst;
      }
      mark := mark + 1;
    }
    return lst + [str];
  }
}

/** A normal form for command lines: one option a word, by its long name if it has one, and arguments apart. */
module CmdNormal {
  import opened Sequences
  import opened Tokens
  import opened Splitting
  import opened CmdModel
  import opened CmdReading

  /** The entry of a short option can be reached by its long name. */
  predicate HasLongName(defs: seq<OptionDef>, c: char) {
    FindShort(defs, c).Some? && var name := defs[FindShort(defs, c).value].long;
    name.Some? && '=' !in name.value && FindLong(defs, name.value) == FindShort(defs, c)
  }

  /** A word for a short option alone. */
  function OptionWord(defs: seq<OptionDef>, c: char): string {
    if HasLongName(defs, c) then LongWord(defs[FindShort(defs, c).value].long.value) else ShortWord([c])
  }

  /** The words for a cluster. One at which the program ends is left as it is, and so is a flag followed by '-',
      which on its own would read as a long option. */
  function SplitCluster(defs: seq<OptionDef>, str: string): (words: seq<string>)
    requires str != "" && str[0] != '-'
    ensures words != []
  {
    var c := str[0];
    if ArgOption(defs, c) then
      if |str| > 1 then [OptionWord(defs, c), Attached(str[1..])] else [OptionWord(defs, c)]
    else if PlainFlag(defs, c) && (|str| == 1 || str[1] != '-') then
      [OptionWord(defs, c)] + if |str| > 1 then SplitCluster(defs, str[1..]) else []
    else [ShortWord(str)]
  }

  /** The words for a long option. */
  function SplitLong(defs: seq<OptionDef>, str: string): (words: seq<string>)
    ensures words != []
  {
    var p := Find(str, '=');
    var found := FindLong(defs, str[..p]);
    if found.None? || defs[found.value].callback then [LongWord(str)]
    else if !defs[found.value].takesArgs then [LongWord(str[..p])]
    else if p + 1 < |str| then [LongWord(str[..p]), str[p + 1..]]
    else [LongWord(str)]
  }

  predicate IsOption(w: string) {
    w != "" && w[0] == '-'
  }

  predicate IsLong(w: string) {
    |w| > 1 && w[0] == '-' && w[1] == '-'
  }

  function SplitWord(defs: seq<OptionDef>, w: string): (words: seq<string>)
    ensures words != []
  {
    if !IsOption(w) || |w| == 1 then [w]
    else if IsLong(w) then SplitLong(defs, w[2..])
    else SplitCluster(defs, w[1..])
  }

  function Normalize(defs: seq<OptionDef>, words: seq<string>): seq<string>
    decreases |words|, 0
  {
    if words == [] then []
    else SplitWord(defs, words[0]) + NormalTail(defs, Read(defs, [words[0]]).stop, words[1..])
  }

  /** The words after one at which reading stops so: its argument is left as it is, and so is everything once the
      program ends. */
  function NormalTail(defs: seq<OptionDef>, stop: Option<Reason>, rest: seq<string>): seq<string>
    decreases |rest|, 1
  {
    match stop
    case None => Normalize(defs, rest)
    case Some(reason) =>
      if !reason.MissingArg? || rest == [] then rest else [rest[0]] + Normalize(defs, rest[1..])
  }

  // ---------- Normalizing changes nothing ----------

  lemma OptionWordReads(defs: seq<OptionDef>, c: char, rest: seq<string>)
    requires c != '-' && FindShort(defs, c).Some? && !defs[FindShort(defs, c).value].callback
    ensures var i := FindShort(defs, c).value;
      Read(defs, [OptionWord(defs, c)] + rest) ==
      if defs[i].takesArgs then ReadArg(defs, i, rest) else Then(Seen(i), Read(defs, rest))
  {
    hide Read, ReadArg, Find;
    if HasLongName(defs, c) {
      var name := defs[FindShort(defs, c).value].long.value;
      ReadLongWord(defs, name, rest);
      assert Find(name, '=') == |name| && name[..|name|] == name;
    } else {
      ReadShortWord(defs, [c], rest);
    }
  }

  lemma {:induction false} SplitClusterReads(defs: seq<OptionDef>, str: string)
    requires str != "" && str[0] != '-'
    ensures Read(defs, SplitCluster(defs, str)) == ReadShort(defs, str, [])
    decreases |str|
  {
    hide Read, OptionWord;
    var c := str[0];
    if ArgOption(defs, c) {
      var i := FindShort(defs, c).value;
      if |str| > 1 {
        OptionWordReads(defs, c, [Attached(str[1..])] + []);
        ReadArgWord(defs, i, Attached(str[1..]), []);
        assert SplitCluster(defs, str) == [OptionWord(defs, c)] + ([Attached(str[1..])] + []);
      } else {
        OptionWordReads(defs, c, []);
        assert SplitCluster(defs, str) == [OptionWord(defs, c)] + [];
      }
    } else if PlainFlag(defs, c) && (|str| == 1 || str[1] != '-') {
      if |str| > 1 {
        OptionWordReads(defs, c, SplitCluster(defs, str[1..]));
        SplitClusterReads(defs, str[1..]);
      } else {
        OptionWordReads(defs, c, []);
      }
    } else {
      ReadShortWord(defs, str, []);
      assert SplitCluster(defs, str) == [ShortWord(str)] + [];
    }
  }

  lemma SplitLongReads(defs: seq<OptionDef>, str: string)
    ensures Read(defs, SplitLong(defs, str)) == ReadLong(defs, str, [])
  {
    hide Read, Find, FindLong;
    var p := Find(str, '=');
    var name := str[..p];
    assert Find(name, '=') == |name| && name[..|name|] == name;
    ReadLongWord(defs, str, []);
    assert [LongWord(str)] + [] == [LongWord(str)];
    var found := FindLong(defs, name);
    if found.Some? && !defs[found.value].callback {
      if !defs[found.value].takesArgs {
        ReadLongWord(defs, name, []);
        assert [LongWord(name)] + [] == [LongWord(name)];
      } else if p + 1 < |str| {
        var arg := str[p + 1..];
        ReadLongWord(defs, name, [arg] + []);
        ReadArgWord(defs, found.value, arg, []);
        assert [LongWord(name), arg] == [LongWord(name)] + ([arg] + []);
      }
    }
  }

  lemma SplitWordReads(defs: seq<OptionDef>, w: string)
    ensures Read(defs, SplitWord(defs, w)) == Read(defs, [w])
  {
    hide Read, SplitCluster, SplitLong;
    if IsOption(w) && |w| > 1 {
      assert [w] + [] == [w];
      if IsLong(w) {
        assert w == LongWord(w[2..]);
        ReadLongWord(defs, w[2..], []);
        SplitLongReads(defs, w[2..]);
      } else {
        assert w == ShortWord(w[1..]);
        ReadShortWord(defs, w[1..], []);
        SplitClusterReads(defs, w[1..]);
      }
    }
  }

  /** A line and its normal form say the same. */
  lemma {:induction false} NormalizeReads(defs: seq<OptionDef>, words: seq<string>)
    ensures Read(defs, Normalize(defs, words)) == Read(defs, words)
    decreases |words|
  {
    hide Read, SplitWord;
    if words != [] {
      var w, rest := words[0], words[1..];
      var stop := Read(defs, [w]).stop;
      var tail := NormalTail(defs, stop, rest);
      SplitWordReads(defs, w);
      assert words == [w] + rest;
      ReadAppend(defs, [w], rest);
      ReadAppend(defs, SplitWord(defs, w), tail);
      if stop.None? {
        NormalizeReads(defs, rest);
      } else if stop.value.MissingArg? && rest != [] {
        NormalizeReads(defs, rest[1..]);
        assert tail[1..] == Normalize(defs, rest[1..]);
      }
    }
  }

  lemma {:induction false} NormalizeKeeps(defs: seq<OptionDef>, st: seq<Setting>, words: seq<string>)
    requires |st| == |defs|
    ensures Parse(defs, st, Normalize(defs, words)) == Parse(defs, st, words)
  {
    hide Parse, Read, Normalize;
    NormalizeReads(defs, words);
    ParseIsReading(defs, st, words);
    ParseIsReading(defs, st, Normalize(defs, words));
  }

  // ---------- The result is in normal form ----------

  /** The cluster's first option is unknown, ends the program, or is a flag followed by '-'. */
  predicate StaysWhole(defs: seq<OptionDef>, str: string) {
    str == "" || FindShort(defs, str[0]).None? || defs[FindShort(defs, str[0]).value].callback
    || (|str| > 1 && str[1] == '-' && PlainFlag(defs, str[0]))
  }

  /** The long option is unknown, ends the program, or has nothing after its '='. */
  predicate EndsLong(defs: seq<OptionDef>, str: string) {
    var p := Find(str, '=');
    var found := FindLong(defs, str[..p]);
    found.None? || defs[found.value].callback || (defs[found.value].takesArgs && p + 1 == |str|)
  }

  /** A word with one option and no argument in it; the option is short only if its entry has no long name. */
  predicate NormalWord(defs: seq<OptionDef>, w: string) {
    if !IsOption(w) then true
    else if IsLong(w) then EndsLong(defs, w[2..]) || '=' !in w[2..]
    else StaysWhole(defs, w[1..]) || (|w| == 2 && !HasLongName(defs, w[1]))
  }

  /** Every word that is read as an option is normal; a word taken as an argument may be anything. */
  predicate IsNormal(defs: seq<OptionDef>, words: seq<string>)
    decreases |words|, 0
  {
    words != [] ==> NormalWord(defs, words[0]) && TailNormal(defs, Read(defs, [words[0]]).stop, words[1..])
  }

  predicate TailNormal(defs: seq<OptionDef>, stop: Option<Reason>, rest: seq<string>)
    decreases |rest|, 1
  {
    match stop
    case None => IsNormal(defs, rest)
    case Some(reason) => reason.MissingArg? && rest != [] ==> IsNormal(defs, rest[1..])
  }

  lemma OneNormal(defs: seq<OptionDef>, w: string, rest: seq<string>)
    ensures IsNormal(defs, [w] + rest) <==> NormalWord(defs, w) && TailNormal(defs, Read(defs, [w]).stop, rest)
  {
    assert ([w] + rest)[1..] == rest;
  }

  lemma OptionWordNormal(defs: seq<OptionDef>, c: char)
    requires c != '-' && FindShort(defs, c).Some? && !defs[FindShort(defs, c).value].callback
    ensures NormalWord(defs, OptionWord(defs, c))
    ensures var i := FindShort(defs, c).value;
      Read(defs, [OptionWord(defs, c)]).stop == if defs[i].takesArgs then Some(MissingArg(i)) else None
  {
    assert [OptionWord(defs, c)] + [] == [OptionWord(defs, c)];
    OptionWordReads(defs, c, []);
    assert LongWord("")[2..] == "";
    if HasLongName(defs, c) {
      assert OptionWord(defs, c)[2..] == defs[FindShort(defs, c).value].long.value;
    }
  }

  lemma {:induction false} SplitClusterNormal(defs: seq<OptionDef>, str: string, rest: seq<string>)
    requires str != "" && str[0] != '-' && TailNormal(defs, ReadShort(defs, str, []).stop, rest)
    ensures IsNormal(defs, SplitCluster(defs, str) + rest)
    decreases |str|
  {
    hide Read, IsNormal, NormalWord, OptionWord;
    ReadNothing(defs);
    var c := str[0];
    if ArgOption(defs, c) {
      OptionWordNormal(defs, c);
      if |str| > 1 {
        var tail := [Attached(str[1..])] + rest;
        assert tail[1..] == rest;
        OneNormal(defs, OptionWord(defs, c), tail);
        assert SplitCluster(defs, str) + rest == [OptionWord(defs, c)] + tail;
      } else {
        OneNormal(defs, OptionWord(defs, c), rest);
      }
    } else if PlainFlag(defs, c) && (|str| == 1 || str[1] != '-') {
      OptionWordNormal(defs, c);
      var more := if |str| > 1 then SplitCluster(defs, str[1..]) else [];
      if |str| > 1 {
        SplitClusterNormal(defs, str[1..], rest);
      }
      OneNormal(defs, OptionWord(defs, c), more + rest);
      Assoc([OptionWord(defs, c)], more, rest);
      assert [] + rest == rest;
    } else {
      ReadShortWord(defs, str, []);
      assert [ShortWord(str)] + [] == [ShortWord(str)];
      WholeNormal(defs, str);
      OneNormal(defs, ShortWord(str), rest);
    }
  }

  lemma WholeNormal(defs: seq<OptionDef>, str: string)
    requires str != "" && str[0] != '-' && StaysWhole(defs, str)
    ensures NormalWord(defs, ShortWord(str))
  {
    assert ShortWord(str)[1..] == str;
  }

  lemma SplitLongNormal(defs: seq<OptionDef>, str: string, rest: seq<string>)
    requires TailNormal(defs, ReadLong(defs, str, []).stop, rest)
    ensures IsNormal(defs, SplitLong(defs, str) + rest)
  {
    hide Read, IsNormal, Find, FindLong;
    ReadNothing(defs);
    var p := Find(str, '=');
    var name := str[..p];
    assert Find(name, '=') == |name| && name[..|name|] == name;
    assert LongWord(str)[2..] == str && LongWord(name)[2..] == name;
    ReadLongWord(defs, str, []);
    ReadLongWord(defs, name, []);
    assert [LongWord(str)] + [] == [LongWord(str)] && [LongWord(name)] + [] == [LongWord(name)];
    var found := FindLong(defs, name);
    if found.Some? && !defs[found.value].callback && defs[found.value].takesArgs && p + 1 < |str| {
      var tail := [str[p + 1..]] + rest;
      assert tail[1..] == rest;
      OneNormal(defs, LongWord(name), tail);
      assert SplitLong(defs, str) + rest == [LongWord(name)] + tail;
    } else {
      OneNormal(defs, LongWord(str), rest);
      OneNormal(defs, LongWord(name), rest);
      assert p == |str| ==> name == str;
    }
  }

  lemma {:induction false} NormalizeIsNormal(defs: seq<OptionDef>, words: seq<string>)
    ensures IsNormal(defs, Normalize(defs, words))
    decreases |words|
  {
    hide Read, SplitCluster, SplitLong, IsNormal;
    if words == [] {
      assert IsNormal(defs, []) by { NothingNormal(defs); }
    } else {
      var w, rest := words[0], words[1..];
      var stop := Read(defs, [w]).stop;
      var tail := NormalTail(defs, stop, rest);
      assert TailNormal(defs, stop, tail) by {
        if stop.None? {
          NormalizeIsNormal(defs, rest);
        } else if stop.value.MissingArg? && rest != [] {
          NormalizeIsNormal(defs, rest[1..]);
          assert tail[1..] == Normalize(defs, rest[1..]);
        }
      }
      assert [w] + [] == [w];
      if IsLong(w) {
        assert w == LongWord(w[2..]);
        ReadLongWord(defs, w[2..], []);
        SplitLongNormal(defs, w[2..], tail);
      } else if IsOption(w) && |w| > 1 {
        assert w == ShortWord(w[1..]);
        ReadShortWord(defs, w[1..], []);
        SplitClusterNormal(defs, w[1..], tail);
      } else {
        OneNormal(defs, w, tail);
      }
    }
  }

  lemma NothingNormal(defs: seq<OptionDef>)
    ensures IsNormal(defs, [])
  {
  }

  lemma NormalWordStays(defs: seq<OptionDef>, w: string)
    requires NormalWord(defs, w)
    ensures SplitWord(defs, w) == [w]
  {
    if IsOption(w) && |w| > 1 {
      if IsLong(w) {
        var str := w[2..];
        assert w == LongWord(str);
        if '=' !in str { assert Find(str, '=') == |str| && str[..|str|] == str; }
      } else {
        assert w == ShortWord(w[1..]);
        if |w| == 2 { assert w[1..] == [w[1]]; }
      }
    }
  }

  /** Normal words are left as they are, so normalizing twice is normalizing once. */
  lemma {:induction false} NormalStays(defs: seq<OptionDef>, words: seq<string>)
    requires IsNormal(defs, words)
    ensures Normalize(defs, words) == words
    decreases |words|
  {
    hide Read, SplitWord, NormalWord;
    if words != [] {
      var w, rest := words[0], words[1..];
      NormalWordStays(defs, w);
      assert words == [w] + rest;
      var stop := Read(defs, [w]).stop;
      if stop.None? {
        NormalStays(defs, rest);
      } else if stop.value.MissingArg? && rest != [] {
        NormalStays(defs, rest[1..]);
        assert rest == [rest[0]] + rest[1..];
      }
    }
  }

  /** Every command line has a normal form with the same outcome, and normalizing is idempotent. */
  lemma {:induction false} NormalForm(defs: seq<OptionDef>, st: seq<Setting>, words: seq<string>)
    requires |st| == |defs|
    ensures var normal := Normalize(defs, words);
      && IsNormal(defs, normal)
      && ParseAll(defs, st, normal) == ParseAll(defs, st, words)
      && Normalize(defs, normal) == normal
  {
    NormalizeKeeps(defs, st, words);
    NormalizeIsNormal(defs, words);
    NormalStays(defs, Normalize(defs, words));
  }
}

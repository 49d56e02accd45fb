/** Rewriting a command line without changing what it does, and which lines are read to the end. */
module CmdRewriting {
  import opened Sequences
  import opened Tokens
  import opened Splitting
  import opened CmdModel
  import opened CmdReading

  // ---------- The same option in other places and other spellings ----------

  /** The words give entry i that one argument and say nothing else. */
  predicate Gives(defs: seq<OptionDef>, words: seq<string>, i: nat, arg: string) {
    Read(defs, words) == Reading([Given(i, arg)], None)
  }

  lemma GivenArguments(i: nat, arg: string, j: nat)
    ensures Arguments([Given(i, arg)], j) == if i == j then [arg] else []
    ensures Named([Given(i, arg)], j) == (i == j)
  {
    assert [Given(i, arg)][..0] == [];
    assert [Given(i, arg)][0].index == i;
  }

  lemma OnePiece(arg: string)
    ensures Pieces([arg]) == Split(arg, ':')
  {
    assert [arg][..0] == [];
  }

  lemma Cancel<T>(x: seq<T>, y: seq<T>, w: seq<T>, z: seq<T>)
    requires x + (y + z) == x + (w + z)
    ensures y == w
  {
    assert y + z == (x + (y + z))[|x|..] == (x + (w + z))[|x|..] == w + z;
    assert |y| == |w|;
    assert y == (y + z)[..|y|] == (w + z)[..|w|] == w;
  }

  /** The joined argument adds the pieces of both exactly when splitting distributes over the join. */
  lemma PiecesJoin(f: seq<string>, a: string, b: string, r: seq<string>)
    ensures Pieces(f + ([a] + ([b] + r))) == Pieces(f + ([a + [':'] + b] + r)) <==> (b == "" <==> EndsIn(a, ':'))
  {
    hide Split, EndsIn, Pieces;
    SplitDistributes(a, b, ':');
    var ab := a + [':'] + b;
    PiecesAppend(f, [a] + ([b] + r));
    PiecesAppend([a], [b] + r);
    PiecesAppend([b], r);
    PiecesAppend(f, [ab] + r);
    PiecesAppend([ab], r);
    OnePiece(a);
    OnePiece(b);
    OnePiece(ab);
    Assoc(Split(a, ':'), Split(b, ':'), Pieces(r));
    if Pieces(f + ([a] + ([b] + r))) == Pieces(f + ([ab] + r)) {
      Cancel(Pieces(f), Split(a, ':') + Split(b, ':'), Split(ab, ':'), Pieces(r));
    }
  }

  /** What a line says in which x and, further on, y each give an argument. */
  lemma ReadTwo(defs: seq<OptionDef>, front: seq<string>, x: seq<string>, mid: seq<string>, rest: seq<string>)
    requires Read(defs, front).stop == None && Complete(defs, x) && Complete(defs, mid)
    requires Read(defs, x).stop == None
    ensures var f, u, m, r := Read(defs, front), Read(defs, x), Read(defs, mid), Read(defs, rest);
      Read(defs, front + (x + (mid + rest))) ==
      if m.stop.Some? then Reading(f.events + (u.events + m.events), m.stop)
      else Reading(f.events + (u.events + (m.events + r.events)), r.stop)
  {
    hide Read;
    ReadAfter(defs, front, x + (mid + rest));
    ReadAfter(defs, x, mid + rest);
    ReadAfter(defs, mid, rest);
  }

  /** Two arguments of a list option, with none of its others between them, may be given once, joined by ':',
      wherever on the line they stand: on a line that is read to the end exactly when splitting distributes over
      the join. */
  lemma {:induction false} ListsAccumulate(defs: seq<OptionDef>, st: seq<Setting>, i: nat, a: string, b: string,
                        x: seq<string>, y: seq<string>, joined: seq<string>,
                        front: seq<string>, mid: seq<string>, rest: seq<string>)
    requires |st| == |defs| && i < |defs| && defs[i].isList
    requires Gives(defs, x, i, a) && Gives(defs, y, i, b) && Gives(defs, joined, i, a + ":" + b)
    requires Complete(defs, front) && Complete(defs, mid) && Arguments(Read(defs, mid).events, i) == []
    ensures var two, one := front + (x + (mid + (y + rest))), front + (joined + (mid + rest));
      Parse(defs, st, two) == Parse(defs, st, one) <==>
      Parse(defs, st, two).Exited? || (b == "" <==> EndsIn(a, ':'))
  {
    hide Read, Parse, Arguments, Pieces, Named, EndsIn, Alike;
    var two, one := front + (x + (mid + (y + rest))), front + (joined + (mid + rest));
    ParseIsReading(defs, st, two);
    JoinedReads(defs, i, a, b, x, y, joined, front, mid, rest);
    var f, m, r := Read(defs, front).events, Read(defs, mid).events, Read(defs, rest).events;
    if Read(defs, two).stop.Some? || (b == "" <==> EndsIn(a, ':')) {
      if Read(defs, two).stop.None? {
        forall j | 0 <= j < |defs| ensures Alike(defs[j], Read(defs, two).events, Read(defs, one).events, j) {
          AlikeJoined(defs, i, a, b, f, m, r, j);
        }
      }
      AlikeParse(defs, st, two, one);
    } else {
      AlikeJoined(defs, i, a, b, f, m, r, i);
      UnlikeParse(defs, st, two, one, i);
    }
  }

  lemma JoinedReads(defs: seq<OptionDef>, i: nat, a: string, b: string,
                    x: seq<string>, y: seq<string>, joined: seq<string>,
                    front: seq<string>, mid: seq<string>, rest: seq<string>)
    requires Gives(defs, x, i, a) && Gives(defs, y, i, b) && Gives(defs, joined, i, a + ":" + b)
    requires Complete(defs, front) && Complete(defs, mid)
    ensures var p, q := Read(defs, front + (x + (mid + (y + rest)))), Read(defs, front + (joined + (mid + rest)));
      var f, m, r := Read(defs, front).events, Read(defs, mid).events, Read(defs, rest).events;
      && p.stop == q.stop
      && (p.stop.None? ==>
            && p.events == f + ([Given(i, a)] + (m + ([Given(i, b)] + r)))
            && q.events == f + ([Given(i, a + ":" + b)] + (m + r)))
  {
    hide Read;
    ReadAfter(defs, front, x + (mid + (y + rest)));
    ReadAfter(defs, front, joined + (mid + rest));
    if Read(defs, front).stop.None? {
      ReadTwo(defs, front, x, mid, y + rest);
      ReadTwo(defs, front, joined, mid, rest);
      ReadAfter(defs, y, rest);
    }
  }

  lemma AppendDiffers<T>(x: seq<T>, y: seq<T>, w: seq<T>)
    requires y != w
    ensures x + y != x + w
  {
    assert (x + y)[|x|..] == y && (x + w)[|x|..] == w;
  }

  /** Lines that are read to the end and give a list entry different pieces end differently. */
  lemma {:induction false} UnlikeParse(defs: seq<OptionDef>, st: seq<Setting>, a: seq<string>, b: seq<string>, i: nat)
    requires |st| == |defs| && i < |defs| && defs[i].isList
    requires Read(defs, a).stop == None && Read(defs, b).stop == None
    requires Pieces(Arguments(Read(defs, a).events, i)) != Pieces(Arguments(Read(defs, b).events, i))
    ensures Parse(defs, st, a) != Parse(defs, st, b)
  {
    hide Read, Parse, Arguments, Pieces;
    FinalSettings(defs, st, a, i);
    FinalSettings(defs, st, b, i);
    var p, q := Arguments(Read(defs, a).events, i), Arguments(Read(defs, b).events, i);
    AppendDiffers(Items(st[i].value), Pieces(p), Pieces(q));
  }

  lemma AlikeJoined(defs: seq<OptionDef>, i: nat, a: string, b: string, f: seq<Event>, m: seq<Event>,
        r: seq<Event>, j: nat)
    requires i < |defs| && j < |defs| && defs[i].isList && Arguments(m, i) == []
    ensures var p, q := f + ([Given(i, a)] + (m + ([Given(i, b)] + r))), f + ([Given(i, a + ":" + b)] + (m + r));
      && (j != i || (b == "" <==> EndsIn(a, ':')) ==> Alike(defs[j], p, q, j))
      && (j == i && !(b == "" <==> EndsIn(a, ':')) ==> Pieces(Arguments(p, j)) != Pieces(Arguments(q, j)))
  {
    hide Arguments, Pieces, Named, EndsIn;
    var ab := a + ":" + b;
    GivenArguments(i, a, j);
    GivenArguments(i, b, j);
    GivenArguments(i, ab, j);
    ArgumentsAppend(f, [Given(i, a)] + (m + ([Given(i, b)] + r)), j);
    ArgumentsAppend([Given(i, a)], m + ([Given(i, b)] + r), j);
    ArgumentsAppend(m, [Given(i, b)] + r, j);
    ArgumentsAppend([Given(i, b)], r, j);
    ArgumentsAppend(f, [Given(i, ab)] + (m + r), j);
    ArgumentsAppend([Given(i, ab)], m + r, j);
    ArgumentsAppend(m, r, j);
    assert ab == a + [':'] + b;
    var first, more := Arguments(f, j), Arguments(r, j);
    if i == j {
      assert [] + ([b] + more) == [b] + more && [] + more == more;
      PiecesJoin(first, a, b, more);
    } else {
      var rest := Arguments(m, j) + more;
      assert [] + more == more && [] + rest == rest;
    }
  }

  /** Of an option that is not a list, every argument but the last may be left out, wherever on the line it stands. */
  lemma {:induction false} LastArgumentWins(defs: seq<OptionDef>, st: seq<Setting>, i: nat, a: string, b: string,
                         x: seq<string>, y: seq<string>, front: seq<string>, mid: seq<string>, rest: seq<string>)
    requires |st| == |defs| && i < |defs| && !defs[i].isList
    requires Gives(defs, x, i, a) && Gives(defs, y, i, b) && Complete(defs, front) && Complete(defs, mid)
    ensures Parse(defs, st, front + (x + (mid + (y + rest)))) == Parse(defs, st, front + (mid + (y + rest)))
  {
    hide Read, Parse, Arguments, Pieces, Named;
    var two, one := front + (x + (mid + (y + rest))), front + (mid + (y + rest));
    ReadAfter(defs, front, x + (mid + (y + rest)));
    ReadAfter(defs, front, mid + (y + rest));
    if Read(defs, front).stop.None? {
      ReadTwo(defs, front, x, mid, y + rest);
      ReadAfter(defs, mid, y + rest);
      ReadAfter(defs, y, rest);
      if Read(defs, mid).stop.None? {
        var f, m, r := Read(defs, front).events, Read(defs, mid).events, Read(defs, rest).events;
        forall j | 0 <= j < |defs| ensures Alike(defs[j], Read(defs, two).events, Read(defs, one).events, j) {
          AlikeLast(defs, i, a, b, f, m, r, j);
        }
      }
    }
    AlikeParse(defs, st, two, one);
  }

  lemma AlikeLast(defs: seq<OptionDef>, i: nat, a: string, b: string, f: seq<Event>, m: seq<Event>, r: seq<Event>,
        j: nat)
    requires i < |defs| && j < |defs| && !defs[i].isList
    ensures Alike(defs[j], f + ([Given(i, a)] + (m + ([Given(i, b)] + r))), f + (m + ([Given(i, b)] + r)), j)
  {
    hide Arguments, Pieces, Named;
    GivenArguments(i, a, j);
    GivenArguments(i, b, j);
    var tail := m + ([Given(i, b)] + r);
    ArgumentsAppend(f, [Given(i, a)] + tail, j);
    ArgumentsAppend([Given(i, a)], tail, j);
    ArgumentsAppend(f, tail, j);
    ArgumentsAppend(m, [Given(i, b)] + r, j);
    ArgumentsAppend([Given(i, b)], r, j);
    var args := Arguments(tail, j);
    if i == j {
      assert args != [] by { assert |args| >= 1; }
      assert (Arguments(f, j) + ([a] + args))[|Arguments(f, j)| + |args|] == args[|args| - 1];
    } else {
      assert [] + args == args;
    }
  }

  /** An argument may stand in the word after a short option or directly after it. */
  lemma ShortSpellings(defs: seq<OptionDef>, c: char, arg: string)
    requires c != '-' && ArgOption(defs, c)
    ensures var i := FindShort(defs, c).value;
      && Gives(defs, [ShortWord([c]), arg], i, arg)
      && (arg != "" ==> Gives(defs, [ShortWord([c] + arg)], i, Attached(arg)))
  {
    hide Read;
    var i := FindShort(defs, c).value;
    assert Read(defs, []) == Reading([], None) by { ReadNothing(defs); }
    ReadShortWord(defs, [c], [arg] + []);
    ReadArgWord(defs, i, arg, []);
    assert [ShortWord([c]), arg] == [ShortWord([c])] + ([arg] + []);
    ReadShortWord(defs, [c] + arg, []);
    assert [ShortWord([c] + arg)] == [ShortWord([c] + arg)] + [];
    assert ([c] + arg)[1..] == arg;
  }

  /** An argument may stand in the word after a long option or after its '='. */
  lemma LongSpellings(defs: seq<OptionDef>, name: string, arg: string)
    requires '=' !in name && FindLong(defs, name).Some?
    requires var d := defs[FindLong(defs, name).value]; !d.callback && d.takesArgs
    ensures var i := FindLong(defs, name).value;
      && Gives(defs, [LongWord(name), arg], i, arg)
      && (arg != "" ==> Gives(defs, [LongWord(name + "=" + arg)], i, arg))
  {
    hide Read, Find, FindLong;
    var i := FindLong(defs, name).value;
    assert Read(defs, []) == Reading([], None) by { ReadNothing(defs); }
    assert name[..|name|] == name;
    ReadLongWord(defs, name, [arg] + []);
    ReadArgWord(defs, i, arg, []);
    assert [LongWord(name), arg] == [LongWord(name)] + ([arg] + []);
    var str := name + ['='] + arg;
    FindAt(name, arg, '=');
    assert str == name + "=" + arg && str[..|name|] == name && str[|name| + 1..] == arg;
    ReadLongWord(defs, str, []);
    assert [LongWord(str)] == [LongWord(str)] + [];
  }

  /** -c is --name, wherever a word boundary is, when both name the same entry. */
  lemma {:induction false} ShortIsLong(defs: seq<OptionDef>, st: seq<Setting>, c: char, name: string,
        front: seq<string>, rest: seq<string>)
    requires |st| == |defs| && c != '-' && '=' !in name && Complete(defs, front)
    requires FindShort(defs, c).Some? && FindShort(defs, c) == FindLong(defs, name)
    ensures Parse(defs, st, front + ([ShortWord([c])] + rest)) == Parse(defs, st, front + ([LongWord(name)] + rest))
  {
    hide Read, Parse;
    ReadShortWord(defs, [c], rest);
    assert name[..|name|] == name;
    ReadLongWord(defs, name, rest);
    ReadAfter(defs, front, [ShortWord([c])] + rest);
    ReadAfter(defs, front, [LongWord(name)] + rest);
    ParseIsReading(defs, st, front + ([ShortWord([c])] + rest));
    ParseIsReading(defs, st, front + ([LongWord(name)] + rest));
  }

  // ---------- Which lines are read to the end ----------

  predicate FlagsBefore(defs: seq<OptionDef>, str: string, k: int) {
    forall j :: 0 <= j < |str| && j < k ==> PlainFlag(defs, str[j])
  }

  /** Flags and no more, or flags and an option with its argument after it. */
  predicate WholeCluster(defs: seq<OptionDef>, str: string) {
    exists k :: 0 <= k < |str| && FlagsBefore(defs, str, k)
                && if k + 1 == |str| then PlainFlag(defs, str[k]) else ArgOption(defs, str[k])
  }

  /** Flags and an option whose argument is still to come. */
  predicate OpenCluster(defs: seq<OptionDef>, str: string) {
    str != "" && FlagsBefore(defs, str, |str| - 1) && ArgOption(defs, str[|str| - 1])
  }

  /** A word that is in order on its own. */
  predicate StandsAlone(defs: seq<OptionDef>, w: string) {
    if w == "" || w[0] != '-' then FindAnon(defs).Some?
    else if |w| > 1 && w[1] == '-' then
      var str := w[2..];
      var p := Find(str, '=');
      var found := FindLong(defs, str[..p]);
      found.Some? && !defs[found.value].callback && (defs[found.value].takesArgs ==> p + 1 < |str|)
    else WholeCluster(defs, w[1..])
  }

  /** A word that is in order when another follows. */
  predicate WantsArgument(defs: seq<OptionDef>, w: string) {
    if w == "" || w[0] != '-' then false
    else if |w| > 1 && w[1] == '-' then
      var found := FindLong(defs, w[2..]);
      '=' !in w[2..] && found.Some? && !defs[found.value].callback && defs[found.value].takesArgs
    else OpenCluster(defs, w[1..])
  }

  predicate Acceptable(defs: seq<OptionDef>, words: seq<string>)
    decreases |words|
  {
    words == []
    || (StandsAlone(defs, words[0]) && Acceptable(defs, words[1..]))
    || (WantsArgument(defs, words[0]) && |words| > 1 && Acceptable(defs, words[2..]))
  }

  lemma {:induction false} ClusterReads(defs: seq<OptionDef>, str: string)
    ensures ReadShort(defs, str, []).stop == None <==> WholeCluster(defs, str)
    ensures ReadShort(defs, str, []).stop.Some? && ReadShort(defs, str, []).stop.value.MissingArg? <==> OpenCluster(defs, str)
  {
    hide Read, Attached;
    ReadNothing(defs);
    if str != "" {
      var c, more := str[0], str[1..];
      if PlainFlag(defs, c) && |str| > 1 {
        ClusterReads(defs, more);
        FlagFirst(defs, str);
      } else {
        NoFlagFirst(defs, str);
      }
    }
  }

  lemma FlagFirst(defs: seq<OptionDef>, str: string)
    requires |str| > 1 && PlainFlag(defs, str[0])
    ensures WholeCluster(defs, str) == WholeCluster(defs, str[1..])
    ensures OpenCluster(defs, str) == OpenCluster(defs, str[1..])
  {
    hide PlainFlag, ArgOption;
    var more := str[1..];
    forall k | 0 <= k < |more| ensures FlagsBefore(defs, more, k) == FlagsBefore(defs, str, k + 1) {
      if FlagsBefore(defs, str, k + 1) {
        forall j | 0 <= j < |more| && j < k ensures PlainFlag(defs, more[j]) { assert more[j] == str[j + 1]; }
      }
    }
    assert PlainAndArg(defs, str[0]) == false by { OneKind(defs, str[0]); }
    if WholeCluster(defs, str) {
      var k :| 0 <= k < |str| && FlagsBefore(defs, str, k)
               && if k + 1 == |str| then PlainFlag(defs, str[k]) else ArgOption(defs, str[k]);
      assert k > 0;
      assert more[k - 1] == str[k] && FlagsBefore(defs, more, k - 1);
    }
    if WholeCluster(defs, more) {
      var k :| 0 <= k < |more| && FlagsBefore(defs, more, k)
               && if k + 1 == |more| then PlainFlag(defs, more[k]) else ArgOption(defs, more[k]);
      assert str[k + 1] == more[k] && FlagsBefore(defs, str, k + 1);
    }
    assert more[|more| - 1] == str[|str| - 1];
  }

  predicate PlainAndArg(defs: seq<OptionDef>, c: char) {
    PlainFlag(defs, c) && ArgOption(defs, c)
  }

  lemma OneKind(defs: seq<OptionDef>, c: char)
    ensures !PlainAndArg(defs, c)
  {
  }

  lemma NoFlagFirst(defs: seq<OptionDef>, str: string)
    requires str != "" && (|str| > 1 ==> !PlainFlag(defs, str[0]))
    ensures WholeCluster(defs, str) == if |str| == 1 then PlainFlag(defs, str[0]) else ArgOption(defs, str[0])
    ensures OpenCluster(defs, str) == (|str| == 1 && ArgOption(defs, str[0]))
  {
    hide PlainFlag, ArgOption;
    assert FlagsBefore(defs, str, 0);
  }

  lemma WordReads(defs: seq<OptionDef>, w: string)
    ensures var stop := Read(defs, [w]).stop;
      && (stop == None <==> StandsAlone(defs, w))
      && (stop.Some? && stop.value.MissingArg? <==> WantsArgument(defs, w))
  {
    hide Find, FindLong, WholeCluster, OpenCluster, ReadShort;
    ReadNothing(defs);
    assert [w][1..] == [];
    if w != "" && w[0] == '-' {
      var str := w[1..];
      if |w| > 1 && w[1] == '-' {
        var name := w[2..];
        assert Find(name, '=') == |name| ==> name[..Find(name, '=')] == name;
      } else {
        ClusterReads(defs, str);
      }
    }
  }

  lemma {:induction false} ReadsToTheEnd(defs: seq<OptionDef>, words: seq<string>)
    ensures Read(defs, words).stop == None <==> Acceptable(defs, words)
    decreases |words|
  {
    hide Read, StandsAlone, WantsArgument;
    if words == [] {
      ReadNothing(defs);
    } else {
      var w, rest := words[0], words[1..];
      assert words == [w] + rest;
      WordReads(defs, w);
      ReadAppend(defs, [w], rest);
      ReadsToTheEnd(defs, rest);
      if |words| > 1 {
        assert rest[1..] == words[2..];
        ReadsToTheEnd(defs, words[2..]);
      }
    }
  }

  /** Parsing ends early exactly on the lines that are not made of bare words some entry takes, clusters of
      flags, and options with the arguments they need; the settings have no part in it. */
  lemma {:induction false} ExitsExactly(defs: seq<OptionDef>, st: seq<Setting>, words: seq<string>)
    requires |st| == |defs|
    ensures Parse(defs, st, words).Exited? <==> !Acceptable(defs, words)
  {
    hide Read, Parse;
    ParseIsReading(defs, st, words);
    ReadsToTheEnd(defs, words);
  }
}

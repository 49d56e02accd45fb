/** What each kind of word says on its own, written out: with the composition of lines, all that any line says. */
module CmdWords {
  import opened Sequences
  import opened Tokens
  import opened Splitting
  import opened CmdModel
  import opened CmdReading
  import opened CmdRewriting

  /** A bare word is an argument of the first entry that takes such words. */
  lemma ItemSays(defs: seq<OptionDef>, w: string)
    requires w == "" || w[0] != '-'
    ensures Read(defs, [w]) ==
            match FindAnon(defs) {
              case None => Reading([], Some(UnknownItem(w)))
              case Some(i) => Reading([Given(i, w)], None)
            }
  {
    assert [w][1..] == [];
    ReadNothing(defs);
  }

  /** A long option without '='. */
  lemma LongSays(defs: seq<OptionDef>, name: string)
    requires '=' !in name
    ensures Read(defs, ["--" + name]) ==
            match FindLong(defs, name) {
              case None => Reading([], Some(UnknownLong(name)))
              case Some(i) =>
                if defs[i].callback then Reading([], Some(Callback(i)))
                else if defs[i].takesArgs then Reading([], Some(MissingArg(i)))
                else Reading([Seen(i)], None)
            }
  {
    hide Read, Find, FindLong;
    ReadNothing(defs);
    assert [LongWord(name)] + [] == ["--" + name];
    ReadLongWord(defs, name, []);
    assert name[..|name|] == name;
  }

  /** A long option with '=': for an option with arguments something has to follow. */
  lemma LongWithSignSays(defs: seq<OptionDef>, name: string, arg: string)
    requires '=' !in name
    ensures Read(defs, ["--" + name + "=" + arg]) ==
            match FindLong(defs, name) {
              case None => Reading([], Some(UnknownLong(name)))
              case Some(i) =>
                if defs[i].callback then Reading([], Some(Callback(i)))
                else if !defs[i].takesArgs then Reading([Seen(i)], None)
                else if arg == "" then Reading([], Some(EmptyArg(name)))
                else Reading([Given(i, arg)], None)
            }
  {
    hide Read, Find, FindLong;
    ReadNothing(defs);
    var str := name + ['='] + arg;
    assert LongWord(str) == "--" + name + "=" + arg;
    assert [LongWord(str)] + [] == ["--" + name + "=" + arg];
    ReadLongWord(defs, str, []);
    FindAt(name, arg, '=');
    assert str[..|name|] == name && str[|name| + 1..] == arg;
  }

  /** The first k flags of a cluster, as seen. */
  function Flags(defs: seq<OptionDef>, str: string, k: nat): seq<Event>
    requires k <= |str| && FlagsBefore(defs, str, k)
  {
    seq(k, j requires 0 <= j < k => Seen(FindShort(defs, str[j]).value))
  }

  lemma {:induction false} ClusterFrom(defs: seq<OptionDef>, str: string, k: nat, rest: seq<string>)
    requires k < |str| && FlagsBefore(defs, str, k)
    ensures var r := ReadShort(defs, str[k..], rest);
      ReadShort(defs, str, rest) == Reading(Flags(defs, str, k) + r.events, r.stop)
    decreases k
  {
    hide Read, FindShort;
    if k == 0 {
      assert str[0..] == str;
      assert [] + ReadShort(defs, str, rest).events == ReadShort(defs, str, rest).events;
    } else {
      var more := str[1..];
      forall j | 0 <= j < |more| && j < k - 1 ensures PlainFlag(defs, more[j]) {
        assert more[j] == str[j + 1];
      }
      ClusterFrom(defs, more, k - 1, rest);
      assert more[k - 1..] == str[k..];
      assert PlainFlag(defs, str[0]);
      var r := ReadShort(defs, str[k..], rest);
      var first := Seen(FindShort(defs, str[0]).value);
      assert Flags(defs, str, k) == [first] + Flags(defs, more, k - 1);
      Assoc([first], Flags(defs, more, k - 1), r.events);
    }
  }

  /** A cluster: its flags are seen up to the first option that is no flag, or to its end. An option with arguments
      takes what follows it in the word, and is left without its argument if nothing does. */
  lemma ClusterSays(defs: seq<OptionDef>, str: string, k: nat)
    requires k < |str| && str[0] != '-' && FlagsBefore(defs, str, k)
    requires k + 1 < |str| ==> !PlainFlag(defs, str[k])
    ensures var flags := Flags(defs, str, k);
      Read(defs, ["-" + str]) ==
      match FindShort(defs, str[k]) {
        case None => Reading(flags, Some(UnknownShort(str[k])))
        case Some(i) =>
          if defs[i].callback then Reading(flags, Some(Callback(i)))
          else if defs[i].takesArgs then
            if k + 1 < |str| then Reading(flags + [Given(i, Attached(str[k + 1..]))], None)
            else Reading(flags, Some(MissingArg(i)))
          else Reading(flags + [Seen(i)], None)
      }
  {
    hide Read, Attached, FlagsBefore;
    ReadNothing(defs);
    assert [ShortWord(str)] + [] == ["-" + str];
    ReadShortWord(defs, str, []);
    ClusterFrom(defs, str, k, []);
    var tail := str[k..];
    assert tail[0] == str[k] && tail[1..] == str[k + 1..];
    var flags := Flags(defs, str, k);
    assert flags + [] == flags;
  }

  /** A lone "-" is looked up as the option without a character. */
  lemma DashSays(defs: seq<OptionDef>)
    ensures Read(defs, ["-"]) ==
            match FindShort(defs, '\0') {
              case None => Reading([], Some(UnknownShort('\0')))
              case Some(i) => Reading([], Some(if defs[i].callback then Callback(i) else Overrun))
            }
  {
    hide Read;
    assert ShortWord("") == "-" && [ShortWord("")] + [] == [ShortWord("")];
    ReadShortWord(defs, "", []);
  }
}

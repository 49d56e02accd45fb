/** The command line parser of src/common/cmdline.c, in place: a cursor over argv and entries that are updated. */
module CommandLines {
  import opened Tokens
  import opened Splitting
  import opened CmdModel

  class CmdlineEntry {
    const def: OptionDef
    var value: Value
    var seen: bool

    constructor (def: OptionDef, value: Value)
      ensures this.def == def && this.value == value && !seen
    {
      this.def, this.value, seen := def, value, false;
    }

    ghost predicate Is(s: Setting)
      reads this
    {
      Setting(value, seen) == s
    }

    /** add_cmdline_arg */
    method AddArg(str: string)
      modifies this`value
      ensures value == Add(def, old(value), str)
    {
      if def.isList {
        var split := SplitString(str, ':');
        if value.Values? {
          value := Values(value.first, value.more + split);
        } else {
          value := FromPieces(split);
        }
      } else if value.Values? {
        value := Values(str, value.more);  // the first item is overwritten
      } else {
        value := Values(str, []);
      }
    }
  }

  class CommandLine {
    const args: seq<CmdlineEntry>
    var cmds: seq<string>
    var cmdsIdx: nat
    ghost const defs: seq<OptionDef>
    ghost var settings: seq<Setting>

    ghost predicate Valid()
      reads this, args
    {
      && |args| == |defs| == |settings| && cmdsIdx <= |cmds|
      && (forall i :: 0 <= i < |args| ==> args[i].def == defs[i] && args[i].Is(settings[i]))
      && (forall i, j :: 0 <= i < j < |args| ==> args[i] != args[j])
    }

    /** The current word and those after it. */
    ghost function Words(): seq<string>
      requires cmdsIdx <= |cmds|
      reads this
    {
      cmds[cmdsIdx..]
    }

    constructor (args: seq<CmdlineEntry>)
      requires forall i, j :: 0 <= i < j < |args| ==> args[i] != args[j]
      ensures Valid() && this.args == args && Words() == []
    {
      this.args := args;
      cmds, cmdsIdx := [], 0;
      defs := seq(|args|, i requires 0 <= i < |args| => args[i].def);
      new;
      settings := [];
      for i := 0 to |args|
        invariant |settings| == i && cmdsIdx == 0 == |cmds|
        invariant forall k :: 0 <= k < i ==> settings[k] == Setting(args[k].value, args[k].seen)
      {
        settings := settings + [Setting(args[i].value, args[i].seen)];
      }
    }

    function GetCmd(): (w: Option<string>)
      requires Valid()
      reads this, args
      ensures w == if Words() == [] then None else Some(Words()[0])
    {
      if cmdsIdx >= |cmds| then None else Some(cmds[cmdsIdx])
    }

    method ConsumeCmd() returns (w: Option<string>)
      requires Valid()
      modifies this`cmdsIdx
      ensures Valid()
      ensures Words() == if old(Words()) == [] then [] else old(Words())[1..]
      ensures w == GetCmd()
    {
      if cmdsIdx < |cmds| {
        cmdsIdx := cmdsIdx + 1;
      }
      w := GetCmd();
    }

    method GetShortOpt(c: char) returns (r: Option<nat>)
      requires Valid()
      ensures r == FindShort(defs, c)
    {
      var i := 0;
      while i < |args|
        invariant 0 <= i <= |args|
        invariant FindShort(defs, c) == match FindShort(defs[i..], c) { case None => None case Some(k) => Some(i + k) }
      {
        assert defs[i..][1..] == defs[i + 1..];
        if args[i].def.short == c {
          return Some(i);
        }
        i := i + 1;
      }
      return None;
    }

    method GetLongOpt(name: string) returns (r: Option<nat>)
      requires Valid()
      ensures r == FindLong(defs, name)
    {
      var i := 0;
      while i < |args|
        invariant 0 <= i <= |args|
        invariant FindLong(defs, name) == match FindLong(defs[i..], name) { case None => None case Some(k) => Some(i + k) }
      {
        assert defs[i..][1..] == defs[i + 1..];
        if args[i].def.long == Some(name) {
          return Some(i);
        }
        i := i + 1;
      }
      return None;
    }

    method GetAnon() returns (r: Option<nat>)
      requires Valid()
      ensures r == FindAnon(defs)
    {
      var i := 0;
      while i < |args|
        invariant 0 <= i <= |args|
        invariant FindAnon(defs) == match FindAnon(defs[i..]) { case None => None case Some(k) => Some(i + k) }
      {
        assert defs[i..][1..] == defs[i + 1..];
        if args[i].def.isAnon {
          return Some(i);
        }
        i := i + 1;
      }
      return None;
    }

    method SetSeen(i: nat)
      requires Valid() && i < |args|
      modifies this`settings, args
      ensures Valid() && settings == See(old(settings), i)
    {
      args[i].seen := true;
      settings := See(settings, i);
    }

    method StoreArg(i: nat, str: string)
      requires Valid() && i < |args|
      modifies this`settings, args
      ensures Valid() && settings == old(settings)[i := Setting(Add(defs[i], old(settings)[i].value, str), old(settings)[i].seen)]
    {
      args[i].AddArg(str);
      settings := settings[i := Setting(args[i].value, args[i].seen)];
    }

    /** Stores str for entry i, whose flag is set already, and moves past the current word. */
    method TakeArg(i: nat, str: string)
      requires Valid() && i < |args| && settings[i].seen && Words() != []
      modifies this`settings, this`cmdsIdx, args
      ensures Valid() && cmds == old(cmds) && cmdsIdx == old(cmdsIdx) + 1
      ensures settings == Store(defs, old(settings), i, str)
    {
      hide Split;
      StoreArg(i, str);
      var _ := ConsumeCmd();
    }

    /** The branch of parse_short_option for an entry with CMD_ARGS; rest are the words after the current one. */
    method ShortArg(i: nat, str: string) returns (stop: Option<Reason>)
      requires Valid() && i < |args| && settings[i].seen && Words() != [] && str != ""
      modifies this`settings, this`cmdsIdx, args
      ensures Valid() && cmds == old(cmds) && cmdsIdx > old(cmdsIdx)
      ensures var rest := old(Words())[1..];
        if |str| > 2 && str[1] == '=' then stop == None && Words() == rest && settings == Store(defs, old(settings), i, str[2..])
        else if |str| > 1 then stop == None && Words() == rest && settings == Store(defs, old(settings), i, str[1..])
        else if rest != [] then stop == None && Words() == rest[1..] && settings == Store(defs, old(settings), i, rest[0])
        else stop == Some(MissingArg(i))
    {
      hide Store, Split;
      if |str| > 2 && str[1] == '=' {
        TakeArg(i, str[2..]);
      } else if |str| > 1 {
        TakeArg(i, str[1..]);
      } else {
        var next := ConsumeCmd();
        if next.None? {
          return Some(MissingArg(i));
        }
        TakeArg(i, next.value);
      }
      return None;
    }

    /** None if the word was dealt with, otherwise why the program ends. In the first case what is left to do is
        to parse the remaining words from the new settings. */
    method ParseShortOption(str0: string) returns (stop: Option<Reason>)
      requires Valid() && Words() != []
      modifies this`settings, this`cmdsIdx, args
      ensures Valid() && cmds == old(cmds)
      ensures match stop
              case Some(reason) => Short(defs, old(settings), str0, old(Words())[1..]) == Exited(reason)
              case None =>
                && cmdsIdx > old(cmdsIdx)
                && Short(defs, old(settings), str0, old(Words())[1..]) == Parse(defs, settings, Words())
    {
      hide FindShort, Parse, Split, Add;
      var str := str0;
      ghost var rest := Words()[1..];
      ghost var goal := Short(defs, settings, str, rest);
      while true
        invariant Valid() && cmds == old(cmds) && cmdsIdx == old(cmdsIdx)
        invariant Short(defs, settings, str, rest) == goal
        decreases |str|
      {
        var c := if str == "" then '\0' else str[0];
        var item := GetShortOpt(c);
        if item.None? {
          return Some(UnknownShort(c));
        }
        var i := item.value;
        if args[i].def.callback {
          return Some(Callback(i));
        }
        ghost var st := settings;
        SetSeen(i);
        if str == "" {
          return Some(Overrun);
        }
        if args[i].def.takesArgs {
          SeenStore(defs, st, i);
          stop := ShortArg(i, str);
          return;
        }
        if |str| == 1 {
          break;
        }
        str := str[1..];
      }
      var _ := ConsumeCmd();
      return None;
    }

    method ParseLongOption(str: string) returns (stop: Option<Reason>)
      requires Valid() && Words() != []
      modifies this`settings, this`cmdsIdx, args
      ensures Valid() && cmds == old(cmds)
      ensures match stop
              case Some(reason) => Long(defs, old(settings), str, old(Words())[1..]) == Exited(reason)
              case None =>
                && cmdsIdx > old(cmdsIdx)
                && Long(defs, old(settings), str, old(Words())[1..]) == Parse(defs, settings, Words())
    {
      hide FindLong, Find, Parse, Split, Add;
      var p := Find(str, '=');  // strchr
      var tpt := str[..p];
      var item := GetLongOpt(tpt);
      if item.None? {
        return Some(UnknownLong(tpt));
      }
      var i := item.value;
      if args[i].def.callback {
        return Some(Callback(i));
      }
      SeenStore(defs, settings, i);
      SetSeen(i);
      if args[i].def.takesArgs {
        if p == |str| {
          var next := ConsumeCmd();
          if next.None? {
            return Some(MissingArg(i));
          }
          TakeArg(i, next.value);
          return None;
        } else if p + 1 < |str| {
          TakeArg(i, str[p + 1..]);
          return None;
        } else {
          return Some(EmptyArg(tpt));
        }
      }
      var _ := ConsumeCmd();
      return None;
    }

    method ParseListItem(str: string) returns (stop: Option<Reason>)
      requires Valid() && Words() != []
      modifies this`settings, this`cmdsIdx, args
      ensures Valid() && cmds == old(cmds)
      ensures match FindAnon(defs)
              case None => stop == Some(UnknownItem(str))
              case Some(i) =>
                && stop == None && cmdsIdx == old(cmdsIdx) + 1
                && settings == Store(defs, old(settings), i, str)
    {
      hide Split, Add, FindAnon;
      var item := GetAnon();
      if item.None? {
        return Some(UnknownItem(str));
      }
      StoreArg(item.value, str);
      SetSeen(item.value);
      var _ := ConsumeCmd();
      return None;
    }

    /** parse_cmdline on an argv whose first word is the program's name; None is a normal return. Every pass of
        the main loop moves the cursor forward. */
    method ParseCmdline(argv: seq<string>) returns (stop: Option<Reason>)
      requires Valid() && argv != []
      modifies this, args
      ensures Valid()
      ensures match stop
              case Some(reason) => ParseAll(defs, old(settings), argv[1..]) == Exited(reason)
              case None => ParseAll(defs, old(settings), argv[1..]) == Parsed(settings)
    {
      hide Short, Long, FindAnon, Store;
      cmds, cmdsIdx := argv, 0;
      var _ := ConsumeCmd();  // the program's name
      ghost var goal := Parse(defs, settings, Words());
      while true
        invariant Valid() && cmds == argv
        invariant Parse(defs, settings, Words()) == goal
        decreases |cmds| - cmdsIdx
      {
        var ptr := GetCmd();
        if ptr.None? {
          break;
        }
        var w := ptr.value;
        if w != "" && w[0] == '-' {
          if |w| > 1 && w[1] == '-' {
            stop := ParseLongOption(w[2..]);
          } else {
            stop := ParseShortOption(w[1..]);
          }
        } else {
          stop := ParseListItem(w);
        }
        if stop.Some? {
          return;
        }
      }
      stop := CheckRequired();
    }

    /** The loop over the required options. */
    method CheckRequired() returns (stop: Option<Reason>)
      requires Valid()
      ensures stop == match FirstMissing(defs, settings, 0) case None => None case Some(i) => Some(Required(i))
    {
      var mark := 0;
      while mark < |args|
        invariant 0 <= mark <= |args|
        invariant FirstMissing(defs, settings, 0) == FirstMissing(defs, settings, mark)
      {
        if args[mark].def.isRequired && !args[mark].seen {
          return Some(Required(mark));
        }
        mark := mark + 1;
      }
      return None;
    }
  }

  lemma SeenStore(defs: seq<OptionDef>, st: seq<Setting>, i: nat)
    requires i < |defs| == |st|
    ensures See(st, i)[i].seen && |See(st, i)| == |defs|
    ensures forall str :: Store(defs, See(st, i), i, str) == Store(defs, st, i, str)
  {
  }
}

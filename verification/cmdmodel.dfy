/** What parse_cmdline of src/common/cmdline.c makes of a list of words. */
module CmdModel {
  import opened Tokens
  import opened Splitting

  /** An option as add_cmdline registers it; the flags of its type are spelled out. */
  datatype OptionDef = OptionDef(
    short: char,           // '\0' if there is none
    long: Option<string>,
    callback: bool,
    takesArgs: bool,       // CMD_ARGS
    isList: bool,          // CMD_LIST
    isAnon: bool,          // CMD_ANON
    isRequired: bool)      // CMD_REQD

  /** NULL, or a list that is never empty. */
  datatype Value = Unset | Values(first: string, more: seq<string>)

  /** What parsing changes of an entry: its value and the CMD_SEEN flag. */
  datatype Setting = Setting(value: Value, seen: bool)

  /** Why the program ends early. */
  datatype Reason =
    | UnknownShort(c: char)
    | UnknownLong(name: string)
    | UnknownItem(str: string)
    | MissingArg(index: nat)
    | EmptyArg(name: string)
    | Callback(index: nat)   // the callbacks of this program exit
    | Overrun                // the characters after a lone "-" are read
    | Required(index: nat)

  datatype Outcome = Parsed(settings: seq<Setting>) | Exited(reason: Reason)

  // ---------- Looking options up ----------

  function FindShort(defs: seq<OptionDef>, c: char): (r: Option<nat>)
    ensures r.Some? ==> r.value < |defs| && defs[r.value].short == c
    ensures forall k :: 0 <= k < (if r.Some? then r.value else |defs|) ==> defs[k].short != c
  {
    if defs == [] then None
    else if defs[0].short == c then Some(0)
    else match FindShort(defs[1..], c) case None => None case Some(i) => Some(i + 1)
  }

  function FindLong(defs: seq<OptionDef>, name: string): (r: Option<nat>)
    ensures r.Some? ==> r.value < |defs| && defs[r.value].long == Some(name)
    ensures forall k :: 0 <= k < (if r.Some? then r.value else |defs|) ==> defs[k].long != Some(name)
  {
    if defs == [] then None
    else if defs[0].long == Some(name) then Some(0)
    else match FindLong(defs[1..], name) case None => None case Some(i) => Some(i + 1)
  }

  function FindAnon(defs: seq<OptionDef>): (r: Option<nat>)
    ensures r.Some? ==> r.value < |defs| && defs[r.value].isAnon
    ensures forall k :: 0 <= k < (if r.Some? then r.value else |defs|) ==> !defs[k].isAnon
  {
    if defs == [] then None
    else if defs[0].isAnon then Some(0)
    else match FindAnon(defs[1..]) case None => None case Some(i) => Some(i + 1)
  }

  // ---------- Storing ----------

  function FromPieces(pieces: seq<string>): Value
    requires pieces != []
  {
    Values(pieces[0], pieces[1..])
  }

  /** add_cmdline_arg */
  function Add(def: OptionDef, v: Value, str: string): Value {
    if def.isList then
      if v.Values? then v.(more := v.more + Split(str, ':')) else FromPieces(Split(str, ':'))
    else
      if v.Values? then v.(first := str) else Values(str, [])
  }

  function Store(defs: seq<OptionDef>, st: seq<Setting>, i: nat, str: string): (r: seq<Setting>)
    requires i < |defs| == |st|
    ensures |r| == |st|
  {
    st[i := Setting(Add(defs[i], st[i].value, str), true)]
  }

  function See(st: seq<Setting>, i: nat): (r: seq<Setting>)
    requires i < |st|
    ensures |r| == |st|
  {
    st[i := st[i].(seen := true)]
  }

  // ---------- Parsing ----------

  /** The loop of parse_cmdline, from some word on. */
  function Parse(defs: seq<OptionDef>, st: seq<Setting>, words: seq<string>): (o: Outcome)
    requires |st| == |defs|
    ensures o.Parsed? ==> |o.settings| == |defs|
    decreases |words|, 0
  {
    if words == [] then Parsed(st)
    else
      var w, rest := words[0], words[1..];
      if w != "" && w[0] == '-' then
        if |w| > 1 && w[1] == '-' then Long(defs, st, w[2..], rest)
        else Short(defs, st, w[1..], rest)
      else
        match FindAnon(defs)
        case None => Exited(UnknownItem(w))
        case Some(i) => Parse(defs, Store(defs, st, i, w), rest)
  }

  /** parse_short_option on what is left of its cluster; rest are the words after it. */
  function Short(defs: seq<OptionDef>, st: seq<Setting>, str: string, rest: seq<string>): (o: Outcome)
    requires |st| == |defs|
    ensures o.Parsed? ==> |o.settings| == |defs|
    decreases |rest|, 1 + |str|
  {
    var c := if str == "" then '\0' else str[0];
    match FindShort(defs, c)
    case None => Exited(UnknownShort(c))
    case Some(i) =>
      if defs[i].callback then Exited(Callback(i))
      else if str == "" then Exited(Overrun)
      else if defs[i].takesArgs then
        if |str| > 2 && str[1] == '=' then Parse(defs, Store(defs, st, i, str[2..]), rest)
        else if |str| > 1 then Parse(defs, Store(defs, st, i, str[1..]), rest)
        else if rest != [] then Parse(defs, Store(defs, st, i, rest[0]), rest[1..])
        else Exited(MissingArg(i))
      else if |str| > 1 then Short(defs, See(st, i), str[1..], rest)
      else Parse(defs, See(st, i), rest)
  }

  /** parse_long_option */
  function Long(defs: seq<OptionDef>, st: seq<Setting>, str: string, rest: seq<string>): (o: Outcome)
    requires |st| == |defs|
    ensures o.Parsed? ==> |o.settings| == |defs|
    decreases |rest|, 1
  {
    var p := Find(str, '=');
    var name := str[..p];
    match FindLong(defs, name)
    case None => Exited(UnknownLong(name))
    case Some(i) =>
      if defs[i].callback then Exited(Callback(i))
      else if defs[i].takesArgs then
        if p < |str| then
          if p + 1 < |str| then Parse(defs, Store(defs, st, i, str[p + 1..]), rest) else Exited(EmptyArg(name))
        else if rest != [] then Parse(defs, Store(defs, st, i, rest[0]), rest[1..])
        else Exited(MissingArg(i))
      else Parse(defs, See(st, i), rest)
  }

  function FirstMissing(defs: seq<OptionDef>, st: seq<Setting>, i: nat): Option<nat>
    requires |st| == |defs| && i <= |defs|
    decreases |defs| - i
  {
    if i == |defs| then None
    else if defs[i].isRequired && !st[i].seen then Some(i)
    else FirstMissing(defs, st, i + 1)
  }

  /** All of parse_cmdline on the words after the program's name. */
  function ParseAll(defs: seq<OptionDef>, st: seq<Setting>, words: seq<string>): Outcome
    requires |st| == |defs|
  {
    match Parse(defs, st, words)
    case Exited(reason) => Exited(reason)
    case Parsed(last) =>
      match FirstMissing(defs, last, 0)
      case None => Parsed(last)
      case Some(i) => Exited(Required(i))
  }

  // ---------- The documented equivalences ----------

  /** The argument that text directly after a short option gives: an '=' in front is dropped unless it stands
      alone. */
  function Attached(text: string): (arg: string)
    requires text != ""
  {
    if |text| > 1 && text[0] == '=' then text[1..] else text
  }

  predicate PlainFlag(defs: seq<OptionDef>, c: char) {
    FindShort(defs, c).Some? && var d := defs[FindShort(defs, c).value]; !d.callback && !d.takesArgs
  }

  predicate ArgOption(defs: seq<OptionDef>, c: char) {
    FindShort(defs, c).Some? && var d := defs[FindShort(defs, c).value]; !d.callback && d.takesArgs
  }

  function ShortWord(str: string): string { "-" + str }
  function LongWord(str: string): string { "--" + str }

  lemma {:induction false} ParseShortWord(defs: seq<OptionDef>, st: seq<Setting>, str: string, rest: seq<string>)
    requires |st| == |defs| && (str != "" ==> str[0] != '-')
    ensures Parse(defs, st, [ShortWord(str)] + rest) == Short(defs, st, str, rest)
  {
    var words := [ShortWord(str)] + rest;
    assert words[0] == ShortWord(str) && words[1..] == rest;
    assert ShortWord(str)[1..] == str;
  }

  lemma {:induction false} ParseLongWord(defs: seq<OptionDef>, st: seq<Setting>, str: string, rest: seq<string>)
    requires |st| == |defs|
    ensures Parse(defs, st, [LongWord(str)] + rest) == Long(defs, st, str, rest)
  {
    var words := [LongWord(str)] + rest;
    assert words[0] == LongWord(str) && words[1..] == rest;
    assert LongWord(str)[2..] == str;
  }

  /** -abc is -a -bc when -a is a flag and the cluster goes on with something other than '-'. */
  lemma {:induction false} ClusterSplits(defs: seq<OptionDef>, st: seq<Setting>, c: char, more: string,
        rest: seq<string>)
    requires |st| == |defs| && c != '-' && PlainFlag(defs, c) && more != "" && more[0] != '-'
    ensures Parse(defs, st, [ShortWord([c] + more)] + rest) == Parse(defs, st, [ShortWord([c]), ShortWord(more)] + rest)
  {
    var i := FindShort(defs, c).value;
    ParseShortWord(defs, st, [c] + more, rest);
    assert ([c] + more)[1..] == more;
    assert Short(defs, st, [c] + more, rest) == Short(defs, See(st, i), more, rest);
    ParseShortWord(defs, See(st, i), more, rest);
    assert [ShortWord([c]), ShortWord(more)] + rest == [ShortWord([c])] + ([ShortWord(more)] + rest);
    ParseShortWord(defs, st, [c], [ShortWord(more)] + rest);
  }

  /** Whatever stands directly after a short option with arguments: the argument it gives is Attached(text). */
  lemma {:induction false} TextDetaches(defs: seq<OptionDef>, st: seq<Setting>, c: char, text: string,
        rest: seq<string>)
    requires |st| == |defs| && c != '-' && ArgOption(defs, c) && text != ""
    ensures Parse(defs, st, [ShortWord([c] + text)] + rest) == Parse(defs, st, [ShortWord([c]), Attached(text)] + rest)
  {
    var arg := Attached(text);
    ParseShortWord(defs, st, [c] + text, rest);
    assert ([c] + text)[1..] == text;
    if |text| > 1 { assert ([c] + text)[2..] == text[1..]; }
    assert [ShortWord([c]), arg] + rest == [ShortWord([c])] + ([arg] + rest);
    ParseShortWord(defs, st, [c], [arg] + rest);
    assert ([arg] + rest)[1..] == rest;
  }

  /** -zARG is -z ARG when ARG does not start with '=' or is "=" alone. */
  lemma {:induction false} ArgDetaches(defs: seq<OptionDef>, st: seq<Setting>, c: char, arg: string, rest: seq<string>)
    requires |st| == |defs| && c != '-' && ArgOption(defs, c) && arg != "" && (arg[0] != '=' || arg == "=")
    ensures Parse(defs, st, [ShortWord([c] + arg)] + rest) == Parse(defs, st, [ShortWord([c]), arg] + rest)
  {
    hide Parse;
    TextDetaches(defs, st, c, arg, rest);
  }

  /** Exactly then: on any other ARG the two lines end with different values. */
  lemma {:induction false} ArgDetachesExactly(defs: seq<OptionDef>, st: seq<Setting>, c: char, arg: string)
    requires |st| == |defs| && c != '-' && ArgOption(defs, c) && arg != ""
    ensures Parse(defs, st, [ShortWord([c] + arg)]) == Parse(defs, st, [ShortWord([c]), arg])
       <==> arg[0] != '=' || arg == "="
  {
    hide Store, Attached;
    var i := FindShort(defs, c).value;
    assert [ShortWord([c] + arg)] + [] == [ShortWord([c] + arg)] && [ShortWord([c]), arg] + [] == [ShortWord([c]), arg];
    TextDetaches(defs, st, c, arg, []);
    OneArg(defs, st, c, Attached(arg), []);
    OneArg(defs, st, c, arg, []);
    assert [ShortWord([c]), Attached(arg)] + [] == [ShortWord([c])] + ([Attached(arg)] + []);
    assert [ShortWord([c]), arg] + [] == [ShortWord([c])] + ([arg] + []);
    if arg[0] == '=' && arg != "=" {
      StoreWithSign(defs, st, i, arg);
    } else {
      assert Attached(arg) == arg by { AttachedWhole(arg); }
    }
  }

  lemma AttachedWhole(arg: string)
    requires arg != "" && (arg[0] != '=' || arg == "=")
    ensures Attached(arg) == arg
  {
  }

  lemma {:induction false} StoreWithSign(defs: seq<OptionDef>, st: seq<Setting>, i: nat, arg: string)
    requires i < |defs| == |st| && |arg| > 1 && arg[0] == '='
    ensures Store(defs, st, i, Attached(arg)) != Store(defs, st, i, arg)
  {
    var rest := arg[1..];
    var p, q := Split(arg, ':'), Split(rest, ':');
    assert |p[0]| == Find(arg, ':') == 1 + Find(rest, ':') && |q[0]| == Find(rest, ':');
    var v := st[i].value;
    if v.Values? {
      assert (v.more + p)[|v.more|..] == p && (v.more + q)[|v.more|..] == q;
    }
    assert Add(defs[i], v, arg) != Add(defs[i], v, rest);
    assert Store(defs, st, i, arg)[i] != Store(defs, st, i, rest)[i];
  }

  /** -z= with nothing after it stores the sign. */
  lemma {:induction false} LoneEqualsIsStored(defs: seq<OptionDef>, st: seq<Setting>, c: char, rest: seq<string>)
    requires |st| == |defs| && c != '-' && ArgOption(defs, c)
    ensures Parse(defs, st, [ShortWord([c] + "=")] + rest) == Parse(defs, Store(defs, st, FindShort(defs, c).value, "="), rest)
  {
    hide Parse, Store;
    TextDetaches(defs, st, c, "=", rest);
    OneArg(defs, st, c, "=", rest);
    assert [ShortWord([c]), "="] + rest == [ShortWord([c])] + (["="] + rest);
  }

  /** An option with its argument in the next word. */
  lemma {:induction false} OneArg(defs: seq<OptionDef>, st: seq<Setting>, c: char, arg: string, rest: seq<string>)
    requires |st| == |defs| && c != '-' && ArgOption(defs, c)
    ensures Parse(defs, st, [ShortWord([c])] + ([arg] + rest))
         == Parse(defs, Store(defs, st, FindShort(defs, c).value, arg), rest)
  {
    ParseShortWord(defs, st, [c], [arg] + rest);
    assert ([arg] + rest)[1..] == rest;
  }

  /** -z=ARG is -z ARG, whatever ARG begins with, as long as there is one. */
  lemma {:induction false} EqualsArgDetaches(defs: seq<OptionDef>, st: seq<Setting>, c: char, arg: string,
        rest: seq<string>)
    requires |st| == |defs| && c != '-' && ArgOption(defs, c) && arg != ""
    ensures Parse(defs, st, [ShortWord([c] + "=" + arg)] + rest) == Parse(defs, st, [ShortWord([c]), arg] + rest)
  {
    var str := [c] + "=" + arg;
    ParseShortWord(defs, st, str, rest);
    assert str[2..] == arg;
    assert [ShortWord([c]), arg] + rest == [ShortWord([c])] + ([arg] + rest);
    ParseShortWord(defs, st, [c], [arg] + rest);
    assert ([arg] + rest)[1..] == rest;
  }

  /** --name=ARG is --name ARG. */
  lemma {:induction false} LongArgDetaches(defs: seq<OptionDef>, st: seq<Setting>, name: string, arg: string,
        rest: seq<string>)
    requires |st| == |defs| && '=' !in name && arg != ""
    requires FindLong(defs, name).Some? && defs[FindLong(defs, name).value].takesArgs
    ensures Parse(defs, st, [LongWord(name + "=" + arg)] + rest) == Parse(defs, st, [LongWord(name), arg] + rest)
  {
    var str := name + ['='] + arg;
    hide Find, Parse, FindLong;
    LongWithArg(defs, st, name, arg, rest);
    ParseLongWord(defs, st, str, rest);
    assert name + "=" + arg == str;
    assert name[..|name|] == name;
    assert [LongWord(name), arg] + rest == [LongWord(name)] + ([arg] + rest);
    ParseLongWord(defs, st, name, [arg] + rest);
    assert ([arg] + rest)[1..] == rest;
  }

  lemma {:induction false} LongWithArg(defs: seq<OptionDef>, st: seq<Setting>, name: string, arg: string,
        rest: seq<string>)
    requires |st| == |defs| && '=' !in name && arg != ""
    requires FindLong(defs, name).Some? && defs[FindLong(defs, name).value].takesArgs
    ensures var i := FindLong(defs, name).value;
      Long(defs, st, name + ['='] + arg, rest) ==
      if defs[i].callback then Exited(Callback(i)) else Parse(defs, Store(defs, st, i, arg), rest)
  {
    var str := name + ['='] + arg;
    FindAt(name, arg, '=');
    assert str[..|name|] == name && str[|name| + 1..] == arg;
  }

  /** The documentation calls --name=ARG a syntax error for a flag; the code takes it and ignores ARG. */
  lemma {:induction false} FlagIgnoresArgument(defs: seq<OptionDef>, st: seq<Setting>, name: string, arg: string,
        rest: seq<string>)
    requires |st| == |defs| && '=' !in name
    requires FindLong(defs, name).Some? && !defs[FindLong(defs, name).value].takesArgs
    ensures Parse(defs, st, [LongWord(name + "=" + arg)] + rest) == Parse(defs, st, [LongWord(name)] + rest)
  {
    var str := name + ['='] + arg;
    FindAt(name, arg, '=');
    ParseLongWord(defs, st, str, rest);
    assert str[..|name|] == name;
    assert name[..|name|] == name;
    ParseLongWord(defs, st, name, rest);
  }

  lemma {:induction false} FirstMissingFinds(defs: seq<OptionDef>, st: seq<Setting>, i: nat)
    requires |st| == |defs| && i <= |defs|
    ensures FirstMissing(defs, st, i) == None <==> forall k :: i <= k < |defs| && defs[k].isRequired ==> st[k].seen
    decreases |defs| - i
  {
    if i < |defs| {
      FirstMissingFinds(defs, st, i + 1);
    }
  }

  /** Parsing ends normally exactly when the words parse and every required option was seen. */
  lemma {:induction false} RequiredAreSeen(defs: seq<OptionDef>, st: seq<Setting>, words: seq<string>)
    requires |st| == |defs|
    ensures ParseAll(defs, st, words).Parsed? <==>
            var o := Parse(defs, st, words);
            o.Parsed? && forall k :: 0 <= k < |defs| && defs[k].isRequired ==> o.settings[k].seen
  {
    match Parse(defs, st, words) {
      case Exited(_) =>
      case Parsed(last) => FirstMissingFinds(defs, last, 0);
    }
  }
}

/**
 What a command line says, whatever the settings are: the options and arguments it gives, in order, and where
 it stops. Parsing depends on the line in no other way.
 */
module CmdReading {
  import opened Sequences
  import opened Tokens
  import opened Splitting
  import opened CmdModel

  /** An option that was seen, or given an argument. */
  datatype Event = Seen(index: nat) | Given(index: nat, arg: string)

  datatype Reading = Reading(events: seq<Event>, stop: Option<Reason>)

  predicate Registered(defs: seq<OptionDef>, events: seq<Event>) {
    forall k :: 0 <= k < |events| ==> events[k].index < |defs|
  }

  /** Only a registered entry can lack its argument; required options are not looked at yet. */
  predicate Missing(defs: seq<OptionDef>, stop: Option<Reason>) {
    stop.Some? ==> !stop.value.Required? && (stop.value.MissingArg? ==> stop.value.index < |defs|)
  }

  function Then(e: Event, r: Reading): Reading {
    Reading([e] + r.events, r.stop)
  }

  function Read(defs: seq<OptionDef>, words: seq<string>): (r: Reading)
    ensures Registered(defs, r.events) && Missing(defs, r.stop)
    decreases |words|, 0
  {
    if words == [] then Reading([], None)
    else
      var w, rest := words[0], words[1..];
      if w != "" && w[0] == '-' then
        if |w| > 1 && w[1] == '-' then ReadLong(defs, w[2..], rest)
        else ReadShort(defs, w[1..], rest)
      else
        match FindAnon(defs)
        case None => Reading([], Some(UnknownItem(w)))
        case Some(i) => Then(Given(i, w), Read(defs, rest))
  }

  function ReadShort(defs: seq<OptionDef>, str: string, rest: seq<string>): (r: Reading)
    ensures Registered(defs, r.events) && Missing(defs, r.stop)
    decreases |rest|, 1 + |str|
  {
    var c := if str == "" then '\0' else str[0];
    match FindShort(defs, c)
    case None => Reading([], Some(UnknownShort(c)))
    case Some(i) =>
      if defs[i].callback then Reading([], Some(Callback(i)))
      else if str == "" then Reading([], Some(Overrun))
      else if defs[i].takesArgs then
        if |str| > 1 then Then(Given(i, Attached(str[1..])), Read(defs, rest))
        else ReadArg(defs, i, rest)
      else if |str| > 1 then Then(Seen(i), ReadShort(defs, str[1..], rest))
      else Then(Seen(i), Read(defs, rest))
  }

  function ReadLong(defs: seq<OptionDef>, str: string, rest: seq<string>): (r: Reading)
    ensures Registered(defs, r.events) && Missing(defs, r.stop)
    decreases |rest|, 1
  {
    var p := Find(str, '=');
    match FindLong(defs, str[..p])
    case None => Reading([], Some(UnknownLong(str[..p])))
    case Some(i) =>
      if defs[i].callback then Reading([], Some(Callback(i)))
      else if !defs[i].takesArgs then Then(Seen(i), Read(defs, rest))
      else if p == |str| then ReadArg(defs, i, rest)
      else if p + 1 == |str| then Reading([], Some(EmptyArg(str[..p])))
      else Then(Given(i, str[p + 1..]), Read(defs, rest))
  }

  /** The argument of entry i in the next word. */
  function ReadArg(defs: seq<OptionDef>, i: nat, rest: seq<string>): (r: Reading)
    requires i < |defs|
    ensures Registered(defs, r.events) && Missing(defs, r.stop)
    decreases |rest|, 0
  {
    if rest == [] then Reading([], Some(MissingArg(i))) else Then(Given(i, rest[0]), Read(defs, rest[1..]))
  }

  function ApplyOne(defs: seq<OptionDef>, st: seq<Setting>, e: Event): (r: seq<Setting>)
    requires e.index < |defs| == |st|
    ensures |r| == |st|
  {
    match e
    case Seen(i) => See(st, i)
    case Given(i, arg) => Store(defs, st, i, arg)
  }

  function Apply(defs: seq<OptionDef>, st: seq<Setting>, events: seq<Event>): (r: seq<Setting>)
    requires |st| == |defs| && Registered(defs, events)
    ensures |r| == |st|
    decreases |events|
  {
    if events == [] then st else Apply(defs, ApplyOne(defs, st, events[0]), events[1..])
  }

  function Outcome(defs: seq<OptionDef>, st: seq<Setting>, r: Reading): Outcome
    requires |st| == |defs| && Registered(defs, r.events)
  {
    match r.stop
    case Some(reason) => Exited(reason)
    case None => Parsed(Apply(defs, st, r.events))
  }

  lemma {:induction false} OutcomeThen(defs: seq<OptionDef>, st: seq<Setting>, e: Event, r: Reading)
    requires |st| == |defs| && e.index < |defs| && Registered(defs, r.events)
    ensures Registered(defs, Then(e, r).events)
    ensures Outcome(defs, st, Then(e, r)) == Outcome(defs, ApplyOne(defs, st, e), r)
  {
    assert ([e] + r.events)[1..] == r.events;
  }

  /** Parsing applies what the line says, one event after the other, and ends early where the line stops. */
  lemma {:induction false} ParseIsReading(defs: seq<OptionDef>, st: seq<Setting>, words: seq<string>)
    requires |st| == |defs|
    ensures Parse(defs, st, words) == Outcome(defs, st, Read(defs, words))
    decreases |words|, 0
  {
    hide Apply, Store, See, Find;
    if words == [] {
      assert Apply(defs, st, []) == st by { ApplyNothing(defs, st); }
    } else {
      var w, rest := words[0], words[1..];
      if w != "" && w[0] == '-' {
        if |w| > 1 && w[1] == '-' {
          LongIsReading(defs, st, w[2..], rest);
        } else {
          ShortIsReading(defs, st, w[1..], rest);
        }
      } else if FindAnon(defs).Some? {
        GivenIsReading(defs, st, FindAnon(defs).value, w, rest);
      }
    }
  }

  lemma {:induction false} ApplyNothing(defs: seq<OptionDef>, st: seq<Setting>)
    requires |st| == |defs|
    ensures Apply(defs, st, []) == st
  {
  }

  lemma {:induction false} GivenIsReading(defs: seq<OptionDef>, st: seq<Setting>, i: nat, arg: string,
        rest: seq<string>)
    requires i < |defs| == |st|
    ensures Parse(defs, Store(defs, st, i, arg), rest) == Outcome(defs, st, Then(Given(i, arg), Read(defs, rest)))
    decreases |rest|, 1
  {
    hide Apply, Store, See, Parse, Read;
    OutcomeThen(defs, st, Given(i, arg), Read(defs, rest));
    ParseIsReading(defs, Store(defs, st, i, arg), rest);
  }

  lemma {:induction false} SeenIsReading(defs: seq<OptionDef>, st: seq<Setting>, i: nat, rest: seq<string>)
    requires i < |defs| == |st|
    ensures Parse(defs, See(st, i), rest) == Outcome(defs, st, Then(Seen(i), Read(defs, rest)))
    decreases |rest|, 1
  {
    hide Apply, Store, See, Parse, Read;
    OutcomeThen(defs, st, Seen(i), Read(defs, rest));
    ParseIsReading(defs, See(st, i), rest);
  }

  lemma {:induction false} ShortIsReading(defs: seq<OptionDef>, st: seq<Setting>, str: string, rest: seq<string>)
    requires |st| == |defs|
    ensures Short(defs, st, str, rest) == Outcome(defs, st, ReadShort(defs, str, rest))
    decreases |rest|, 2 + |str|
  {
    hide Apply, Store, See, Parse, Read;
    var c := if str == "" then '\0' else str[0];
    if FindShort(defs, c).Some? && str != "" {
      var i := FindShort(defs, c).value;
      if |str| > 1 {
        GivenIsReading(defs, st, i, Attached(str[1..]), rest);
        ShortIsReading(defs, See(st, i), str[1..], rest);
        OutcomeThen(defs, st, Seen(i), ReadShort(defs, str[1..], rest));
      } else {
        SeenIsReading(defs, st, i, rest);
        if rest != [] { GivenIsReading(defs, st, i, rest[0], rest[1..]); }
      }
    }
  }

  lemma {:induction false} LongIsReading(defs: seq<OptionDef>, st: seq<Setting>, str: string, rest: seq<string>)
    requires |st| == |defs|
    ensures Long(defs, st, str, rest) == Outcome(defs, st, ReadLong(defs, str, rest))
    decreases |rest|, 2
  {
    hide Apply, Store, See, Parse, Read, Find;
    var p := Find(str, '=');
    if FindLong(defs, str[..p]).Some? {
      var i := FindLong(defs, str[..p]).value;
      SeenIsReading(defs, st, i, rest);
      if p + 1 < |str| { GivenIsReading(defs, st, i, str[p + 1..], rest); }
      if rest != [] { GivenIsReading(defs, st, i, rest[0], rest[1..]); }
    }
  }

  // ---------- One line after another ----------

  /** The reading of a line that goes on with more words: an option left without its argument takes the first. */
  function Continue(defs: seq<OptionDef>, r: Reading, more: seq<string>): Reading {
    match r.stop
    case None => var next := Read(defs, more); Reading(r.events + next.events, next.stop)
    case Some(reason) =>
      if reason.MissingArg? && reason.index < |defs| then
        var next := ReadArg(defs, reason.index, more);
        Reading(r.events + next.events, next.stop)
      else r
  }

  lemma ContinueThen(defs: seq<OptionDef>, e: Event, r: Reading, more: seq<string>)
    ensures Continue(defs, Then(e, r), more) == Then(e, Continue(defs, r, more))
  {
    hide Read, ReadArg;
    match r.stop {
      case None => Assoc([e], r.events, Read(defs, more).events);
      case Some(reason) =>
        if reason.MissingArg? && reason.index < |defs| {
          Assoc([e], r.events, ReadArg(defs, reason.index, more).events);
        }
    }
  }

  lemma {:induction false} ReadAppend(defs: seq<OptionDef>, words: seq<string>, more: seq<string>)
    ensures Read(defs, words + more) == Continue(defs, Read(defs, words), more)
    decreases |words|, 0
  {
    hide Find, Continue;
    var all := words + more;
    if words == [] {
      assert all == more;
      ContinueNothing(defs, more);
    } else {
      var w, rest := words[0], words[1..];
      assert all[0] == w && all[1..] == rest + more;
      ContinueStops(defs, more);
      if w != "" && w[0] == '-' {
        if |w| > 1 && w[1] == '-' {
          ReadLongAppend(defs, w[2..], rest, more);
        } else {
          ReadShortAppend(defs, w[1..], rest, more);
        }
      } else if FindAnon(defs).Some? {
        ReadAppend(defs, rest, more);
        ContinueThen(defs, Given(FindAnon(defs).value, w), Read(defs, rest), more);
      }
    }
  }

  lemma ContinueNothing(defs: seq<OptionDef>, more: seq<string>)
    ensures Continue(defs, Reading([], None), more) == Read(defs, more)
  {
    hide Read;
    assert [] + Read(defs, more).events == Read(defs, more).events;
  }

  lemma ContinueStops(defs: seq<OptionDef>, more: seq<string>)
    ensures forall reason: Reason :: !reason.MissingArg? ==>
              Continue(defs, Reading([], Some(reason)), more) == Reading([], Some(reason))
    ensures forall i :: 0 <= i < |defs| ==> Continue(defs, Reading([], Some(MissingArg(i))), more) == ReadArg(defs, i, more)
  {
    hide Read, ReadArg;
    forall i | 0 <= i < |defs|
      ensures Continue(defs, Reading([], Some(MissingArg(i))), more) == ReadArg(defs, i, more)
    {
      assert [] + ReadArg(defs, i, more).events == ReadArg(defs, i, more).events;
    }
  }

  lemma {:induction false} ReadArgAppend(defs: seq<OptionDef>, i: nat, rest: seq<string>, more: seq<string>)
    requires i < |defs|
    ensures ReadArg(defs, i, rest + more) == Continue(defs, ReadArg(defs, i, rest), more)
    decreases |rest|, 1
  {
    hide Continue, Read;
    ContinueStops(defs, more);
    if rest == [] {
      assert rest + more == more;
    } else {
      assert (rest + more)[1..] == rest[1..] + more;
      ReadAppend(defs, rest[1..], more);
      ContinueThen(defs, Given(i, rest[0]), Read(defs, rest[1..]), more);
    }
  }

  lemma {:induction false} ReadShortAppend(defs: seq<OptionDef>, str: string, rest: seq<string>, more: seq<string>)
    ensures ReadShort(defs, str, rest + more) == Continue(defs, ReadShort(defs, str, rest), more)
    decreases |rest|, 2 + |str|
  {
    hide Continue, Read, ReadArg;
    ContinueStops(defs, more);
    var c := if str == "" then '\0' else str[0];
    if FindShort(defs, c).Some? && str != "" {
      var i := FindShort(defs, c).value;
      ReadAppend(defs, rest, more);
      ReadArgAppend(defs, i, rest, more);
      ContinueThen(defs, Seen(i), Read(defs, rest), more);
      if |str| > 1 {
        ContinueThen(defs, Given(i, Attached(str[1..])), Read(defs, rest), more);
        ReadShortAppend(defs, str[1..], rest, more);
        ContinueThen(defs, Seen(i), ReadShort(defs, str[1..], rest), more);
      }
    }
  }

  lemma {:induction false} ReadLongAppend(defs: seq<OptionDef>, str: string, rest: seq<string>, more: seq<string>)
    ensures ReadLong(defs, str, rest + more) == Continue(defs, ReadLong(defs, str, rest), more)
    decreases |rest|, 2
  {
    hide Continue, Read, ReadArg, Find;
    ContinueStops(defs, more);
    var p := Find(str, '=');
    if FindLong(defs, str[..p]).Some? {
      var i := FindLong(defs, str[..p]).value;
      ReadAppend(defs, rest, more);
      ReadArgAppend(defs, i, rest, more);
      ContinueThen(defs, Seen(i), Read(defs, rest), more);
      if p + 1 < |str| { ContinueThen(defs, Given(i, str[p + 1..]), Read(defs, rest), more); }
    }
  }

  /** Words that end at a word boundary: no option among them is left without its argument. */
  predicate Complete(defs: seq<OptionDef>, words: seq<string>) {
    var stop := Read(defs, words).stop; stop.Some? ==> !stop.value.MissingArg?
  }

  /** Words that mean the same as other words mean the same after any complete words. */
  lemma {:induction false} Congruence(defs: seq<OptionDef>, st: seq<Setting>, front: seq<string>, a: seq<string>,
        b: seq<string>)
    requires |st| == |defs| && Complete(defs, front)
    requires forall s: seq<Setting> :: |s| == |defs| ==> Parse(defs, s, a) == Parse(defs, s, b)
    ensures Parse(defs, st, front + a) == Parse(defs, st, front + b)
  {
    hide Parse, Read, Apply;
    ParseAppend(defs, st, front, a);
    ParseAppend(defs, st, front, b);
  }

  /** Parsing words after complete ones is parsing them from the settings those leave. */
  lemma {:induction false} ParseAppend(defs: seq<OptionDef>, st: seq<Setting>, front: seq<string>, more: seq<string>)
    requires |st| == |defs| && Complete(defs, front)
    ensures Parse(defs, st, front + more) ==
            match Parse(defs, st, front) {
              case Exited(reason) => Exited(reason)
              case Parsed(last) => Parse(defs, last, more)
            }
  {
    hide Parse, Read;
    ReadAppend(defs, front, more);
    ParseIsReading(defs, st, front + more);
    ParseIsReading(defs, st, front);
    var r := Read(defs, front);
    if r.stop.None? {
      var last := Apply(defs, st, r.events);
      ParseIsReading(defs, last, more);
      if Read(defs, more).stop.None? {
        ApplyAppend(defs, st, r.events, Read(defs, more).events);
      }
    }
  }

  lemma {:induction false} ApplyAppend(defs: seq<OptionDef>, st: seq<Setting>, a: seq<Event>, b: seq<Event>)
    requires |st| == |defs| && Registered(defs, a) && Registered(defs, b)
    ensures Registered(defs, a + b) && Apply(defs, st, a + b) == Apply(defs, Apply(defs, st, a), b)
    decreases |a|
  {
    if a == [] {
      assert a + b == b;
    } else {
      assert (a + b)[1..] == a[1..] + b;
      ApplyAppend(defs, ApplyOne(defs, st, a[0]), a[1..], b);
    }
  }

  lemma ReadAfter(defs: seq<OptionDef>, words: seq<string>, more: seq<string>)
    requires Complete(defs, words)
    ensures var r, next := Read(defs, words), Read(defs, more);
      Read(defs, words + more) == if r.stop.Some? then r else Reading(r.events + next.events, next.stop)
  {
    hide Read;
    ReadAppend(defs, words, more);
  }

  lemma ReadNothing(defs: seq<OptionDef>)
    ensures Read(defs, []) == Reading([], None)
  {
  }

  lemma ReadShortWord(defs: seq<OptionDef>, str: string, rest: seq<string>)
    requires str != "" ==> str[0] != '-'
    ensures Read(defs, [ShortWord(str)] + rest) == ReadShort(defs, str, rest)
  {
    var words := [ShortWord(str)] + rest;
    assert words[0] == ShortWord(str) && words[1..] == rest;
    assert ShortWord(str)[1..] == str;
  }

  lemma ReadLongWord(defs: seq<OptionDef>, str: string, rest: seq<string>)
    ensures Read(defs, [LongWord(str)] + rest) == ReadLong(defs, str, rest)
  {
    var words := [LongWord(str)] + rest;
    assert words[0] == LongWord(str) && words[1..] == rest;
    assert LongWord(str)[2..] == str;
  }

  lemma ReadArgWord(defs: seq<OptionDef>, i: nat, arg: string, rest: seq<string>)
    requires i < |defs|
    ensures ReadArg(defs, i, [arg] + rest) == Then(Given(i, arg), Read(defs, rest))
  {
    assert ([arg] + rest)[1..] == rest;
  }

  // ---------- What an entry ends up with ----------

  /** The arguments addressed to entry i, in order. */
  function Arguments(events: seq<Event>, i: nat): seq<string> {
    if events == [] then []
    else
      var front, e := events[..|events| - 1], events[|events| - 1];
      Arguments(front, i) + if e.Given? && e.index == i then [e.arg] else []
  }

  predicate Named(events: seq<Event>, i: nat) {
    exists k :: 0 <= k < |events| && events[k].index == i
  }

  /** The pieces of all arguments, in order. */
  function Pieces(args: seq<string>): seq<string> {
    if args == [] then [] else Pieces(args[..|args| - 1]) + Split(args[|args| - 1], ':')
  }

  function Items(v: Value): seq<string> {
    match v
    case Unset => []
    case Values(first, more) => [first] + more
  }

  /** What the arguments make of a value: a list grows by all their pieces, of any other value the last argument
      replaces the first item. */
  function Expected(def: OptionDef, v: Value, args: seq<string>): seq<string> {
    if def.isList then Items(v) + Pieces(args)
    else if args == [] then Items(v)
    else [args[|args| - 1]] + if v.Values? then v.more else []
  }

  lemma AddExpected(def: OptionDef, v: Value, was: Value, args: seq<string>, arg: string)
    requires Items(v) == Expected(def, was, args)
    ensures Items(Add(def, v, arg)) == Expected(def, was, args + [arg])
  {
    hide Split;
    var all := args + [arg];
    assert all[..|all| - 1] == args && all[|all| - 1] == arg;
    var p := Split(arg, ':');
    if def.isList {
      Assoc(Items(was), Pieces(args), p);
      assert Items(Add(def, v, arg)) == Items(v) + p by {
        if v.Values? { Assoc([v.first], v.more, p); } else { assert [] + p == p; }
      }
    } else if v.Values? {
      assert Items(v)[1..] == v.more;
      assert args == [] || ([args[|args| - 1]] + if was.Values? then was.more else [])[1..] == v.more;
    }
  }

  /** From the settings before to the settings after a list of events, entry by entry. */
  lemma {:induction false} ApplyExpected(defs: seq<OptionDef>, st: seq<Setting>, events: seq<Event>, i: nat)
    requires |st| == |defs| && Registered(defs, events) && i < |defs|
    ensures var last := Apply(defs, st, events);
      && Items(last[i].value) == Expected(defs[i], st[i].value, Arguments(events, i))
      && last[i].seen == (st[i].seen || Named(events, i))
    decreases |events|
  {
    hide Pieces, Split, Add;
    if events == [] {
      assert Items(st[i].value) + [] == Items(st[i].value);
      assert Pieces([]) == [] by { PiecesNone(); }
    } else {
      var n := |events| - 1;
      var front, e := events[..n], events[n];
      assert events == front + [e];
      ApplyExpected(defs, st, front, i);
      ApplyAppend(defs, st, front, [e]);
      var before := Apply(defs, st, front);
      assert Apply(defs, before, [e]) == ApplyOne(defs, before, e) by { ApplySingle(defs, before, e); }
      assert Named(events, i) == (Named(front, i) || e.index == i) by { NamedSnoc(front, e, i); }
      if e.Given? && e.index == i {
        AddExpected(defs[i], before[i].value, st[i].value, Arguments(front, i), e.arg);
      } else {
        assert Arguments(front, i) + [] == Arguments(front, i);
      }
    }
  }

  lemma PiecesNone()
    ensures Pieces([]) == []
  {
  }

  lemma {:induction false} ApplySingle(defs: seq<OptionDef>, st: seq<Setting>, e: Event)
    requires e.index < |defs| == |st|
    ensures Apply(defs, st, [e]) == ApplyOne(defs, st, e)
  {
    assert [e][1..] == [];
  }

  lemma NamedSnoc(events: seq<Event>, e: Event, i: nat)
    ensures Named(events + [e], i) == (Named(events, i) || e.index == i)
  {
    var all := events + [e];
    assert all[|events|] == e;
    if Named(events, i) {
      var k :| 0 <= k < |events| && events[k].index == i;
      assert all[k].index == i;
    }
  }

  /** Where parsing ends normally, every entry has exactly what the arguments addressed to it make of its old value,
      wherever on the line they stand, and is seen iff it was before or the line names it. */
  lemma {:induction false} FinalSettings(defs: seq<OptionDef>, st: seq<Setting>, words: seq<string>, i: nat)
    requires |st| == |defs| && i < |defs|
    ensures var r, o := Read(defs, words), Parse(defs, st, words);
      && (r.stop.Some? ==> o == Exited(r.stop.value))
      && (r.stop.None? ==>
            && o.Parsed?
            && Items(o.settings[i].value) == Expected(defs[i], st[i].value, Arguments(r.events, i))
            && o.settings[i].seen == (st[i].seen || Named(r.events, i)))
  {
    hide Parse, Read;
    ParseIsReading(defs, st, words);
    var r := Read(defs, words);
    if r.stop.None? {
      ApplyExpected(defs, st, r.events, i);
    }
  }

  /** The settings that all of parse_cmdline ends with: the loop over the required options changes none of them. */
  lemma FinalValues(defs: seq<OptionDef>, st: seq<Setting>, words: seq<string>)
    requires |st| == |defs| && ParseAll(defs, st, words).Parsed?
    ensures var r, o := Read(defs, words), ParseAll(defs, st, words);
      && r.stop == None && |o.settings| == |defs|
      && forall i :: 0 <= i < |defs| ==>
           && Items(o.settings[i].value) == Expected(defs[i], st[i].value, Arguments(r.events, i))
           && o.settings[i].seen == (st[i].seen || Named(r.events, i))
  {
    hide Parse, Read, FirstMissing, Expected, Arguments, Named, Items;
    ParseIsReading(defs, st, words);
    forall i | 0 <= i < |defs|
      ensures var r, o := Read(defs, words), Parse(defs, st, words);
        && Items(o.settings[i].value) == Expected(defs[i], st[i].value, Arguments(r.events, i))
        && o.settings[i].seen == (st[i].seen || Named(r.events, i))
    {
      FinalSettings(defs, st, words, i);
    }
  }

  /** Why parse_cmdline ends the program: the reason at which reading the line stops; and, once a line is read to its
      end, the first required entry that was not seen before and that the line does not name. */
  lemma WhyExited(defs: seq<OptionDef>, st: seq<Setting>, words: seq<string>, i: nat)
    requires |st| == |defs|
    ensures var r := Read(defs, words);
      && (r.stop.Some? ==> ParseAll(defs, st, words) == Exited(r.stop.value))
      && (ParseAll(defs, st, words) == Exited(Required(i)) <==>
            && r.stop == None && i < |defs|
            && defs[i].isRequired && !st[i].seen && !Named(r.events, i)
            && forall k :: 0 <= k < i && defs[k].isRequired ==> st[k].seen || Named(r.events, k))
  {
    hide Parse, Read, Expected, Arguments, Named, Items;
    ParseIsReading(defs, st, words);
    if Read(defs, words).stop.None? {
      var last := Parse(defs, st, words).settings;
      forall k | 0 <= k < |defs| ensures last[k].seen == (st[k].seen || Named(Read(defs, words).events, k)) {
        FinalSettings(defs, st, words, k);
      }
      FirstMissingIsFirst(defs, last, 0);
    }
  }

  lemma {:induction false} FirstMissingIsFirst(defs: seq<OptionDef>, st: seq<Setting>, i: nat)
    requires |st| == |defs| && i <= |defs|
    ensures var m := FirstMissing(defs, st, i);
      && (m.Some? ==> i <= m.value < |defs| && defs[m.value].isRequired && !st[m.value].seen)
      && forall k :: i <= k < (if m.Some? then m.value else |defs|) && defs[k].isRequired ==> st[k].seen
    decreases |defs| - i
  {
    if i < |defs| {
      FirstMissingIsFirst(defs, st, i + 1);
    }
  }

  /** Two lines give entry i the same: the same pieces for a list, the same last argument otherwise. */
  predicate Alike(def: OptionDef, a: seq<Event>, b: seq<Event>, i: nat) {
    var x, y := Arguments(a, i), Arguments(b, i);
    && Named(a, i) == Named(b, i)
    && if def.isList then Pieces(x) == Pieces(y)
       else (x == [] <==> y == []) && (x != [] ==> x[|x| - 1] == y[|y| - 1])
  }

  /** Lines that stop alike and give every entry the same have the same outcome, from any settings. */
  lemma {:induction false} AlikeParse(defs: seq<OptionDef>, st: seq<Setting>, a: seq<string>, b: seq<string>)
    requires |st| == |defs| && Read(defs, a).stop == Read(defs, b).stop
    requires Read(defs, a).stop == None ==>
             forall i :: 0 <= i < |defs| ==> Alike(defs[i], Read(defs, a).events, Read(defs, b).events, i)
    ensures Parse(defs, st, a) == Parse(defs, st, b)
  {
    hide Read, Parse, Arguments, Named;
    ParseIsReading(defs, st, a);
    ParseIsReading(defs, st, b);
    var p, q := Read(defs, a), Read(defs, b);
    if p.stop.None? {
      var u, v := Apply(defs, st, p.events), Apply(defs, st, q.events);
      forall i | 0 <= i < |defs| ensures u[i] == v[i] {
        ApplyExpected(defs, st, p.events, i);
        ApplyExpected(defs, st, q.events, i);
        ItemsInjective(u[i].value, v[i].value);
      }
      assert u == v;
    }
  }

  lemma ItemsInjective(v: Value, w: Value)
    requires Items(v) == Items(w)
    ensures v == w
  {
    if v.Values? && w.Values? {
      assert Items(v)[0] == v.first && Items(w)[0] == w.first;
      assert Items(v)[1..] == v.more && Items(w)[1..] == w.more;
    }
  }

  lemma {:induction false} ArgumentsAppend(a: seq<Event>, b: seq<Event>, i: nat)
    ensures Arguments(a + b, i) == Arguments(a, i) + Arguments(b, i)
    ensures Named(a + b, i) == (Named(a, i) || Named(b, i))
  {
    hide Named;
    if b == [] {
      assert a + b == a;
      assert !Named([], i) by { NamedNothing(i); }
    } else {
      var front, e := b[..|b| - 1], b[|b| - 1];
      var all := a + b;
      assert all[..|all| - 1] == a + front && b == front + [e];
      assert all == (a + front) + [e];
      ArgumentsAppend(a, front, i);
      NamedSnoc(a + front, e, i);
      NamedSnoc(front, e, i);
    }
  }

  lemma NamedNothing(i: nat)
    ensures !Named([], i)
  {
  }

  lemma {:induction false} PiecesAppend(a: seq<string>, b: seq<string>)
    ensures Pieces(a + b) == Pieces(a) + Pieces(b)
  {
    hide Split;
    if b == [] {
      assert a + b == a;
    } else {
      var all := a + b;
      assert all[..|all| - 1] == a + b[..|b| - 1];
      PiecesAppend(a, b[..|b| - 1]);
    }
  }
}

/** What `expression`, `rule`, `directive` and `parser` of src/parser/parser.c do to the token stream, as functions. */
module Grammar {
  import opened Sequences
  import opened Tokens
  import opened Regex
  import opened Syntax
  import opened Machine
  import opened Completeness

  // ---------- expression() ----------

  datatype ExprOutcome =
    | Parsed(out: seq<Token>, rest: seq<Token>)  // rest starts at the SEMICOLON
    | Failed(rest: seq<Token>)                   // NULL is returned, one error more
    | Exited

  function ExpressionFrom(s: State, input: seq<Token>): ExprOutcome
    decreases |input|
  {
    if input == [] then Failed([])
    else if input[0].kind.Semicolon? then
      if s.saved == [] then Parsed(s.out + Flush(s), input) else Failed(input)
    else
      match Step(s, input[0])
      case Next(next) => ExpressionFrom(next, input[1..])
      case Error => Failed(input)
      case Exit => Exited
  }

  predicate SemicolonFree(body: seq<Token>) {
    forall t <- body :: !t.kind.Semicolon?
  }

  lemma {:induction false} ExpressionOnBody(s: State, body: seq<Token>, rest: seq<Token>)
    requires SemicolonFree(body) && rest != [] && rest[0].kind.Semicolon?
    ensures var r := ExpressionFrom(s, body + rest);
      match Feed(s, body)
      case None => !r.Parsed?
      case Some(m) => r == if m.saved == [] then Parsed(m.out + Flush(m), rest) else Failed(rest)
    decreases |body|
  {
    if body == [] {
      assert body + rest == rest;
    } else {
      assert (body + rest)[1..] == body[1..] + rest;
      match Step(s, body[0]) {
        case Next(next) => ExpressionOnBody(next, body[1..], rest);
        case _ =>
      }
    }
  }

  /** expression() succeeds only by reaching the first SEMICOLON, on an accepted body before it. */
  lemma {:induction false} ExpressionSucceeds(s: State, input: seq<Token>) returns (body: seq<Token>)
    requires ExpressionFrom(s, input).Parsed?
    ensures var Parsed(out, rest) := ExpressionFrom(s, input);
      && SemicolonFree(body) && input == body + rest
      && rest != [] && rest[0].kind.Semicolon?
      && Feed(s, body).Some? && Feed(s, body).value.saved == []
      && out == Feed(s, body).value.out + Flush(Feed(s, body).value)
    decreases |input|
  {
    if input[0].kind.Semicolon? {
      body := [];
      assert [] + input == input;
    } else {
      var next := Step(s, input[0]).state;
      var b := ExpressionSucceeds(next, input[1..]);
      body := [input[0]] + b;
      assert body[1..] == b;
      assert input == body + ExpressionFrom(s, input).rest;
    }
  }

  /** It fails at the first token that is refused after an accepted beginning, at a SEMICOLON with groups still
      open, or at the end of the input; the tokens before that place are consumed. */
  lemma {:induction false} ExpressionFails(s: State, input: seq<Token>) returns (body: seq<Token>)
    requires ExpressionFrom(s, input).Failed?
    ensures var rest := ExpressionFrom(s, input).rest;
      && SemicolonFree(body) && input == body + rest && Feed(s, body).Some?
      && var m := Feed(s, body).value;
         || rest == []
         || (rest[0].kind.Semicolon? && m.saved != [])
         || (!rest[0].kind.Semicolon? && Step(m, rest[0]).Error?)
    decreases |input|
  {
    body := [];
    if input == [] || input[0].kind.Semicolon? || Step(s, input[0]).Error? {
      assert [] + input == input;
    } else {
      var b := ExpressionFails(Step(s, input[0]).state, input[1..]);
      body := [input[0]] + b;
      assert body[1..] == b;
      assert input == body + ExpressionFrom(s, input).rest;
    }
  }

  /** And it does fail there. */
  lemma {:induction false} ExpressionStops(s: State, body: seq<Token>, rest: seq<Token>)
    requires SemicolonFree(body) && Feed(s, body).Some?
    requires var m := Feed(s, body).value;
      || rest == []
      || (rest[0].kind.Semicolon? && m.saved != [])
      || (!rest[0].kind.Semicolon? && Step(m, rest[0]).Error?)
    ensures ExpressionFrom(s, body + rest) == Failed(rest)
    decreases |body|
  {
    if body == [] {
      assert body + rest == rest;
    } else {
      assert (body + rest)[1..] == body[1..] + rest;
      ExpressionStops(Step(s, body[0]).state, body[1..], rest);
    }
  }

  // ---------- rule() and directive() ----------

  datatype Rule = Rule(name: Token, expr: seq<Token>)

  datatype RuleOutcome =
    | Matched(rule: Rule, rest: seq<Token>)
    | NoMatch(rest: seq<Token>, errors: nat)
    | Halted  // exit(1), or the type of a NULL token is read

  function RuleOf(input: seq<Token>): RuleOutcome {
    if input == [] then Halted
    else if !input[0].kind.NonTerminal? then NoMatch(input, 0)
    else if |input| == 1 then Halted
    else if !input[1].kind.Colon? then NoMatch(input[1..], 1)
    else
      match ExpressionFrom(START, input[2..])
      case Failed(rest) => NoMatch(rest, 1)
      case Exited => Halted
      case Parsed(out, rest) =>
        if rest == [] then Halted
        else if !rest[0].kind.Semicolon? then NoMatch(rest, 1)
        else Matched(Rule(input[0], out), rest[1..])
  }

  datatype DirectiveOutcome =
    | Section(kind: Kind, text: string, rest: seq<Token>)  // rest starts at the code block
    | NoSection(rest: seq<Token>, errors: nat)
    | NoToken

  function DirectiveOf(input: seq<Token>): DirectiveOutcome {
    if input == [] then NoToken
    else if !IsDirective(input[0].kind) then NoSection(input, 0)
    else if |input| == 1 then NoToken
    else if input[1].kind.CodeBlock? then Section(input[0].kind, input[1].text, input[1..])
    else NoSection(input[1..], 1)
  }

  // ---------- parser() ----------

  /** The parser_state_t and the static error count. */
  datatype Store = Store(rules: seq<Rule>, start: Option<Rule>, sections: map<Kind, string>, errors: nat)

  const EMPTY := Store([], None, map[], 0)

  function AddRule(g: Store, r: Rule): Store {
    g.(rules := g.rules + [r], start := if g.start.None? then Some(r) else g.start)
  }

  function AddSection(g: Store, kind: Kind, text: string): Store {
    g.(sections := g.sections[kind := text])
  }

  /** The final store and the tokens left, or None if the program does not return. */
  function Parse(g: Store, input: seq<Token>): Option<(Store, seq<Token>)>
    decreases if g.errors == 0 then |input| + 1 else 0
  {
    if input == [] || g.errors != 0 then Some((g, input))
    else
      match RuleOf(input)
      case Halted => None
      case Matched(r, rest) =>
        RuleConsumes(input);
        Parse(AddRule(g, r), rest)
      case NoMatch(rest, e) =>
        RuleConsumes(input);
        match DirectiveOf(rest)
        case NoToken => None
        case Section(kind, text, rest2) => Parse(AddSection(g, kind, text).(errors := g.errors + e), rest2)
        case NoSection(rest2, e2) => Parse(g.(errors := g.errors + e + e2 + 1), rest2)
  }

  lemma {:induction false} ExpressionConsumes(s: State, input: seq<Token>)
    ensures ExpressionFrom(s, input).Parsed? ==> |ExpressionFrom(s, input).rest| <= |input|
    ensures ExpressionFrom(s, input).Failed? ==> |ExpressionFrom(s, input).rest| <= |input|
    decreases |input|
  {
    if input != [] && !input[0].kind.Semicolon? && Step(s, input[0]).Next? {
      ExpressionConsumes(Step(s, input[0]).state, input[1..]);
    }
  }

  lemma RuleConsumes(input: seq<Token>)
    ensures RuleOf(input).Matched? ==> |RuleOf(input).rest| < |input|
    ensures RuleOf(input).NoMatch? ==> |RuleOf(input).rest| <= |input|
  {
    if |input| >= 2 {
      ExpressionConsumes(START, input[2..]);
    }
  }

  // ---------- Which inputs parse without error ----------

  datatype RuleText = RuleText(name: Token, colon: Token, body: seq<Token>, semicolon: Token)

  predicate RuleTextOk(r: RuleText) {
    && r.name.kind.NonTerminal? && r.colon.kind.Colon? && r.semicolon.kind.Semicolon?
    && SemicolonFree(r.body) && Compile(r.body).Some?
  }

  predicate AllOk(rs: seq<RuleText>) {
    forall i :: 0 <= i < |rs| ==> RuleTextOk(rs[i])
  }

  function Spell(r: RuleText): seq<Token> {
    [r.name, r.colon] + r.body + [r.semicolon]
  }

  function SpellAll(rs: seq<RuleText>): seq<Token> {
    if rs == [] then [] else Spell(rs[0]) + SpellAll(rs[1..])
  }

  function Compiled(r: RuleText): Rule
    requires RuleTextOk(r)
  {
    Rule(r.name, Compile(r.body).value)
  }

  function CompiledAll(rs: seq<RuleText>): (c: seq<Rule>)
    requires AllOk(rs)
    ensures |c| == |rs|
    ensures forall i :: 0 <= i < |rs| ==> c[i] == Compiled(rs[i])
  {
    if rs == [] then [] else [Compiled(rs[0])] + CompiledAll(rs[1..])
  }

  lemma RuleReads(r: RuleText, rest: seq<Token>)
    requires RuleTextOk(r)
    ensures RuleOf(Spell(r) + rest) == Matched(Compiled(r), rest)
  {
    var input := Spell(r) + rest;
    var tail := [r.semicolon] + rest;
    assert input[2..] == r.body + tail;
    ExpressionOnBody(START, r.body, tail);
    assert tail[1..] == rest;
  }

  lemma RuleMatches(input: seq<Token>) returns (r: RuleText)
    requires RuleOf(input).Matched?
    ensures RuleTextOk(r) && input == Spell(r) + RuleOf(input).rest && RuleOf(input).rule == Compiled(r)
  {
    hide Feed, Step, Flush;
    var body := ExpressionSucceeds(START, input[2..]);
    var rest := ExpressionFrom(START, input[2..]).rest;
    r := RuleText(input[0], input[1], body, rest[0]);
    assert rest == [rest[0]] + rest[1..];
    assert input == [input[0], input[1]] + input[2..];
  }

  lemma ParseOneRule(g: Store, r: RuleText, rest: seq<Token>)
    requires g.errors == 0 && RuleTextOk(r)
    ensures Parse(g, Spell(r) + rest) == Parse(AddRule(g, Compiled(r)), rest)
  {
    RuleReads(r, rest);
  }

  /** What adding the compiled rules in source order makes of a store. */
  function AddAll(g: Store, rs: seq<RuleText>): Store
    requires AllOk(rs)
  {
    Store(g.rules + CompiledAll(rs), if g.start.None? && rs != [] then Some(Compiled(rs[0])) else g.start,
          g.sections, g.errors)
  }

  lemma AddAllOne(g: Store, rs: seq<RuleText>)
    requires AllOk(rs) && rs != []
    ensures AddAll(g, rs) == AddAll(AddRule(g, Compiled(rs[0])), rs[1..])
  {
    var r := Compiled(rs[0]);
    assert g.rules + [r] + CompiledAll(rs[1..]) == g.rules + CompiledAll(rs);
  }

  /** A list of accepted rules parses to the compiled rules in source order, the first one becoming
      the start rule, with no error and every token consumed. */
  lemma {:induction false} ParseRules(g: Store, rs: seq<RuleText>)
    requires g.errors == 0 && AllOk(rs)
    ensures Parse(g, SpellAll(rs)) == Some((AddAll(g, rs), []))
    decreases |rs|
  {
    if rs == [] {
      assert AddAll(g, rs) == g by { assert g.rules + [] == g.rules; }
    } else {
      ParseOneRule(g, rs[0], SpellAll(rs[1..]));
      AddAllOne(g, rs);
      ParseRules(AddRule(g, Compiled(rs[0])), rs[1..]);
    }
  }

  /** Parsing goes on behind accepted rules with those rules stored. */
  lemma {:induction false} ParseAfterRules(g: Store, rs: seq<RuleText>, tail: seq<Token>)
    requires g.errors == 0 && AllOk(rs)
    ensures Parse(g, SpellAll(rs) + tail) == Parse(AddAll(g, rs), tail)
    decreases |rs|
  {
    hide RuleOf, DirectiveOf;
    if rs == [] {
      assert AddAll(g, rs) == g by { assert g.rules + [] == g.rules; }
      assert [] + tail == tail;
    } else {
      Assoc(Spell(rs[0]), SpellAll(rs[1..]), tail);
      ParseOneRule(g, rs[0], SpellAll(rs[1..]) + tail);
      AddAllOne(g, rs);
      ParseAfterRules(AddRule(g, Compiled(rs[0])), rs[1..], tail);
    }
  }

  /** directive() leaves its code block unread, and nothing at top level can take a code block. */
  lemma BlockIsAnError(g: Store, input: seq<Token>)
    requires g.errors == 0 && input != [] && input[0].kind.CodeBlock?
    ensures Parse(g, input) == Some((g.(errors := 1), input))
  {
    var h := g.(errors := 1);
    assert RuleOf(input) == NoMatch(input, 0);
    assert DirectiveOf(input) == NoSection(input, 0);
    assert Parse(h, input) == Some((h, input));
  }

  /** A directive with its code block, after accepted rules: the text is stored for exactly that section, the block is
      still there, and that is the one error. */
  lemma {:induction false} DirectiveStores(rs: seq<RuleText>, d: Token, cb: Token, rest: seq<Token>)
    requires AllOk(rs) && cb.kind.CodeBlock?
    requires d.kind.Pretext? || d.kind.Posttext? || d.kind.Precode? || d.kind.Postcode?
      || d.kind.TermDef? || d.kind.NtermDef? || d.kind.Provides? || d.kind.Requires?
    ensures Parse(EMPTY, SpellAll(rs) + ([d, cb] + rest)) ==
            Some((Store(CompiledAll(rs), if rs == [] then None else Some(Compiled(rs[0])), map[d.kind := cb.text], 1),
                  [cb] + rest))
  {
    hide Parse, SpellAll, CompiledAll;
    var g := AddAll(EMPTY, rs);
    ParseAfterRules(EMPTY, rs, [d, cb] + rest);
    assert g.rules == CompiledAll(rs) && g.sections[d.kind := cb.text] == map[d.kind := cb.text];
    SectionCounts(g, d, cb, rest);
  }

  lemma {:induction false} SectionCounts(g: Store, d: Token, cb: Token, rest: seq<Token>)
    requires g.errors == 0 && IsDirective(d.kind) && cb.kind.CodeBlock?
    ensures Parse(g, [d, cb] + rest) ==
            Some((g.(sections := g.sections[d.kind := cb.text], errors := 1), [cb] + rest))
  {
    hide ExpressionFrom;
    var input, left := [d, cb] + rest, [cb] + rest;
    assert input[1..] == left;
    assert RuleOf(input) == NoMatch(input, 0);
    assert DirectiveOf(input) == Section(d.kind, cb.text, left);
    BlockIsAnError(g.(sections := g.sections[d.kind := cb.text]), left);
  }

  lemma {:induction false} JunkCounts(g: Store, t: Token, rest: seq<Token>)
    requires g.errors == 0 && !t.kind.NonTerminal? && !IsDirective(t.kind)
    ensures Parse(g, [t] + rest) == Some((g.(errors := 1), [t] + rest))
  {
    var input, h := [t] + rest, g.(errors := 1);
    assert RuleOf(input) == NoMatch(input, 0) && DirectiveOf(input) == NoSection(input, 0);
    assert Parse(h, input) == Some((h, input));
  }

  lemma {:induction false} BadHeadCounts(g: Store, t: Token, u: Token, rest: seq<Token>)
    requires g.errors == 0
    requires if t.kind.NonTerminal? then !u.kind.Colon? && !IsDirective(u.kind)
             else IsDirective(t.kind) && !u.kind.CodeBlock?
    ensures Parse(g, [t, u] + rest) == Some((g.(errors := 2), [u] + rest))
  {
    hide ExpressionFrom;
    var input, left, h := [t, u] + rest, [u] + rest, g.(errors := 2);
    assert input[1..] == left;
    if t.kind.NonTerminal? {
      assert RuleOf(input) == NoMatch(left, 1) && DirectiveOf(left) == NoSection(left, 0);
    } else {
      assert RuleOf(input) == NoMatch(input, 0) && DirectiveOf(input) == NoSection(left, 1);
    }
    assert Parse(h, left) == Some((h, left));
  }

  lemma {:induction false} CutHeadEnds(g: Store, t: Token)
    requires g.errors == 0 && (t.kind.NonTerminal? || IsDirective(t.kind))
    ensures Parse(g, [t]) == None
  {
    hide ExpressionFrom;
    assert RuleOf([t]) == if t.kind.NonTerminal? then Halted else NoMatch([t], 0);
    assert IsDirective(t.kind) ==> DirectiveOf([t]) == NoToken;
  }

  /** How many errors a first mistake after accepted rules counts, and where parsing stops: 1 for a token that starts
      nothing, 2 for a name without ':' and for a directive without code block. Where the input ends behind the first
      token of a rule or a directive, the program does not return. */
  lemma {:induction false} ErrorCounts(rs: seq<RuleText>, t: Token, u: Token, rest: seq<Token>)
    requires AllOk(rs)
    ensures var g := AddAll(EMPTY, rs);
      && (!t.kind.NonTerminal? && !IsDirective(t.kind) ==>
            Parse(EMPTY, SpellAll(rs) + ([t] + rest)) == Some((g.(errors := 1), [t] + rest)))
      && (t.kind.NonTerminal? && !u.kind.Colon? && !IsDirective(u.kind) ==>
            Parse(EMPTY, SpellAll(rs) + ([t, u] + rest)) == Some((g.(errors := 2), [u] + rest)))
      && (IsDirective(t.kind) && !u.kind.CodeBlock? ==>
            Parse(EMPTY, SpellAll(rs) + ([t, u] + rest)) == Some((g.(errors := 2), [u] + rest)))
      && (t.kind.NonTerminal? || IsDirective(t.kind) ==> Parse(EMPTY, SpellAll(rs) + [t]) == None)
  {
    hide Parse, AddAll, SpellAll;
    var g := AddAll(EMPTY, rs);
    AddAllErrors(rs);
    ParseAfterRules(EMPTY, rs, [t] + rest);
    ParseAfterRules(EMPTY, rs, [t, u] + rest);
    ParseAfterRules(EMPTY, rs, [t]);
    if t.kind.NonTerminal? || IsDirective(t.kind) {
      CutHeadEnds(g, t);
      if if t.kind.NonTerminal? then !u.kind.Colon? && !IsDirective(u.kind) else !u.kind.CodeBlock? {
        BadHeadCounts(g, t, u, rest);
      }
    } else {
      JunkCounts(g, t, rest);
    }
  }

  lemma AddAllErrors(rs: seq<RuleText>)
    requires AllOk(rs)
    ensures AddAll(EMPTY, rs).errors == 0
  {
  }

  /** A body that is refused, or that a SEMICOLON ends inside a group, counts 2 errors; parsing stops there. */
  lemma {:induction false} RefusedBody(rs: seq<RuleText>, name: Token, colon: Token, body: seq<Token>,
        t: Token, rest: seq<Token>)
    requires AllOk(rs) && name.kind.NonTerminal? && colon.kind.Colon? && SemicolonFree(body)
    requires Feed(START, body).Some? && !IsDirective(t.kind)
    requires if t.kind.Semicolon? then Feed(START, body).value.saved != [] else Step(Feed(START, body).value, t).Error?
    ensures Parse(EMPTY, SpellAll(rs) + ([name, colon] + body + ([t] + rest))) ==
            Some((AddAll(EMPTY, rs).(errors := 2), [t] + rest))
  {
    hide Parse, AddAll, SpellAll, Feed, Step;
    AddAllErrors(rs);
    ParseAfterRules(EMPTY, rs, [name, colon] + body + ([t] + rest));
    ExpressionStops(START, body, [t] + rest);
    RefusedCounts(AddAll(EMPTY, rs), name, colon, body, t, rest);
  }

  lemma {:induction false} RefusedCounts(g: Store, name: Token, colon: Token, body: seq<Token>,
        t: Token, rest: seq<Token>)
    requires g.errors == 0 && name.kind.NonTerminal? && colon.kind.Colon? && !IsDirective(t.kind)
    requires ExpressionFrom(START, body + ([t] + rest)) == Failed([t] + rest)
    ensures Parse(g, [name, colon] + body + ([t] + rest)) == Some((g.(errors := 2), [t] + rest))
  {
    hide ExpressionFrom;
    var input, left, h := [name, colon] + body + ([t] + rest), [t] + rest, g.(errors := 2);
    assert input[2..] == body + left;
    assert RuleOf(input) == NoMatch(left, 1) && DirectiveOf(left) == NoSection(left, 0);
    assert Parse(h, left) == Some((h, left));
  }

  lemma {:induction false} ParseWithoutError(g: Store, input: seq<Token>) returns (rs: seq<RuleText>)
    requires g.errors == 0 && Parse(g, input).Some? && Parse(g, input).value.0.errors == 0
    ensures AllOk(rs) && input == SpellAll(rs)
    decreases |input|
  {
    if input == [] {
      rs := [];
    } else {
      RuleConsumes(input);
      match RuleOf(input) {
        case Matched(rule, rest) =>
          var r := RuleMatches(input);
          var tail := ParseWithoutError(AddRule(g, rule), rest);
          rs := [r] + tail;
          assert rs[1..] == tail;
        case NoMatch(rest, e) =>
          match DirectiveOf(rest) {
            case Section(kind, text, rest2) =>
              if e == 0 { BlockIsAnError(AddSection(g, kind, text).(errors := 0), rest2); }
            case _ =>
          }
          assert false;
        case Halted =>
          assert false;
      }
    }
  }

  ghost predicate RuleList(input: seq<Token>) {
    exists rs :: AllOk(rs) && input == SpellAll(rs)
  }

  /** parser() returns 0 exactly on the concatenations of accepted rules. */
  lemma ParsesExactlyRuleLists(input: seq<Token>)
    ensures (Parse(EMPTY, input).Some? && Parse(EMPTY, input).value.0.errors == 0) <==> RuleList(input)
  {
    if Parse(EMPTY, input).Some? && Parse(EMPTY, input).value.0.errors == 0 {
      var rs := ParseWithoutError(EMPTY, input);
    }
    if RuleList(input) {
      var rs :| AllOk(rs) && input == SpellAll(rs);
      ParseRules(EMPTY, rs);
    }
  }

  lemma {:induction false} FeedTokens(s: State, body: seq<Token>)
    requires Feed(s, body).Some?
    ensures forall i :: 0 <= i < |body| ==> !IsDirective(body[i].kind) && !body[i].kind.Semicolon?
    decreases |body|
  {
    if body != [] {
      FeedTokens(Step(s, body[0]).state, body[1..]);
    }
  }

  lemma {:induction false} RulesHaveNoDirective(rs: seq<RuleText>)
    requires AllOk(rs)
    ensures forall t <- SpellAll(rs) :: !IsDirective(t.kind)
  {
    if rs != [] {
      FeedTokens(START, rs[0].body);
      RulesHaveNoDirective(rs[1..]);
    }
  }

  /** The grammar language has directives, but as written no input that contains one parses without error. */
  lemma DirectivesAlwaysFail(input: seq<Token>, i: nat)
    requires i < |input| && IsDirective(input[i].kind)
    ensures Parse(EMPTY, input).Some? ==> Parse(EMPTY, input).value.0.errors > 0
  {
    ParsesExactlyRuleLists(input);
    if RuleList(input) {
      var rs :| AllOk(rs) && input == SpellAll(rs);
      RulesHaveNoDirective(rs);
      assert false;
    }
  }

  // ---------- Printing a whole grammar and parsing it back ----------

  datatype Definition = Definition(name: Token, tree: Regex)

  predicate DefinitionsOk(ds: seq<Definition>) {
    forall i :: 0 <= i < |ds| ==> ds[i].name.kind.NonTerminal? && WellFormed(ds[i].tree)
  }

  function PrintRule(d: Definition): RuleText {
    RuleText(d.name, Token(Colon, ":"), Print(d.tree), Token(Semicolon, ";"))
  }

  function PrintRules(ds: seq<Definition>): (rs: seq<RuleText>)
    ensures |rs| == |ds|
    ensures forall i :: 0 <= i < |ds| ==> rs[i] == PrintRule(ds[i])
  {
    if ds == [] then [] else [PrintRule(ds[0])] + PrintRules(ds[1..])
  }

  lemma PrintedRule(d: Definition)
    requires d.name.kind.NonTerminal? && WellFormed(d.tree)
    ensures RuleTextOk(PrintRule(d))
    ensures Evaluate(Compiled(PrintRule(d)).expr) == Some(d.tree)
  {
    RoundTrip(d.tree);
    FeedTokens(START, Print(d.tree));
  }

  /** Parsing a printed grammar reports no error and leaves no token, the rules stand in source order,
      and evaluating each stored rule gives its tree back. */
  lemma GrammarRoundTrip(ds: seq<Definition>)
    requires DefinitionsOk(ds)
    ensures var input := SpellAll(PrintRules(ds));
      exists store :: Parse(EMPTY, input) == Some((store, [])) && StoresDefinitions(store, ds)
  {
    var rs := PrintRules(ds);
    forall i | 0 <= i < |ds|
      ensures RuleTextOk(rs[i]) && Evaluate(Compiled(rs[i]).expr) == Some(ds[i].tree)
    {
      PrintedRule(ds[i]);
    }
    ParseRules(EMPTY, rs);
    assert EMPTY.rules + CompiledAll(rs) == CompiledAll(rs);
    assert StoresDefinitions(AddAll(EMPTY, rs), ds);
  }

  ghost predicate StoresDefinitions(store: Store, ds: seq<Definition>) {
    && store.errors == 0 && |store.rules| == |ds|
    && (forall i :: 0 <= i < |ds| ==>
          store.rules[i].name == ds[i].name && Evaluate(store.rules[i].expr) == Some(ds[i].tree))
    && store.start == (if ds == [] then None else Some(store.rules[0]))
  }
}

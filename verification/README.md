# pgen: a verified model of the grammar compiler and its support structures

pgen reads a grammar whose rule bodies are small regular expressions (operands, `+ * ?`, `|`,
parentheses, implicit concatenation) and compiles each body to postfix. This project models that
compiler, the hash table, the growable arrays and lists, the command line and the code-block scanner,
and proves what they promise. `dafny verify dfyconfig.toml` checks everything.

## How it is laid out

**The compiler.** `expression` is one loop with two counters, a stack of saved counters and an output
list. `machine.dfy` gives its step as a function; `ruleparser.dfy` runs `expression`, `rule`, `directive`
and `parser` in place over a token cursor and proves each against the functions of `grammar.dfy`.
The meaning of the output comes from three independent definitions: expression trees with a postfix
stack machine (`regex.dfy`), the recursive grammar of bodies as parse trees that keep every token
(`syntax.dfy`), and the language of a tree (`language.dfy`). `completeness.dfy` shows that every parse
is compiled to the postorder of its tree. `kinds.dfy` says what becomes of every kind of
token, kind by kind. `soundness.dfy` shows why two counters are enough: each reachable
state stands for a stack of open groups, and running the output so far leaves exactly their trees.
`acceptance.dfy` draws the line between what is accepted and what has a meaning. `aswritten.dfy` is the machine
with the saved counters popped byte-wise, as array.c does, `acceptaswritten.dfy` shows which bodies that
accepts, `frontnested.dfy` on exactly which it gives the same output, and `frontbars.dfy` how long such bodies may get.

**The hash table.** `probing.dfy` has FNV-1a (section 2 of draft-eastlake-fnv), the stride and the probe
sequence; `hashmodel.dfy` the table as a value; `hashruns.dfy` whole runs against an abstract map;
`hashtable.dfy` the array of nodes that is updated in place, with the unbounded search loop and its
termination.

**Arrays and lists.** `items.dfy` relates bytes to fixed-size items, `bytearray.dfy` is array.c,
`pointerlist.dfy` is pointer_list.c, `ordering.dfy` holds what both sorts and both searches rest on,
`dllist.dfy` is dl_list.c with real next and prev links.

**Command line and text.** `splitting.dfy` is split_string, `cmdmodel.dfy` says what parse_cmdline makes of a
list of words. `cmdreading.dfy` says what a line says whatever the settings are, how lines compose and what every
entry ends up with; `cmdrewriting.dfy` and `cmdnormal.dfy` build rewritings anywhere on a line, the exact condition
for an early exit and a normal form on it. `cmdwords.dfy` writes out what each kind of word
says. `cmdline.dfy` is the parser in place, `codeblock.dfy` the CODEBLOCK mode
of the scanner.

`tokens.dfy`, `bits.dfy` and `sequences.dfy` are shared vocabulary.

## Where the code is not what its documentation or its callers expect

- A body is checked for a pending operand at `|` and at `)`, not at `;`. An empty body and a body ending in
  one bar are accepted, and their output is not postfix code of any tree (`Acceptance.WellFormedOutput`
  has the exact condition, `Acceptance.IllFormedBodies` two inputs).
- `directive` leaves its code block unread and nothing at top level takes one, so no input with a directive
  parses without error (`Grammar.DirectivesAlwaysFail`).
- `find_slot` stops at the first tombstone even for a lookup. After a removal every search is right exactly
  when no other live key's probe passed through the freed bucket (`HashRuns.RemovalExact`); with the keys
  "a" and "e" it does (`HashRuns.LostKey`). A lookup that stops at a tombstone also lowers the tombstone count.
- The header of hash.c says the table is resized at 3/4; the code resizes when 7 * count >= 4 * cap.
- The documentation of `parse_long_option` calls `--abc=something` a syntax error for a plain switch; the code
  takes it and ignores the argument (`CmdModel.FlagIgnoresArgument`). `-z=` with nothing after it stores "="
  (`CmdModel.LoneEqualsIsStored`), while `--name=` is refused; so `-zARG` is `-z ARG` exactly when ARG does not
  start with '=' or is "=" alone (`CmdModel.ArgDetachesExactly`).
- `insert_dl_list_node` is documented as inserting after the current node; at the head it inserts before.
- `pop_array` and `peek_array` return an address counted in bytes, not items: the top read there is the last item
  for all contents only with one item on the stack or items of one byte (`ByteArrays.TopIsLastItem`). The compiler
  is modelled with the stack that array.c documents. With the pop as written, bodies of fewer than 256 tokens are
  accepted and refused alike (`AcceptanceAsWritten.SameAcceptance`), but one that is accepted gives the same output,
  and code for its tree, exactly when it is front-nested (`FrontNesting.FrontNestingExact`,
  `FrontNesting.TreeAsWrittenExact`): every `(` inside open groups stands directly after another `(`, and the
  outermost `(` of such a run starts the body or follows a `|` outside all groups. `((A B)+ C) | ((D))` is, and so
  are the nested bodies of tests/grammar.g. `( X ( A ) )` is not: X is forgotten, and `X A` comes out, which is code
  of no tree (`AsWritten.ForgottenAtom`). Nesting one deep is always right, nesting two deep is not
  (`AsWritten.NestingExact`). Longer front-nested bodies are right exactly while fewer than 256 bars stand before a
  nested group (`FrontBars.FrontBarsExact`). At 265 tokens acceptance differs too: `( A | ... A | A ( A ) | )` with
  129 bars before the inner group is accepted as written, because those bars are read back as the sign byte of
  num_atoms (`AcceptanceAsWritten.LongBodyDiffers`).
- `swap_array_data` is documented as swapping at the beginning or the end when an index is out of range; the code
  ends the program for an index beyond the end (`ByteArrays.ByteArray.SwapData`).
- Splitting at a separator distributes over joining only under a condition on both parts
  (`Splitting.SplitDistributes`): a trailing separator does not make an empty last piece.

## Reading the model

- exit(1), and reading through a NULL token, appear as the results `Ended` / `Halted`; an index that array.c
  answers with exit(1) makes the operation return false.
- The masks of hash.c are a bitwise `And` on naturals, proved to be the remainder. Capacities, lengths and
  counts are unbounded integers.
- Comparators are functions whose sign is a total preorder (`Ordering.TotalPreorder`).
- The characters of strings are not interpreted; strings end where the sequence ends.

## Model

| member | source | states |
|---|---|---|
| Kinds.StepExits | src/parser/parser.c:51-182 | the internal error is reached exactly by CATENATE; every other kind has a case in the switch, SEMICOLON the one that ends the loop |
| Kinds.StepRefuses | src/parser/parser.c:52-139 | kind by kind, what is a syntax error in which state: the eight directives and `:` always, `+ * ? \|` with no operand pending, `)` also with no group open |
| Kinds.OneOperand | src/parser/parser.c:141-155 | each of the five kinds of operand is a body of its own, compiled to itself |
| Kinds.OneSuffix | src/parser/parser.c:69-80 | each of `+ * ?` after an operand of any kind is compiled to the two tokens |
| Kinds.ThreeInARow | src/parser/parser.c:82-155 | `A B C` gives `A B . C .` and `A \| B \| C` gives `A B C \| \|`, token for token |
| Kinds.GroupInARow | src/parser/parser.c:69-155 | `( A B \| C ) + A` gives `A B . C \| + A .`, token for token |
| Machine.Conservation | src/parser/parser.c:69-171 | on every accepted body, operands and `+ * ?` come out once each in source order, as many pipes as went in, no parenthesis, and nothing else but CATENATE |
| Machine.StepKeepsPipes | src/parser/parser.c:69-155 | every step conserves pipes: those emitted plus those owed by the open group and all saved groups grow by one exactly at a `\|` |
| Completeness.FeedUnit | src/parser/parser.c:69-155 | from any state, a unit (operand, group, or either with postfix operators) first concatenates a pending pair, then adds exactly one atom whose code is the unit's postorder, and restores all saved counters |
| Completeness.FeedAlt | src/parser/parser.c:82-155 | an alternation read into an empty group leaves its alternatives' code and delays exactly one pipe a bar |
| Completeness.CompileParse | src/parser/parser.c:25-186 | every body the recursive grammar derives is accepted and its output is the postorder of its parse: `+ * ?` tightest, concatenation nested left, alternation right |
| Completeness.RoundTrip | src/parser/parser.c:25-186 | printing any expression tree with minimal parentheses, compiling the print and evaluating the code on a stack gives back exactly that tree |
| Completeness.Unambiguous | src/parser/parser.c:42-183 | two parses of one body have the same tree |
| Completeness.OutputSize | src/parser/parser.c:69-171 | for a derivable body there are operands - 1 - pipes CATENATE tokens, and the output is operands - 1 longer than the operands and postfix operators together |
| Syntax.MinimalIsShortest | src/parser/parser.c:98-139 | no parse of the same tree is shorter than the printed one, so RoundTrip covers the fewest parentheses that keep the tree |
| Soundness.ReadBody | src/parser/parser.c:42-183 | every reachable state stands for a partial parse of exactly the tokens read, whose trees are what the output leaves on a postfix stack |
| Soundness.StackDiscipline | src/parser/parser.c:69-177 | after every token the output never underflows a postfix machine, whose height is num_alts + num_atoms plus all saved pairs; num_atoms <= 2 and every saved num_atoms <= 1 |
| Acceptance.ExactAcceptance | src/parser/parser.c:42-183 | a body is accepted at its SEMICOLON iff the grammar derives it, it is empty, or it is a derivable body and one `\|` |
| Acceptance.WellFormedOutput | src/parser/parser.c:157-177 | an accepted body's output is code for one tree iff num_atoms >= 1 at the SEMICOLON iff the grammar derives the body |
| Acceptance.IllFormedBodies | src/parser/parser.c:157-177 | the empty body and `A \|` are accepted with output that is no tree |
| Acceptance.OutputIsPostorder | src/parser/parser.c:141-177 | for a derivable body the output is the postorder of its tree and evaluates to it |
| AcceptanceAsWritten.SameAcceptance | src/parser/parser.c:113-139 | with pop_array as written, a body of fewer than 256 tokens is accepted iff it is accepted with the documented stack |
| AcceptanceAsWritten.ExactAcceptanceAsWritten | src/parser/parser.c:42-183 | so as written, too, such a body is accepted iff the grammar derives it, it is empty, or it is a derivable body and one `\|` |
| AcceptanceAsWritten.LongBodyDiffers | src/parser/parser.c:134-136 | a body of 265 tokens, with 129 bars saved before an inner group, is refused with the documented stack and accepted as written |
| FrontNesting.FrontNestingExact | src/parser/parser.c:98-139 | with pop_array as written, a body of fewer than 256 tokens has the result of the documented stack iff it is refused there or front-nested, a check on the positions of its `(`; every other one is accepted with another output |
| FrontNesting.TreeAsWrittenExact | src/parser/parser.c:98-177 | with pop_array as written, the output for a derivable body of fewer than 256 tokens is code for its tree iff the body is front-nested |
| FrontNesting.EqualIsFront | src/parser/parser.c:98-139 | from any two states that agree outside all groups, whatever was misread before, equal final outputs mean that the rest of the body is front-nested |
| AsWritten.FrontAgrees | src/parser/parser.c:98-139 | on a front-nested stretch of any length an int can count, with fewer than 256 bars before every nested group, both machines take the same steps and put out the same tokens |
| FrontBars.FrontBarsExact | src/parser/parser.c:98-139 | a front-nested body of any length an int can count is accepted as written iff it is with the documented stack, and an accepted one has the same output iff fewer than 256 bars stand before every nested group |
| FrontBars.PoppedBars | src/common/array.c:304-313 | with bars alone saved, a pop above the outermost group reads no atoms, and next to it a positive number of bars once there are 256 |
| AsWritten.NestingExact | src/parser/parser.c:134-136 | with pop_array as written, every body whose parentheses nest within d gives the documented output iff d <= 1 |
| AsWritten.ForgottenAtom | src/parser/parser.c:134-136 | `( X ( A ) )` is derivable, is accepted as written with the output `X A`, and that is code of no tree |
| AsWritten.PoppedFromOne | src/common/array.c:304-313 | from a single open group the saved counters come back unchanged, over the whole range of int |
| AsWritten.PoppedAt | src/common/array.c:304-313 | with k pairs on the stack a pop reads the eight bytes from byte k - 1 on |
| FrontNesting.ReadsLose | src/common/array.c:304-313 | with no atom saved with the outermost group, either some pop reads 256 atoms or more or every pop above that group reads no positive counter |
| Language.MeaningPreserved | src/parser/parser.c:82-155 | the output denotes the regular language of the body under any association of its concatenations and alternations |
| Language.SuffixLaws | src/parser/parser.c:69-80 | in the language of an output, + is once and then *, * is nothing or +, ? is nothing or once |
| Language.ParenthesesKeepMeaning | src/parser/parser.c:98-139 | parenthesising any whole sub-expression leaves the language of the output unchanged |
| Grammar.ExpressionSucceeds | src/parser/parser.c:42-183 | expression() succeeds only at the first SEMICOLON, on an accepted body before it, and leaves the SEMICOLON unread |
| Grammar.ExpressionFails | src/parser/parser.c:42-183 | it fails only at the first token refused after an accepted beginning, at a SEMICOLON inside a group, or at the end of input, with the tokens before that place consumed |
| Grammar.ExpressionStops | src/parser/parser.c:42-183 | and there it does fail |
| Grammar.ParseRules | src/parser/parser.c:188-276 | a list of accepted rules parses with 0 errors and no token left; rule_list holds each name with its postfix in source order and start_rule is the first |
| Grammar.ParsesExactlyRuleLists | src/parser/parser.c:422-449 | for every input, parser() returns 0 iff the input is a concatenation of accepted rules |
| Grammar.DirectivesAlwaysFail | src/parser/parser.c:278-420 | no input that contains a directive parses without error |
| Grammar.DirectiveStores | src/parser/parser.c:278-420 | after accepted rules, each of the eight directives with its code block stores the text for exactly that section; the rules and the start rule are as before, the block is unread and is the one error |
| Grammar.ErrorCounts | src/parser/parser.c:188-449 | after accepted rules, a token that starts nothing counts 1 error, a name without `:` and a directive without code block 2, each stopping there with all rules kept; an input that ends in a rule's or a directive's first token reads through NULL |
| Grammar.RefusedBody | src/parser/parser.c:188-449 | after accepted rules, a body that is refused or that ends inside a group counts 2 errors and parsing stops at that token |
| Grammar.GrammarRoundTrip | src/parser/parser.c:188-276 | a printed grammar parses with no error, and every stored rule evaluates to the tree it was printed from |
| RuleParser.Parser.GetToken | src/parser/tokens.c:69-73 | the current token, or NULL at the end of input |
| RuleParser.Parser.ConsumeToken | src/parser/tokens.c:91-101 | the cursor moves on by one token and stays at the end |
| RuleParser.Parser.EmitCatenates | src/parser/parser.c:89-91 | the loop emits num_atoms - 1 CATENATE tokens, none for 0 |
| RuleParser.Parser.EmitPipes | src/parser/parser.c:130-132 | the loop emits num_alts PIPE tokens |
| RuleParser.Parser.Switch | src/parser/parser.c:51-155 | in place, one pass of the switch is the machine's step; a refused token is not consumed and counts one error |
| RuleParser.Parser.Expression | src/parser/parser.c:25-186 | in place, expression() is the machine run to the SEMICOLON, with the same output, the same tokens left and one error when it fails |
| RuleParser.Parser.ParseRule | src/parser/parser.c:188-276 | in place, the state machine of rule() reads a name, a colon, a body and a SEMICOLON and stores the rule last under that name, as start rule if it is the first, or leaves the store alone and counts at most one error |
| RuleParser.Parser.ParseDirective | src/parser/parser.c:278-420 | in place, a directive stores the text of the code block after it in the section of the directive's own kind; the block stays unread; nothing else changes |
| RuleParser.Parser.Parse | src/parser/parser.c:422-449 | in place, parser() ends with the store and the error count of the functional parser, for every input |
| Bits.MaskIsMod | src/common/hash.c:53-74 | masking with cap - 1 is the remainder by a power-of-two cap |
| Probing.ProbeParameters | src/common/hash.c:53-55 | the home bucket is the hash modulo the capacity, the stride its low four bits, never 0 |
| Probing.FullCircle | src/common/hash.c:61-76 | for any stride the first pass of cap steps comes back to where it began |
| Probing.ProbeMasked | src/common/hash.c:74-76 | one masked step of the loop is the next position of the probe sequence, in either pass |
| Probing.SecondPassReaches | src/common/hash.c:61-77 | the stride-1 pass visits every bucket of the table |
| HashRuns.HashA | src/common/hash.c:38-49 | the hash of "a" is the published FNV-1a value |
| Probing.HashFoobar | src/common/hash.c:38-49 | the hash of "foobar" is the published FNV-1a value |
| Bits.XorDigits | src/common/hash.c:38-49 | exclusive or works on the low and the high bits of its operands separately |
| HashRuns.EveryRunKeepsTheLoad | src/common/hash.c:83-192 | after any mix of inserts, finds and removals: live keys <= count < cap, cap a power of two, and a bucket is left for find_slot to stop at |
| HashModel.RehashLoad | src/common/hash.c:83-104 | in every such state one doubling brings 7 * count under 4 * cap and sets count to the number of live nodes |
| HashModel.RehashExact | src/common/hash.c:83-104 | the capacity doubles iff 7 * count >= 4 * cap, with the live nodes counted and no tombstone left; otherwise nothing changes |
| HashModel.RehashRepresents | src/common/hash.c:95-101 | rehashing keeps exactly the same bindings, each where it will be found, tombstones or not |
| HashRuns.RehashRefines | src/common/hash.c:83-104 | the rehashed table is the same map, and count its size |
| HashModel.PlaceRepresents | src/common/hash.c:139-158 | storing an absent key where its probe stops, on an empty bucket or a tombstone, adds exactly one binding and moves no other search |
| HashRuns.InsertRefines | src/common/hash.c:135-162 | insert returns 1 and binds only an absent key; it returns 0 and changes no binding for a present one |
| HashRuns.RemoveRefines | src/common/hash.c:180-192 | a safe removal removes exactly that binding |
| HashRuns.RunsRefine | src/common/hash.c:51-192 | every run whose removals are safe answers as an abstract map does, across any number of rehashes |
| HashRuns.RemovalFreeRuns | src/common/hash.c:106-178 | every run of inserts and finds on a new table answers as an abstract map does |
| HashRuns.RemovalExact | src/common/hash.c:180-192 | after removing any key, bound or not, every search is right iff no other live key's probe passes through the bucket it freed, and iff the table is the map without the key |
| HashRuns.LostKey | src/common/hash.c:66-69 | concrete keys for which a removal hides another key, which is then stored a second time |
| HashTables.HashFunc | src/common/hash.c:38-49 | the loop computes FNV-1a |
| HashTables.HashTable.constructor | src/common/hash.c:106-116 | a new table has four empty buckets and count 0 |
| HashTables.HashTable.FindSlot | src/common/hash.c:51-81 | the two-pass search ends in every state of the load invariant, at the first bucket of the probe sequence that is empty, a tombstone or holds the key |
| HashTables.HashTable.MoveBucket | src/common/hash.c:95-101 | one pass of the loop moves a live node, and only that, to the new table |
| HashTables.HashTable.RehashTable | src/common/hash.c:83-104 | in place, the table becomes the rehashed one and no node is copied or shared between buckets; the capacity doubles iff 7 * count >= 4 * cap |
| HashTables.HashTable.StoreKey | src/common/hash.c:145-158 | a node is made for an empty bucket, a tombstone's node is used again, no other bucket changes |
| HashTables.HashTable.InsertKey | src/common/hash.c:135-162 | in place, insert does and answers what the model's insert does; the capacity doubles iff 7 * count >= 4 * cap before, and count grows by the answer |
| HashTables.HashTable.FindKey | src/common/hash.c:164-178 | the data of the key if the search ends at it; only the tombstone count may change |
| HashTables.HashTable.RemoveKey | src/common/hash.c:180-192 | in place, the bucket of a present key becomes a tombstone, count falls and the tombstones grow by one; otherwise the buckets stay |
| HashTables.HashTable.NameExists | src/common/hash.c:210-221 | 1 exactly when a find would succeed |
| Items.DecodeSplice | src/common/array.c:59-83 | splicing whole items into the bytes at an item boundary is splicing them into the items |
| Items.DecodeUpdate | src/common/array.c:284-287 | overwriting the bytes of an item replaces that item only |
| ByteArrays.ByteArray.constructor | src/common/array.c:92-103 | a new array is empty with room for eight items |
| ByteArrays.ByteArray.Resize | src/common/array.c:70-77 | the capacity stays if the new items fit and is otherwise doubled until they do and no further, stays a power of two, and the bytes in use stay |
| ByteArrays.ByteArray.MoveAndFill | src/common/array.c:124-125 | the memmove and the memcpy splice the new bytes into the old ones |
| ByteArrays.ByteArray.InsertArray | src/common/array.c:119-128 | the items become old[..i] + src + old[i..] with i the index if that is not negative, and length - (k - 1) for -k; an index beyond the end is the error exit |
| ByteArrays.ByteArray.InsertData | src/common/array.c:236-245 | the items become old[..i] + [item] + old[i..], with the same indexes |
| ByteArrays.ByteArray.AppendArray | src/common/array.c:133-139 | the items of src, which may be the array itself, follow the old items |
| ByteArrays.ByteArray.AppendData | src/common/array.c:213-219 | the item follows the old items |
| ByteArrays.ByteArray.Clear | src/common/array.c:144-150 | the array is empty with the default capacity |
| ByteArrays.ByteArray.Peek | src/common/array.c:318-326 | the bytes from byte length - 1 on, as a caller reads them at the returned address; NULL when empty |
| ByteArrays.ByteArray.Pop | src/common/array.c:304-313 | the last item goes, a sorted array stays sorted, and the bytes from byte length - 1 on are what a caller reads |
| ByteArrays.TopIsLastItem | src/common/array.c:300-326 | the top so read is the last item for all contents iff there is one item only or items are single bytes |
| ByteArrays.LostAtom | src/common/array.c:308 | two saved counter pairs for which the pop loses an atom |
| ByteArrays.ByteArray.SwapData | src/common/array.c:279-290 | the items at the two indexes, with length - k for -k, change places, whatever their bytes; an index beyond the end is the error exit |
| ByteArrays.ByteArray.Sort | src/common/array.c:155-165 | the items are in order, a permutation of the old ones, and equal items keep their order |
| ByteArrays.ByteArray.Search | src/common/array.c:190-207 | on a sorted array, an index whose item compares equal to the key, or -1 if there is none |
| ByteArrays.ByteArray.FindIndex | src/common/array.c:183-208 | an array is sorted when first searched; the result is an index of an equal item iff one is there, -1 otherwise or without a comparator |
| Ordering.SwapIsStable | src/common/array.c:159-161 | swapping neighbours that compare greater keeps every class of equal elements in order |
| Ordering.BubbleCarries | src/common/array.c:158-162 | one comparison carries a greatest element one place on and disturbs nothing already settled |
| Ordering.StableSortUnique | src/common/pointer_list.c:108-120 | a sorted sequence with the same classes is unique, so the sorts have exactly one possible result |
| PointerLists.PointerList.Append | src/common/pointer_list.c:37-47 | the item follows the old ones, the buffer doubling exactly when full |
| PointerLists.PointerList.Index | src/common/pointer_list.c:49-57 | the item at a non-negative index, NULL outside |
| PointerLists.PointerList.Pop | src/common/pointer_list.c:65-75 | the last item is returned and removed, NULL from an empty list |
| PointerLists.PointerList.Iterate | src/common/pointer_list.c:87-100 | the item at the mark, which moves on, then NULL |
| PointerLists.PointerList.Sort | src/common/pointer_list.c:108-120 | an ordered permutation in which equal elements keep their order |
| PointerLists.PointerList.FindIndex | src/common/pointer_list.c:123-146 | on a list flagged sorted, an index of an equal element iff there is one; -1 otherwise and for unflagged lists |
| PointerLists.PointerList.Copy | src/common/pointer_list.c:162-170 | a new list with the same pointers |
| DlLists.DeleteUndoesInsert | src/common/dl_list.c:42-97 | deleting the item just inserted restores the items, and where the cursor ends up |
| DlLists.List.Append | src/common/dl_list.c:99-109 | the node is last; the cursor moves only on an empty list, onto the node; both chains stay mirror images |
| DlLists.List.Prepend | src/common/dl_list.c:111-121 | the node is first; the cursor stays on its node, and is on the new one only in an empty list |
| DlLists.List.Insert | src/common/dl_list.c:76-97 | the node goes before a cursor at the head and after any other; the cursor stays on its node; NULL on an empty list |
| DlLists.List.InsertBetween | src/common/dl_list.c:87-92 | the four link updates splice the node in after the cursor |
| DlLists.List.CutBetween | src/common/dl_list.c:61-64 | the two link updates splice the node out |
| DlLists.List.DeleteCurrent | src/common/dl_list.c:42-73 | the node under the cursor goes; the cursor is on the next one, else on the previous one, whose data is returned |
| DlLists.List.Reset | src/common/dl_list.c:144-152 | the cursor is at the last or the first node |
| DlLists.List.Next | src/common/dl_list.c:166-171 | the cursor is one further |
| DlLists.List.Prev | src/common/dl_list.c:159-164 | the cursor is one back |
| DlLists.List.Iterate | src/common/dl_list.c:123-142 | the first item, then each next one, then NULL for good |
| CodeBlocks.Scanner.ScanBlock | src/parser/scanner.l:106-139 | from `{`, the one CODE_BLOCK found is exactly the balanced text before the matching brace, at any depth and whatever the buffer held; with none the input ends |
| CodeBlocks.BalancedExact | src/parser/scanner.l:115-139 | balanced means as many braces closed as opened and no prefix that closes more than it opens |
| CodeBlocks.BlockIsUnique | src/parser/scanner.l:129-139 | a text has at most one balanced start that a closing brace follows |
| CodeBlocks.BalancedTexts | src/parser/scanner.l:115-139 | balanced texts may follow one another and nest to any depth |
| Splitting.SplitString | src/common/string_list.c:76-102 | for a separator other than the terminating zero, the head and tail walk collects the pieces |
| Splitting.JoinSplit | src/common/string_list.c:76-102 | every piece is free of the separator, and joining them gives the text back but for one separator at its end |
| Splitting.SplitMore | src/common/string_list.c:84-98 | what a separator and more text add to the pieces, in all four cases |
| Splitting.SplitDistributes | src/common/string_list.c:76-102 | splitting s, a separator and t gives the pieces of s and of t iff t is empty exactly when s ends in the separator |
| Splitting.AddString | src/common/string_list.c:64-74 | a string is appended only if it is not in the list |
| CmdModel.FindShort | src/common/cmdline.c:194-205 | the first entry with that short option |
| CmdModel.FindLong | src/common/cmdline.c:211-222 | the first entry with that long option |
| CmdModel.ClusterSplits | src/common/cmdline.c:313-315 | `-abc` is `-a -bc` for a flag -a, if the cluster does not go on with '-' |
| CmdModel.TextDetaches | src/common/cmdline.c:360-377 | any text after `-z` gives the same as the next word would, less an '=' in front that does not stand alone |
| CmdModel.ArgDetaches | src/common/cmdline.c:330-333 | `-zARG` is `-z ARG` when ARG does not start with '=' or is "=" alone |
| CmdModel.ArgDetachesExactly | src/common/cmdline.c:330-333 | and only then: for any other ARG the final values differ |
| CmdModel.EqualsArgDetaches | src/common/cmdline.c:325-328 | `-z=ARG` is `-z ARG` when ARG is not empty |
| CmdModel.LoneEqualsIsStored | src/common/cmdline.c:360-377 | `-z=` with nothing after it stores "=" |
| CmdModel.LongArgDetaches | src/common/cmdline.c:413-417 | `--name=ARG` is `--name ARG` |
| CmdModel.FlagIgnoresArgument | src/common/cmdline.c:407-411 | for an option without arguments `--name=ARG` is `--name`, not an error |
| CmdModel.RequiredAreSeen | src/common/cmdline.c:551-567 | parsing ends normally iff the words parse and every required option was seen |
| CmdReading.FinalValues | src/common/cmdline.c:527-568 | on a normal return every entry has exactly what the arguments addressed to it make of its old value, and is seen iff it was before or the line names it |
| CmdReading.WhyExited | src/common/cmdline.c:527-568 | the program ends for the reason at which reading the line stops, or, once it is read to its end, for the first required entry that is not seen |
| CmdWords.ItemSays | src/common/cmdline.c:491-511 | a bare word is an argument of the first anonymous entry, and without one it is the error |
| CmdWords.LongSays | src/common/cmdline.c:420-479 | what `--name` says for an unknown name, a callback, a flag and an option with arguments |
| CmdWords.LongWithSignSays | src/common/cmdline.c:420-479 | what `--name=arg` says in these cases, arg empty or not |
| CmdWords.ClusterSays | src/common/cmdline.c:341-398 | a cluster sees its flags in order up to the first option that is no flag, which takes the rest of the word, misses its argument, is unknown or ends the program |
| CmdWords.DashSays | src/common/cmdline.c:341-360 | a lone "-" looks up the option of no character, and reads past the word if an entry has none |
| CmdReading.ParseIsReading | src/common/cmdline.c:527-549 | parsing applies the options and arguments that the line gives, in order, and ends early where the line stops; neither depends on the settings |
| CmdReading.ReadAppend | src/common/cmdline.c:527-549 | what a line says is what its first words say followed by what the rest says; an option left without its argument takes the next word, and nothing follows an early exit |
| CmdReading.Congruence | src/common/cmdline.c:527-549 | words that parse alike from all settings parse alike after any words that end at a word boundary |
| CmdReading.FinalSettings | src/common/cmdline.c:281-306 | where parsing ends normally, a list has grown by the pieces of all arguments addressed to it, in order, wherever they stand, any other value has its first item replaced by the last argument, and an entry is seen iff it was before or the line names it |
| CmdReading.AlikeParse | src/common/cmdline.c:281-306 | two lines that stop alike and give every entry the same pieces, or the same last argument, have the same outcome from any settings |
| CmdRewriting.ShortIsLong | src/common/cmdline.c:351-432 | at any word boundary of a line a short option and the long name of the same entry are interchangeable |
| CmdRewriting.ListsAccumulate | src/common/cmdline.c:285-293 | two arguments of a list option, anywhere on a line with no other of its arguments between them and in any spelling, are one argument joined by ':' iff splitting distributes over the join or the program ends early |
| CmdRewriting.LastArgumentWins | src/common/cmdline.c:294-305 | of any other option, an argument that another one follows anywhere later on the line may be left out |
| CmdRewriting.ShortSpellings | src/common/cmdline.c:320-333 | an argument of a short option may stand in the next word or directly after it |
| CmdRewriting.LongSpellings | src/common/cmdline.c:413-417 | an argument of a long option may stand in the next word or after the '=' |
| CmdRewriting.ExitsExactly | src/common/cmdline.c:341-549 | parsing ends early iff the line is not made of bare words that some entry takes, clusters of flags, and options with the arguments they need, whatever the settings |
| CmdNormal.NormalizeReads | src/common/cmdline.c:341-549 | a command line and its normal form give the same options and arguments in the same order and stop alike |
| CmdNormal.NormalizeKeeps | src/common/cmdline.c:527-549 | from any settings, a command line and its normal form have the same outcome |
| CmdNormal.NormalForm | src/common/cmdline.c:341-549 | every command line has a normal form with the same outcome, one option a word, by its long name where that reaches the entry, and arguments apart; a cluster in which a flag is followed by '-' stays whole and the words after it are normalized; normalizing is idempotent |
| CommandLines.CmdlineEntry.AddArg | src/common/cmdline.c:281-306 | a list grows by the pieces of the argument, any other value has its first item replaced |
| CommandLines.CommandLine.ConsumeCmd | src/common/cmdline.c:182-188 | the cursor moves on by one word and stays at the end |
| CommandLines.CommandLine.GetShortOpt | src/common/cmdline.c:194-205 | the loop finds the first matching entry |
| CommandLines.CommandLine.ShortArg | src/common/cmdline.c:360-384 | where the argument of a short option is taken from, and how far the cursor moves |
| CommandLines.CommandLine.ParseShortOption | src/common/cmdline.c:341-398 | in place, a cluster is dealt with as in the model and the cursor moves forward |
| CommandLines.CommandLine.ParseLongOption | src/common/cmdline.c:420-479 | in place, a long option is dealt with as in the model and the cursor moves forward |
| CommandLines.CommandLine.ParseListItem | src/common/cmdline.c:491-511 | in place, a bare word goes to the first anonymous entry |
| CommandLines.CommandLine.ParseCmdline | src/common/cmdline.c:527-568 | in place, parsing terminates with the final values, seen flags and exits of the model, for every argv |

## Left out

- RuleParser.Parser.Expression: uses the last-in first-out stack of counter pairs that array.c documents. With pop_array as written it does that exactly for front-nested bodies (`FrontNesting.FrontNestingExact`), because the popped address is counted in bytes; the machine as written is compared as a function, not run in place.
- FrontNesting.FrontNestingExact: of bodies of 256 tokens or more only the front-nested ones (`FrontBars.FrontBarsExact`) and those nested at most one deep (`AsWritten.NestingExact`) are decided, because saved counters of the others may fill more than one byte in any pattern.
- ByteArrays.ByteArray.InsertArray: does not cover inserting an array into itself before its end, because the source then calls memcpy on overlapping bytes, nor indexes below -(length + 1), because they name bytes before the buffer.
- ByteArrays.ByteArray.InsertData: does not cover indexes below -(length + 1), because they name bytes before the buffer.
- Splitting.SplitString: does not cover a separator of zero, because strchr then finds the end of the text and the walk leaves the buffer; all callers pass ':'.
- ByteArrays.ByteArray.SwapData: does not cover an index equal to the length or below -length, which normalize_read_index lets through, unless the other index is beyond the end, because they name bytes outside the items.
- PointerLists.PointerList.Index: does not cover negative indexes that reach into the list, because the source then reads beyond its end.
- DlLists.List.DeleteCurrent: does not cover a list of one node, because the source then dereferences NULL; likewise cursor moves off the list and resets or iterations of an empty list.
- `delete_array_data` copies overlapping bytes with memcpy, which C leaves undefined.
- The eight branches of `directive` are one branch over the kind of section; `crnt_rule` always is the rule stored last.
- Token line numbers and `ptype`, messages, tracing and help output.
- Callbacks of command options are taken to exit, as both of this program's callbacks do.
- A lone "-" makes parse_short_option read past the end of the word; it is an outcome of its own (`Overrun`).
- The environment import of `store_environment`, `get_cmd_opt` and the other readers of option values.
- Flex and its other token rules; only the CODEBLOCK actions are modelled, on the characters after the brace.
- string_buffer.c, allocation and freeing: strings are sequences and memory is not reclaimed.
- Machine overflow of capacities, lengths and counters; the 32-bit hash word is modelled exactly.
- `sort_string_list`, `find_string_list` and the remaining functions of string_list.c that hand a pointer list of strings to pointer_list.c; `dump_hashtable`, which prints the buckets; the destroy functions, which free memory.
- states.c is empty, and the state machine generation described in the repository's README.md and docs/notes.md is not implemented.

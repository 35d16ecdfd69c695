# Alphyn, modelled in Dafny

Alphyn is a C++ LR(1) parser generator in which grammars, automata and lexers are
types, and all the generation happens at compile time. This project restates that
pipeline as ordinary Dafny data over integer symbol ids (`type_t`) and proves what
each stage promises.

- **Lexing.**
  - Tokens (`Tokens`) and matchers over '\0'-terminated text (`Matchers`).
  - First-match-wins lexical syntaxes and skip syntaxes (`LexicalSyntax`).
  - The lexer's skip loop and the lazy lexeme list (`Lexer`).
- **Grammar.**
  - Attributes: the semantic actions, their arity and what invoking them yields (`Attributes`).
  - Production rules, rule sets and the grammar, with every `static_assert` as a checked diagnostic (`Grammar`).
- **Analysis.**
  - FIRST and FOLLOW with their recursion guard stacks (`Analysis`). Both run on one generic guarded-gathering engine (`Guarded`), proved equal to a path characterisation.
- **Automaton.**
  - LR(1) items and `_closure` (`Items`).
  - Transitions, edges, final/non-final items and the depth-first state list `lr1_automaton::as_type_list` (`Automaton`, on the generic walk in `Search`).
- **Driver.**
  - The parse stack `union_tuple_stack` (`ParseStack`).
  - The recursive `rec_parse`/`on_edge` driver and `parse_string`'s acceptance test (`Driver`).
- **BNF meta-parser.**
  - The meta lexer and meta grammar, plus the synthesizers that build a parsed syntax (`BnfMeta`).
  - `create_output_type`, which turns that syntax into a lexer and a grammar (`BnfOutput`).

Code the caller supplies becomes a parameter:
- regular expressions (`RegexpOracle`);
- custom token builders;
- attribute functions and synthesizers (`ActionHost`).

Where the source's behaviour is undefined, the model returns `None` or `Fault` instead of a value. Examples are a push past the stack capacity, the top of an empty stack, a skip loop that cannot advance, and a skip match that ends past the text. The skip loop also returns `None` for a regular-expression skip match that ends before the current index, a case the source handles (see `Lexer.Skip` under "Left out").

Where the code departs from a textbook LR(1) construction, the model follows the code:
- the closure has no pass that merges lookaheads;
- FOLLOW looks only at the first occurrence of a non-terminal in each rule, and adds no end-of-input marker;
- `parse_string` accepts on the stack shape alone: the value `rec_parse` returns is ignored, and the input need not be used up.

## Model

| member | source | states |
|---|---|---|
| Matchers.Strlen | alphyn/matcher.hpp:79 | the length of a text is the index of its first '\0' (or its whole length), and no earlier character is '\0' |
| Matchers.StringScan | alphyn/matcher.hpp:84-90 | the scan succeeds exactly when the text spells the pattern's remaining characters, and then ends right after them |
| Matchers.StringMatch | alphyn/matcher.hpp:76-91 | with EndIndex clamped to the pattern length, `string::match` succeeds iff the text at `index` spells pattern[StartIndex..end) and returns the index just past it, else -1; an empty range always matches, and a '\0' in the text stops the match |
| Matchers.LetterMatch | alphyn/matcher.hpp:97-104 | `letter::match` succeeds iff the character at the index is one of the listed ones, and then consumes exactly that character |
| Matchers.LetterIsOneCharString | alphyn/matcher.hpp:76-104 | a one-character letter matcher behaves exactly as the string matcher over that one character |
| Matchers.MatchProgress | alphyn/matcher.hpp:86-104 | a successful string or letter match never moves backwards; a letter match consumes exactly one listed character |
| Matchers.WholeStringMatch | alphyn/matcher.hpp:76-91 | a string matcher over a whole pattern recognises exactly that pattern and consumes its length |
| Tokens.DefaultToken | alphyn/default_token.hpp:47-52 | a default-constructed token is invalid |
| Tokens.GenerateInvalidToken | alphyn/default_token.hpp:58-61 | the invalid token is invalid, starts at the given index, ends at size_t(-1), with a default value |
| Tokens.GenerateTokenWithType | alphyn/default_token.hpp:65-69 | the token has the given type and span and a default value; it is valid iff the type is not -1 |
| Tokens.EqualityIgnoresPayload | alphyn/default_token.hpp:78-96 | `==` compares the type only (value and span play no part), is symmetric, and `!=` is its complement |
| LexicalSyntax.FirstMatch | alphyn/lexer_syntax.hpp:94-126 | finds the first unit from `from` on whose match is not -1, with its end index; none exactly when every unit fails |
| LexicalSyntax.GetToken | alphyn/lexer_syntax.hpp:70-109 | end index -1 iff no unit matches, and then the invalid token at the start index; otherwise some first-matching unit built the token over the span it matched |
| LexicalSyntax.GetTokenFirst | alphyn/lexer_syntax.hpp:94-101 | the first matching unit decides the token and the end index, whatever the later units would do |
| LexicalSyntax.EndIndexFromAgrees | alphyn/lexer_syntax.hpp:112-126 | `get_end_index_rec` returns the end index of the first matching unit, or -1 |
| LexicalSyntax.GetEndIndexAgrees | alphyn/lexer_syntax.hpp:71-90 | `get_end_index` equals the end index `get_token` writes back |
| LexicalSyntax.SkipToken | alphyn/lexer_skip.hpp:39-66 | a skip syntax yields `end = false` and the match's end when some skip unit matches (first one wins), and `end = true` with -1 when none does |
| Lexer.Skip | alphyn/lexer.hpp:108-117 | skipping never moves backwards and stops at an index where no skip unit matches |
| Lexer.WhiteSpaceSkip | alphyn/white_space_skipper.hpp:38 | with the white-space skipper, skipping always ends, passes over blanks only and stops on the first non-blank |
| Lexer.LexToken | alphyn/lexer.hpp:87-92 | `lexer::get_token` is defined exactly when its skip loop ends, and is the lexical syntax's token at the index where skipping stopped, an index where no skip unit matches |
| Lexer.LexEndIndexAgrees | alphyn/lexer.hpp:87-106 | `lexer::get_end_index` skips the same way and agrees with `get_token`'s end index |
| Lexer.TokenStartsAfterSkip | alphyn/lexer.hpp:89-99 | with token-type units, a token starts at or after the requested index, at a place where no skip unit matches: skippable text never starts a token |
| Lexer.GetLazyLexer | alphyn/lexer.hpp:82-85 | the lazy lexer is a lexeme list over the text positioned at the start index, and exists exactly when the first skip loop ends |
| Lexer.MakeLexemList | alphyn/lexem_list.hpp:46-49 | the constructor lexes exactly one token at the start index and stores it with its end index |
| Lexer.GetNext | alphyn/lexem_list.hpp:63-66 | after a lexed token, the next list is lexed from that token's end index |
| Lexer.FailedTokenIsSticky | alphyn/lexem_list.hpp:63-72 | after a failed token (end -1), the list is last, its token is invalid, and `get_next` gives the same list back: no progress on error |
| Lexer.StoredTokenIsLexed | alphyn/lexem_list.hpp:46-57 | `get_token` returns the stored token, which is the one lexing produced; its end is -1 iff no unit matches after skipping |
| Attributes.ArityKinds | alphyn/grammar_attributes.hpp:82-165 | the arity is positive exactly for functions with parameters and the two fallthroughs, and negative exactly for the `_one` forms, where it is minus (index + 1) |
| Attributes.Invoke | alphyn/grammar_attributes.hpp:120-216 | a function is called iff it gets exactly as many children as parameters, and returns the caller's function applied to them in order; a fallthrough returns its single child; a value fallthrough succeeds iff its single child is a token and returns that token's value; `_one` forms return child `index` (or its value) when it exists; a synthesizer always yields the caller's synthesizer applied to all children in order |
| Attributes.FallthroughOneAsWrittenFails | alphyn/grammar_attributes.hpp:181-186 | as written, `fallthrough_one` produces nothing even when the requested child exists; the corrected form returns that child |
| Attributes.InvokeCorrectsOnlyOneForms | alphyn/grammar_attributes.hpp:120-216 | the correction changes only the `_one` forms and keeps every value the written code produces |
| Grammar.NonTerminals | alphyn/grammar.hpp:103 | `non_terminal_list` is the rule-set names in declaration order |
| Grammar.RuleError | alphyn/grammar.hpp:47-61 | a rule gets no diagnostic iff it is non-empty, its positive arity equals its length, its negative arity asks for no more children than it has, and its function attribute is not void |
| Grammar.RulesError | alphyn/grammar.hpp:41-70 | no rule of the set fails its checks iff the set yields no diagnostic |
| Grammar.SetsError | alphyn/grammar.hpp:70 | no rule set is empty or holds a failing rule iff no diagnostic is reported |
| Grammar.Check | alphyn/grammar.hpp:89-127 | a grammar is accepted iff it is well formed; the accepted start rule is the only rule of the first rule set named after the start symbol |
| Grammar.RulesOf | alphyn/grammar.hpp:103 | a non-terminal's rules are those of a rule set bearing its name; a terminal has none |
| Grammar.RulesOfWellFormed | alphyn/grammar.hpp:66-85 | in a well-formed grammar every non-terminal has rules, all passing the checks |
| Grammar.ArityChecksSuffice | alphyn/grammar.hpp:58-61 | a rule that passes the arity checks can always build its value from exactly its children, except when a value fallthrough gets a non-token |
| Grammar.SetReturnTypes | alphyn/grammar.hpp:80-84 | `return_type_list` of a set holds each non-void attribute return type of the set once |
| Grammar.ReturnTypeList | alphyn/grammar.hpp:105-112 | the grammar's return types are exactly the sets' non-void return types plus the token type and `type_t`, without repeats |
| Guarded.GatherIsReachability | alphyn/grammar_tools.hpp:99-139 | the guarded recursion gathers exactly what the nodes reachable by a walk that never revisits a guarded node contribute |
| Guarded.GatherWithin | alphyn/grammar_tools.hpp:123 | the gathered set stays inside any bound of all contributions |
| Analysis.Leading | alphyn/grammar_tools.hpp:107-118 | the leading symbols are exactly the first symbols of the rules |
| Analysis.FirstOrName | alphyn/grammar_tools.hpp:338-350 | FIRST-or-name of a terminal is the terminal itself |
| Analysis.FirstIsStartsWith | alphyn/grammar_tools.hpp:79-141 | FIRST(NT) holds exactly the terminals that start a rule at the end of a chain of leading non-terminals from NT |
| Analysis.FirstWithinTerminals | alphyn/grammar_tools.hpp:60-73 | FIRST holds only terminals the grammar mentions |
| Analysis.FirstOfLeading | alphyn/grammar_tools.hpp:102-139 | a leading terminal of NT is in FIRST(NT), and FIRST of a leading non-terminal is included in FIRST(NT) |
| Analysis.RuleFollow | alphyn/grammar_tools.hpp:180-187 | one rule contributes FIRST-or-name of the symbol right after the first occurrence of NT, and nothing when that occurrence is last |
| Analysis.SetsFollowBase | alphyn/grammar_tools.hpp:190-213 | the direct part of FOLLOW(NT) gathers every rule's contribution |
| Analysis.SetsEndingWith | alphyn/grammar_tools.hpp:239-252 | the rule sets FOLLOW recurses into are exactly those with a rule whose first occurrence of NT is its last symbol |
| Analysis.FollowIsFollowsAfter | alphyn/grammar_tools.hpp:143-260 | FOLLOW(NT) holds exactly what directly follows the end of a chain of rule sets, each ending with the previous one's first occurrence |
| Analysis.FollowOfOccurrence | alphyn/grammar_tools.hpp:180-187 | what follows the first occurrence of NT in any rule is in FOLLOW(NT) |
| Analysis.FollowOfEnding | alphyn/grammar_tools.hpp:239-252 | FOLLOW of a rule set whose rule ends with NT is included in FOLLOW(NT) |
| Analysis.FollowWithinTerminals | alphyn/grammar_tools.hpp:164-213 | FOLLOW holds only terminals the grammar mentions; there is no end-of-input marker |
| Items.Advance | alphyn/grammar_tools.hpp:290-308 | the transition of a non-final item moves the marker by one and keeps rule, name and follow set |
| Items.Wrap | alphyn/grammar_tools.hpp:313-335 | `wrap_non_terminal` gives every rule of the non-terminal, in order, at the position with the follow set |
| Items.CtxLookahead | alphyn/grammar_tools.hpp:362-378 | the context lookahead is exactly the union of each item's FIRST-or-name of the symbol after the marker, or of the inherited lookahead at the last symbol |
| Items.Expansions | alphyn/grammar_tools.hpp:380-424 | every item whose marker is on a non-terminal contributes that non-terminal's rules at position 0, and only such groups appear |
| Items.FreshGroups | alphyn/grammar_tools.hpp:426-431 | the groups expanded are the distinct expansions not already on the closure stack |
| Items.ClosureWith | alphyn/grammar_tools.hpp:357-452 | the closure keeps every input item and repeats none |
| Items.ClosureProps | alphyn/grammar_tools.hpp:357-452 | the closure adds only position-0 rules of non-terminals, is closed under expansion, and holds each input expansion that is not already being closed |
| Items.Closure | alphyn/grammar_tools.hpp:631-638 | starting from an empty stack, the closure keeps every input item and repeats none |
| Items.ClosureIsClosed | alphyn/grammar_tools.hpp:357-452 | the closure holds the input items and rules of non-terminals only, and every item on a non-terminal has that non-terminal's rules in it |
| Automaton.TransitionList | alphyn/grammar_tools.hpp:454-465 | the transitions of a state are exactly the steps of its non-final items, once each |
| Automaton.TransitionNames | alphyn/grammar_tools.hpp:493-494 | the transition names are the distinct symbols under the markers of the non-final items |
| Automaton.Group | alphyn/grammar_tools.hpp:496-516 | the items grouped under a name are exactly the items advanced over that symbol, once each |
| Automaton.FollowUnion | alphyn/grammar_tools.hpp:353-357 | the default lookahead is the union of the items' follow sets |
| Automaton.Edges | alphyn/grammar_tools.hpp:518-547 | one edge per transition name, in name order, to the closure of the items advanced over it |
| Automaton.EdgeNames | alphyn/grammar_tools.hpp:493-547 | edge names are pairwise distinct, and an edge named x exists iff some item of the state can step over x |
| Automaton.GotoIsClosed | alphyn/grammar_tools.hpp:524-536 | an edge target holds every advanced item, only those and rules of non-terminals, and is closed under expansion |
| Automaton.FinalRules | alphyn/grammar_tools.hpp:598-600 | `final_rules` holds exactly the final items of the state |
| Automaton.NonFinalRules | alphyn/grammar_tools.hpp:602-604 | `non_final_rules` holds exactly the non-final items |
| Automaton.FinalSplit | alphyn/grammar_tools.hpp:598-604 | final and non-final items partition the state's items, counting repeats |
| Automaton.StartState | alphyn/grammar_tools.hpp:645-647 | the start state contains every rule of the start symbol at position 0 with FOLLOW(start) |
| Automaton.Lr1Automaton | alphyn/grammar_tools.hpp:586-607 | the automaton list repeats no state and every state is built from the grammar's items |
| Automaton.AutomatonShape | alphyn/grammar_tools.hpp:560-607 | the list starts with the start state, every edge of a listed state leads to a listed state, and every later state is reached by an edge of an earlier one |
| Automaton.StateIndex | alphyn/parser_tools.hpp:202 | `get_type_index` of a listed state is its position, -1 for an unlisted one |
| Search.Visit | alphyn/grammar_tools.hpp:571-587 | the walk keeps the list it was given as a prefix, adds the node, and lists nothing twice |
| Search.WalkFromRoot | alphyn/grammar_tools.hpp:560-607 | the walk from a root lists the root first, is closed under successors, and lists each later node only after a node it is a successor of |
| ParseStack.NewStack | alphyn/parser_tools.hpp:155-158 | a new stack is empty and zero-initialised, with the given capacity |
| ParseStack.Push | alphyn/parser_tools.hpp:50-58 | a push writes type, state index and value at the old size, grows by one, changes no other slot, and fails at capacity |
| ParseStack.TopType | alphyn/parser_tools.hpp:94-98 | the top type is the type of the highest used slot; undefined on an empty stack |
| ParseStack.TopValue | alphyn/parser_tools.hpp:59-64 | the top value is the value of the highest used slot; undefined on an empty stack |
| ParseStack.GetValue | alphyn/parser_tools.hpp:59-64 | `get(index)` is defined iff index is below the size; index 0 is the top |
| ParseStack.GetType | alphyn/parser_tools.hpp:99-103 | `get_type(index)` is defined iff index is below the size; index 0 is the top type |
| ParseStack.PushShiftsIndices | alphyn/parser_tools.hpp:50-64 | after a push the new entry is at index 0 and every older entry is one index further down, unchanged |
| ParseStack.PopCount | alphyn/parser_tools.hpp:75-78 | a reduction pops the attribute function's parameter count; only plain-function attributes can be reduced by |
| ParseStack.CallPopPush | alphyn/parser_tools.hpp:72-86 | the reduction stores f(popped children, bottom to top) and the rule name in the lowest popped slot, makes it the top, keeps the saved state indices, and returns the one saved there |
| ParseStack.MatchesProductionRule | alphyn/parser_tools.hpp:105-152 | a rule matches iff it fits on the stack, its symbols are the top types in order, and the current token is in the follow set (or, with an empty follow set, the input is at its last lexeme) |
| ParseStack.ReduceAfterMatch | alphyn/parser_tools.hpp:72-122 | reducing by a matched rule pops exactly its symbols, puts its name on top, leaves the lower types alone and returns the saved state |
| ParseStack.ZeroParameterFunctionKeepsChildren | alphyn/parser_tools.hpp:75-85 | a zero-parameter function attribute pops nothing: its value lands above the rule's symbols |
| Driver.Tabulate | alphyn/parser.hpp:45-49 | the state table has one row per automaton state, each with its final items and its edges resolved to state indices |
| Driver.TryFinalsPicksFirst | alphyn/parser_tools.hpp:168-188 | no final item matches iff the matcher reports none; otherwise the first matching item, and only it, is reduced by |
| Driver.ReduceBeforeShift | alphyn/parser_tools.hpp:228-234 | a matching final item is reduced at once and the state returns, consuming no input |
| Driver.OnEdgeFollowsFirst | alphyn/parser_tools.hpp:190-211 | the first edge with the name is taken: a goto enters its target unchanged; a shift pushes (token type, state index, token) and moves to the next lexeme |
| Driver.OnEdgeNone | alphyn/parser_tools.hpp:212-219 | with no edge of that name the result is -1 and nothing changes |
| Driver.Loop | alphyn/parser_tools.hpp:237-244 | the goto loop runs only while the returned index is this state's own; any other value is returned unchanged |
| Driver.RecParseFuel | alphyn/parser_tools.hpp:221-247 | a finished run of `rec_parse` gives the same result with any larger recursion bound |
| Driver.MakeParser | alphyn/parser.hpp:45-49 | the driver's table is well formed and holds at least the start state |
| Driver.Verdict | alphyn/parser.hpp:97-107 | the parse is accepted iff exactly one slot is left and it holds the start symbol, with that slot's value as result; any other finished run is a syntax error |
| Driver.ParseStringFuel | alphyn/parser.hpp:95-108 | a verdict reached with some recursion bound stays the same with any larger one |
| BnfMeta.Span | alphyn/bnf.hpp:171-184 | the copied string holds exactly the characters of the range |
| BnfMeta.CName | alphyn/bnf.hpp:46-50 | an entry's name is its text up to the first '\0' |
| BnfMeta.StrcmpFrom | alphyn/bnf.hpp:54-59 | the loop succeeds iff the remaining range has the name's remaining length and spells it |
| BnfMeta.Strcmp | alphyn/bnf.hpp:52-60 | `strcmp(s, start, end)` holds iff s[start..end) spells the entry's name exactly |
| BnfMeta.FirstEntry | alphyn/bnf.hpp:114-118 | the search returns the first entry whose name the span spells, or the database size |
| BnfMeta.AttrToken | alphyn/bnf.hpp:112-124 | the attribute token is valid iff some entry's name is spelled between the brackets, and then carries the first such entry's index; otherwise it is the invalid token at the index |
| BnfMeta.AttrTokenFindsEntry | alphyn/bnf.hpp:112-124 | with distinct entry names, the attribute whose name is between the brackets is the one found |
| BnfMeta.MetaKeywordUnits | alphyn/bnf.hpp:138-151 | the meta lexer has eleven units, with `::=` sixth and `regexp:` seventh, in that order |
| BnfMeta.BracketLexing | alphyn/bnf.hpp:140-144 | at '[' the meta lexer reads an attribute token when the attribute expression matches, and otherwise a lone open bracket |
| BnfMeta.KeywordBeforeName | alphyn/bnf.hpp:145-147 | `regexp:` is read as the keyword, not as a name, because its unit comes first |
| BnfMeta.MetaGrammarWellFormed | alphyn/bnf.hpp:478-502 | the meta grammar passes every grammar check, starts with its first rule set, and uses ids 100 to 105 for its non-terminals only |
| BnfMeta.NontermSynth | alphyn/bnf.hpp:215-239 | a name term is a non-terminal, not a regexp, read at its token |
| BnfMeta.TermSynth | alphyn/bnf.hpp:189-213 | a quoted term is a plain terminal read at its token |
| BnfMeta.RegexpSynth | alphyn/bnf.hpp:163-187 | a `regexp:` term is a regexp terminal read at its quoted token |
| BnfMeta.SynthsRecoverText | alphyn/bnf.hpp:163-239 | a name keeps its whole text; a quoted terminal, plain or regexp, keeps exactly what lies between its quotes |
| BnfMeta.ListValue | alphyn/bnf.hpp:241-244 | building a list right-recursively by prepending keeps the terms in source order |
| BnfMeta.ExpressionValue | alphyn/bnf.hpp:246-266 | the alternatives keep source order, each with its list and its attribute index |
| BnfMeta.SyntaxValue | alphyn/bnf.hpp:293-303 | the rules keep source order |
| BnfOutput.StrmatchSpec | alphyn/bnf.hpp:316-324 | `strmatch` holds iff both ranges spell the same text and that text has no '\0' |
| BnfOutput.TextMatchIsEquality | alphyn/bnf.hpp:316-324 | two stored texts match iff they are equal and free of '\0' |
| BnfOutput.FindText | alphyn/bnf.hpp:339-348 | `get_index_by_str` gives the first entry whose text matches, or -1 when none does |
| BnfOutput.FindTextIsIndexOf | alphyn/bnf.hpp:339-348 | for a text without '\0', the search is plain index lookup |
| BnfOutput.GlobalList | alphyn/bnf.hpp:327-329 | `global_list` holds every term of every alternative of every rule, once |
| BnfOutput.UniqueTexts | alphyn/bnf.hpp:350-356 | the kept terminals have pairwise different texts |
| BnfOutput.UniqueKeepsTexts | alphyn/bnf.hpp:350-356 | every terminal text without '\0' is still spelled by a kept terminal |
| BnfOutput.Terminals | alphyn/bnf.hpp:337-356 | `terminals` are distinct terminals of the syntax, fewer than the non-terminal base |
| BnfOutput.SameTextCollapses | alphyn/bnf.hpp:350-356 | two terminals of the same text, even of different kinds, collapse to the one written first |
| BnfOutput.LexUnitsUnique | alphyn/bnf.hpp:386-389 | the unit list is letters, then strings, then regexps, and the final `make_unique` removes nothing |
| BnfOutput.LexUnitsOrdered | alphyn/bnf.hpp:358-389 | letter units come before string units, which come before regexp units, each built from a terminal |
| BnfOutput.LexUnitsCover | alphyn/bnf.hpp:331-389 | a terminal gets a unit (with its index as token type) iff it is a regexp or has a non-empty text |
| BnfOutput.TermId | alphyn/bnf.hpp:393-404 | a terminal's id is the index of a terminal of matching text, a name's id is base plus the index of a rule of matching name; no id exactly when nothing matches |
| BnfOutput.TermIdResolves | alphyn/bnf.hpp:393-404 | every terminal of the syntax resolves to a terminal of the same text; a name resolves iff some rule bears it, to base plus the first such rule's index |
| BnfOutput.IdsSeparate | alphyn/bnf.hpp:391-403 | every terminal id is below every non-terminal id |
| BnfOutput.MakeRule | alphyn/bnf.hpp:411-421 | an alternative becomes a rule with its attribute's action and its terms' ids, in order; it fails iff the attribute index or a term id is missing |
| BnfOutput.MakeSet | alphyn/bnf.hpp:424-431 | rule `i` becomes a rule set named base plus `i`, one production per alternative |
| BnfOutput.GenerateGrammar | alphyn/bnf.hpp:407-437 | the grammar has one rule set per BNF rule and starts at base |
| BnfOutput.CreateOutput | alphyn/bnf.hpp:440-467 | the output pairs the generated grammar with the generated lexer units and the white-space skipper |
| BnfOutput.GrammarShape | alphyn/bnf.hpp:428-434 | rule set `i` is named base plus `i`, the first BNF rule is the start rule, and every rule symbol is a terminal id or a non-terminal of the grammar |
| BnfOutput.GrammarWellFormedIff | alphyn/bnf.hpp:407-437 | the generated grammar is well formed iff the first BNF rule has one alternative and every alternative passes the rule checks |
| BnfOutput.OutputFailsIff | alphyn/bnf.hpp:393-437 | generation fails iff some alternative names a missing attribute or a rule that is not declared |

## Left out

- `alphyn/ct_parser.hpp`: a type-level copy of the driver that the parser does not include.
- `parser::on_error`: it only writes diagnostics and throws. A failed parse is the `SyntaxError` result instead.
- `_ct_parse_string` and `typed_lexem_list`: compile-time copies of `parse_string` and `lexem_list`. Their only extra content is a `static_assert`.
- The `regexp` matcher delegates to a regular-expression engine that is not part of this model.
  - Regular-expression matching is a caller-supplied oracle.
  - In the BNF output, a regexp terminal is passed to that oracle under its terminal index, not its text.
- Method-pointer attributes are not modelled. The source marks them as untested.
- Types of attribute arguments and results are not checked. Values are one `Value` datatype, and a value fallthrough is the only form that tests its child's kind.
- The `ct::tuple` union slots are not modelled; a slot holds one `Value`.
- `type_list` utilities (`make_unique`, `merger`, `prepend`) are not part of this model.
  - `make_unique` is taken to keep first occurrences, in order (`Collections.Dedup`).
  - `make_unique_pred` is taken to keep a term when no earlier kept term matches it.
- Lookaheads and follow sets are sets, not ordered type lists. Two states that differ only in the order of a lookahead list would be distinct types in the source; the model merges them.
- A term of the BNF output is identified by the position of its token, which stands in for its C++ type. Two terms written at different places stay distinct until the text filter.
- Size_t wrap-around is not modelled. Indices are unbounded naturals, and `size_t(-1)` appears only as the constant end index of an invalid token.
- The copy constructor of `lexem_list` is not modelled separately: a lexeme list is an immutable value, so a copy is the same value.
- `get_name_for_token_type` is not modelled; it returns a fixed placeholder.
- The meta grammar's synthesizers are modelled as functions on the parsed pieces (`BnfMeta.ListValue` and the others). They are not run through the driver's `ActionHost`.
- `Driver.RecParse`, `Driver.OnEdge`, `Driver.Loop`: the recursion of `rec_parse` is bounded by a fuel parameter. A run that would recurse deeper ends as `OutOfFuel`, and the fuel lemmas show that any finished verdict is independent of the bound.
- Driver.Loop: its contract states only the exit case, where another state's index is returned unchanged. When the index is this state's own, the edge is followed by top-of-stack type, and that case is stated through `Driver.OnEdgeFollowsFirst` and `Driver.OnEdgeNone`.
- `Driver.ParseString`: only the verdict is stated. Whether a given grammar and input are accepted is not characterised independently of the driver.
- Lexer.Skip: the model returns `None` whenever a skip match does not end strictly after the current index and within the text. Three cases are covered.
  - A skip unit that matches without advancing makes the source loop spin forever.
  - A match that ends past the terminator makes the source read outside the string.
  - A regular-expression skip match that ends before the current index is well-defined in the source, which goes on from that earlier index. The model does not follow it there, because that loop need not end. Only the regular-expression oracle can produce such a match: string and letter matches never move backwards (`Matchers.MatchProgress`).

## Findings

| source | as written | input that shows it | evidently intended | confidence | as-written member | corrected member |
|---|---|---|---|---|---|---|
| alphyn/grammar_attributes.hpp:181-186 | `fallthrough_one<I>::function` and `value_fallthrough_one<I>::function` call `_rec<ret_type, Index>()` with no arguments, which selects the overload whose `static_assert` always fires | any rule using `fallthrough_one_attribute<0>` with one child | forward child `I` (or its `.value`), as the attribute's documentation says | high, not executed | Attributes.FallthroughOneAsWrittenFails | Attributes.Invoke |

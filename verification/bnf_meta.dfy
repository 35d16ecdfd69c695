/** `bnf_meta_parser<AttributeDB>`: the lexer and grammar that read a BNF description,
    and the synthesizers that turn what they read into a parsed syntax (a list of
    rules, each a list of alternatives, each a list of terms and an attribute). */
module BnfMeta {
  import opened Collections
  import opened Tokens
  import opened Matchers
  import opened LexicalSyntax
  import opened Lexer
  import opened Attributes
  import opened Grammar

  // ---- token types (`e_token_type`) ----

  const TokEnd: int := 0
  const TokAlt: int := 1
  const TokName: int := 2
  const TokTerminal: int := 3
  const TokRegexp: int := 4
  const TokAttribute: int := 5
  const TokBrOpen: int := 6
  const TokBrClose: int := 7
  const TokLineEnd: int := 8
  const TokAffect: int := 9

  const StartNt: int := 100
  const SyntaxNt: int := 101
  const RuleNt: int := 102
  const ExpressionNt: int := 103
  const ListNt: int := 104
  const TermNt: int := 105

  // ---- spans of the text ----

  /** The text `t` is spelled by the characters of `s` in [a, b). */
  predicate SpanIs(s: string, a: int, b: int, t: string)
  {
    b - a == |t| && forall k :: 0 <= k < |t| ==> At(s, a + k) == t[k]
  }

  /** The copy a synthesizer stores of the characters in [a, b) (`str_cpy`). */
  function Span(s: string, a: int, b: int): (r: string)
    ensures a <= b ==> SpanIs(s, a, b, r)
    ensures a > b ==> r == []
  {
    if a <= b then seq(b - a, k requires 0 <= k < b - a => At(s, a + k)) else []
  }

  /** A non-empty span is its first character followed by the rest. */
  lemma SpanCons(s: string, a: int, b: int)
    requires a < b
    ensures Span(s, a, b) == [At(s, a)] + Span(s, a + 1, b)
  {
    var x, y := Span(s, a, b), [At(s, a)] + Span(s, a + 1, b);
    assert |x| == |y|;
    forall k | 0 <= k < |x| ensures x[k] == y[k] {
      if k > 0 {
        assert y[k] == Span(s, a + 1, b)[k - 1] == At(s, a + 1 + (k - 1));
      }
    }
  }

  /** The whole of a text is its own span. */
  lemma SpanWhole(s: string)
    ensures Span(s, 0, |s|) == s
  {
    assert forall k :: 0 <= k < |s| ==> Span(s, 0, |s|)[k] == At(s, 0 + k);
  }

  /** A span spells one text only. */
  lemma SpanUnique(s: string, a: int, b: int, t1: string, t2: string)
    requires SpanIs(s, a, b, t1) && SpanIs(s, a, b, t2)
    ensures t1 == t2
  {
  }

  /** The C string held by a `const char *`: everything before its first '\0'. */
  function CName(name: string): (r: string)
    ensures |r| == Strlen(name) && r <= name && Nul !in r
  {
    name[..Strlen(name)]
  }

  // ---- attributes by name ----

  /** `attribute_db_entry<TypeName, Type>`: the name an attribute is written with in
      the BNF text, and the attribute. */
  datatype Entry = Entry(name: string, action: Action)

  type AttributeDb = seq<Entry>

  /** The loop of `attribute_db_entry::strcmp`: `i` walks the text up to `end`, `j`
      walks the name. */
  function StrcmpFrom(name: string, s: string, i: int, j: nat, end: int): (r: bool)
    requires j <= Strlen(name)
    ensures r <==> end - i == Strlen(name) - j
                   && forall k :: j <= k < Strlen(name) ==> At(s, i - j + k) == name[k]
    decreases end - i
  {
    if i < end && At(name, j) != Nul && At(name, j) == At(s, i) then
      StrcmpFrom(name, s, i + 1, j + 1, end)
    else if i < end && At(name, j) != Nul then
      assert At(s, i - j + j) != name[j];
      false
    else
      i == end && At(name, j) == Nul
  }

  /** `attribute_db_entry::strcmp(s, start, end)`: the text in [start, end) is the
      entry's name, exactly. */
  function Strcmp(name: string, s: string, start: int, end: int): (r: bool)
    ensures r <==> SpanIs(s, start, end, CName(name))
  {
    StrcmpFrom(name, s, start, 0, end)
  }

  /** The first entry at or after `from` whose name is spelled by [a, b), or |db|. */
  function FirstEntry(db: AttributeDb, s: string, a: int, b: int, from: nat): (r: nat)
    requires from <= |db|
    ensures from <= r <= |db|
    ensures r < |db| ==> SpanIs(s, a, b, CName(db[r].name))
    ensures forall k :: from <= k < r ==> !SpanIs(s, a, b, CName(db[k].name))
    decreases |db| - from
  {
    if from == |db| then from
    else if Strcmp(db[from].name, s, a, b) then from
    else FirstEntry(db, s, a, b, from + 1)
  }

  /** `_attr_token_builder::e_id(s, index, end)`: the text between the brackets of
      `[name]` selects the first entry of that name; its index becomes the token's
      value. An unknown name yields the invalid token at `index`. */
  function AttrToken(db: AttributeDb, s: string, index: int, end: int): (r: Token)
    ensures IsValid(r) <==> exists k :: 0 <= k < |db| && SpanIs(s, index + 1, end - 1, CName(db[k].name))
    ensures IsValid(r) ==> && r.kind == TokAttribute && r.start == index && r.end == end
                           && 0 <= r.value < |db|
                           && SpanIs(s, index + 1, end - 1, CName(db[r.value].name))
                           && forall k :: 0 <= k < r.value ==> !SpanIs(s, index + 1, end - 1, CName(db[k].name))
    ensures !IsValid(r) ==> r == GenerateInvalidToken(index)
  {
    var k := FirstEntry(db, s, index + 1, end - 1, 0);
    if k < |db| then Token(TokAttribute, k, index, end) else GenerateInvalidToken(index)
  }

  /** With distinct names, an attribute token written with entry `k`'s name carries `k`. */
  lemma AttrTokenFindsEntry(db: AttributeDb, s: string, index: int, end: int, k: nat)
    requires forall i, j :: 0 <= i < j < |db| ==> CName(db[i].name) != CName(db[j].name)
    requires k < |db| && SpanIs(s, index + 1, end - 1, CName(db[k].name))
    ensures AttrToken(db, s, index, end) == Token(TokAttribute, k, index, end)
  {
    var r := AttrToken(db, s, index, end);
    assert IsValid(r);
    SpanUnique(s, index + 1, end - 1, CName(db[r.value].name), CName(db[k].name));
  }

  // ---- the meta lexer ----

  /** The regular expressions of the meta lexer, as regexp oracle ids. */
  const AttributeRe: nat := 0
  const NameRe: nat := 1
  const TerminalSqRe: nat := 2
  const TerminalDqRe: nat := 3
  const EndRe: nat := 4

  const RegexpKeyword: string := "regexp:"
  const AffectSign: string := "::="

  /** The builder id the meta lexer's attribute unit calls (`e_id`). */
  const AttrBuilder: nat := 0

  /** `bnf_meta_parser::lexical_syntax`, in its declaration order. */
  function MetaUnits(): (r: seq<Unit>)
    ensures |r| == 11
  {
    [ Unit(Letter(['|']), WithType(TokAlt)),
      Unit(Letter([';']), WithType(TokLineEnd)),
      Unit(Letter([']']), WithType(TokBrClose)),
      Unit(Regexp(AttributeRe), Custom(AttrBuilder)),
      Unit(Letter(['[']), WithType(TokBrOpen)),
      Unit(WholeString(AffectSign), WithType(TokAffect)),
      Unit(WholeString(RegexpKeyword), WithType(TokRegexp)),
      Unit(Regexp(NameRe), WithType(TokName)),
      Unit(Regexp(TerminalSqRe), WithType(TokTerminal)),
      Unit(Regexp(TerminalDqRe), WithType(TokTerminal)),
      Unit(Regexp(EndRe), WithType(TokEnd)) ]
  }

  /** The code the meta lexer runs: the caller's regular expressions, and `e_id` over
      the attribute database. */
  function MetaHost(db: AttributeDb, regexps: RegexpOracle): LexHost
  {
    LexHost(regexps, (id: nat, s: string, a: nat, b: int) => AttrToken(db, s, a, b))
  }

  /** `bnf_meta_parser::lexer`: the units above and `white_space_skipper`. */
  function MetaLexer(): LexConfig
  {
    LexConfig(MetaUnits(), WhiteSpaceSkipper)
  }

  /** The first five units of the meta lexer: three letters, the attribute expression
      and the opening bracket. */
  ghost predicate LeadingUnits(units: seq<Unit>)
  {
    && |units| == 11
    && units[0] == Unit(Letter(['|']), WithType(TokAlt))
    && units[1] == Unit(Letter([';']), WithType(TokLineEnd))
    && units[2] == Unit(Letter([']']), WithType(TokBrClose))
    && units[3] == Unit(Regexp(AttributeRe), Custom(AttrBuilder))
    && units[4] == Unit(Letter(['[']), WithType(TokBrOpen))
  }

  lemma MetaUnitsShape()
    ensures LeadingUnits(MetaUnits())
  {
  }

  lemma MetaKeywordUnits()
    ensures |MetaUnits()| == 11
    ensures MetaUnits()[5].matcher == WholeString(AffectSign)
    ensures MetaUnits()[6] == Unit(WholeString(RegexpKeyword), WithType(TokRegexp))
  {
  }

  /** An opening bracket is an attribute when the attribute expression matches there,
      and a lone `[` otherwise: the attribute unit is tried first. */
  lemma BracketLexing(db: AttributeDb, regexps: RegexpOracle, s: string, i: nat)
    requires At(s, i) == '['
    ensures var e := regexps(AttributeRe, s, i);
            GetToken(MetaUnits(), MetaHost(db, regexps), s, i)
            == if e != -1 then (AttrToken(db, s, i, e), e)
               else (GenerateTokenWithType(TokBrOpen, i, i + 1), i + 1)
  {
    MetaUnitsShape();
    BracketWith(MetaUnits(), db, regexps, s, i);
  }

  lemma BracketWith(units: seq<Unit>, db: AttributeDb, regexps: RegexpOracle, s: string, i: nat)
    requires LeadingUnits(units)
    requires At(s, i) == '['
    ensures var e := regexps(AttributeRe, s, i);
            GetToken(units, MetaHost(db, regexps), s, i)
            == if e != -1 then (AttrToken(db, s, i, e), e)
               else (GenerateTokenWithType(TokBrOpen, i, i + 1), i + 1)
  {
    var ms := MatchersOf(units);
    var host := MetaHost(db, regexps);
    assert Match(ms[0], regexps, s, i) == -1 && Match(ms[1], regexps, s, i) == -1 && Match(ms[2], regexps, s, i) == -1;
    var e := regexps(AttributeRe, s, i);
    if e != -1 {
      assert FirstMatching(ms, regexps, s, i, 3);
      GetTokenFirst(units, host, s, i, 3);
    } else {
      assert Match(ms[3], regexps, s, i) == -1 && Match(ms[4], regexps, s, i) == i + 1;
      assert FirstMatching(ms, regexps, s, i, 4);
      GetTokenFirst(units, host, s, i, 4);
    }
  }

  lemma KeywordLengths()
    ensures Strlen(AffectSign) == 3 && Strlen(RegexpKeyword) == 7
  {
    assert AffectSign[1..][1..][1..] == [];
    assert RegexpKeyword[1..][1..][1..][1..][1..][1..][1..] == [];
  }

  /** Where `regexp:` is written, the keyword's string matcher takes all of it, and
      the `::=` matcher nothing. */
  lemma KeywordMatches(regexps: RegexpOracle, s: string, i: nat)
    requires PrefixAt(s, i, RegexpKeyword, 0, |RegexpKeyword|)
    ensures Match(WholeString(RegexpKeyword), regexps, s, i) == i + 7
    ensures Match(WholeString(AffectSign), regexps, s, i) == -1
  {
    KeywordLengths();
    assert At(s, i - 0 + 0) == RegexpKeyword[0] == 'r';
    assert At(s, i - 0 + 0) != AffectSign[0];
  }

  /** `regexp:` is read as the keyword, not as a name, wherever the attribute
      expression does not match: the keyword's unit comes before the name's. */
  lemma KeywordBeforeName(db: AttributeDb, regexps: RegexpOracle, s: string, i: nat)
    requires PrefixAt(s, i, RegexpKeyword, 0, |RegexpKeyword|)
    requires regexps(AttributeRe, s, i) == -1
    ensures GetToken(MetaUnits(), MetaHost(db, regexps), s, i)
            == (GenerateTokenWithType(TokRegexp, i, i + 7), i + 7)
  {
    MetaUnitsShape();
    MetaKeywordUnits();
    KeywordMatches(regexps, s, i);
    assert At(s, i - 0 + 0) == 'r';
    KeywordWith(MetaUnits(), db, regexps, s, i);
  }

  lemma KeywordWith(units: seq<Unit>, db: AttributeDb, regexps: RegexpOracle, s: string, i: nat)
    requires LeadingUnits(units)
    requires units[6].generate == WithType(TokRegexp)
    requires At(s, i) == 'r' && regexps(AttributeRe, s, i) == -1
    requires Match(units[5].matcher, regexps, s, i) == -1
    requires Match(units[6].matcher, regexps, s, i) == i + 7
    ensures GetToken(units, MetaHost(db, regexps), s, i) == (GenerateTokenWithType(TokRegexp, i, i + 7), i + 7)
  {
    var ms := MatchersOf(units);
    assert Match(ms[0], regexps, s, i) == -1 && Match(ms[1], regexps, s, i) == -1 && Match(ms[2], regexps, s, i) == -1;
    assert Match(ms[3], regexps, s, i) == -1 && Match(ms[4], regexps, s, i) == -1;
    assert FirstMatching(ms, regexps, s, i, 6);
    GetTokenFirst(units, MetaHost(db, regexps), s, i, 6);
  }

  // ---- the meta grammar ----

  /** The synthesizers of the meta grammar, as synthesizer ids. */
  const SynthOutput: nat := 0
  const SynthCreateSyntax: nat := 1
  const SynthAddRule: nat := 2
  const SynthCreateRule: nat := 3
  const SynthCreateExpression: nat := 4
  const SynthAppendList: nat := 5
  const SynthCreateTermList: nat := 6
  const SynthAppendTerm: nat := 7
  const SynthNonTerm: nat := 8
  const SynthTerm: nat := 9
  const SynthRegexp: nat := 10

  /** `bnf_meta_parser::grammar`. Every list is right-recursive. */
  function MetaGrammar(): Grammar
  {
    Grammar(StartNt, [
      RuleSet(StartNt, [Rule(Synthesizer(SynthOutput), [SyntaxNt, TokEnd])]),
      RuleSet(SyntaxNt, [
        Rule(Synthesizer(SynthCreateSyntax), [RuleNt]),
        Rule(Synthesizer(SynthAddRule), [RuleNt, SyntaxNt])]),
      RuleSet(RuleNt, [Rule(Synthesizer(SynthCreateRule), [TokName, TokAffect, ExpressionNt, TokLineEnd])]),
      RuleSet(ExpressionNt, [
        Rule(Synthesizer(SynthCreateExpression), [ListNt, TokAttribute]),
        Rule(Synthesizer(SynthAppendList), [ListNt, TokAttribute, TokAlt, ExpressionNt])]),
      RuleSet(ListNt, [
        Rule(Synthesizer(SynthCreateTermList), [TermNt]),
        Rule(Synthesizer(SynthAppendTerm), [TermNt, ListNt])]),
      RuleSet(TermNt, [
        Rule(Synthesizer(SynthNonTerm), [TokName]),
        Rule(Synthesizer(SynthTerm), [TokTerminal]),
        Rule(Synthesizer(SynthRegexp), [TokRegexp, TokTerminal])])
    ])
  }

  /** The meta grammar passes every check of `grammar`, starts with its first rule
      set, and keeps token types and rule names apart. */
  lemma MetaGrammarWellFormed()
    ensures WellFormed(MetaGrammar()) && StartIndex(MetaGrammar()) == 0
    ensures forall x :: IsNonTerminal(MetaGrammar(), x) <==> StartNt <= x <= TermNt
  {
    var g := MetaGrammar();
    assert NonTerminals(g) == [StartNt, SyntaxNt, RuleNt, ExpressionNt, ListNt, TermNt];
    forall k | 0 <= k < |g.sets| ensures SetOk(g.sets[k]) {
      var rs := g.sets[k];
      forall j | 0 <= j < |rs.rules| ensures RuleOk(rs.rules[j]) {
        assert rs.rules[j].action.Synthesizer?;
      }
    }
  }

  // ---- what the synthesizers build ----

  /** A term of an alternative: a rule name, a quoted terminal, or a `regexp:`
      terminal, with its text and the position of the token it was read from (two
      terms read at different positions are different types in the source). */
  datatype Term = Term(isTerminal: bool, isRegexp: bool, text: string, at: int)

  /** One alternative: its terms and the index of its attribute in the database. */
  datatype Alt = Alt(list: seq<Term>, attribute: int)

  /** A rule `name ::= alternatives ;`. */
  datatype BnfRule = BnfRule(name: string, expr: seq<Alt>, at: int)

  /** `nonterm_synth<TokName>`: the whole name span. */
  function NontermSynth(s: string, name: Token): (r: Term)
    ensures !r.isTerminal && !r.isRegexp && r.at == name.start
  {
    Term(false, false, Span(s, name.start, name.end), name.start)
  }

  /** `term_synth<TokTerminal>`: the span without its two quotes. */
  function TermSynth(s: string, t: Token): (r: Term)
    ensures r.isTerminal && !r.isRegexp && r.at == t.start
  {
    Term(true, false, Span(s, t.start + 1, t.end - 1), t.start)
  }

  /** `regexp_synth<TokRegexp, TokTerminal>`: the quoted span after `regexp:`, without
      its quotes. */
  function RegexpSynth(s: string, kw: Token, t: Token): (r: Term)
    ensures r.isTerminal && r.isRegexp && r.at == t.start
  {
    Term(true, true, Span(s, t.start + 1, t.end - 1), t.start)
  }

  /** A name keeps its text; a quoted terminal, plain or after `regexp:`, loses its
      quotes and keeps exactly what was between them. */
  lemma SynthsRecoverText(s: string, kw: Token, t: Token, q: char, x: string)
    ensures SpanIs(s, t.start, t.end, x) ==> NontermSynth(s, t).text == x
    ensures SpanIs(s, t.start, t.end, [q] + x + [q]) ==>
              TermSynth(s, t).text == x && RegexpSynth(s, kw, t).text == x
  {
    if SpanIs(s, t.start, t.end, [q] + x + [q]) {
      forall k | 0 <= k < |x| ensures At(s, t.start + 1 + k) == x[k] {
        assert At(s, t.start + (k + 1)) == ([q] + x + [q])[k + 1];
      }
    }
  }

  /** `create_term_list<Term>`. */
  function CreateTermList(t: Term): seq<Term>
  {
    [t]
  }

  /** `append_term_to_list<Term, List>`: the term goes in front. */
  function AppendTermToList(t: Term, l: seq<Term>): seq<Term>
  {
    [t] + l
  }

  /** `create_expression<List, Attribute>`. */
  function CreateExpression(l: seq<Term>, attr: Token): seq<Alt>
  {
    [Alt(l, attr.value)]
  }

  /** `append_list_to_expression<List, Attribute, TokAlt, Expr>`: prepended. */
  function AppendListToExpression(l: seq<Term>, attr: Token, e: seq<Alt>): seq<Alt>
  {
    [Alt(l, attr.value)] + e
  }

  /** `create_rule<TokName, TokAffect, Expr, TokLineEnd>`. */
  function CreateRule(s: string, name: Token, e: seq<Alt>): BnfRule
  {
    BnfRule(Span(s, name.start, name.end), e, name.start)
  }

  /** `create_syntax<Rule>`. */
  function CreateSyntax(r: BnfRule): seq<BnfRule>
  {
    [r]
  }

  /** `add_rule_to_syntax<Rule, Syntax>`: prepended. */
  function AddRuleToSyntax(r: BnfRule, syn: seq<BnfRule>): seq<BnfRule>
  {
    [r] + syn
  }

  /** The value of `list` for terms read in the order `ts`: the right-recursive
      derivation `term list` applies `append_term_to_list` on the way back up. The
      result keeps the terms in the order they were read. */
  function ListValue(ts: seq<Term>): (r: seq<Term>)
    requires |ts| > 0
    ensures r == ts
  {
    if |ts| == 1 then CreateTermList(ts[0])
    else AppendTermToList(ts[0], ListValue(ts[1..]))
  }

  /** The value of `expression` for alternatives read in order, each a list of terms
      and its attribute token. The alternatives keep their order. */
  function ExpressionValue(alts: seq<(seq<Term>, Token)>): (r: seq<Alt>)
    requires |alts| > 0
    ensures |r| == |alts|
    ensures forall k :: 0 <= k < |alts| ==> r[k] == Alt(alts[k].0, alts[k].1.value)
  {
    if |alts| == 1 then CreateExpression(alts[0].0, alts[0].1)
    else AppendListToExpression(alts[0].0, alts[0].1, ExpressionValue(alts[1..]))
  }

  /** The value of `syntax` for rules read in order: the first rule written is the
      first of the syntax. */
  function SyntaxValue(rules: seq<BnfRule>): (r: seq<BnfRule>)
    requires |rules| > 0
    ensures r == rules
  {
    if |rules| == 1 then CreateSyntax(rules[0])
    else AddRuleToSyntax(rules[0], SyntaxValue(rules[1..]))
  }
}

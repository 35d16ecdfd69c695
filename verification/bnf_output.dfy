/** `create_output_type<Syntax>`: from the parsed BNF syntax, the lexer (one unit per
    distinct terminal text) and the grammar (one rule set per BNF rule) of the
    described language. */
module BnfOutput {
  import opened Collections
  import opened Matchers
  import opened LexicalSyntax
  import opened Lexer
  import opened Attributes
  import opened Grammar
  import opened BnfMeta

  // ---- comparing texts ----

  /** The loop of `strmatch`: both indices advance while both characters are equal
      and not '\0'; the ranges must then both be used up. */
  function StrmatchFrom(s: string, i: int, se: int, o: string, j: int, oe: int): bool
    decreases se - i
  {
    if i < se && j < oe && At(s, i) != Nul && At(o, j) != Nul && At(s, i) == At(o, j) then
      StrmatchFrom(s, i + 1, se, o, j + 1, oe)
    else
      !(j < oe || i < se)
  }

  /** `strmatch(s, s_index, s_end_index, o, o_index, o_end_index)`. */
  function Strmatch(s: string, si: int, se: int, o: string, oi: int, oe: int): bool
  {
    StrmatchFrom(s, si, se, o, oi, oe)
  }

  /** `strmatch` holds exactly when both ranges spell the same text, free of '\0'. */
  lemma {:induction false} StrmatchSpec(s: string, i: int, se: int, o: string, j: int, oe: int)
    requires i <= se && j <= oe
    ensures Strmatch(s, i, se, o, j, oe) <==> Span(s, i, se) == Span(o, j, oe) && Nul !in Span(s, i, se)
    decreases se - i
  {
    var a, b := Span(s, i, se), Span(o, j, oe);
    assert |a| == se - i && |b| == oe - j;
    if i < se && j < oe {
      SpanCons(s, i, se);
      SpanCons(o, j, oe);
      var a1, b1 := Span(s, i + 1, se), Span(o, j + 1, oe);
      assert a[0] == At(s, i) && b[0] == At(o, j);
      if At(s, i) != Nul && At(o, j) != Nul && At(s, i) == At(o, j) {
        StrmatchSpec(s, i + 1, se, o, j + 1, oe);
        assert a[1..] == a1 && b[1..] == b1;
        assert a == b <==> a1 == b1;
        assert Nul in a <==> Nul in a1;
      }
    }
  }

  /** Two stored texts compared over their whole length, as `get_index_by_str` does. */
  function TextMatch(a: string, b: string): bool
  {
    Strmatch(a, 0, |a|, b, 0, |b|)
  }

  /** Two texts match exactly when they are equal and free of '\0'. */
  lemma TextMatchIsEquality(a: string, b: string)
    ensures TextMatch(a, b) <==> a == b && Nul !in a
  {
    SpanWhole(a);
    SpanWhole(b);
    StrmatchSpec(a, 0, |a|, b, 0, |b|);
  }

  /** `get_index_by_str<List, String, 0, size>::index`: the first entry whose text
      matches `t`, or -1. */
  function FindText(texts: seq<string>, t: string): (r: int)
    ensures -1 <= r < |texts|
    ensures r >= 0 ==> TextMatch(t, texts[r]) && forall k :: 0 <= k < r ==> !TextMatch(t, texts[k])
    ensures r == -1 <==> forall k :: 0 <= k < |texts| ==> !TextMatch(t, texts[k])
  {
    if texts == [] then -1
    else if TextMatch(t, texts[0]) then 0
    else
      var k := FindText(texts[1..], t);
      assert forall i :: 0 <= i < |texts[1..]| ==> texts[1..][i] == texts[i + 1];
      if k == -1 then -1 else k + 1
  }

  /** For a text without '\0', the lookup by text is the lookup by equality. */
  lemma FindTextIsIndexOf(texts: seq<string>, t: string)
    requires Nul !in t
    ensures FindText(texts, t) == IndexOf(texts, t)
  {
    forall k | 0 <= k < |texts| ensures TextMatch(t, texts[k]) <==> texts[k] == t {
      TextMatchIsEquality(t, texts[k]);
    }
    var q := IndexOf(texts, t);
    if q >= 0 {
      assert forall k :: 0 <= k < q ==> texts[..q][k] == texts[k];
    }
  }

  function Texts(ts: seq<Term>): (r: seq<string>)
    ensures |r| == |ts| && forall k :: 0 <= k < |ts| ==> r[k] == ts[k].text
  {
    seq(|ts|, k requires 0 <= k < |ts| => ts[k].text)
  }

  function RuleNames(syn: seq<BnfRule>): (r: seq<string>)
    ensures |r| == |syn| && forall k :: 0 <= k < |syn| ==> r[k] == syn[k].name
  {
    seq(|syn|, k requires 0 <= k < |syn| => syn[k].name)
  }

  // ---- the terms of the syntax ----

  /** `direct_for_each<_get_list>::flatten` over one rule's alternatives. */
  function AltTerms(alts: seq<Alt>): (r: seq<Term>)
    ensures forall t :: t in r <==> exists a :: 0 <= a < |alts| && t in alts[a].list
  {
    if alts == [] then []
    else
      var rest := AltTerms(alts[1..]);
      assert forall a :: 0 < a < |alts| ==> alts[a] == alts[1..][a - 1];
      alts[0].list + rest
  }

  /** Every term of every alternative of every rule, in order. */
  function SyntaxTerms(syn: seq<BnfRule>): (r: seq<Term>)
    ensures forall t :: t in r <==> exists i :: 0 <= i < |syn| && t in AltTerms(syn[i].expr)
  {
    if syn == [] then []
    else
      var rest := SyntaxTerms(syn[1..]);
      assert forall i :: 0 < i < |syn| ==> syn[i] == syn[1..][i - 1];
      AltTerms(syn[0].expr) + rest
  }

  /** `global_list`: the terms of the syntax with repeated types removed. */
  function GlobalList(syn: seq<BnfRule>): (r: seq<Term>)
    ensures NoDup(r) && forall t :: t in r <==> t in SyntaxTerms(syn)
  {
    Dedup(SyntaxTerms(syn))
  }

  /** `base_non_terminal_index`. */
  function Base(syn: seq<BnfRule>): int
  {
    |GlobalList(syn)| + 1000
  }

  predicate IsTerminal(t: Term) { t.isTerminal }
  predicate IsRegexp(t: Term) { t.isRegexp }
  predicate IsString(t: Term) { !t.isRegexp && |t.text| > 1 }
  predicate IsLetter(t: Term) { !t.isRegexp && |t.text| == 1 }

  /** `pre_terminals`. */
  function PreTerminals(syn: seq<BnfRule>): seq<Term>
  {
    Filter(GlobalList(syn), IsTerminal)
  }

  /** `make_unique_pred<terminal_filter>`: a term is kept when no term kept before it
      has a matching text; the first term of each text wins, whatever its kind. */
  function UniqueByText(xs: seq<Term>): (r: seq<Term>)
    ensures |r| <= |xs|
    ensures forall x :: x in r ==> x in xs
  {
    if xs == [] then []
    else
      var init := xs[..|xs| - 1];
      var front := UniqueByText(init);
      var last := xs[|xs| - 1];
      assert xs == init + [last];
      if FindText(Texts(front), last.text) == -1 then front + [last] else front
  }

  /** No two terms of `r` have matching texts. */
  predicate DistinctTexts(r: seq<Term>)
  {
    forall i, j :: 0 <= i < j < |r| ==> !TextMatch(r[j].text, r[i].text)
  }

  /** The kept terms have pairwise different texts. */
  lemma {:induction false} UniqueTexts(xs: seq<Term>)
    ensures DistinctTexts(UniqueByText(xs))
  {
    if xs != [] {
      var init := xs[..|xs| - 1];
      var front := UniqueByText(init);
      var last := xs[|xs| - 1];
      UniqueTexts(init);
      var r := UniqueByText(xs);
      var k := FindText(Texts(front), last.text);
      if k == -1 {
        assert r == front + [last];
        forall i, j | 0 <= i < j < |r| ensures !TextMatch(r[j].text, r[i].text) {
          if j == |front| {
            assert r[j] == last && r[i] == front[i];
            assert !TextMatch(last.text, Texts(front)[i]);
          } else {
            assert r[i] == front[i] && r[j] == front[j];
          }
        }
      } else {
        assert r == front;
      }
    }
  }

  /** No text is lost: every text without '\0' is still spelled by a kept term. */
  lemma {:induction false} UniqueKeepsTexts(xs: seq<Term>)
    ensures var r := UniqueByText(xs);
            forall x :: x in xs && Nul !in x.text ==> exists y :: y in r && y.text == x.text
  {
    if xs != [] {
      var init := xs[..|xs| - 1];
      var front := UniqueByText(init);
      var last := xs[|xs| - 1];
      assert xs == init + [last];
      UniqueKeepsTexts(init);
      var r := UniqueByText(xs);
      var k := FindText(Texts(front), last.text);
      forall x | x in xs && Nul !in x.text ensures exists y :: y in r && y.text == x.text {
        if x != last {
          assert x in init;
          var y :| y in front && y.text == x.text;
          assert y in r;
        } else if k == -1 {
          assert r[|front|] == x;
        } else {
          assert TextMatch(last.text, Texts(front)[k]);
          TextMatchIsEquality(last.text, front[k].text);
          assert front[k] in r;
        }
      }
    }
  }

  /** Keeping some terms of a duplicate-free list keeps it duplicate-free. */
  lemma {:induction false} UniqueNoDup(xs: seq<Term>)
    requires NoDup(xs)
    ensures NoDup(UniqueByText(xs))
  {
    if xs != [] {
      var init := xs[..|xs| - 1];
      var last := xs[|xs| - 1];
      NoDupSnoc(init, last);
      assert xs == init + [last];
      UniqueNoDup(init);
      var front := UniqueByText(init);
      if FindText(Texts(front), last.text) == -1 {
        NoDupSnoc(front, last);
      }
    }
  }

  /** `terminals`: one term per distinct terminal text. */
  function Terminals(syn: seq<BnfRule>): (r: seq<Term>)
    ensures NoDup(r)
    ensures forall t :: t in r ==> t.isTerminal && t in SyntaxTerms(syn)
    ensures |r| < Base(syn)
  {
    UniqueNoDup(PreTerminals(syn));
    UniqueByText(PreTerminals(syn))
  }

  /** Two terminals of the same text, one plain and one `regexp:`, become a single
      terminal of the kind written first. */
  lemma SameTextCollapses(x: Term, y: Term)
    requires x.text == y.text && Nul !in x.text
    ensures UniqueByText([x, y]) == [x]
  {
    assert [x, y][..1] == [x];
    assert [x][..0] == [];
    TextMatchIsEquality(y.text, x.text);
    assert TextMatch(y.text, Texts([x])[0]);
  }

  // ---- the generated lexer ----

  /** The syntactic unit of terminal `x`: its token type is its index among the
      terminals. A regular expression is passed to the caller's oracle under that
      same index. */
  function UnitFor(terms: seq<Term>, x: Term): Unit
    requires x in terms
  {
    var id := IndexOf(terms, x);
    if x.isRegexp then Unit(Regexp(id), WithType(id))
    else if |x.text| == 1 then Unit(Letter([x.text[0]]), WithType(id))
    else Unit(WholeString(x.text), WithType(id))
  }

  function UnitsOf(terms: seq<Term>, xs: seq<Term>): (r: seq<Unit>)
    requires forall x :: x in xs ==> x in terms
    ensures |r| == |xs| && forall k :: 0 <= k < |xs| ==> r[k] == UnitFor(terms, xs[k])
  {
    seq(|xs|, k requires 0 <= k < |xs| => UnitFor(terms, xs[k]))
  }

  /** `syntactic_unit_list`: letters, then strings, then regular expressions. */
  function LexUnits(terms: seq<Term>): seq<Unit>
  {
    Dedup(UnitsOf(terms, Filter(terms, IsLetter))
          + UnitsOf(terms, Filter(terms, IsString))
          + UnitsOf(terms, Filter(terms, IsRegexp)))
  }

  /** The order in which the generated lexer tries matchers. */
  function Rank(m: Matcher): nat
  {
    match m
    case Letter(_) => 0
    case Str(_, _, _) => 1
    case Regexp(_) => 2
  }

  /** Every unit is the unit of the terminal whose index its tokens carry. */
  predicate UnitsFrom(terms: seq<Term>, us: seq<Unit>)
  {
    forall i :: 0 <= i < |us| ==>
      && us[i].generate.WithType? && 0 <= us[i].generate.kind < |terms|
      && us[i] == UnitFor(terms, terms[us[i].generate.kind])
  }

  lemma UnitsOfFrom(terms: seq<Term>, p: Term -> bool, rank: nat)
    requires forall x :: x in terms && p(x) ==> Rank(UnitFor(terms, x).matcher) == rank
    ensures var us := UnitsOf(terms, Filter(terms, p));
            UnitsFrom(terms, us) && forall i :: 0 <= i < |us| ==> Rank(us[i].matcher) == rank
  {
    var xs := Filter(terms, p);
    var us := UnitsOf(terms, xs);
    forall i | 0 <= i < |us|
      ensures us[i].generate.WithType? && 0 <= us[i].generate.kind < |terms|
      ensures us[i] == UnitFor(terms, terms[us[i].generate.kind])
      ensures Rank(us[i].matcher) == rank
    {
      assert xs[i] in terms;
      assert terms[IndexOf(terms, xs[i])] == xs[i];
    }
  }

  /** Units built from distinct terms are distinct: the token type tells them apart. */
  lemma UnitsDistinct(terms: seq<Term>, xs: seq<Term>)
    requires NoDup(xs) && forall x :: x in xs ==> x in terms
    ensures NoDup(UnitsOf(terms, xs))
  {
    var us := UnitsOf(terms, xs);
    forall i, j | 0 <= i < j < |us| ensures us[i] != us[j] {
      assert xs[i] in terms && xs[j] in terms;
      assert terms[IndexOf(terms, xs[i])] == xs[i];
      assert terms[IndexOf(terms, xs[j])] == xs[j];
    }
  }

  lemma ConcatNoDup<T>(a: seq<T>, b: seq<T>)
    requires NoDup(a) && NoDup(b) && forall x :: x in a ==> x !in b
    ensures NoDup(a + b)
  {
    forall i, j | 0 <= i < j < |a + b| ensures (a + b)[i] != (a + b)[j] {
      if i < |a| && j >= |a| {
        assert (a + b)[i] in a && (a + b)[j] == b[j - |a|];
      }
    }
  }

  function LetterUnits(terms: seq<Term>): seq<Unit> { UnitsOf(terms, Filter(terms, IsLetter)) }
  function StringUnits(terms: seq<Term>): seq<Unit> { UnitsOf(terms, Filter(terms, IsString)) }
  function RegexpUnits(terms: seq<Term>): seq<Unit> { UnitsOf(terms, Filter(terms, IsRegexp)) }

  /** The final `make_unique` removes nothing: units of distinct terminals differ. */
  lemma LexUnitsUnique(terms: seq<Term>)
    requires NoDup(terms)
    ensures LexUnits(terms) == LetterUnits(terms) + StringUnits(terms) + RegexpUnits(terms)
    ensures NoDup(LexUnits(terms))
  {
    var lu, su, ru := LetterUnits(terms), StringUnits(terms), RegexpUnits(terms);
    UnitsOfFrom(terms, IsLetter, 0);
    UnitsOfFrom(terms, IsString, 1);
    UnitsOfFrom(terms, IsRegexp, 2);
    UnitsDistinct(terms, Filter(terms, IsLetter));
    UnitsDistinct(terms, Filter(terms, IsString));
    UnitsDistinct(terms, Filter(terms, IsRegexp));
    assert forall u :: u in lu ==> Rank(u.matcher) == 0 by {
      forall u | u in lu ensures Rank(u.matcher) == 0 {
        var i :| 0 <= i < |lu| && lu[i] == u;
      }
    }
    assert forall u :: u in su ==> Rank(u.matcher) == 1 by {
      forall u | u in su ensures Rank(u.matcher) == 1 {
        var i :| 0 <= i < |su| && su[i] == u;
      }
    }
    assert forall u :: u in ru ==> Rank(u.matcher) == 2 by {
      forall u | u in ru ensures Rank(u.matcher) == 2 {
        var i :| 0 <= i < |ru| && ru[i] == u;
      }
    }
    ConcatNoDup(lu, su);
    ConcatNoDup(lu + su, ru);
    DedupOfNoDup(lu + su + ru);
  }

  /** The generated lexer tries every letter before every string and every string
      before every regular expression, and each unit is the unit of the terminal
      whose index its tokens carry. */
  lemma LexUnitsOrdered(terms: seq<Term>)
    requires NoDup(terms)
    ensures var us := LexUnits(terms);
            && (forall i, j :: 0 <= i < j < |us| ==> Rank(us[i].matcher) <= Rank(us[j].matcher))
            && UnitsFrom(terms, us)
  {
    LexUnitsUnique(terms);
    var lu, su, ru := LetterUnits(terms), StringUnits(terms), RegexpUnits(terms);
    UnitsOfFrom(terms, IsLetter, 0);
    UnitsOfFrom(terms, IsString, 1);
    UnitsOfFrom(terms, IsRegexp, 2);
    var all := lu + su + ru;
    forall i | 0 <= i < |all|
      ensures Rank(all[i].matcher) == if i < |lu| then 0 else if i < |lu| + |su| then 1 else 2
      ensures all[i].generate.WithType? && 0 <= all[i].generate.kind < |terms|
      ensures all[i] == UnitFor(terms, terms[all[i].generate.kind])
    {
      if i < |lu| {
        assert all[i] == lu[i];
      } else if i < |lu| + |su| {
        assert all[i] == su[i - |lu|];
      } else {
        assert all[i] == ru[i - |lu| - |su|];
      }
    }
  }

  /** Some unit of `us` produces tokens of type `k`. */
  predicate HasUnit(us: seq<Unit>, k: int)
  {
    exists i :: 0 <= i < |us| && us[i].generate == WithType(k)
  }

  lemma HasUnitConcat(a: seq<Unit>, b: seq<Unit>, k: int)
    ensures HasUnit(a + b, k) <==> HasUnit(a, k) || HasUnit(b, k)
  {
    var w := WithType(k);
    if i :| 0 <= i < |a + b| && (a + b)[i].generate == w {
      if i < |a| { assert (a + b)[i] == a[i]; } else { assert (a + b)[i] == b[i - |a|]; }
    }
    if i :| 0 <= i < |a| && a[i].generate == w { assert (a + b)[i] == a[i]; }
    if i :| 0 <= i < |b| && b[i].generate == w { assert (a + b)[|a| + i] == b[i]; }
  }

  /** A unit built from a term of `xs` carries the term's index among `terms`. */
  lemma UnitsOfKinds(terms: seq<Term>, xs: seq<Term>, k: nat)
    requires NoDup(terms) && (forall x :: x in xs ==> x in terms) && k < |terms|
    ensures HasUnit(UnitsOf(terms, xs), k) <==> terms[k] in xs
  {
    var us := UnitsOf(terms, xs);
    forall i | 0 <= i < |us| ensures us[i].generate == WithType(k) <==> xs[i] == terms[k] {
      assert xs[i] in terms;
      var q := IndexOf(terms, xs[i]);
      assert terms[q] == xs[i];
      assert us[i].generate == WithType(q);
      if xs[i] == terms[k] {
        assert q == k;
      }
    }
    if terms[k] in xs {
      var i :| 0 <= i < |xs| && xs[i] == terms[k];
      assert us[i].generate == WithType(k);
    }
  }

  /** A terminal has a unit exactly when it is a regular expression or its text is
      not empty. */
  lemma LexUnitsCover(terms: seq<Term>, k: nat)
    requires NoDup(terms) && k < |terms|
    ensures HasUnit(LexUnits(terms), k) <==> terms[k].isRegexp || |terms[k].text| > 0
  {
    LexUnitsUnique(terms);
    var lu, su, ru := LetterUnits(terms), StringUnits(terms), RegexpUnits(terms);
    UnitsOfKinds(terms, Filter(terms, IsLetter), k);
    UnitsOfKinds(terms, Filter(terms, IsString), k);
    UnitsOfKinds(terms, Filter(terms, IsRegexp), k);
    HasUnitConcat(lu, su, k);
    HasUnitConcat(lu + su, ru, k);
    assert terms[k] in terms;
  }

  // ---- the generated grammar ----

  /** `get_term_id<X>`: a terminal's index among the terminals, or `base` plus the
      index of the rule of the same name; a name no rule carries fails the
      `static_assert` (None). */
  function TermId(syn: seq<BnfRule>, x: Term): (r: Option<int>)
    ensures r.Some? && x.isTerminal ==>
              0 <= r.value < |Terminals(syn)| && TextMatch(x.text, Terminals(syn)[r.value].text)
    ensures r.Some? && !x.isTerminal ==>
              Base(syn) <= r.value < Base(syn) + |syn| && TextMatch(x.text, syn[r.value - Base(syn)].name)
    ensures r.None? <==>
              if x.isTerminal then forall k :: 0 <= k < |Terminals(syn)| ==> !TextMatch(x.text, Terminals(syn)[k].text)
              else forall k :: 0 <= k < |syn| ==> !TextMatch(x.text, syn[k].name)
  {
    if x.isTerminal then
      var k := FindText(Texts(Terminals(syn)), x.text);
      if k >= 0 then Some(k) else None
    else
      var k := FindText(RuleNames(syn), x.text);
      if k >= 0 then Some(Base(syn) + k) else None
  }

  /** `pr_maker<ParsedPR>`: the attribute the alternative names, over the ids of its
      terms. An attribute index outside the database does not compile (None). */
  function MakeRule(db: AttributeDb, syn: seq<BnfRule>, alt: Alt): (r: Option<Rule>)
    ensures r.Some? <==> 0 <= alt.attribute < |db| && forall k :: 0 <= k < |alt.list| ==> TermId(syn, alt.list[k]).Some?
    ensures r.Some? ==> && r.value.action == db[alt.attribute].action
                        && |r.value.rhs| == |alt.list|
                        && forall k :: 0 <= k < |alt.list| ==> Some(r.value.rhs[k]) == TermId(syn, alt.list[k])
  {
    if 0 <= alt.attribute < |db| then
      match MapAll(alt.list, x => TermId(syn, x))
      case Some(ids) => Some(Rule(db[alt.attribute].action, ids))
      case None => None
    else None
  }

  /** `prs_maker<ParsedPRS>`: named `base` plus the rule's index in the syntax. */
  function MakeSet(db: AttributeDb, syn: seq<BnfRule>, rule: BnfRule): (r: Option<RuleSet>)
    ensures r.Some? <==> forall a :: 0 <= a < |rule.expr| ==> MakeRule(db, syn, rule.expr[a]).Some?
    ensures r.Some? ==> && r.value.name == Base(syn) + IndexOf(syn, rule)
                        && |r.value.rules| == |rule.expr|
                        && forall a :: 0 <= a < |rule.expr| ==> Some(r.value.rules[a]) == MakeRule(db, syn, rule.expr[a])
  {
    match MapAll(rule.expr, alt => MakeRule(db, syn, alt))
    case Some(rules) => Some(RuleSet(Base(syn) + IndexOf(syn, rule), rules))
    case None => None
  }

  /** `generate_grammar<SyntaxClass>::grammar`: started by `base`. */
  function GenerateGrammar(db: AttributeDb, syn: seq<BnfRule>): (r: Option<Grammar>)
    ensures r.Some? <==> forall i :: 0 <= i < |syn| ==> MakeSet(db, syn, syn[i]).Some?
    ensures r.Some? ==> && r.value.start == Base(syn)
                        && |r.value.sets| == |syn|
                        && forall i :: 0 <= i < |syn| ==> Some(r.value.sets[i]) == MakeSet(db, syn, syn[i])
  {
    match MapAll(syn, rule => MakeSet(db, syn, rule))
    case Some(sets) => Some(Grammar(Base(syn), sets))
    case None => None
  }

  /** The output type: the generated lexer and grammar. */
  datatype Output = Output(lexer: LexConfig, grammar: Grammar)

  /** `create_output_type<Syntax>::type`. */
  function CreateOutput(db: AttributeDb, syn: seq<BnfRule>): (r: Option<Output>)
    ensures r.Some? <==> GenerateGrammar(db, syn).Some?
    ensures r.Some? ==> && r.value.grammar == GenerateGrammar(db, syn).value
                        && r.value.lexer == LexConfig(LexUnits(Terminals(syn)), WhiteSpaceSkipper)
  {
    match GenerateGrammar(db, syn)
    case Some(g) => Some(Output(LexConfig(LexUnits(Terminals(syn)), WhiteSpaceSkipper), g))
    case None => None
  }

  // ---- properties of the output ----

  /** Every text of the syntax is free of '\0' (the meta lexer's patterns only admit
      printable characters). */
  predicate CleanTexts(syn: seq<BnfRule>)
  {
    && (forall t :: t in SyntaxTerms(syn) ==> Nul !in t.text)
    && (forall i :: 0 <= i < |syn| ==> Nul !in syn[i].name)
  }

  /** A term's id exists exactly when it is a terminal or names a rule; a terminal's
      id is the index of the terminal of the same text, a name's id is `base` plus
      the index of the first rule of that name. */
  lemma TermIdResolves(syn: seq<BnfRule>, x: Term)
    requires CleanTexts(syn) && x in SyntaxTerms(syn)
    ensures TermId(syn, x).Some? <==> x.isTerminal || x.text in RuleNames(syn)
    ensures x.isTerminal ==> Terminals(syn)[TermId(syn, x).value].text == x.text
    ensures !x.isTerminal && x.text in RuleNames(syn) ==>
              TermId(syn, x) == Some(Base(syn) + IndexOf(RuleNames(syn), x.text))
  {
    assert Nul !in x.text;
    if x.isTerminal {
      TerminalIdResolves(syn, x);
    } else {
      NameIdResolves(syn, x);
    }
  }

  lemma NameIdResolves(syn: seq<BnfRule>, x: Term)
    requires !x.isTerminal && Nul !in x.text
    ensures TermId(syn, x).Some? <==> x.text in RuleNames(syn)
    ensures x.text in RuleNames(syn) ==> TermId(syn, x) == Some(Base(syn) + IndexOf(RuleNames(syn), x.text))
  {
    FindTextIsIndexOf(RuleNames(syn), x.text);
  }

  lemma TerminalIdResolves(syn: seq<BnfRule>, x: Term)
    requires x.isTerminal && Nul !in x.text && x in SyntaxTerms(syn)
    ensures TermId(syn, x).Some? && Terminals(syn)[TermId(syn, x).value].text == x.text
  {
    TerminalKept(syn, x);
    var y :| y in Terminals(syn) && y.text == x.text;
    var k :| 0 <= k < |Terminals(syn)| && Terminals(syn)[k] == y;
    TerminalFound(syn, x, k);
    TerminalIdText(syn, x);
  }

  lemma TerminalKept(syn: seq<BnfRule>, x: Term)
    requires x.isTerminal && Nul !in x.text && x in SyntaxTerms(syn)
    ensures exists y :: y in Terminals(syn) && y.text == x.text
  {
    assert x in PreTerminals(syn);
    UniqueKeepsTexts(PreTerminals(syn));
  }

  lemma TerminalFound(syn: seq<BnfRule>, x: Term, k: nat)
    requires x.isTerminal && Nul !in x.text && k < |Terminals(syn)| && Terminals(syn)[k].text == x.text
    ensures TermId(syn, x).Some?
  {
    var ts := Terminals(syn);
    TextMatchIsEquality(x.text, ts[k].text);
    assert Texts(ts)[k] == ts[k].text;
  }

  lemma TerminalIdText(syn: seq<BnfRule>, x: Term)
    requires x.isTerminal && TermId(syn, x).Some?
    ensures Terminals(syn)[TermId(syn, x).value].text == x.text
  {
    var ts := Terminals(syn);
    var r := TermId(syn, x).value;
    TextMatchIsEquality(x.text, ts[r].text);
  }

  /** Terminal ids and rule ids never meet: every terminal id is below `base`, every
      rule id at or above it. */
  lemma IdsSeparate(syn: seq<BnfRule>, x: Term, y: Term)
    requires TermId(syn, x).Some? && TermId(syn, y).Some?
    requires x.isTerminal && !y.isTerminal
    ensures TermId(syn, x).value < Base(syn) <= TermId(syn, y).value
  {
  }

  /** The grammar starts with the rule written first, and with distinct rules every
      symbol on a right-hand side is a terminal id or the name of one of its rule
      sets. */
  lemma GrammarShape(db: AttributeDb, syn: seq<BnfRule>)
    requires GenerateGrammar(db, syn).Some? && NoDup(syn)
    ensures var g := GenerateGrammar(db, syn).value;
            && (forall i :: 0 <= i < |syn| ==> g.sets[i].name == Base(syn) + i)
            && (|syn| > 0 ==> StartIndex(g) == 0)
            && (forall i, a, k :: 0 <= i < |syn| && 0 <= a < |g.sets[i].rules| && 0 <= k < |g.sets[i].rules[a].rhs| ==>
                  var id := g.sets[i].rules[a].rhs[k];
                  (0 <= id < |Terminals(syn)|) || IsNonTerminal(g, id))
  {
    var g := GenerateGrammar(db, syn).value;
    forall i | 0 <= i < |syn| ensures g.sets[i].name == Base(syn) + i {
      assert IndexOf(syn, syn[i]) == i by {
        var q := IndexOf(syn, syn[i]);
        assert syn[q] == syn[i];
      }
    }
    if |syn| > 0 {
      assert NonTerminals(g)[0] == g.start;
    }
    forall i, a, k | 0 <= i < |syn| && 0 <= a < |g.sets[i].rules| && 0 <= k < |g.sets[i].rules[a].rhs|
      ensures var id := g.sets[i].rules[a].rhs[k];
              (0 <= id < |Terminals(syn)|) || IsNonTerminal(g, id)
    {
      var alt := syn[i].expr[a];
      assert Some(g.sets[i].rules[a]) == MakeRule(db, syn, alt);
      var x := alt.list[k];
      var id := g.sets[i].rules[a].rhs[k];
      assert Some(id) == TermId(syn, x);
      if !x.isTerminal {
        var j := id - Base(syn);
        assert NonTerminals(g)[j] == id;
      }
    }
  }

  /** An alternative that makes a valid production rule: it names an attribute of
      the database, has terms, and the attribute fits their number. */
  predicate AltOk(db: AttributeDb, alt: Alt)
  {
    && 0 <= alt.attribute < |db|
    && |alt.list| > 0
    && ArityFits(db[alt.attribute].action, |alt.list|)
    && Declarable(db[alt.attribute].action)
  }

  /** A rule that makes a valid production rule set. */
  predicate RuleAltsOk(db: AttributeDb, rule: BnfRule)
  {
    |rule.expr| > 0 && forall a :: 0 <= a < |rule.expr| ==> AltOk(db, rule.expr[a])
  }

  /** Rule set `i` passes the checks of `production_rule_set` exactly when rule `i`
      of the syntax has valid alternatives. */
  lemma GeneratedSetOk(db: AttributeDb, syn: seq<BnfRule>, i: nat)
    requires GenerateGrammar(db, syn).Some? && i < |syn|
    ensures SetOk(GenerateGrammar(db, syn).value.sets[i]) <==> RuleAltsOk(db, syn[i])
  {
    var rs := GenerateGrammar(db, syn).value.sets[i];
    assert Some(rs) == MakeSet(db, syn, syn[i]);
    forall a | 0 <= a < |syn[i].expr| ensures RuleOk(rs.rules[a]) <==> AltOk(db, syn[i].expr[a]) {
      assert Some(rs.rules[a]) == MakeRule(db, syn, syn[i].expr[a]);
    }
  }

  /** The generated grammar passes the grammar checks exactly when every rule has
      valid alternatives and the first rule has exactly one. */
  lemma GrammarWellFormedIff(db: AttributeDb, syn: seq<BnfRule>)
    requires GenerateGrammar(db, syn).Some? && |syn| > 0
    ensures WellFormed(GenerateGrammar(db, syn).value) <==>
              && |syn[0].expr| == 1
              && forall i :: 0 <= i < |syn| ==> RuleAltsOk(db, syn[i])
  {
    var g := GenerateGrammar(db, syn).value;
    assert NonTerminals(g)[0] == g.start;
    assert StartIndex(g) == 0;
    assert Some(g.sets[0]) == MakeSet(db, syn, syn[0]);
    forall i | 0 <= i < |syn| ensures SetOk(g.sets[i]) <==> RuleAltsOk(db, syn[i]) {
      GeneratedSetOk(db, syn, i);
    }
  }

  /** With clean texts, generation fails exactly when an alternative names an
      attribute outside the database or a term names no rule. */
  lemma OutputFailsIff(db: AttributeDb, syn: seq<BnfRule>)
    requires CleanTexts(syn)
    ensures CreateOutput(db, syn).None? <==>
              exists i, a :: 0 <= i < |syn| && 0 <= a < |syn[i].expr| &&
                var alt := syn[i].expr[a];
                || !(0 <= alt.attribute < |db|)
                || exists k :: 0 <= k < |alt.list| && !alt.list[k].isTerminal && alt.list[k].text !in RuleNames(syn)
  {
    forall i, a, k | 0 <= i < |syn| && 0 <= a < |syn[i].expr| && 0 <= k < |syn[i].expr[a].list|
      ensures TermId(syn, syn[i].expr[a].list[k]).Some?
              <==> syn[i].expr[a].list[k].isTerminal || syn[i].expr[a].list[k].text in RuleNames(syn)
    {
      var x := syn[i].expr[a].list[k];
      assert x in AltTerms(syn[i].expr);
      TermIdResolves(syn, x);
    }
  }
}

/** The grammar model: production rules, production rule sets and the grammar,
    with the well-formedness checks the grammar types impose on their arguments. */
module Grammar {
  import opened Collections
  import opened Attributes

  /** `production_rule<SyntaxClass, Attribute, TokensOrRules...>`. */
  datatype Rule = Rule(action: Action, rhs: seq<int>)

  /** `production_rule_set<SyntaxClass, RuleName, ProductionRules...>`. */
  datatype RuleSet = RuleSet(name: int, rules: seq<Rule>)

  /** `grammar<SyntaxClass, StartRule, ProductionRuleSets...>`. */
  datatype Grammar = Grammar(start: int, sets: seq<RuleSet>)

  /** The arity checks of a production rule against its child count `n`. */
  predicate ArityFits(a: Action, n: nat)
  {
    (Arity(a) <= 0 || Arity(a) == n) && (Arity(a) >= 0 || -Arity(a) <= n)
  }

  predicate RuleOk(r: Rule)
  {
    |r.rhs| > 0 && ArityFits(r.action, |r.rhs|) && Declarable(r.action)
  }

  predicate SetOk(rs: RuleSet)
  {
    |rs.rules| > 0 && forall k :: 0 <= k < |rs.rules| ==> RuleOk(rs.rules[k])
  }

  /** `grammar::non_terminal_list`: the rule-set names, in declaration order. */
  function NonTerminals(g: Grammar): (r: seq<int>)
    ensures |r| == |g.sets|
    ensures forall k :: 0 <= k < |g.sets| ==> r[k] == g.sets[k].name
  {
    seq(|g.sets|, k requires 0 <= k < |g.sets| => g.sets[k].name)
  }

  /** `_is_non_terminal`: a symbol is a non-terminal iff some rule set carries its name. */
  predicate IsNonTerminal(g: Grammar, x: int)
  {
    x in NonTerminals(g)
  }

  /** `find_if<is_start_rule>::index`: the first rule set named after the start rule, or -1. */
  function StartIndex(g: Grammar): int
  {
    IndexOf(NonTerminals(g), g.start)
  }

  /** Every static_assert of `production_rule`, `production_rule_set` and `grammar`. */
  predicate WellFormed(g: Grammar)
  {
    && |g.sets| > 0
    && (forall k :: 0 <= k < |g.sets| ==> SetOk(g.sets[k]))
    && StartIndex(g) >= 0
    && |g.sets[StartIndex(g)].rules| == 1
  }

  /** The compile-time diagnostics, by the static_assert they stand for. */
  datatype GrammarError =
    | EmptyRule(setIndex: nat, ruleIndex: nat)
    | ArityMismatch(setIndex: nat, ruleIndex: nat)
    | TooManyParameters(setIndex: nat, ruleIndex: nat)
    | VoidAttribute(setIndex: nat, ruleIndex: nat)
    | EmptyRuleSet(setIndex: nat)
    | EmptyGrammar
    | NoStartRuleSet
    | StartRuleSetNotSingle

  datatype Checked = Valid(startRule: Rule) | Invalid(error: GrammarError)

  function RuleError(r: Rule, si: nat, ri: nat): (e: Option<GrammarError>)
    ensures e.None? <==> RuleOk(r)
  {
    if |r.rhs| == 0 then Some(EmptyRule(si, ri))
    else if !(Arity(r.action) <= 0 || Arity(r.action) == |r.rhs|) then Some(ArityMismatch(si, ri))
    else if !(Arity(r.action) >= 0 || -Arity(r.action) <= |r.rhs|) then Some(TooManyParameters(si, ri))
    else if !Declarable(r.action) then Some(VoidAttribute(si, ri))
    else None
  }

  /** The first failing rule of `rules[from..]`. */
  function RulesError(rules: seq<Rule>, si: nat, from: nat): (e: Option<GrammarError>)
    requires from <= |rules|
    ensures e.None? <==> forall k :: from <= k < |rules| ==> RuleOk(rules[k])
    decreases |rules| - from
  {
    if from == |rules| then None
    else match RuleError(rules[from], si, from)
      case Some(e) => Some(e)
      case None => RulesError(rules, si, from + 1)
  }

  /** The first failing rule set of `sets[from..]`. */
  function SetsError(sets: seq<RuleSet>, from: nat): (e: Option<GrammarError>)
    requires from <= |sets|
    ensures e.None? <==> forall k :: from <= k < |sets| ==> SetOk(sets[k])
    decreases |sets| - from
  {
    if from == |sets| then None
    else if |sets[from].rules| == 0 then Some(EmptyRuleSet(from))
    else match RulesError(sets[from].rules, from, 0)
      case Some(e) => Some(e)
      case None => SetsError(sets, from + 1)
  }

  /** Instantiating the grammar: either a diagnostic, or `start_production_rule`,
      the one rule of the first rule set named after the start rule. */
  function Check(g: Grammar): (r: Checked)
    ensures r.Valid? <==> WellFormed(g)
    ensures r.Valid? ==> exists i :: 0 <= i < |g.sets| && g.sets[i].name == g.start
                                 && (forall j :: 0 <= j < i ==> g.sets[j].name != g.start)
                                 && g.sets[i].rules == [r.startRule]
  {
    match SetsError(g.sets, 0)
    case Some(e) => Invalid(e)
    case None =>
      if |g.sets| == 0 then Invalid(EmptyGrammar)
      else
        var i := StartIndex(g);
        if i < 0 then Invalid(NoStartRuleSet)
        else if |g.sets[i].rules| != 1 then Invalid(StartRuleSetNotSingle)
        else
          assert forall j :: 0 <= j < i ==> g.sets[j].name != g.start by {
            forall j | 0 <= j < i ensures g.sets[j].name != g.start {
              assert NonTerminals(g)[..i][j] == NonTerminals(g)[j];
            }
          }
          assert g.sets[i].rules == [g.sets[i].rules[0]];
          Valid(g.sets[i].rules[0])
  }

  /** The rules of the non-terminal `nt`: those of the first rule set carrying its name
      (`get_type_index` in `non_terminal_list`, `find_if` in `wrap_non_terminal`). */
  function RulesOf(g: Grammar, nt: int): (r: seq<Rule>)
    ensures !IsNonTerminal(g, nt) ==> r == []
    ensures IsNonTerminal(g, nt) ==> exists i :: 0 <= i < |g.sets| && g.sets[i].name == nt && r == g.sets[i].rules
  {
    var i := IndexOf(NonTerminals(g), nt);
    if i < 0 then [] else g.sets[i].rules
  }

  /** A rule set of `g` has name `nt`, so `nt` is a non-terminal and has rules. */
  lemma RulesOfWellFormed(g: Grammar, nt: int)
    requires WellFormed(g)
    requires IsNonTerminal(g, nt)
    ensures |RulesOf(g, nt)| > 0
    ensures forall k :: 0 <= k < |RulesOf(g, nt)| ==> RuleOk(RulesOf(g, nt)[k])
  {
    var i := IndexOf(NonTerminals(g), nt);
    assert SetOk(g.sets[i]);
  }

  /** A rule of a well-formed grammar can always build its value from its children:
      invoking its attribute on exactly |rhs| children fails only when a value
      fallthrough is handed something other than a token. */
  lemma ArityChecksSuffice(r: Rule, host: ActionHost, args: seq<Value>)
    requires RuleOk(r)
    requires |args| == |r.rhs|
    ensures r.action.ValueFallthrough? ==> (Invoke(r.action, host, args).Some? <==> args[0].Tok?)
    ensures r.action.ValueFallthroughOne? ==> (Invoke(r.action, host, args).Some? <==> args[r.action.index].Tok?)
    ensures !(r.action.ValueFallthrough? || r.action.ValueFallthroughOne?) && Arity(r.action) != 0 ==> Invoke(r.action, host, args).Some?
    ensures r.action.Synthesizer? ==> Invoke(r.action, host, args).Some?
    ensures r.action.Function? && |r.action.params| == 0 ==> Invoke(r.action, host, []).Some?
  {
  }

  // ---- return types ----

  function NonVoidReturns(rules: seq<Rule>): (r: seq<CType>)
    ensures forall t :: t in r <==> exists k :: 0 <= k < |rules| && ReturnType(rules[k].action) == t && t != Void
  {
    if rules == [] then []
    else
      var rest := NonVoidReturns(rules[1..]);
      var t := ReturnType(rules[0].action);
      assert forall k :: 1 <= k < |rules| ==> rules[k] == rules[1..][k - 1];
      assert forall k :: 0 <= k < |rules[1..]| ==> rules[1..][k] == rules[k + 1];
      if t == Void then rest else [t] + rest
  }

  /** `production_rule_set::return_type_list`: the non-void attribute return types
      of the set, each once, in rule order. */
  function SetReturnTypes(rs: RuleSet): (r: seq<CType>)
    ensures NoDup(r) && Void !in r
    ensures forall t :: t in r <==> exists k :: 0 <= k < |rs.rules| && ReturnType(rs.rules[k].action) == t && t != Void
  {
    Dedup(NonVoidReturns(rs.rules))
  }

  function FlattenReturns(sets: seq<RuleSet>): (r: seq<CType>)
    ensures forall t :: t in r <==> exists i :: 0 <= i < |sets| && t in SetReturnTypes(sets[i])
  {
    if sets == [] then []
    else
      var rest := FlattenReturns(sets[1..]);
      assert forall i :: 1 <= i < |sets| ==> sets[i] == sets[1..][i - 1];
      SetReturnTypes(sets[0]) + rest
  }

  /** `grammar::return_type_list`: the union of the sets' return types, then the token
      type and `type_t`, each once. This is the type list of the parse-stack slots. */
  function ReturnTypeList(g: Grammar): (r: seq<CType>)
    ensures NoDup(r)
    ensures TokenType in r && TypeT in r && Void !in r
    ensures forall t :: t in r <==> (t == TokenType || t == TypeT ||
              exists i, k :: 0 <= i < |g.sets| && 0 <= k < |g.sets[i].rules|
                             && ReturnType(g.sets[i].rules[k].action) == t && t != Void)
  {
    var fl := Dedup(FlattenReturns(g.sets));
    Dedup(fl + [TokenType, TypeT])
  }
}

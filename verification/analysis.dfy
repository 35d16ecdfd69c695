/** FIRST and FOLLOW of a non-terminal, as the grammar tools compute them: sets of
    terminals, gathered through leading-symbol chains (FIRST) and through rules
    that end with the non-terminal (FOLLOW), with a stack guarding the recursion.
    There is no notion of an empty production: every rule has at least one symbol. */
module Analysis {
  import opened Collections
  import opened Grammar
  import opened Guarded

  /** `_is_terminal`: anything that is not a rule-set name. */
  predicate IsTerminal(g: Grammar, x: int)
  {
    !IsNonTerminal(g, x)
  }

  /** The names of the rule sets, as a set: the nodes of both recursions. */
  function NonTerminalSet(g: Grammar): set<int>
  {
    Elems(NonTerminals(g))
  }

  /** Every symbol the grammar mentions on a right-hand side. */
  function Symbols(g: Grammar): set<int>
  {
    set i, k, j | 0 <= i < |g.sets| && 0 <= k < |g.sets[i].rules| && 0 <= j < |g.sets[i].rules[k].rhs| :: g.sets[i].rules[k].rhs[j]
  }

  /** The terminals the grammar mentions. */
  function Terminals(g: Grammar): set<int>
  {
    set x | x in Symbols(g) && IsTerminal(g, x)
  }

  // ---- FIRST ----

  /** The first symbol of every rule, in rule order. */
  function Leading(rules: seq<Rule>): (r: seq<int>)
    ensures forall x :: x in r <==> exists k :: 0 <= k < |rules| && |rules[k].rhs| > 0 && rules[k].rhs[0] == x
  {
    if rules == [] then []
    else
      var rest := Leading(rules[1..]);
      assert forall k :: 1 <= k < |rules| ==> rules[k] == rules[1..][k - 1];
      if |rules[0].rhs| > 0 then [rules[0].rhs[0]] + rest else rest
  }

  /** The terminals that start a rule of `n`. */
  function LeadingTerminals(g: Grammar, n: int): set<int>
  {
    set x | x in Leading(RulesOf(g, n)) && IsTerminal(g, x)
  }

  function FirstProblem(g: Grammar): Problem
  {
    Problem(NonTerminalSet(g), n => LeadingTerminals(g, n), n => Leading(RulesOf(g, n)))
  }

  /** `_first<SyntaxClass, NT, Stack>::list`: the leading terminal of each rule of NT,
      and the FIRST of each leading non-terminal not on the stack (pushed). */
  function FirstWith(g: Grammar, nt: int, stack: seq<int>): set<int>
  {
    Gather(FirstProblem(g), nt, stack)
  }

  /** `grammar_tools::first<NT>`: starts with an empty stack. */
  function First(g: Grammar, nt: int): set<int>
    requires IsNonTerminal(g, nt)
  {
    FirstWith(g, nt, [])
  }

  /** `_first_or_name<Name>`. */
  function FirstOrName(g: Grammar, x: int): (r: set<int>)
    ensures IsTerminal(g, x) ==> r == {x}
  {
    if IsNonTerminal(g, x) then First(g, x) else {x}
  }

  /** A chain of non-terminals, each the first symbol of some rule of the one before. */
  ghost predicate LeadingChain(g: Grammar, w: seq<int>)
  {
    && |w| >= 1
    && forall i :: 1 <= i < |w| ==> IsNonTerminal(g, w[i]) && w[i] in Leading(RulesOf(g, w[i - 1]))
  }

  /** Reference definition of FIRST without empty productions: `t` is a terminal that
      starts a rule of some non-terminal reachable from `nt` by a leading chain. */
  ghost predicate StartsWith(g: Grammar, nt: int, t: int)
  {
    exists w :: ChainStarts(g, w, nt, t)
  }

  /** `w` is a leading chain from `nt` whose last non-terminal starts a rule with `t`. */
  ghost predicate ChainStarts(g: Grammar, w: seq<int>, nt: int, t: int)
  {
    LeadingChain(g, w) && w[0] == nt && t in LeadingTerminals(g, w[|w| - 1])
  }

  lemma FirstWalks(g: Grammar, w: seq<int>)
    ensures IsWalk(FirstProblem(g), [], w) <==> LeadingChain(g, w)
  {
  }

  /** FIRST is exactly the reference definition: the stack never loses a terminal. */
  lemma FirstIsStartsWith(g: Grammar, nt: int, t: int)
    requires IsNonTerminal(g, nt)
    ensures t in First(g, nt) <==> StartsWith(g, nt, t)
  {
    var p := FirstProblem(g);
    GatherIsReachability(p, nt, [], t);
    if t in First(g, nt) {
      var w :| IsWalk(p, [], w) && w[0] == nt && t in p.base(w[|w| - 1]);
      FirstWalks(g, w);
      assert ChainStarts(g, w, nt, t);
    }
    if StartsWith(g, nt, t) {
      var w :| ChainStarts(g, w, nt, t);
      FirstWalks(g, w);
      assert IsWalk(p, [], w) && w[0] == nt && t in p.base(w[|w| - 1]);
    }
  }

  lemma LeadingInSymbols(g: Grammar, n: int, x: int)
    requires x in Leading(RulesOf(g, n))
    ensures x in Symbols(g)
  {
    var i := IndexOf(NonTerminals(g), n);
    var k :| 0 <= k < |RulesOf(g, n)| && |RulesOf(g, n)[k].rhs| > 0 && RulesOf(g, n)[k].rhs[0] == x;
    assert g.sets[i].rules[k].rhs[0] == x;
  }

  /** FIRST holds only terminals the grammar mentions. */
  lemma FirstWithinTerminals(g: Grammar, nt: int, stack: seq<int>)
    ensures FirstWith(g, nt, stack) <= Terminals(g)
  {
    forall m, x | x in FirstProblem(g).base(m) ensures x in Terminals(g) {
      LeadingInSymbols(g, m, x);
    }
    GatherWithin(FirstProblem(g), nt, stack, Terminals(g));
  }

  lemma LeadingChainPrepend(g: Grammar, nt: int, w: seq<int>)
    requires LeadingChain(g, w)
    requires IsNonTerminal(g, w[0]) && w[0] in Leading(RulesOf(g, nt))
    ensures LeadingChain(g, [nt] + w) && ([nt] + w)[|[nt] + w| - 1] == w[|w| - 1]
  {
    var v := [nt] + w;
    forall i | 2 <= i < |v| ensures IsNonTerminal(g, v[i]) && v[i] in Leading(RulesOf(g, v[i - 1])) {
      assert v[i] == w[i - 1] && v[i - 1] == w[i - 2];
    }
  }

  /** The direct part of FIRST: every terminal starting a rule of `nt` is in FIRST(nt),
      and so is FIRST of every non-terminal starting one. */
  lemma FirstOfLeading(g: Grammar, nt: int, x: int)
    requires IsNonTerminal(g, nt)
    requires x in Leading(RulesOf(g, nt))
    ensures IsTerminal(g, x) ==> x in First(g, nt)
    ensures IsNonTerminal(g, x) ==> First(g, x) <= First(g, nt)
  {
    if IsTerminal(g, x) {
      assert ChainStarts(g, [nt], nt, x);
      FirstIsStartsWith(g, nt, x);
    } else {
      forall t | t in First(g, x) ensures t in First(g, nt) {
        FirstThroughLeading(g, nt, x, t);
      }
    }
  }

  lemma FirstThroughLeading(g: Grammar, nt: int, x: int, t: int)
    requires IsNonTerminal(g, nt) && IsNonTerminal(g, x)
    requires x in Leading(RulesOf(g, nt))
    requires t in First(g, x)
    ensures t in First(g, nt)
  {
    FirstIsStartsWith(g, x, t);
    StartsWithPrepend(g, nt, x, t);
    FirstIsStartsWith(g, nt, t);
  }

  lemma StartsWithPrepend(g: Grammar, nt: int, x: int, t: int)
    requires IsNonTerminal(g, x) && x in Leading(RulesOf(g, nt))
    requires StartsWith(g, x, t)
    ensures StartsWith(g, nt, t)
  {
    var w :| ChainStarts(g, w, x, t);
    LeadingChainPrepend(g, nt, w);
    assert ChainStarts(g, [nt] + w, nt, t);
  }

  // ---- FOLLOW ----

  /** The first occurrence of `n` in `rhs` is not last, and `t` is in FIRST-or-name of
      the symbol after it. */
  predicate FollowsInRule(g: Grammar, rhs: seq<int>, n: int, t: int)
  {
    var j := IndexOf(rhs, n);
    0 <= j < |rhs| - 1 && t in FirstOrName(g, rhs[j + 1])
  }

  /** The first occurrence of `n` in `rhs` is its last symbol. */
  predicate EndsWithFirst(rhs: seq<int>, n: int)
  {
    |rhs| > 0 && IndexOf(rhs, n) == |rhs| - 1
  }

  /** Some rule of some rule set has `t` right after its first occurrence of `n`. */
  ghost predicate FollowsDirectly(g: Grammar, n: int, t: int)
  {
    exists i, k :: 0 <= i < |g.sets| && 0 <= k < |g.sets[i].rules| && FollowsInRule(g, g.sets[i].rules[k].rhs, n, t)
  }

  /** What the rules of `rules` contribute directly to FOLLOW(n). */
  function RulesFollowBase(g: Grammar, rules: seq<Rule>, n: int): (r: set<int>)
    ensures forall t :: t in r <==> (exists k :: 0 <= k < |rules| && FollowsInRule(g, rules[k].rhs, n, t))
  {
    if rules == [] then {}
    else
      var rest := RulesFollowBase(g, rules[1..], n);
      assert forall k :: 1 <= k < |rules| ==> rules[k] == rules[1..][k - 1];
      RuleFollow(g, rules[0].rhs, n) + rest
  }

  /** What one rule contributes directly to FOLLOW(n): FIRST-or-name of the symbol
      after the first occurrence of `n`, if there is one. */
  function RuleFollow(g: Grammar, rhs: seq<int>, n: int): (r: set<int>)
    ensures forall t :: t in r <==> FollowsInRule(g, rhs, n, t)
  {
    var j := IndexOf(rhs, n);
    if 0 <= j < |rhs| - 1 then FirstOrName(g, rhs[j + 1]) else {}
  }

  function SetsFollowBase(g: Grammar, sets: seq<RuleSet>, n: int): (r: set<int>)
    ensures forall t :: t in r <==> (exists i, k :: 0 <= i < |sets| && 0 <= k < |sets[i].rules| && FollowsInRule(g, sets[i].rules[k].rhs, n, t))
  {
    if sets == [] then {}
    else
      var rest := SetsFollowBase(g, sets[1..], n);
      assert forall i :: 1 <= i < |sets| ==> sets[i] == sets[1..][i - 1];
      RulesFollowBase(g, sets[0].rules, n) + rest
  }

  /** The name of the rule set once per rule whose first occurrence of `n` is last. */
  function RulesEndingWith(name: int, rules: seq<Rule>, n: int): (r: seq<int>)
    ensures forall x :: x in r <==> (x == name && exists k :: 0 <= k < |rules| && EndsWithFirst(rules[k].rhs, n))
  {
    if rules == [] then []
    else
      var rest := RulesEndingWith(name, rules[1..], n);
      assert forall k :: 1 <= k < |rules| ==> rules[k] == rules[1..][k - 1];
      if EndsWithFirst(rules[0].rhs, n) then [name] + rest else rest
  }

  function SetsEndingWith(sets: seq<RuleSet>, n: int): (r: seq<int>)
    ensures forall x :: x in r <==> (exists i, k :: 0 <= i < |sets| && 0 <= k < |sets[i].rules| && sets[i].name == x && EndsWithFirst(sets[i].rules[k].rhs, n))
  {
    if sets == [] then []
    else
      var rest := SetsEndingWith(sets[1..], n);
      assert forall i :: 1 <= i < |sets| ==> sets[i] == sets[1..][i - 1];
      RulesEndingWith(sets[0].name, sets[0].rules, n) + rest
  }

  function FollowProblem(g: Grammar): Problem
  {
    Problem(NonTerminalSet(g), n => SetsFollowBase(g, g.sets, n), n => SetsEndingWith(g.sets, n))
  }

  /** `_follow<SyntaxClass, NT, Stack>::list`. */
  function FollowWith(g: Grammar, nt: int, stack: seq<int>): set<int>
  {
    Gather(FollowProblem(g), nt, stack)
  }

  /** `grammar_tools::follow<NT>`: starts with an empty stack. */
  function Follow(g: Grammar, nt: int): set<int>
    requires IsNonTerminal(g, nt)
  {
    FollowWith(g, nt, [])
  }

  /** A chain of non-terminals, each the name of a rule set with a rule whose first
      occurrence of the one before is its last symbol. */
  ghost predicate EndingChain(g: Grammar, w: seq<int>)
  {
    && |w| >= 1
    && forall i :: 1 <= i < |w| ==> IsNonTerminal(g, w[i]) && w[i] in SetsEndingWith(g.sets, w[i - 1])
  }

  /** Reference definition of FOLLOW as the source computes it. */
  ghost predicate FollowsAfter(g: Grammar, nt: int, t: int)
  {
    exists w :: ChainFollows(g, w, nt, t)
  }

  /** `w` is an ending chain from `nt` whose last non-terminal is directly followed by `t`. */
  ghost predicate ChainFollows(g: Grammar, w: seq<int>, nt: int, t: int)
  {
    EndingChain(g, w) && w[0] == nt && FollowsDirectly(g, w[|w| - 1], t)
  }

  lemma FollowWalks(g: Grammar, w: seq<int>)
    ensures IsWalk(FollowProblem(g), [], w) <==> EndingChain(g, w)
  {
  }

  /** FOLLOW is exactly the reference definition. */
  lemma FollowIsFollowsAfter(g: Grammar, nt: int, t: int)
    requires IsNonTerminal(g, nt)
    ensures t in Follow(g, nt) <==> FollowsAfter(g, nt, t)
  {
    var p := FollowProblem(g);
    GatherIsReachability(p, nt, [], t);
    if t in Follow(g, nt) {
      var w :| IsWalk(p, [], w) && w[0] == nt && t in p.base(w[|w| - 1]);
      FollowWalks(g, w);
      FollowBaseIsDirect(g, w[|w| - 1], t);
      assert ChainFollows(g, w, nt, t);
    }
    if FollowsAfter(g, nt, t) {
      var w :| ChainFollows(g, w, nt, t);
      FollowWalks(g, w);
      FollowBaseIsDirect(g, w[|w| - 1], t);
      assert IsWalk(p, [], w) && w[0] == nt && t in p.base(w[|w| - 1]);
    }
  }

  lemma FollowBaseIsDirect(g: Grammar, m: int, t: int)
    ensures t in FollowProblem(g).base(m) <==> FollowsDirectly(g, m, t)
  {
    assert FollowProblem(g).base(m) == SetsFollowBase(g, g.sets, m);
  }

  /** A symbol in FIRST-or-name of the symbol after the first occurrence of `nt` in a
      rule is in FOLLOW(nt). */
  lemma FollowOfOccurrence(g: Grammar, nt: int, i: nat, k: nat, t: int)
    requires IsNonTerminal(g, nt)
    requires i < |g.sets| && k < |g.sets[i].rules|
    requires FollowsInRule(g, g.sets[i].rules[k].rhs, nt, t)
    ensures t in Follow(g, nt)
  {
    assert FollowsDirectly(g, nt, t);
    assert ChainFollows(g, [nt], nt, t);
    FollowIsFollowsAfter(g, nt, t);
  }

  lemma EndingChainPrepend(g: Grammar, nt: int, w: seq<int>, m: int, t: int)
    requires ChainFollows(g, w, m, t)
    requires IsNonTerminal(g, m) && m in SetsEndingWith(g.sets, nt)
    ensures ChainFollows(g, [nt] + w, nt, t)
  {
    var v := [nt] + w;
    forall i | 2 <= i < |v| ensures IsNonTerminal(g, v[i]) && v[i] in SetsEndingWith(g.sets, v[i - 1]) {
      assert v[i] == w[i - 1] && v[i - 1] == w[i - 2];
    }
    assert v[|v| - 1] == w[|w| - 1];
  }

  /** The whole FOLLOW of a rule set with a rule whose first occurrence of `nt` is its
      last symbol is in FOLLOW(nt). */
  lemma FollowOfEnding(g: Grammar, nt: int, m: int, t: int)
    requires IsNonTerminal(g, nt) && IsNonTerminal(g, m)
    requires m in SetsEndingWith(g.sets, nt)
    requires t in Follow(g, m)
    ensures t in Follow(g, nt)
  {
    FollowIsFollowsAfter(g, m, t);
    FollowsAfterPrepend(g, nt, m, t);
    FollowIsFollowsAfter(g, nt, t);
  }

  lemma FollowsAfterPrepend(g: Grammar, nt: int, m: int, t: int)
    requires IsNonTerminal(g, m) && m in SetsEndingWith(g.sets, nt)
    requires FollowsAfter(g, m, t)
    ensures FollowsAfter(g, nt, t)
  {
    var w :| ChainFollows(g, w, m, t);
    EndingChainPrepend(g, nt, w, m, t);
  }

  /** FOLLOW holds only terminals the grammar mentions. */
  lemma FollowWithinTerminals(g: Grammar, nt: int, stack: seq<int>)
    ensures FollowWith(g, nt, stack) <= Terminals(g)
  {
    forall m, x | x in FollowProblem(g).base(m) ensures x in Terminals(g) {
      var i, k :| 0 <= i < |g.sets| && 0 <= k < |g.sets[i].rules| && FollowsInRule(g, g.sets[i].rules[k].rhs, m, x);
      var rhs := g.sets[i].rules[k].rhs;
      var j := IndexOf(rhs, m) + 1;
      assert rhs[j] in Symbols(g);
      FirstOrNameTerminals(g, rhs[j]);
    }
    GatherWithin(FollowProblem(g), nt, stack, Terminals(g));
  }

  /** Both sets hold terminals only. */
  lemma FirstOrNameTerminals(g: Grammar, x: int)
    requires x in Symbols(g)
    ensures FirstOrName(g, x) <= Terminals(g)
  {
    if IsNonTerminal(g, x) {
      FirstWithinTerminals(g, x, []);
    }
  }
}

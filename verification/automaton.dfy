/** Automaton states (`_state`): the transitions out of a closed item list, the edges
    they produce, the final and non-final items, and the depth-first list of every
    state reachable from the start state (`lr1_automaton::as_type_list`). */
module Automaton {
  import opened Collections
  import opened Grammar
  import opened Analysis
  import opened Items
  import opened Search

  /** Every position marker of the state is valid. */
  predicate ValidItems(s: seq<Item>)
  {
    forall k :: 0 <= k < |s| ==> ValidItem(s[k])
  }

  /** The symbol under the cursor of a non-final item. */
  function Next(it: Item): int
    requires ValidItem(it) && !IsFinal(it)
  {
    it.rule.rhs[it.pos]
  }

  /** `_transition<SyntaxClass, Name, PRW>`: a transition named after the symbol under
      the cursor, to the item advanced past it. */
  datatype Transition = Transition(name: int, item: Item)

  /** Item `it` steps over `x` to `adv`. */
  predicate StepsTo(it: Item, x: int, adv: Item)
  {
    ValidItem(it) && !IsFinal(it) && Next(it) == x && adv == Advance(it)
  }

  /** The transitions of the items, in item order, before removing repetitions. */
  function RawTransitions(s: seq<Item>): (r: seq<Transition>)
    requires ValidItems(s)
    ensures forall t :: t in r <==> exists k :: 0 <= k < |s| && StepsTo(s[k], t.name, t.item)
  {
    if s == [] then []
    else
      var rest := RawTransitions(s[1..]);
      assert forall k :: 1 <= k < |s| ==> s[k] == s[1..][k - 1];
      assert forall k :: 0 <= k < |s[1..]| ==> s[1..][k] == s[k + 1];
      if IsFinal(s[0]) then rest else [Transition(Next(s[0]), Advance(s[0]))] + rest
  }

  /** `_get_transitions<ClosureResultList>::type`: every transition of the state, once. */
  function TransitionList(s: seq<Item>): (r: seq<Transition>)
    requires ValidItems(s)
    ensures NoDup(r)
    ensures forall t :: t in r <==> exists k :: 0 <= k < |s| && StepsTo(s[k], t.name, t.item)
  {
    Dedup(RawTransitions(s))
  }

  function Names(ts: seq<Transition>): (r: seq<int>)
    ensures forall x :: x in r <==> exists t :: t in ts && t.name == x
  {
    if ts == [] then []
    else
      assert forall t :: t in ts <==> t == ts[0] || t in ts[1..];
      [ts[0].name] + Names(ts[1..])
  }

  /** `transition_names`: the symbols some item of the state can step over, each once. */
  function TransitionNames(s: seq<Item>): (r: seq<int>)
    requires ValidItems(s)
    ensures NoDup(r)
    ensures forall x :: x in r <==> exists k :: 0 <= k < |s| && !IsFinal(s[k]) && Next(s[k]) == x
  {
    var ts := TransitionList(s);
    var r := Dedup(Names(ts));
    assert forall x :: x in r ==> exists k :: 0 <= k < |s| && !IsFinal(s[k]) && Next(s[k]) == x by {
      forall x | x in r ensures exists k :: 0 <= k < |s| && !IsFinal(s[k]) && Next(s[k]) == x {
        var t :| t in ts && t.name == x;
        var k :| 0 <= k < |s| && StepsTo(s[k], t.name, t.item);
      }
    }
    assert forall x :: (exists k :: 0 <= k < |s| && !IsFinal(s[k]) && Next(s[k]) == x) ==> x in r by {
      forall x | exists k :: 0 <= k < |s| && !IsFinal(s[k]) && Next(s[k]) == x ensures x in r {
        var k :| 0 <= k < |s| && !IsFinal(s[k]) && Next(s[k]) == x;
        assert StepsTo(s[k], x, Advance(s[k]));
        assert Transition(x, Advance(s[k])) in ts;
      }
    }
    r
  }

  /** The items of the transitions named `x`, in order. */
  function Matching(ts: seq<Transition>, x: int): (r: seq<Item>)
    ensures forall it :: it in r <==> Transition(x, it) in ts
  {
    if ts == [] then []
    else
      assert forall t :: t in ts <==> t == ts[0] || t in ts[1..];
      var rest := Matching(ts[1..], x);
      if ts[0].name == x then [ts[0].item] + rest else rest
  }

  /** `matching_list` in `_transition_list_builder`: the items of the state advanced
      past `x`, each once. */
  function Group(s: seq<Item>, x: int): (r: seq<Item>)
    requires ValidItems(s)
    ensures NoDup(r) && ValidItems(r)
    ensures forall it :: it in r <==> exists k :: 0 <= k < |s| && StepsTo(s[k], x, it)
  {
    var r := Dedup(Matching(TransitionList(s), x));
    assert forall it :: it in r ==> ValidItem(it) by {
      forall it | it in r ensures ValidItem(it) {
        var k :| 0 <= k < |s| && StepsTo(s[k], x, it);
      }
    }
    r
  }

  /** `forward_lookahead` flattened: the union of the items' follow sets, the default
      lookahead of `_closure`. */
  function FollowUnion(items: seq<Item>): (r: set<int>)
    ensures forall t :: t in r <==> exists k :: 0 <= k < |items| && t in items[k].follow
  {
    if items == [] then {}
    else
      var rest := FollowUnion(items[1..]);
      assert forall k :: 1 <= k < |items| ==> items[k] == items[1..][k - 1];
      assert forall k :: 0 <= k < |items[1..]| ==> items[1..][k] == items[k + 1];
      items[0].follow + rest
  }

  /** `_edge<SyntaxClass, Name, State>`. */
  datatype Edge = Edge(name: int, target: seq<Item>)

  /** The state an edge named `x` leads to: the closure of the items advanced past `x`,
      with the union of their follow sets as lookahead. */
  function Goto(g: Grammar, s: seq<Item>, x: int): seq<Item>
    requires ValidItems(s)
  {
    var grp := Group(s, x);
    Closure(g, grp, FollowUnion(grp))
  }

  /** `_state::edges`: one edge per transition name, in name order. */
  function Edges(g: Grammar, s: seq<Item>): (r: seq<Edge>)
    requires ValidItems(s)
    ensures |r| == |TransitionNames(s)|
    ensures forall i :: 0 <= i < |r| ==> r[i].name == TransitionNames(s)[i]
    ensures forall i :: 0 <= i < |r| ==> r[i].target == Goto(g, s, r[i].name)
  {
    var names := TransitionNames(s);
    seq(|names|, i requires 0 <= i < |names| => Edge(names[i], Goto(g, s, names[i])))
  }

  /** The names of the edges of a state are pairwise distinct, and there is an edge
      named `x` exactly when some item of the state can step over `x`. */
  lemma EdgeNames(g: Grammar, s: seq<Item>, x: int)
    requires ValidItems(s)
    ensures forall i, j :: 0 <= i < j < |Edges(g, s)| ==> Edges(g, s)[i].name != Edges(g, s)[j].name
    ensures (exists i :: 0 <= i < |Edges(g, s)| && Edges(g, s)[i].name == x) <==>
            exists k :: 0 <= k < |s| && !IsFinal(s[k]) && Next(s[k]) == x
  {
    var names := TransitionNames(s);
    var es := Edges(g, s);
    forall i, j | 0 <= i < j < |es| ensures es[i].name != es[j].name {
      assert es[i].name == names[i] && es[j].name == names[j];
    }
    if exists k :: 0 <= k < |s| && !IsFinal(s[k]) && Next(s[k]) == x {
      assert x in names;
      var i :| 0 <= i < |names| && names[i] == x;
      assert es[i].name == x;
    }
    if exists i :: 0 <= i < |es| && es[i].name == x {
      var i :| 0 <= i < |es| && es[i].name == x;
      assert names[i] == x;
      assert x in names;
    }
  }

  /** The LR goto: the target of the edge named `x` holds every item of the state
      advanced past `x`; it is closed under expansion of the non-terminal under each
      cursor; and it holds nothing but those advanced items and rules of non-terminals
      at position 0. */
  lemma GotoIsClosed(g: Grammar, s: seq<Item>, x: int)
    requires ValidItems(s)
    ensures var t := Goto(g, s, x);
            && NoDup(t)
            && (forall k :: 0 <= k < |s| && !IsFinal(s[k]) && Next(s[k]) == x ==> Advance(s[k]) in t)
            && (forall it :: it in t ==> (exists k :: 0 <= k < |s| && StepsTo(s[k], x, it)) || GrammarItem(g, it))
            && (forall it :: it in t && AtNonTerminal(g, it) ==>
                  exists l: set<int> :: AllIn(Wrap(g, it.rule.rhs[it.pos], 0, l), t))
  {
    var grp := Group(s, x);
    ClosureIsClosed(g, grp, FollowUnion(grp));
    forall k | 0 <= k < |s| && !IsFinal(s[k]) && Next(s[k]) == x ensures Advance(s[k]) in Goto(g, s, x) {
      assert StepsTo(s[k], x, Advance(s[k]));
      assert Advance(s[k]) in grp;
    }
  }

  /** `_state::final_rules`: the items whose marker is past the end, in order. */
  function FinalRules(s: seq<Item>): (r: seq<Item>)
    ensures forall it :: it in r <==> it in s && IsFinal(it)
  {
    if s == [] then []
    else
      assert forall it :: it in s <==> it == s[0] || it in s[1..];
      if IsFinal(s[0]) then [s[0]] + FinalRules(s[1..]) else FinalRules(s[1..])
  }

  /** `_state::non_final_rules`: the other items, in order. */
  function NonFinalRules(s: seq<Item>): (r: seq<Item>)
    ensures forall it :: it in r <==> it in s && !IsFinal(it)
  {
    if s == [] then []
    else
      assert forall it :: it in s <==> it == s[0] || it in s[1..];
      if IsFinal(s[0]) then NonFinalRules(s[1..]) else [s[0]] + NonFinalRules(s[1..])
  }

  /** The two filters split the state: together they hold each item exactly as often
      as the state does. */
  lemma {:induction false} FinalSplit(s: seq<Item>)
    ensures multiset(FinalRules(s)) + multiset(NonFinalRules(s)) == multiset(s)
  {
    if s != [] {
      FinalSplit(s[1..]);
      assert s == [s[0]] + s[1..];
    }
  }

  // ---- the state space ----

  /** An item the automaton can contain: a rule of a non-terminal, a valid marker, and
      a follow set of grammar symbols. */
  ghost predicate InSpace(g: Grammar, it: Item)
  {
    && IsNonTerminal(g, it.name)
    && it.rule in RulesOf(g, it.name)
    && it.pos <= |it.rule.rhs|
    && it.follow <= Symbols(g)
  }

  ghost function ItemSpace(g: Grammar): set<Item>
  {
    set nt, r, pos: nat, l | nt in NonTerminalSet(g) && r in RulesOf(g, nt) && pos <= |r.rhs| && l <= Symbols(g) :: Item(nt, r, pos, l)
  }

  /** A state: distinct items, all from the item space. */
  ghost predicate StateOk(g: Grammar, s: seq<Item>)
  {
    NoDup(s) && forall k :: 0 <= k < |s| ==> InSpace(g, s[k])
  }

  ghost function StateSpace(g: Grammar): set<seq<Item>>
  {
    SeqsUpTo(ItemSpace(g), |ItemSpace(g)|)
  }

  lemma StateInSpace(g: Grammar, s: seq<Item>)
    requires StateOk(g, s)
    ensures s in StateSpace(g)
  {
    assert Elems(s) <= ItemSpace(g) by {
      forall it | it in Elems(s) ensures it in ItemSpace(g) {
        var k :| 0 <= k < |s| && s[k] == it;
        assert InSpace(g, it);
        assert it.name in NonTerminalSet(g);
      }
    }
    NoDupLength(s, ItemSpace(g));
    InSeqsUpTo(s, ItemSpace(g), |ItemSpace(g)|);
  }

  /** Every right-hand side of a rule of `nt` consists of grammar symbols. */
  lemma RuleSymbols(g: Grammar, nt: int, r: Rule)
    requires r in RulesOf(g, nt)
    ensures forall j :: 0 <= j < |r.rhs| ==> r.rhs[j] in Symbols(g)
  {
    var i := IndexOf(NonTerminals(g), nt);
    var k :| 0 <= k < |g.sets[i].rules| && g.sets[i].rules[k] == r;
  }

  /** The edge targets of a state are states. */
  lemma GotoOk(g: Grammar, s: seq<Item>, x: int)
    requires StateOk(g, s)
    ensures StateOk(g, Goto(g, s, x))
  {
    var grp := Group(s, x);
    var la := FollowUnion(grp);
    GroupSymbols(g, s, x);
    GroupFollow(g, s, x);
    ClosureIsClosed(g, grp, la);
    var t := Goto(g, s, x);
    forall k | 0 <= k < |t| ensures InSpace(g, t[k]) {
      if t[k] in grp {
        GroupInSpace(g, s, x, t[k]);
      }
    }
  }

  lemma GroupSymbols(g: Grammar, s: seq<Item>, x: int)
    requires StateOk(g, s)
    ensures ItemSymbols(Group(s, x)) <= Symbols(g)
  {
    var grp := Group(s, x);
    forall y | y in ItemSymbols(grp) ensures y in Symbols(g) {
      var k, j :| 0 <= k < |grp| && 0 <= j < |grp[k].rule.rhs| && grp[k].rule.rhs[j] == y;
      assert grp[k] in grp;
      var i :| 0 <= i < |s| && StepsTo(s[i], x, grp[k]);
      RuleSymbols(g, s[i].name, s[i].rule);
    }
  }

  lemma GroupFollow(g: Grammar, s: seq<Item>, x: int)
    requires StateOk(g, s)
    ensures FollowUnion(Group(s, x)) <= Symbols(g)
  {
    var grp := Group(s, x);
    forall t | t in FollowUnion(grp) ensures t in Symbols(g) {
      var k :| 0 <= k < |grp| && t in grp[k].follow;
      assert grp[k] in grp;
      var i :| 0 <= i < |s| && StepsTo(s[i], x, grp[k]);
      assert InSpace(g, s[i]);
    }
  }

  lemma GroupInSpace(g: Grammar, s: seq<Item>, x: int, it: Item)
    requires StateOk(g, s)
    requires it in Group(s, x)
    ensures InSpace(g, it)
  {
    var i :| 0 <= i < |s| && StepsTo(s[i], x, it);
    assert InSpace(g, s[i]);
  }

  lemma EdgesOk(g: Grammar, s: seq<Item>)
    requires StateOk(g, s)
    ensures forall i :: 0 <= i < |Edges(g, s)| ==> StateOk(g, Edges(g, s)[i].target)
  {
    forall i | 0 <= i < |Edges(g, s)| ensures StateOk(g, Edges(g, s)[i].target) {
      GotoOk(g, s, Edges(g, s)[i].name);
    }
  }

  // ---- the depth-first state list ----

  /** The edge targets of a state, in edge order (none for an ill-formed item list). */
  function Targets(g: Grammar, s: seq<Item>): (r: seq<seq<Item>>)
    ensures ValidItems(s) ==> |r| == |Edges(g, s)| && forall i :: 0 <= i < |r| ==> r[i] == Edges(g, s)[i].target
  {
    if ValidItems(s) then
      var es := Edges(g, s);
      seq(|es|, i requires 0 <= i < |es| => es[i].target)
    else []
  }

  /** The successor function of the walk over states. */
  function Succ(g: Grammar): seq<Item> -> seq<seq<Item>>
  {
    s => Targets(g, s)
  }

  ghost function IsState(g: Grammar): seq<Item> -> bool
  {
    s => StateOk(g, s)
  }

  /** The walk over states stays in the finite state space. */
  lemma StatesConfined(g: Grammar)
    ensures Confined(Succ(g), IsState(g), StateSpace(g))
  {
    forall s | StateOk(g, s) ensures s in StateSpace(g) {
      StateInSpace(g, s);
    }
    forall s, i | StateOk(g, s) && 0 <= i < |Targets(g, s)| ensures StateOk(g, Targets(g, s)[i]) {
      EdgesOk(g, s);
    }
  }

  /** `grammar_tools::lr1_automaton`: the closure of the start rule's rules, wrapped at
      position 0 with FOLLOW(start) as follow set, under an empty lookahead. */
  function StartState(g: Grammar): (r: seq<Item>)
    requires IsNonTerminal(g, g.start)
    ensures ValidItems(r)
    ensures forall it :: it in Wrap(g, g.start, 0, Follow(g, g.start)) ==> it in r
  {
    var w := Wrap(g, g.start, 0, Follow(g, g.start));
    WrapGrammarItems(g, g.start, Follow(g, g.start));
    var r := Closure(g, w, {});
    ClosureIsClosed(g, w, {});
    assert forall it :: it in r ==> ValidItem(it);
    r
  }

  lemma StartStateOk(g: Grammar)
    requires IsNonTerminal(g, g.start)
    ensures StateOk(g, StartState(g))
  {
    var l := Follow(g, g.start);
    var w := Wrap(g, g.start, 0, l);
    WrapGrammarItems(g, g.start, l);
    FollowWithinTerminals(g, g.start, []);
    assert l <= Symbols(g);
    WrapSymbols(g, g.start, l);
    ClosureIsClosed(g, w, {});
    var r := StartState(g);
    forall k | 0 <= k < |r| ensures InSpace(g, r[k]) {
      assert r[k] in r;
    }
  }

  /** The rules wrapped for a non-terminal mention only symbols of the grammar. */
  lemma WrapSymbols(g: Grammar, nt: int, l: set<int>)
    ensures ItemSymbols(Wrap(g, nt, 0, l)) <= Symbols(g)
  {
    var w := Wrap(g, nt, 0, l);
    WrapGrammarItems(g, nt, l);
    forall y | y in ItemSymbols(w) ensures y in Symbols(g) {
      var k, j :| 0 <= k < |w| && 0 <= j < |w[k].rule.rhs| && w[k].rule.rhs[j] == y;
      assert w[k] in w;
      RuleSymbols(g, nt, w[k].rule);
    }
  }

  /** `_state::as_type_list`, i.e. `parser::automaton_list`: the start state, then every
      state reachable from it, in depth-first discovery order. */
  function Lr1Automaton(g: Grammar): (r: seq<seq<Item>>)
    requires IsNonTerminal(g, g.start)
    ensures NoDup(r)
    ensures forall i :: 0 <= i < |r| ==> StateOk(g, r[i]) && ValidItems(r[i])
  {
    StartStateOk(g);
    StatesConfined(g);
    var r := Visit(Succ(g), IsState(g), StateSpace(g), StartState(g), []);
    ListedStates(g, r);
    r
  }

  lemma ListedStates(g: Grammar, r: seq<seq<Item>>)
    requires ListOk(IsState(g), r)
    ensures NoDup(r)
    ensures forall i :: 0 <= i < |r| ==> StateOk(g, r[i]) && ValidItems(r[i])
  {
    forall i | 0 <= i < |r| ensures StateOk(g, r[i]) && ValidItems(r[i]) {
      assert IsState(g)(r[i]);
      assert forall k :: 0 <= k < |r[i]| ==> InSpace(g, r[i][k]);
    }
  }

  /** Every edge of every state of `a` leads to a state of `a`. */
  ghost predicate EdgesClosed(g: Grammar, a: seq<seq<Item>>)
    requires forall k :: 0 <= k < |a| ==> ValidItems(a[k])
  {
    forall j, i :: 0 <= j < |a| && 0 <= i < |Edges(g, a[j])| ==> Edges(g, a[j])[i].target in a
  }

  /** State `a[j]` is the target of an edge of an earlier state. */
  ghost predicate ReachedByEdge(g: Grammar, a: seq<seq<Item>>, j: nat)
    requires j < |a| && forall k :: 0 <= k < |a| ==> ValidItems(a[k])
  {
    exists i, m :: 0 <= i < j && 0 <= m < |Edges(g, a[i])| && Edges(g, a[i])[m].target == a[j]
  }

  /** The automaton starts with the start state; every edge of every state leads to a
      state of the list; and every state after the first is the target of an edge of
      an earlier state, so the list holds exactly the reachable states. */
  lemma AutomatonShape(g: Grammar)
    requires IsNonTerminal(g, g.start)
    ensures var a := Lr1Automaton(g);
            && |a| >= 1 && a[0] == StartState(g)
            && EdgesClosed(g, a)
            && forall j :: 1 <= j < |a| ==> ReachedByEdge(g, a, j)
  {
    AutomatonWalk(g);
    EdgesIn(g, Lr1Automaton(g));
    EdgesDiscover(g, Lr1Automaton(g));
  }

  lemma AutomatonWalk(g: Grammar)
    requires IsNonTerminal(g, g.start)
    ensures var a := Lr1Automaton(g);
            && |a| >= 1 && a[0] == StartState(g)
            && ClosedFrom(Succ(g), a, 0) && DiscoveredFrom(Succ(g), a, 1)
  {
    StartStateOk(g);
    StatesConfined(g);
    WalkFromRoot(Succ(g), IsState(g), StateSpace(g), StartState(g));
  }

  lemma EdgesIn(g: Grammar, a: seq<seq<Item>>)
    requires forall k :: 0 <= k < |a| ==> ValidItems(a[k])
    requires ClosedFrom(Succ(g), a, 0)
    ensures EdgesClosed(g, a)
  {
    forall j, i | 0 <= j < |a| && 0 <= i < |Edges(g, a[j])| ensures Edges(g, a[j])[i].target in a {
      EdgeTargetIn(g, a, j, i);
    }
  }

  lemma EdgesDiscover(g: Grammar, a: seq<seq<Item>>)
    requires forall k :: 0 <= k < |a| ==> ValidItems(a[k])
    requires DiscoveredFrom(Succ(g), a, 1)
    ensures forall j :: 1 <= j < |a| ==> ReachedByEdge(g, a, j)
  {
    forall j | 1 <= j < |a| ensures ReachedByEdge(g, a, j) {
      assert ReachedBefore(Succ(g), a, j, a[j]);
      DiscoveredByEdge(g, a, j);
    }
  }

  lemma EdgeTargetIn(g: Grammar, a: seq<seq<Item>>, j: nat, i: nat)
    requires j < |a| && ValidItems(a[j]) && SuccsIn(Succ(g), a[j], a)
    requires i < |Edges(g, a[j])|
    ensures Edges(g, a[j])[i].target in a
  {
    assert Succ(g)(a[j])[i] == Edges(g, a[j])[i].target;
  }

  lemma DiscoveredByEdge(g: Grammar, a: seq<seq<Item>>, j: nat)
    requires j < |a| && forall k :: 0 <= k < |a| ==> ValidItems(a[k])
    requires ReachedBefore(Succ(g), a, j, a[j])
    ensures ReachedByEdge(g, a, j)
  {
    var i, m :| 0 <= i < j && 0 <= m < |Succ(g)(a[i])| && Succ(g)(a[i])[m] == a[j];
    assert Edges(g, a[i])[m].target == a[j];
  }

  /** Every edge of every state of the automaton leads to a state of the list. */
  lemma AutomatonClosed(g: Grammar)
    requires IsNonTerminal(g, g.start)
    ensures |Lr1Automaton(g)| >= 1
    ensures forall j :: 0 <= j < |Lr1Automaton(g)| ==>
              forall i :: 0 <= i < |Edges(g, Lr1Automaton(g)[j])| ==> Edges(g, Lr1Automaton(g)[j])[i].target in Lr1Automaton(g)
  {
    AutomatonShape(g);
  }

  /** `get_type_index<State>` in `automaton_list`: the position of a state, -1 if absent. */
  function StateIndex(a: seq<seq<Item>>, s: seq<Item>): (r: int)
    ensures -1 <= r < |a|
    ensures r >= 0 <==> s in a
    ensures r >= 0 ==> a[r] == s
  {
    IndexOf(a, s)
  }
}

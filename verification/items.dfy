/** LR(1) items (`prod_rule_wrapper`) and the closure of a list of items (`_closure`). */
module Items {
  import opened Collections
  import opened Grammar
  import opened Analysis

  /** A production rule of rule set `name` with a position marker and a follow
      (lookahead) set. */
  datatype Item = Item(name: int, rule: Rule, pos: nat, follow: set<int>)

  /** The position marker never passes the end of the rule. */
  predicate ValidItem(it: Item)
  {
    it.pos <= |it.rule.rhs|
  }

  /** `prod_rule_wrapper::is_final`: the marker is past the last symbol. */
  predicate IsFinal(it: Item)
  {
    it.pos == |it.rule.rhs|
  }

  /** The item's cursor is on a non-terminal. */
  predicate AtNonTerminal(g: Grammar, it: Item)
  {
    it.pos < |it.rule.rhs| && IsNonTerminal(g, it.rule.rhs[it.pos])
  }

  /** `prod_rule_wrapper::transition`: the symbol under the cursor, and the same item
      one step further with the same follow set. */
  function Advance(it: Item): (r: Item)
    requires ValidItem(it) && !IsFinal(it)
    ensures ValidItem(r) && r.pos == it.pos + 1
    ensures r.name == it.name && r.rule == it.rule && r.follow == it.follow
  {
    it.(pos := it.pos + 1)
  }

  /** `wrap_non_terminal<NT, Position, FollowSet>`: every rule of NT, in order, at the
      given position with the given follow set. */
  function Wrap(g: Grammar, nt: int, pos: nat, follow: set<int>): (r: seq<Item>)
    ensures |r| == |RulesOf(g, nt)|
    ensures forall k :: 0 <= k < |r| ==> r[k] == Item(nt, RulesOf(g, nt)[k], pos, follow)
  {
    var rules := RulesOf(g, nt);
    seq(|rules|, k requires 0 <= k < |rules| => Item(nt, rules[k], pos, follow))
  }

  /** `_closure::apply_lookahead`: FIRST-or-name of the symbol after the cursor, or the
      closure's lookahead when there is none. */
  function ApplyLookahead(g: Grammar, it: Item, la: set<int>): set<int>
  {
    if it.pos + 1 < |it.rule.rhs| then FirstOrName(g, it.rule.rhs[it.pos + 1]) else la
  }

  /** `ctx_look_ahead`: the union of `apply_lookahead` over the items. */
  function CtxLookahead(g: Grammar, items: seq<Item>, la: set<int>): (r: set<int>)
    ensures forall k :: 0 <= k < |items| ==> ApplyLookahead(g, items[k], la) <= r
    ensures forall t :: t in r ==> exists k :: 0 <= k < |items| && t in ApplyLookahead(g, items[k], la)
  {
    if items == [] then {}
    else
      var rest := CtxLookahead(g, items[1..], la);
      assert forall k :: 1 <= k < |items| ==> items[k] == items[1..][k - 1];
      ApplyLookahead(g, items[0], la) + rest
  }

  /** For each item whose cursor is on a non-terminal, in order, that non-terminal's
      rules wrapped at position 0 with follow set `ctx`. */
  function Expansions(g: Grammar, items: seq<Item>, ctx: set<int>): (r: seq<seq<Item>>)
    ensures forall k :: 0 <= k < |items| && AtNonTerminal(g, items[k]) ==> Wrap(g, items[k].rule.rhs[items[k].pos], 0, ctx) in r
    ensures forall e :: e in r ==> exists nt :: IsNonTerminal(g, nt) && e == Wrap(g, nt, 0, ctx)
  {
    if items == [] then []
    else
      var rest := Expansions(g, items[1..], ctx);
      assert forall k :: 1 <= k < |items| ==> items[k] == items[1..][k - 1];
      if AtNonTerminal(g, items[0]) then [Wrap(g, items[0].rule.rhs[items[0].pos], 0, ctx)] + rest else rest
  }

  /** The elements of `xs` that are not on `stack` (`remove_if<is_in_stack>`). */
  function NotOn<T(==,!new)>(xs: seq<T>, stack: seq<T>): (r: seq<T>)
    ensures forall x :: x in r <==> x in xs && x !in stack
    ensures NoDup(xs) ==> NoDup(r)
  {
    if xs == [] then []
    else
      var rest := NotOn(xs[1..], stack);
      assert forall k :: 1 <= k < |xs| ==> xs[k] == xs[1..][k - 1];
      if xs[0] in stack then rest else [xs[0]] + rest
  }

  /** `nonterminal_list`: the distinct expansions not already on the stack. */
  function FreshGroups(g: Grammar, items: seq<Item>, ctx: set<int>, stack: seq<seq<Item>>): (r: seq<seq<Item>>)
    ensures NoDup(r)
    ensures forall e :: e in r <==> e in Expansions(g, items, ctx) && e !in stack
  {
    NotOn(Dedup(Expansions(g, items, ctx)), stack)
  }

  // ---- termination measure ----

  /** Every expansion the closure can ever push, given that all follow sets lie in `u`. */
  ghost function Pool(g: Grammar, u: set<int>): set<seq<Item>>
  {
    set nt, l: set<int> | nt in NonTerminalSet(g) && l <= u :: Wrap(g, nt, 0, l)
  }

  ghost function Pending(g: Grammar, u: set<int>, stack: seq<seq<Item>>): nat
  {
    |Pool(g, u) - Elems(stack)|
  }

  /** The symbols of the items' rules and the lookahead lie in `u`, which covers the
      grammar; every position marker is valid. */
  ghost predicate Bounded(g: Grammar, items: seq<Item>, la: set<int>, u: set<int>)
  {
    && Symbols(g) <= u
    && la <= u
    && (forall k :: 0 <= k < |items| ==> ValidItem(items[k]))
    && (forall k, j :: 0 <= k < |items| && 0 <= j < |items[k].rule.rhs| ==> items[k].rule.rhs[j] in u)
  }

  lemma CtxWithin(g: Grammar, items: seq<Item>, la: set<int>, u: set<int>)
    requires Bounded(g, items, la, u)
    ensures CtxLookahead(g, items, la) <= u
  {
    forall k | 0 <= k < |items| ensures ApplyLookahead(g, items[k], la) <= u {
      ApplyWithin(g, items[k], la, u);
    }
  }

  lemma ApplyWithin(g: Grammar, it: Item, la: set<int>, u: set<int>)
    requires Symbols(g) <= u && la <= u
    requires forall j :: 0 <= j < |it.rule.rhs| ==> it.rule.rhs[j] in u
    ensures ApplyLookahead(g, it, la) <= u
  {
    if it.pos + 1 < |it.rule.rhs| {
      var x := it.rule.rhs[it.pos + 1];
      if IsNonTerminal(g, x) {
        FirstWithinTerminals(g, x, []);
        assert Terminals(g) <= Symbols(g);
      }
    }
  }

  lemma WrapBounded(g: Grammar, nt: int, l: set<int>, la: set<int>, u: set<int>)
    requires Symbols(g) <= u && la <= u
    ensures Bounded(g, Wrap(g, nt, 0, l), la, u)
  {
    var w := Wrap(g, nt, 0, l);
    forall k, j | 0 <= k < |w| && 0 <= j < |w[k].rule.rhs| ensures w[k].rule.rhs[j] in u {
      var i := IndexOf(NonTerminals(g), nt);
      assert w[k].rule == g.sets[i].rules[k];
      assert g.sets[i].rules[k].rhs[j] in Symbols(g);
    }
  }

  lemma InPool(g: Grammar, u: set<int>, nt: int, l: set<int>)
    requires IsNonTerminal(g, nt) && l <= u
    ensures Wrap(g, nt, 0, l) in Pool(g, u)
  {
    assert nt in NonTerminalSet(g);
  }

  /** Pushing fresh groups from the pool shrinks what is pending. */
  lemma PushGroups(g: Grammar, items: seq<Item>, la: set<int>, stack: seq<seq<Item>>, u: set<int>)
    requires Bounded(g, items, la, u)
    requires |FreshGroups(g, items, CtxLookahead(g, items, la), stack)| > 0
    ensures var groups := FreshGroups(g, items, CtxLookahead(g, items, la), stack);
            Pending(g, u, stack + groups) < Pending(g, u, stack)
  {
    var ctx := CtxLookahead(g, items, la);
    var groups := FreshGroups(g, items, ctx, stack);
    CtxWithin(g, items, la, u);
    var e := groups[0];
    assert e in groups;
    assert e in Expansions(g, items, ctx) && e !in stack;
    var nt :| IsNonTerminal(g, nt) && e == Wrap(g, nt, 0, ctx);
    InPool(g, u, nt, ctx);
    ElemsConcat(stack, groups);
    PoolShrinks(Pool(g, u), Elems(stack), Elems(groups), e);
  }

  // ---- the closure ----

  /** `_closure<SyntaxClass, PRWList, LookAhead, Stack>::list`: the input items, then the
      closures of the fresh groups (each with its own context lookahead and the grown
      stack), without repetition. `u` is a bound on every symbol involved; it only
      serves the termination argument. */
  function ClosureWith(g: Grammar, items: seq<Item>, la: set<int>, stack: seq<seq<Item>>, ghost u: set<int>): (r: seq<Item>)
    requires Bounded(g, items, la, u)
    ensures NoDup(r)
    ensures forall k :: 0 <= k < |items| ==> items[k] in r
    decreases Pending(g, u, stack), 0, 0
  {
    var ctx := CtxLookahead(g, items, la);
    var groups := FreshGroups(g, items, ctx, stack);
    if |groups| == 0 then Dedup(items)
    else
      PushGroups(g, items, la, stack, u);
      CtxWithin(g, items, la, u);
      Dedup(items + ClosureGroups(g, groups, 0, la, stack + groups, u))
  }

  /** The closures of `groups[k..]`, concatenated. */
  function ClosureGroups(g: Grammar, groups: seq<seq<Item>>, k: nat, la: set<int>, stack: seq<seq<Item>>, ghost u: set<int>): (r: seq<Item>)
    requires k <= |groups|
    requires Symbols(g) <= u && la <= u
    requires forall e :: e in groups ==> exists nt, l :: l <= u && e == Wrap(g, nt, 0, l)
    decreases Pending(g, u, stack), 1, |groups| - k
  {
    if k == |groups| then []
    else
      var e := groups[k];
      assert e in groups;
      var nt, l :| e == Wrap(g, nt, 0, l);
      WrapBounded(g, nt, l, la, u);
      CtxWithin(g, e, la, u);
      WrapBounded(g, nt, l, CtxLookahead(g, e, la), u);
      ClosureWith(g, e, CtxLookahead(g, e, la), stack, u) + ClosureGroups(g, groups, k + 1, la, stack, u)
  }

  // ---- what the closure computes ----

  /** An item the closure adds: a rule of non-terminal `name` with the marker at 0. */
  ghost predicate GrammarItem(g: Grammar, it: Item)
  {
    it.pos == 0 && IsNonTerminal(g, it.name) && it.rule in RulesOf(g, it.name)
  }

  /** Every item of `a` is in `b`. */
  ghost predicate AllIn(a: seq<Item>, b: seq<Item>)
  {
    forall y :: y in a ==> y in b
  }

  /** The rules of `x`, for some follow set, are all in `r`, or are already being
      expanded by an enclosing closure (they are on the stack). */
  ghost predicate Covered(g: Grammar, x: int, r: seq<Item>, stack: seq<seq<Item>>)
  {
    exists l: set<int> :: Wrap(g, x, 0, l) in stack || AllIn(Wrap(g, x, 0, l), r)
  }

  /** Every item of `r` whose cursor is on a non-terminal has that non-terminal covered. */
  ghost predicate ClosedUnder(g: Grammar, r: seq<Item>, stack: seq<seq<Item>>)
  {
    forall it :: it in r && AtNonTerminal(g, it) ==> Covered(g, it.rule.rhs[it.pos], r, stack)
  }

  lemma CoveredGrows(g: Grammar, x: int, r: seq<Item>, r2: seq<Item>, stack: seq<seq<Item>>, groups: seq<seq<Item>>)
    requires Covered(g, x, r, stack + groups)
    requires AllIn(r, r2)
    requires forall e :: e in groups ==> AllIn(e, r2)
    ensures Covered(g, x, r2, stack)
  {
    var l: set<int> :| Wrap(g, x, 0, l) in stack + groups || AllIn(Wrap(g, x, 0, l), r);
    if Wrap(g, x, 0, l) in groups {
      assert AllIn(Wrap(g, x, 0, l), r2);
    } else if Wrap(g, x, 0, l) !in stack {
      assert AllIn(Wrap(g, x, 0, l), r2);
    }
  }

  /** Soundness and closedness of `_closure`: it adds nothing but rules of non-terminals
      at position 0, and every non-terminal under a cursor gets all its rules added
      (unless an enclosing closure is expanding them). The input items' expansions
      carry the context lookahead. */
  lemma {:induction false} ClosureProps(g: Grammar, items: seq<Item>, la: set<int>, stack: seq<seq<Item>>, u: set<int>)
    requires Bounded(g, items, la, u)
    ensures var r := ClosureWith(g, items, la, stack, u);
            && (forall it :: it in r ==> it in items || (GrammarItem(g, it) && it.follow <= u))
            && ClosedUnder(g, r, stack)
            && forall k :: 0 <= k < |items| && AtNonTerminal(g, items[k]) ==>
                 var e := Wrap(g, items[k].rule.rhs[items[k].pos], 0, CtxLookahead(g, items, la));
                 e in stack || AllIn(e, r)
    decreases Pending(g, u, stack), 0, 0
  {
    var r := ClosureWith(g, items, la, stack, u);
    var ctx := CtxLookahead(g, items, la);
    var groups := FreshGroups(g, items, ctx, stack);
    if |groups| == 0 {
      forall k | 0 <= k < |items| && AtNonTerminal(g, items[k])
        ensures Wrap(g, items[k].rule.rhs[items[k].pos], 0, ctx) in stack
      {
        assert Wrap(g, items[k].rule.rhs[items[k].pos], 0, ctx) in Expansions(g, items, ctx);
      }
      forall it | it in r && AtNonTerminal(g, it) ensures Covered(g, it.rule.rhs[it.pos], r, stack) {
        var k :| 0 <= k < |items| && items[k] == it;
        assert Wrap(g, it.rule.rhs[it.pos], 0, ctx) in stack;
      }
    } else {
      PushGroups(g, items, la, stack, u);
      CtxWithin(g, items, la, u);
      GroupsWrapped(g, items, ctx, stack, u);
      var cg := ClosureGroups(g, groups, 0, la, stack + groups, u);
      ClosureGroupsProps(g, groups, 0, la, stack + groups, u);
      assert r == Dedup(items + cg);
      assert forall it :: it in r ==> it in items || it in cg;
      assert AllIn(cg, r);
      forall e | e in groups ensures AllIn(e, r) {
        var j :| 0 <= j < |groups| && groups[j] == e;
      }
      forall k | 0 <= k < |items| && AtNonTerminal(g, items[k])
        ensures var e := Wrap(g, items[k].rule.rhs[items[k].pos], 0, ctx); e in stack || AllIn(e, r)
      {
        var e := Wrap(g, items[k].rule.rhs[items[k].pos], 0, ctx);
        assert e in Expansions(g, items, ctx);
        if e !in stack {
          assert e in groups;
        }
      }
      forall it | it in r && AtNonTerminal(g, it) ensures Covered(g, it.rule.rhs[it.pos], r, stack) {
        if it in items {
          var k :| 0 <= k < |items| && items[k] == it;
          var e := Wrap(g, it.rule.rhs[it.pos], 0, ctx);
          assert e in stack || AllIn(e, r);
        } else {
          assert it in cg;
          CoveredGrows(g, it.rule.rhs[it.pos], cg, r, stack, groups);
        }
      }
    }
  }

  lemma GroupsWrapped(g: Grammar, items: seq<Item>, ctx: set<int>, stack: seq<seq<Item>>, u: set<int>)
    requires ctx <= u
    ensures forall e :: e in FreshGroups(g, items, ctx, stack) ==> exists nt, l :: l <= u && e == Wrap(g, nt, 0, l)
  {
    forall e | e in FreshGroups(g, items, ctx, stack) ensures exists nt, l :: l <= u && e == Wrap(g, nt, 0, l) {
      assert e in Expansions(g, items, ctx);
      var nt :| IsNonTerminal(g, nt) && e == Wrap(g, nt, 0, ctx);
    }
  }

  lemma CoveredMono(g: Grammar, x: int, r: seq<Item>, r2: seq<Item>, stack: seq<seq<Item>>)
    requires Covered(g, x, r, stack)
    requires AllIn(r, r2)
    ensures Covered(g, x, r2, stack)
  {
    var l: set<int> :| Wrap(g, x, 0, l) in stack || AllIn(Wrap(g, x, 0, l), r);
  }

  lemma ClosedUnderAppend(g: Grammar, a: seq<Item>, b: seq<Item>, stack: seq<seq<Item>>)
    requires ClosedUnder(g, a, stack) && ClosedUnder(g, b, stack)
    ensures ClosedUnder(g, a + b, stack)
  {
    forall it | it in a + b && AtNonTerminal(g, it) ensures Covered(g, it.rule.rhs[it.pos], a + b, stack) {
      if it in a {
        CoveredMono(g, it.rule.rhs[it.pos], a, a + b, stack);
      } else {
        CoveredMono(g, it.rule.rhs[it.pos], b, a + b, stack);
      }
    }
  }

  lemma WrapGrammarItems(g: Grammar, nt: int, l: set<int>)
    ensures forall it :: it in Wrap(g, nt, 0, l) ==> GrammarItem(g, it) && it.follow == l
  {
    forall it | it in Wrap(g, nt, 0, l) ensures GrammarItem(g, it) && it.follow == l {
      var i :| 0 <= i < |Wrap(g, nt, 0, l)| && Wrap(g, nt, 0, l)[i] == it;
      assert it.rule == RulesOf(g, nt)[i];
    }
  }

  /** Every item of `r` is a rule of a non-terminal at position 0, with a follow set in `u`. */
  ghost predicate AddedItems(g: Grammar, r: seq<Item>, u: set<int>)
  {
    forall it :: it in r ==> GrammarItem(g, it) && it.follow <= u
  }

  lemma {:induction false} ClosureGroupsProps(g: Grammar, groups: seq<seq<Item>>, k: nat, la: set<int>, stack: seq<seq<Item>>, u: set<int>)
    requires k <= |groups|
    requires Symbols(g) <= u && la <= u
    requires forall e :: e in groups ==> exists nt, l :: l <= u && e == Wrap(g, nt, 0, l)
    ensures var r := ClosureGroups(g, groups, k, la, stack, u);
            && AddedItems(g, r, u)
            && ClosedUnder(g, r, stack)
            && forall j :: k <= j < |groups| ==> AllIn(groups[j], r)
    decreases Pending(g, u, stack), 1, |groups| - k
  {
    if k < |groups| {
      var e := groups[k];
      var la2 := CtxLookahead(g, e, la);
      GroupReady(g, groups, k, la, u);
      var c := ClosureWith(g, e, la2, stack, u);
      GroupProps(g, e, la, stack, u);
      ClosureGroupsProps(g, groups, k + 1, la, stack, u);
      var rest := ClosureGroups(g, groups, k + 1, la, stack, u);
      var r := ClosureGroups(g, groups, k, la, stack, u);
      assert r == c + rest;
      AddedAppend(g, c, rest, stack, u);
      forall j | k <= j < |groups| ensures AllIn(groups[j], r) {
        if j == k {
          assert AllIn(e, c);
        } else {
          assert AllIn(groups[j], rest);
        }
      }
    }
  }

  lemma AddedAppend(g: Grammar, a: seq<Item>, b: seq<Item>, stack: seq<seq<Item>>, u: set<int>)
    requires AddedItems(g, a, u) && AddedItems(g, b, u)
    requires ClosedUnder(g, a, stack) && ClosedUnder(g, b, stack)
    ensures AddedItems(g, a + b, u) && ClosedUnder(g, a + b, stack)
    ensures AllIn(a, a + b) && AllIn(b, a + b)
  {
    ClosedUnderAppend(g, a, b, stack);
  }

  lemma GroupReady(g: Grammar, groups: seq<seq<Item>>, k: nat, la: set<int>, u: set<int>)
    requires k < |groups|
    requires Symbols(g) <= u && la <= u
    requires forall e :: e in groups ==> exists nt, l :: l <= u && e == Wrap(g, nt, 0, l)
    ensures Bounded(g, groups[k], la, u)
    ensures Bounded(g, groups[k], CtxLookahead(g, groups[k], la), u)
    ensures AddedItems(g, groups[k], u)
  {
    var e := groups[k];
    assert e in groups;
    var nt, l :| l <= u && e == Wrap(g, nt, 0, l);
    WrapBounded(g, nt, l, la, u);
    CtxWithin(g, e, la, u);
    WrapBounded(g, nt, l, CtxLookahead(g, e, la), u);
    WrapGrammarItems(g, nt, l);
  }

  /** The closure of one pushed group under its own context lookahead. */
  lemma {:induction false} GroupProps(g: Grammar, e: seq<Item>, la: set<int>, stack: seq<seq<Item>>, u: set<int>)
    requires Bounded(g, e, CtxLookahead(g, e, la), u)
    requires AddedItems(g, e, u)
    ensures var c := ClosureWith(g, e, CtxLookahead(g, e, la), stack, u);
            AddedItems(g, c, u) && ClosedUnder(g, c, stack) && AllIn(e, c)
    decreases Pending(g, u, stack), 1, 0
  {
    var la2 := CtxLookahead(g, e, la);
    var c := ClosureWith(g, e, la2, stack, u);
    ClosureProps(g, e, la2, stack, u);
    forall y | y in e ensures y in c {
      var i :| 0 <= i < |e| && e[i] == y;
    }
  }

  // ---- the closure entry points ----

  /** All symbols of the items' rules. */
  function ItemSymbols(items: seq<Item>): set<int>
  {
    set k, j | 0 <= k < |items| && 0 <= j < |items[k].rule.rhs| :: items[k].rule.rhs[j]
  }

  /** `_closure<SyntaxClass, PRWList, LookAhead>` with an empty stack. */
  function Closure(g: Grammar, items: seq<Item>, la: set<int>): (r: seq<Item>)
    requires forall k :: 0 <= k < |items| ==> ValidItem(items[k])
    ensures NoDup(r)
    ensures forall k :: 0 <= k < |items| ==> items[k] in r
  {
    ClosureWith(g, items, la, [], Symbols(g) + la + ItemSymbols(items))
  }

  /** The closure is closed: every item with its cursor on a non-terminal has all the
      rules of that non-terminal, at position 0, in the closure. Items with the cursor
      on a symbol of the input carry the input's context lookahead. Nothing else is added. */
  lemma ClosureIsClosed(g: Grammar, items: seq<Item>, la: set<int>)
    requires forall k :: 0 <= k < |items| ==> ValidItem(items[k])
    ensures var r := Closure(g, items, la);
            && (forall it :: it in r ==>
                  (it in items || (GrammarItem(g, it) && it.follow <= Symbols(g) + la + ItemSymbols(items))))
            && (forall it :: it in r && AtNonTerminal(g, it) ==>
                  exists l: set<int> :: AllIn(Wrap(g, it.rule.rhs[it.pos], 0, l), r))
            && forall k :: 0 <= k < |items| && AtNonTerminal(g, items[k]) ==>
                 AllIn(Wrap(g, items[k].rule.rhs[items[k].pos], 0, CtxLookahead(g, items, la)), r)
  {
    var u := Symbols(g) + la + ItemSymbols(items);
    ClosureProps(g, items, la, [], u);
    var r := Closure(g, items, la);
    forall it | it in r && AtNonTerminal(g, it) ensures exists l: set<int> :: AllIn(Wrap(g, it.rule.rhs[it.pos], 0, l), r) {
      assert Covered(g, it.rule.rhs[it.pos], r, []);
    }
  }
}

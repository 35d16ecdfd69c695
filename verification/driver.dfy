/** `parser_state<SyntaxClass, State>` and `parser::parse_string`: the recursive LR
    driver. Each automaton state tries its final items as reductions, otherwise
    shifts along the edge named by the current token and recurses into the target;
    a state that gets its own index back from a reduction below it follows the edge
    named by the new top of the stack (a goto), or shifts again.

    Recursion depth is bounded by `fuel`. Outcomes:
    - Returned: the state returned a value (a state index, or -1 when no edge applied);
    - Fault: the source's behaviour is undefined (top of an empty stack, a push past
      the capacity, a reduction below the bottom, an attribute that cannot take the
      popped values) or never finishes (a skip loop that makes no progress);
    - OutOfFuel: the fuel ran out. */
module Driver {
  import opened Collections
  import opened Tokens
  import opened Attributes
  import opened Grammar
  import opened Analysis
  import opened Items
  import opened Automaton
  import opened LexicalSyntax
  import opened Lexer
  import opened ParseStack

  /** An edge of the state table: its name and the index of its target state. */
  datatype Link = Link(name: int, target: nat)

  /** A row of the state table: the state's final items and its edges. */
  datatype Row = Row(finals: seq<Item>, links: seq<Link>)

  /** Every edge of the table leads to a row of the table. */
  predicate TableOk(t: seq<Row>)
  {
    forall i, k :: 0 <= i < |t| && 0 <= k < |t[i].links| ==> t[i].links[k].target < |t|
  }

  /** Every edge of state `s` leads to a state of `a`. */
  ghost predicate EdgesInto(g: Grammar, s: seq<Item>, a: seq<seq<Item>>)
  {
    ValidItems(s) && forall i :: 0 <= i < |Edges(g, s)| ==> Edges(g, s)[i].target in a
  }

  function LinksOf(g: Grammar, a: seq<seq<Item>>, s: seq<Item>): (r: seq<Link>)
    requires EdgesInto(g, s, a)
    ensures |r| == |Edges(g, s)|
    ensures forall i :: 0 <= i < |r| ==> r[i].name == Edges(g, s)[i].name
    ensures forall i :: 0 <= i < |r| ==> r[i].target < |a| && a[r[i].target] == Edges(g, s)[i].target
  {
    var es := Edges(g, s);
    seq(|es|, i requires 0 <= i < |es| => Link(es[i].name, StateIndex(a, es[i].target) as nat))
  }

  /** Row `row` stands for state `a[i]`: the state's final items, and one link per edge
      with the same name, leading to the index of the edge's target. */
  ghost predicate RowOf(g: Grammar, a: seq<seq<Item>>, i: nat, row: Row)
  {
    && i < |a| && ValidItems(a[i])
    && row.finals == FinalRules(a[i])
    && |row.links| == |Edges(g, a[i])|
    && forall k :: 0 <= k < |row.links| ==>
         row.links[k].name == Edges(g, a[i])[k].name
         && row.links[k].target < |a| && a[row.links[k].target] == Edges(g, a[i])[k].target
  }

  function RowFor(g: Grammar, a: seq<seq<Item>>, i: nat): (row: Row)
    requires i < |a| && EdgesInto(g, a[i], a)
    ensures RowOf(g, a, i, row)
    ensures forall k :: 0 <= k < |row.links| ==> row.links[k].target < |a|
  {
    Row(FinalRules(a[i]), LinksOf(g, a, a[i]))
  }

  /** The state table of a list of states closed under edges. */
  function TableOf(g: Grammar, a: seq<seq<Item>>): (t: seq<Row>)
    requires forall i :: 0 <= i < |a| ==> EdgesInto(g, a[i], a)
    ensures |t| == |a| && TableOk(t)
    ensures forall i :: 0 <= i < |t| ==> RowOf(g, a, i, t[i])
  {
    seq(|a|, i requires 0 <= i < |a| => RowFor(g, a, i))
  }

  /** The automaton as the driver walks it: row `i` is `automaton_list[i]`, with its
      `final_rules` and its edges resolved to state indices. */
  function Tabulate(g: Grammar): (t: seq<Row>)
    requires IsNonTerminal(g, g.start)
    ensures TableOk(t)
    ensures |t| == |Lr1Automaton(g)| && |t| >= 1
    ensures forall i :: 0 <= i < |t| ==> RowOf(g, Lr1Automaton(g), i, t[i])
  {
    AutomatonEdgesInto(g);
    TableOf(g, Lr1Automaton(g))
  }

  lemma AutomatonEdgesInto(g: Grammar)
    requires IsNonTerminal(g, g.start)
    ensures |Lr1Automaton(g)| >= 1
    ensures forall i :: 0 <= i < |Lr1Automaton(g)| ==> EdgesInto(g, Lr1Automaton(g)[i], Lr1Automaton(g))
  {
    var a := Lr1Automaton(g);
    AutomatonClosed(g);
    forall i | 0 <= i < |a| ensures EdgesInto(g, a[i], a) {
      assert ValidItems(a[i]);
    }
  }

  /** Everything the driver runs against: the state table, the caller's attribute
      functions, and the lexer. */
  datatype Parser = Parser(table: seq<Row>, host: ActionHost, lex: LexConfig, lexHost: LexHost)

  predicate ParserOk(p: Parser)
  {
    TableOk(p.table)
  }

  /** A stack the driver can meet: its capacity is the number of states
      (`automaton_list::size`), and every saved state index names a state. */
  predicate StackOk(p: Parser, st: Stack)
  {
    Capacity(st) == |p.table| && forall i :: 0 <= i < Capacity(st) ==> 0 <= st.states[i] < |p.table|
  }

  /** The driver's state between steps: the returned value, the stack and the lexemes. */
  datatype Run = Run(ret: int, stack: Stack, ll: LexemList)

  datatype Outcome = Returned(run: Run) | Fault | OutOfFuel

  /** What a run hands back: a state index, or -1. */
  predicate RunOk(p: Parser, r: Run)
  {
    StackOk(p, r.stack) && -1 <= r.ret < |p.table|
  }

  predicate OutcomeOk(p: Parser, o: Outcome)
  {
    o.Returned? ==> RunOk(p, o.run)
  }

  datatype Reduction = NoMatch | Reduced(ret: int, stack: Stack) | Broken

  /** `production_rule_matcher<final_rules>::test`: reduce by the first final item
      whose rule matches the stack and the current token. */
  function TryFinals(p: Parser, finals: seq<Item>, k: nat, st: Stack, ll: LexemList): (r: Reduction)
    requires k <= |finals|
    requires StackOk(p, st)
    ensures r.Reduced? ==> StackOk(p, r.stack) && 0 <= r.ret < |p.table|
    decreases |finals| - k
  {
    if k == |finals| then NoMatch
    else
      var it := finals[k];
      if MatchesRule(st, it.rule.rhs, it.follow, ll) then
        match CallPopPush(st, it.name, it.rule.action, p.host)
        case None => Broken
        case Some((ret, st2)) => Reduced(ret, st2)
      else TryFinals(p, finals, k + 1, st, ll)
  }

  /** `finals[j]` is the first final item from `k` on whose rule matches. */
  ghost predicate FirstMatchAt(finals: seq<Item>, k: nat, j: int, st: Stack, ll: LexemList)
  {
    && k <= j < |finals| && MatchesRule(st, finals[j].rule.rhs, finals[j].follow, ll)
    && forall i :: k <= i < j ==> !MatchesRule(st, finals[i].rule.rhs, finals[i].follow, ll)
  }

  /** Reducing by `it` gives `r`: a reduction when the attribute can be called, broken
      otherwise. */
  ghost predicate ReducesBy(p: Parser, it: Item, st: Stack, r: Reduction)
  {
    && (r.Reduced? <==> CallPopPush(st, it.name, it.rule.action, p.host).Some?)
    && (r.Reduced? ==> CallPopPush(st, it.name, it.rule.action, p.host) == Some((r.ret, r.stack)))
  }

  /** No final item matches exactly when the matcher finds none; otherwise the first
      matching one, and only it, is reduced by. */
  lemma {:induction false} TryFinalsPicksFirst(p: Parser, finals: seq<Item>, k: nat, st: Stack, ll: LexemList)
    requires k <= |finals|
    requires StackOk(p, st)
    ensures var r := TryFinals(p, finals, k, st, ll);
            && (r.NoMatch? <==> forall j :: k <= j < |finals| ==> !MatchesRule(st, finals[j].rule.rhs, finals[j].follow, ll))
            && (!r.NoMatch? ==> exists j :: FirstMatchAt(finals, k, j, st, ll) && ReducesBy(p, finals[j], st, r))
    decreases |finals| - k
  {
    if k < |finals| {
      var r := TryFinals(p, finals, k, st, ll);
      if MatchesRule(st, finals[k].rule.rhs, finals[k].follow, ll) {
        assert FirstMatchAt(finals, k, k, st, ll) && ReducesBy(p, finals[k], st, r);
      } else {
        TryFinalsPicksFirst(p, finals, k + 1, st, ll);
        assert r == TryFinals(p, finals, k + 1, st, ll);
        if !r.NoMatch? {
          var j :| FirstMatchAt(finals, k + 1, j, st, ll) && ReducesBy(p, finals[j], st, r);
          assert FirstMatchAt(finals, k, j, st, ll);
        }
      }
    }
  }

  /** `parser_state<State>::rec_parse`. */
  function RecParse(p: Parser, fuel: nat, si: nat, st: Stack, ll: LexemList): (o: Outcome)
    requires ParserOk(p) && si < |p.table| && StackOk(p, st)
    ensures OutcomeOk(p, o)
    decreases fuel, 0, 0
  {
    if fuel == 0 then OutOfFuel
    else
      var row := p.table[si];
      var fin := if |row.finals| > 0 then TryFinals(p, row.finals, 0, st, ll) else NoMatch;
      match fin
      case Broken => Fault
      case Reduced(ret, st2) => Returned(Run(ret, st2, ll))
      case NoMatch =>
        match OnEdge(p, fuel - 1, si, 0, false, st, ll, ll.token.kind)
        case Returned(run) => Loop(p, fuel - 1, si, run)
        case o => o
  }

  /** `on_edge<edges, IsPost>::forward`: follow the first edge named `ty`; unless this is
      a goto (`post`), first push the current token with the current state index and
      advance the lexemes. No edge named `ty` returns -1. */
  function OnEdge(p: Parser, fuel: nat, si: nat, k: nat, post: bool, st: Stack, ll: LexemList, ty: int): (o: Outcome)
    requires ParserOk(p) && si < |p.table| && k <= |p.table[si].links| && StackOk(p, st)
    ensures OutcomeOk(p, o)
    decreases fuel, 1, |p.table[si].links| - k
  {
    var links := p.table[si].links;
    if k == |links| then Returned(Run(-1, st, ll))
    else if links[k].name != ty then OnEdge(p, fuel, si, k + 1, post, st, ll, ty)
    else if post then RecParse(p, fuel, links[k].target, st, ll)
    else
      match Push(st, ll.token.kind, si, Tok(ll.token))
      case None => Fault
      case Some(st2) =>
        match GetNext(p.lex, p.lexHost, ll)
        case None => Fault
        case Some(ll2) => RecParse(p, fuel, links[k].target, st2, ll2)
  }

  /** The `while (forward_ret == state_index)` loop of `rec_parse`: a reduction brought
      the stack back to this state, so follow the edge named by the new top (a goto);
      when there is none, shift the current token instead. */
  function Loop(p: Parser, fuel: nat, si: nat, run: Run): (o: Outcome)
    requires ParserOk(p) && si < |p.table| && RunOk(p, run)
    ensures OutcomeOk(p, o)
    ensures run.ret != si ==> o == Returned(run)
    decreases fuel, 0, 0
  {
    if run.ret != si then Returned(run)
    else if fuel == 0 then OutOfFuel
    else
      match TopType(run.stack)
      case None => Fault
      case Some(top) =>
        match OnEdge(p, fuel - 1, si, 0, true, run.stack, run.ll, top)
        case Returned(r2) =>
          if r2.ret == -1 then
            match OnEdge(p, fuel - 1, si, 0, false, r2.stack, r2.ll, r2.ll.token.kind)
            case Returned(r3) => Loop(p, fuel - 1, si, r3)
            case o => o
          else Loop(p, fuel - 1, si, r2)
        case o => o
  }

  /** A state reduces before it shifts: when one of its final items matches, the state
      returns the reduction's state index at once, consuming no input. */
  lemma ReduceBeforeShift(p: Parser, fuel: nat, si: nat, st: Stack, ll: LexemList)
    requires ParserOk(p) && si < |p.table| && StackOk(p, st)
    requires fuel > 0
    requires TryFinals(p, p.table[si].finals, 0, st, ll).Reduced?
    ensures var r := TryFinals(p, p.table[si].finals, 0, st, ll);
            RecParse(p, fuel, si, st, ll) == Returned(Run(r.ret, r.stack, ll))
  {
  }

  /** Edge `j` is the first edge of state `si` from `k` on named `ty`. */
  predicate FirstEdgeAt(p: Parser, si: nat, k: nat, j: nat, ty: int)
    requires ParserOk(p) && si < |p.table|
  {
    var links := p.table[si].links;
    k <= j < |links| && links[j].name == ty && forall i :: k <= i < j ==> links[i].name != ty
  }

  /** `on_edge` follows the first edge named `ty`: a goto enters its target with the
      same stack and lexemes; a shift first pushes the current token's type, the
      current state index and the token, and moves to the next lexeme. */
  lemma {:induction false} OnEdgeFollowsFirst(p: Parser, fuel: nat, si: nat, k: nat, post: bool, st: Stack, ll: LexemList, ty: int, j: nat)
    requires ParserOk(p) && si < |p.table| && k <= |p.table[si].links| && StackOk(p, st)
    requires FirstEdgeAt(p, si, k, j, ty)
    ensures var target := p.table[si].links[j].target;
            OnEdge(p, fuel, si, k, post, st, ll, ty) ==
              if post then RecParse(p, fuel, target, st, ll)
              else match Push(st, ll.token.kind, si, Tok(ll.token))
                   case None => Fault
                   case Some(st2) =>
                     match GetNext(p.lex, p.lexHost, ll)
                     case None => Fault
                     case Some(ll2) => RecParse(p, fuel, target, st2, ll2)
    decreases j - k
  {
    if k < j {
      OnEdgeFollowsFirst(p, fuel, si, k + 1, post, st, ll, ty, j);
    }
  }

  /** With no edge named `ty` from `k` on, `on_edge` returns -1 and changes nothing. */
  lemma {:induction false} OnEdgeNone(p: Parser, fuel: nat, si: nat, k: nat, post: bool, st: Stack, ll: LexemList, ty: int)
    requires ParserOk(p) && si < |p.table| && k <= |p.table[si].links| && StackOk(p, st)
    requires forall i :: k <= i < |p.table[si].links| ==> p.table[si].links[i].name != ty
    ensures OnEdge(p, fuel, si, k, post, st, ll, ty) == Returned(Run(-1, st, ll))
    decreases |p.table[si].links| - k
  {
    if k < |p.table[si].links| {
      OnEdgeNone(p, fuel, si, k + 1, post, st, ll, ty);
    }
  }

  // ---- fuel ----

  /** More fuel changes nothing once the driver finishes (returns or faults) without
      running out. */
  lemma {:induction false} RecParseFuel(p: Parser, fuel: nat, more: nat, si: nat, st: Stack, ll: LexemList)
    requires ParserOk(p) && si < |p.table| && StackOk(p, st)
    requires fuel <= more
    requires !RecParse(p, fuel, si, st, ll).OutOfFuel?
    ensures RecParse(p, more, si, st, ll) == RecParse(p, fuel, si, st, ll)
    decreases fuel, 0, 0
  {
    var row := p.table[si];
    var fin := if |row.finals| > 0 then TryFinals(p, row.finals, 0, st, ll) else NoMatch;
    if fin.NoMatch? {
      OnEdgeFuel(p, fuel - 1, more - 1, si, 0, false, st, ll, ll.token.kind);
      var o := OnEdge(p, fuel - 1, si, 0, false, st, ll, ll.token.kind);
      if o.Returned? {
        LoopFuel(p, fuel - 1, more - 1, si, o.run);
      }
    }
  }

  lemma {:induction false} OnEdgeFuel(p: Parser, fuel: nat, more: nat, si: nat, k: nat, post: bool, st: Stack, ll: LexemList, ty: int)
    requires ParserOk(p) && si < |p.table| && k <= |p.table[si].links| && StackOk(p, st)
    requires fuel <= more
    requires !OnEdge(p, fuel, si, k, post, st, ll, ty).OutOfFuel?
    ensures OnEdge(p, more, si, k, post, st, ll, ty) == OnEdge(p, fuel, si, k, post, st, ll, ty)
    decreases fuel, 1, |p.table[si].links| - k
  {
    var links := p.table[si].links;
    if k < |links| {
      if links[k].name != ty {
        OnEdgeFuel(p, fuel, more, si, k + 1, post, st, ll, ty);
      } else if post {
        RecParseFuel(p, fuel, more, links[k].target, st, ll);
      } else {
        var pushed := Push(st, ll.token.kind, si, Tok(ll.token));
        if pushed.Some? {
          var st2 := pushed.value;
          var next := GetNext(p.lex, p.lexHost, ll);
          if next.Some? {
            RecParseFuel(p, fuel, more, links[k].target, st2, next.value);
          }
        }
      }
    }
  }

  lemma {:induction false} LoopFuel(p: Parser, fuel: nat, more: nat, si: nat, run: Run)
    requires ParserOk(p) && si < |p.table| && RunOk(p, run)
    requires fuel <= more
    requires !Loop(p, fuel, si, run).OutOfFuel?
    ensures Loop(p, more, si, run) == Loop(p, fuel, si, run)
    decreases fuel, 0, 0
  {
    if run.ret == si {
      var top := TopType(run.stack);
      if top.Some? {
        OnEdgeFuel(p, fuel - 1, more - 1, si, 0, true, run.stack, run.ll, top.value);
        var o2 := OnEdge(p, fuel - 1, si, 0, true, run.stack, run.ll, top.value);
        if o2.Returned? {
          var r2 := o2.run;
          if r2.ret == -1 {
            OnEdgeFuel(p, fuel - 1, more - 1, si, 0, false, r2.stack, r2.ll, r2.ll.token.kind);
            var o3 := OnEdge(p, fuel - 1, si, 0, false, r2.stack, r2.ll, r2.ll.token.kind);
            if o3.Returned? {
              LoopFuel(p, fuel - 1, more - 1, si, o3.run);
            }
          } else {
            LoopFuel(p, fuel - 1, more - 1, si, r2);
          }
        }
      }
    }
  }

  // ---- parse_string ----

  datatype ParseResult = Accepted(value: Value) | SyntaxError(run: Run) | Failed | Exhausted

  /** The driver for grammar `g`, with the caller's attributes and lexer. */
  function MakeParser(g: Grammar, host: ActionHost, lex: LexConfig, lexHost: LexHost): (p: Parser)
    requires IsNonTerminal(g, g.start)
    ensures ParserOk(p) && |p.table| >= 1
  {
    Parser(Tabulate(g), host, lex, lexHost)
  }

  /** Lex lazily from `start` and run the start state (index 0) on an empty stack. */
  function Drive(p: Parser, str: string, start: nat, fuel: nat): (o: Outcome)
    requires ParserOk(p) && |p.table| >= 1
    ensures OutcomeOk(p, o)
  {
    match GetLazyLexer(p.lex, p.lexHost, str, start)
    case None => Fault
    case Some(ll) => RecParse(p, fuel, 0, NewStack(|p.table|), ll)
  }

  /** A verdict reached with some fuel stays the same with more. */
  lemma DriveFuel(p: Parser, str: string, start: nat, fuel: nat, more: nat)
    requires ParserOk(p) && |p.table| >= 1
    requires fuel <= more
    requires !Drive(p, str, start, fuel).OutOfFuel?
    ensures Drive(p, str, start, more) == Drive(p, str, start, fuel)
  {
    var lazy := GetLazyLexer(p.lex, p.lexHost, str, start);
    if lazy.Some? {
      RecParseFuel(p, fuel, more, 0, NewStack(|p.table|), lazy.value);
    }
  }

  /** The verdict on a finished run: accepted exactly when one slot is left and it
      holds the start symbol, with that slot's value as the result. */
  function Verdict(startSymbol: int, o: Outcome): (r: ParseResult)
    ensures r.Accepted? <==> o.Returned? && o.run.stack.size == 1 && TopType(o.run.stack) == Some(startSymbol)
    ensures r.Accepted? ==> TopValue(o.run.stack) == Some(r.value)
    ensures r.SyntaxError? <==> o.Returned? && !(o.run.stack.size == 1 && TopType(o.run.stack) == Some(startSymbol))
    ensures r.SyntaxError? ==> r.run == o.run
    ensures r.Failed? <==> o.Fault?
    ensures r.Exhausted? <==> o.OutOfFuel?
  {
    match o
    case Fault => Failed
    case OutOfFuel => Exhausted
    case Returned(run) =>
      if run.stack.size == 1 && run.stack.types[0] == startSymbol then Accepted(run.stack.values[0])
      else SyntaxError(run)
  }

  /** `parser::parse_string(str, start_index)`: anything but acceptance is the syntax
      error `on_error` reports (and throws). Whether the input was consumed, and what
      the start state returned, play no part. */
  function ParseString(g: Grammar, host: ActionHost, lex: LexConfig, lexHost: LexHost, str: string, start: nat, fuel: nat): (r: ParseResult)
    requires WellFormed(g)
  {
    assert IsNonTerminal(g, g.start) by {
      assert NonTerminals(g)[StartIndex(g)] == g.start;
    }
    Verdict(g.start, Drive(MakeParser(g, host, lex, lexHost), str, start, fuel))
  }

  /** A verdict reached with some fuel stays the same with more. */
  lemma ParseStringFuel(g: Grammar, host: ActionHost, lex: LexConfig, lexHost: LexHost, str: string, start: nat, fuel: nat, more: nat)
    requires WellFormed(g)
    requires fuel <= more
    requires !ParseString(g, host, lex, lexHost, str, start, fuel).Exhausted?
    ensures ParseString(g, host, lex, lexHost, str, start, more) == ParseString(g, host, lex, lexHost, str, start, fuel)
  {
    assert IsNonTerminal(g, g.start) by {
      assert NonTerminals(g)[StartIndex(g)] == g.start;
    }
    DriveFuel(MakeParser(g, host, lex, lexHost), str, start, fuel, more);
  }
}

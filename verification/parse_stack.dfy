/** `union_tuple_stack<MaxCount, TypeT, TypeList>`: the parse stack. Three arrays of
    fixed capacity (values, automaton state indices, symbol types) and a size. Slots
    at or above the size keep whatever was last written there, and reading them is
    possible; writing past the capacity is undefined behaviour in the source, modelled
    as a failed (None) operation. */
module ParseStack {
  import opened Collections
  import opened Tokens
  import opened Attributes
  import opened Lexer

  datatype Slots = Slots(values: seq<Value>, states: seq<int>, types: seq<int>, size: nat)

  /** The three arrays share the capacity, and the size never exceeds it. */
  predicate Shaped(s: Slots)
  {
    |s.states| == |s.values| && |s.types| == |s.values| && s.size <= |s.values|
  }

  type Stack = s: Slots | Shaped(s) witness Slots([], [], [], 0)

  function Capacity(st: Stack): nat
  {
    |st.values|
  }

  /** `union_tuple_stack()`: every slot zero-initialised, size 0. */
  function NewStack(cap: nat): (r: Stack)
    ensures Capacity(r) == cap && r.size == 0
    ensures forall i :: 0 <= i < cap ==> r.values[i] == Empty && r.states[i] == 0 && r.types[i] == 0
  {
    Slots(seq(cap, _ => Empty), seq(cap, _ => 0), seq(cap, _ => 0), 0)
  }

  /** `push(type, state_index, val)`: write the top slot and grow by one. */
  function Push(st: Stack, ty: int, si: int, v: Value): (r: Option<Stack>)
    ensures r.Some? <==> st.size < Capacity(st)
    ensures r.Some? ==> Capacity(r.value) == Capacity(st) && r.value.size == st.size + 1
    ensures r.Some? ==> r.value.values[st.size] == v && r.value.states[st.size] == si && r.value.types[st.size] == ty
    ensures r.Some? ==> forall i :: 0 <= i < Capacity(st) && i != st.size ==>
              r.value.values[i] == st.values[i] && r.value.states[i] == st.states[i] && r.value.types[i] == st.types[i]
  {
    if st.size < Capacity(st) then
      Some(Slots(st.values[st.size := v], st.states[st.size := si], st.types[st.size := ty], st.size + 1))
    else None
  }

  /** `get_top_type()`: undefined on an empty stack. */
  function TopType(st: Stack): (r: Option<int>)
    ensures r.Some? <==> st.size > 0
    ensures r.Some? ==> r.value == st.types[st.size - 1]
  {
    if st.size > 0 then Some(st.types[st.size - 1]) else None
  }

  /** `get<T>()`: the top value, undefined on an empty stack. */
  function TopValue(st: Stack): (r: Option<Value>)
    ensures r.Some? <==> st.size > 0
    ensures r.Some? ==> r.value == st.values[st.size - 1]
  {
    if st.size > 0 then Some(st.values[st.size - 1]) else None
  }

  /** Pushing and then reading the top gives back what was pushed. */
  lemma PushThenTop(st: Stack, ty: int, si: int, v: Value)
    requires st.size < Capacity(st)
    ensures var r := Push(st, ty, si, v).value;
            TopType(r) == Some(ty) && TopValue(r) == Some(v) && r.size == st.size + 1
  {
  }

  /** `get<T>(index)`: the value `index` slots below the top; an index at or past the
      size reads below the bottom, which is undefined behaviour (None). */
  function GetValue(st: Stack, index: nat): (r: Option<Value>)
    ensures r.Some? <==> index < st.size
    ensures index == 0 ==> r == TopValue(st)
  {
    if index < st.size then Some(st.values[st.size - 1 - index]) else None
  }

  /** `get_type(index)`: the type `index` slots below the top. */
  function GetType(st: Stack, index: nat): (r: Option<int>)
    ensures r.Some? <==> index < st.size
    ensures index == 0 ==> r == TopType(st)
  {
    if index < st.size then Some(st.types[st.size - 1 - index]) else None
  }

  /** A push puts the new entry at index 0 and moves every existing entry one index
      down, unchanged. */
  lemma PushShiftsIndices(st: Stack, ty: int, si: int, v: Value, i: nat)
    requires st.size < Capacity(st)
    ensures var r := Push(st, ty, si, v).value;
            && GetValue(r, 0) == Some(v) && GetType(r, 0) == Some(ty)
            && GetValue(r, i + 1) == GetValue(st, i) && GetType(r, i + 1) == GetType(st, i)
  {
  }

  // ---- reductions ----

  /** `sizeof...(Args)` of `attribute::function`: the number of slots `call_pop_push`
      pops. Only a plain function (a function attribute, or one of the two
      fallthroughs) can be passed; the templated `_one` forms and synthesizers cannot,
      so a parser whose automaton reduces by one of those does not exist (None). */
  function PopCount(a: Action): (r: Option<nat>)
    ensures r.Some? <==> a.Function? || a.Fallthrough? || a.ValueFallthrough?
    ensures r.Some? ==> r.value == Arity(a)
  {
    match a
    case Function(_, params, _) => Some(|params|)
    case Fallthrough(_) => Some(1)
    case ValueFallthrough(_) => Some(1)
    case _ => None
  }

  /** `call_pop_push(type, function)`: call the attribute on the top `n` slots,
      store the result and `type` in the lowest of them, make it the top, and return
      the state index saved in that slot. The saved state indices are left in place.
      A slot index below zero or at the capacity, or an attribute that cannot take
      the popped values, is undefined behaviour (None). */
  function CallPopPush(st: Stack, ty: int, a: Action, host: ActionHost): (r: Option<(int, Stack)>)
    ensures r.Some? ==> PopCount(a).Some? && 0 <= st.size - PopCount(a).value < Capacity(st)
    ensures r.Some? ==>
              var dest := st.size - PopCount(a).value;
              var (ret, st2) := r.value;
              && ret == st.states[dest]
              && Capacity(st2) == Capacity(st) && st2.size == dest + 1
              && st2.types[dest] == ty && st2.states == st.states
              && Some(st2.values[dest]) == Invoke(a, host, st.values[dest..st.size])
              && (forall i :: 0 <= i < Capacity(st) && i != dest ==> st2.values[i] == st.values[i] && st2.types[i] == st.types[i])
    ensures PopCount(a).Some? && 0 <= st.size - PopCount(a).value < Capacity(st) ==>
              (r.Some? <==> Invoke(a, host, st.values[st.size - PopCount(a).value..st.size]).Some?)
  {
    match PopCount(a)
    case None => None
    case Some(n) =>
      var dest := st.size - n;
      if dest < 0 || dest >= Capacity(st) then None
      else
        match Invoke(a, host, st.values[dest..st.size])
        case None => None
        case Some(v) => Some((st.states[dest], Slots(st.values[dest := v], st.states, st.types[dest := ty], dest + 1)))
  }

  // ---- matching a production rule against the stack ----

  /** The types of the top |rhs| slots are the right-hand side, bottom to top. */
  predicate TopMatches(st: Stack, rhs: seq<int>)
  {
    |rhs| <= st.size && forall i :: 0 <= i < |rhs| ==> st.types[st.size - |rhs| + i] == rhs[i]
  }

  /** `matches_production_rule<SyntaxClass, FollowSet, T...>(lookahead)`: the rule's
      symbols are on top of the stack, and the current token may follow it. An empty
      follow set accepts only the end of the input. */
  predicate MatchesRule(st: Stack, rhs: seq<int>, follow: set<int>, ll: LexemList)
  {
    TopMatches(st, rhs) && (if follow == {} then IsLast(ll) else ll.token.kind in follow)
  }

  /** The same check as the source performs it: give up when the rule is longer than
      the stack, otherwise compare every slot (without stopping at the first mismatch),
      then consult the follow set. */
  method MatchesProductionRule(st: Stack, rhs: seq<int>, follow: set<int>, ll: LexemList) returns (res: bool)
    ensures res == MatchesRule(st, rhs, follow, ll)
  {
    if |rhs| > st.size {
      return false;
    }
    res := true;
    var revIndex := st.size - |rhs|;
    var i := 0;
    while i < |rhs|
      invariant 0 <= i <= |rhs|
      invariant revIndex == st.size - |rhs| + i
      invariant res <==> forall j :: 0 <= j < i ==> st.types[st.size - |rhs| + j] == rhs[j]
    {
      res := res && st.types[revIndex] == rhs[i];
      revIndex := revIndex + 1;
      i := i + 1;
    }
    if follow == {} && res {
      return IsLast(ll);
    }
    if res {
      return ll.token.kind in follow;
    }
    return false;
  }

  /** A reduction by a matched rule whose attribute takes one slot per symbol pops
      exactly the rule's symbols: it cannot overflow or underflow, the slots below are
      untouched, and the rule's name is on top. It fails only when the attribute
      cannot take the popped values. */
  lemma ReduceAfterMatch(st: Stack, name: int, rhs: seq<int>, follow: set<int>, ll: LexemList, a: Action, host: ActionHost)
    requires MatchesRule(st, rhs, follow, ll)
    requires |rhs| > 0 && Arity(a) == |rhs| && PopCount(a).Some?
    ensures var r := CallPopPush(st, name, a, host);
            && (r.Some? <==> Invoke(a, host, st.values[st.size - |rhs|..st.size]).Some?)
            && (r.Some? ==>
                  && r.value.1.size == st.size - |rhs| + 1
                  && TopType(r.value.1) == Some(name)
                  && r.value.0 == st.states[st.size - |rhs|]
                  && r.value.1.types[..st.size - |rhs|] == st.types[..st.size - |rhs|])
  {
  }

  /** A function attribute with no parameters is accepted on a rule of any length
      (its arity, 0, is not checked), and reducing by it pops nothing: the value is
      pushed above the rule's symbols, which stay on the stack. */
  lemma ZeroParameterFunctionKeepsChildren(st: Stack, name: int, id: nat, ret: CType, host: ActionHost)
    requires st.size < Capacity(st)
    ensures var r := CallPopPush(st, name, Function(id, [], ret), host);
            && r.Some?
            && r.value.1.size == st.size + 1
            && r.value.1.types[..st.size] == st.types[..st.size]
            && r.value.0 == st.states[st.size]
  {
  }
}

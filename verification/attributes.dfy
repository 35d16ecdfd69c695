/** Grammar attributes: the semantic action attached to a production rule, its
    declared arity and return type, and what invoking it on the children does. */
module Attributes {
  import opened Collections
  import opened Tokens

  /** The C++ types an attribute can declare: `void`, the syntax class's token type,
      its `type_t`, or some other type of the caller. */
  datatype CType = Void | TokenType | TypeT | Named(id: nat)

  /** `attribute<...>` and its special forms (`e_special_attributes`). A function
      attribute is identified by `id` and declares its parameter and return types. */
  datatype Action =
    | Function(id: nat, params: seq<CType>, ret: CType)
    | Fallthrough(ty: CType)
    | ValueFallthrough(ty: CType)
    | FallthroughOne(index: nat)
    | ValueFallthroughOne(index: nat)
    | Synthesizer(id: nat)

  /** `attribute::arity`: exact for functions and fallthroughs, 0 for a synthesizer
      ("not accounted"), and minus the minimum child count for the `_one` forms. */
  function Arity(a: Action): int
  {
    match a
    case Function(_, params, _) => |params|
    case Fallthrough(_) => 1
    case ValueFallthrough(_) => 1
    case FallthroughOne(i) => -(i + 1)
    case ValueFallthroughOne(i) => -(i + 1)
    case Synthesizer(_) => 0
  }

  /** `attribute::return_type`. A value fallthrough declares its child type even though
      it returns the child's value; the `_one` forms and the synthesizer declare void. */
  function ReturnType(a: Action): CType
  {
    match a
    case Function(_, _, ret) => ret
    case Fallthrough(ty) => ty
    case ValueFallthrough(ty) => ty
    case FallthroughOne(_) => Void
    case ValueFallthroughOne(_) => Void
    case Synthesizer(_) => Void
  }

  /** The function attribute refuses a void return type. */
  predicate Declarable(a: Action)
  {
    a.Function? ==> a.ret != Void
  }

  /** The arity classification: a positive arity is exact, a negative one is a minimum,
      zero accepts any child count. */
  lemma ArityKinds(a: Action)
    ensures Arity(a) > 0 <==> (a.Function? && |a.params| > 0) || a.Fallthrough? || a.ValueFallthrough?
    ensures Arity(a) < 0 <==> a.FallthroughOne? || a.ValueFallthroughOne?
    ensures (a.FallthroughOne? || a.ValueFallthroughOne?) ==> -Arity(a) == a.index + 1
  {
  }

  /** Values held on the parse stack: an empty slot, a token, a token's integer value,
      or something a caller's function built. */
  datatype Value = Empty | Tok(token: Token) | Num(n: int) | Obj(tag: nat, parts: seq<Value>)

  /** The caller's attribute functions and synthesizers, by id. */
  datatype ActionHost = ActionHost(functions: (nat, seq<Value>) -> Value, synthesizers: (nat, seq<Value>) -> Value)

  /** `attribute::function` as written. The `_one` forms call their `_rec` helper
      with no arguments, which always selects the overload whose `static_assert`
      fires: they never produce a value. */
  function InvokeAsWritten(a: Action, host: ActionHost, args: seq<Value>): Option<Value>
  {
    match a
    case Function(id, params, _) => if |args| == |params| then Some(host.functions(id, args)) else None
    case Fallthrough(_) => if |args| == 1 then Some(args[0]) else None
    case ValueFallthrough(_) => if |args| == 1 && args[0].Tok? then Some(Num(args[0].token.value)) else None
    case FallthroughOne(_) => None
    case ValueFallthroughOne(_) => None
    case Synthesizer(id) => Some(host.synthesizers(id, args))
  }

  /** `attribute::function` with the `_one` forms forwarding their arguments, as their
      documentation says: return child `index`, or that child's token value. */
  function Invoke(a: Action, host: ActionHost, args: seq<Value>): (r: Option<Value>)
    ensures (a.Function? || a.Fallthrough? || a.ValueFallthrough?) && r.Some? ==> |args| == Arity(a)
    ensures a.Function? ==> (r.Some? <==> |args| == |a.params|) && (r.Some? ==> r.value == host.functions(a.id, args))
    ensures a.Fallthrough? ==> (r.Some? <==> |args| == 1) && (r.Some? ==> r.value == args[0])
    ensures a.ValueFallthrough? ==> (r.Some? <==> |args| == 1 && args[0].Tok?)
    ensures a.ValueFallthrough? && r.Some? ==> r.value == Num(args[0].token.value)
    ensures a.FallthroughOne? ==> (r.Some? <==> a.index < |args|) && (r.Some? ==> r.value == args[a.index])
    ensures a.ValueFallthroughOne? ==> (r.Some? <==> a.index < |args| && args[a.index].Tok?)
    ensures a.ValueFallthroughOne? && r.Some? ==> r.value == Num(args[a.index].token.value)
    ensures a.Synthesizer? ==> r == Some(host.synthesizers(a.id, args))
  {
    match a
    case FallthroughOne(i) => if i < |args| then Some(args[i]) else None
    case ValueFallthroughOne(i) => if i < |args| && args[i].Tok? then Some(Num(args[i].token.value)) else None
    case _ => InvokeAsWritten(a, host, args)
  }

  /** The `_one` forms as written fail even when the requested child exists. */
  lemma FallthroughOneAsWrittenFails(i: nat, host: ActionHost, args: seq<Value>)
    requires i < |args|
    ensures InvokeAsWritten(FallthroughOne(i), host, args) == None
    ensures Invoke(FallthroughOne(i), host, args) == Some(args[i])
  {
  }

  /** The correction changes nothing but the `_one` forms. */
  lemma InvokeCorrectsOnlyOneForms(a: Action, host: ActionHost, args: seq<Value>)
    ensures !(a.FallthroughOne? || a.ValueFallthroughOne?) ==> Invoke(a, host, args) == InvokeAsWritten(a, host, args)
    ensures InvokeAsWritten(a, host, args).Some? ==> Invoke(a, host, args) == InvokeAsWritten(a, host, args)
  {
  }
}

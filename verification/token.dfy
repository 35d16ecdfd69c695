/** The default token: a symbol type id, an integer payload and the span
    [start, end) of the text it was read from. The source pointer itself is
    not kept: every token of one parse comes from the same text. */
module Tokens {

  /** `invalid_token_type`: the type carried by a token that matched nothing. */
  const InvalidTokenType: int := -1

  /** `size_t(-1)` on a 64-bit target, the end index of an invalid token. */
  const SizeMax: int := 0xFFFF_FFFF_FFFF_FFFF

  datatype Token = Token(kind: int, value: int, start: int, end: int)

  /** A default-constructed token. */
  function DefaultToken(): (t: Token)
    ensures !IsValid(t)
  {
    Token(InvalidTokenType, 0, 0, 0)
  }

  predicate IsValid(t: Token)
  {
    t.kind != InvalidTokenType
  }

  /** `generate_invalid_token(s, start)`. */
  function GenerateInvalidToken(start: int): (t: Token)
    ensures !IsValid(t)
    ensures t.start == start && t.end == SizeMax && t.value == 0
  {
    Token(InvalidTokenType, 0, start, SizeMax)
  }

  /** `generate_token_with_type<Type>(s, index, end)`. */
  function GenerateTokenWithType(kind: int, index: int, end: int): (t: Token)
    ensures t.kind == kind
    ensures IsValid(t) <==> kind != InvalidTokenType
    ensures t.start == index && t.end == end && t.value == 0
  {
    Token(kind, 0, index, end)
  }

  /** `operator ==`: tokens compare by type only. */
  predicate Same(a: Token, b: Token)
  {
    a.kind == b.kind
  }

  /** `operator !=`. */
  predicate Differ(a: Token, b: Token)
  {
    a.kind != b.kind
  }

  /** Equality ignores payload and span, and `!=` is its exact complement. */
  lemma EqualityIgnoresPayload(a: Token, b: Token, value: int, start: int, end: int)
    ensures Same(a, b) <==> Same(a, b.(value := value, start := start, end := end))
    ensures Same(a, b) <==> !Differ(a, b)
    ensures Same(a, b) <==> Same(b, a)
    ensures Same(GenerateInvalidToken(start), DefaultToken())
  {
  }
}

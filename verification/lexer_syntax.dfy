/** `lexical_syntax`: an ordered list of syntactic units, tried in declaration
    order; the first one that matches builds the token. `skip_syntax` is the same
    machinery over units whose token only says whether something was skipped. */
module LexicalSyntax {
  import opened Collections
  import opened Tokens
  import opened Matchers

  /** How a unit turns the span it matched into a token: `generate_token_with_type<T>`,
      or a builder function of the caller (an oracle, `builders(id, s, start, end)`). */
  datatype Generator = WithType(kind: int) | Custom(id: nat)

  type BuilderOracle = (nat, string, nat, int) -> Token

  /** The caller-supplied code a lexer runs: regular expressions and token builders. */
  datatype LexHost = LexHost(regexps: RegexpOracle, builders: BuilderOracle)

  /** `syntactic_unit<Matcher, token_type, Function>`. */
  datatype Unit = Unit(matcher: Matcher, generate: Generator)

  function Generate(g: Generator, host: LexHost, s: string, start: nat, end: int): Token
  {
    match g
    case WithType(kind) => GenerateTokenWithType(kind, start, end)
    case Custom(id) => host.builders(id, s, start, end)
  }

  function MatchersOf(units: seq<Unit>): (ms: seq<Matcher>)
    ensures |ms| == |units|
    ensures forall k :: 0 <= k < |units| ==> ms[k] == units[k].matcher
  {
    seq(|units|, k requires 0 <= k < |units| => units[k].matcher)
  }

  /** Unit `k` is the first of `ms` to match at `start`. */
  ghost predicate FirstMatching(ms: seq<Matcher>, regexps: RegexpOracle, s: string, start: nat, k: int)
  {
    && 0 <= k < |ms|
    && Match(ms[k], regexps, s, start) != -1
    && forall j :: 0 <= j < k ==> Match(ms[j], regexps, s, start) == -1
  }

  /** The recursion shared by `get_token_rec` and `get_end_index_rec`: the index of
      the first unit at or after `from` that matches, with its end index. */
  function FirstMatch(ms: seq<Matcher>, regexps: RegexpOracle, s: string, start: nat, from: nat): (r: Option<(nat, int)>)
    requires from <= |ms|
    ensures r.Some? ==> from <= r.value.0 < |ms|
                        && r.value.1 == Match(ms[r.value.0], regexps, s, start) != -1
                        && forall j :: from <= j < r.value.0 ==> Match(ms[j], regexps, s, start) == -1
    ensures r.None? <==> forall j :: from <= j < |ms| ==> Match(ms[j], regexps, s, start) == -1
    decreases |ms| - from
  {
    if from == |ms| then None
    else
      var e := Match(ms[from], regexps, s, start);
      if e != -1 then Some((from, e))
      else FirstMatch(ms, regexps, s, start, from + 1)
  }

  /** `lexical_syntax::get_token(s, start_index, end_index)`: the token of the first
      matching unit and that unit's end index, or an invalid token at `start` and -1. */
  function GetToken(units: seq<Unit>, host: LexHost, s: string, start: nat): (r: (Token, int))
    ensures r.1 == -1 <==> forall k :: 0 <= k < |units| ==> Match(units[k].matcher, host.regexps, s, start) == -1
    ensures r.1 == -1 ==> r.0 == GenerateInvalidToken(start)
    ensures r.1 != -1 ==> exists k :: FirstMatching(MatchersOf(units), host.regexps, s, start, k)
                                      && r.1 == Match(units[k].matcher, host.regexps, s, start)
                                      && r.0 == Generate(units[k].generate, host, s, start, r.1)
  {
    var ms := MatchersOf(units);
    match FirstMatch(ms, host.regexps, s, start, 0)
    case Some((k, e)) =>
      assert FirstMatching(ms, host.regexps, s, start, k);
      (Generate(units[k].generate, host, s, start, e), e)
    case None => (GenerateInvalidToken(start), -1)
  }

  /** The first matching unit builds the token, and its end index is returned. */
  lemma GetTokenFirst(units: seq<Unit>, host: LexHost, s: string, start: nat, k: nat)
    requires FirstMatching(MatchersOf(units), host.regexps, s, start, k)
    ensures var e := Match(units[k].matcher, host.regexps, s, start);
            GetToken(units, host, s, start) == (Generate(units[k].generate, host, s, start, e), e)
  {
    var ms := MatchersOf(units);
    var r := FirstMatch(ms, host.regexps, s, start, 0);
    assert Match(ms[k], host.regexps, s, start) != -1;
    assert r.Some?;
    var j := r.value.0;
    assert Match(ms[j], host.regexps, s, start) != -1;
    assert j == k;
  }

  /** `get_end_index_rec`, walked independently of `get_token_rec`. */
  function EndIndexFrom(units: seq<Unit>, host: LexHost, s: string, start: nat, from: nat): int
    requires from <= |units|
    decreases |units| - from
  {
    if from == |units| then -1
    else
      var e := Match(units[from].matcher, host.regexps, s, start);
      if e != -1 then e else EndIndexFrom(units, host, s, start, from + 1)
  }

  /** `lexical_syntax::get_end_index(s, start_index)`. */
  function GetEndIndex(units: seq<Unit>, host: LexHost, s: string, start: nat): int
  {
    EndIndexFrom(units, host, s, start, 0)
  }

  lemma {:induction false} EndIndexFromAgrees(units: seq<Unit>, host: LexHost, s: string, start: nat, from: nat)
    requires from <= |units|
    ensures EndIndexFrom(units, host, s, start, from)
            == match FirstMatch(MatchersOf(units), host.regexps, s, start, from)
               case Some((k, e)) => e
               case None => -1
    decreases |units| - from
  {
    if from < |units| {
      EndIndexFromAgrees(units, host, s, start, from + 1);
    }
  }

  /** `get_end_index` reports exactly the end index `get_token` writes back. */
  lemma GetEndIndexAgrees(units: seq<Unit>, host: LexHost, s: string, start: nat)
    ensures GetEndIndex(units, host, s, start) == GetToken(units, host, s, start).1
  {
    EndIndexFromAgrees(units, host, s, start, 0);
  }

  // ---- skipping (lexer_skip.hpp) ----

  /** `skipper_token_type`: nothing but whether skipping has ended. */
  datatype SkipperToken = SkipperToken(end: bool)

  /** `skip_syntax<skip_unit<M>...>::get_token`: a matching skip unit yields
      `skipper_func`'s token (end = false); when none matches, the invalid skipper
      token (end = true) with end index -1. */
  function SkipToken(skips: seq<Matcher>, regexps: RegexpOracle, s: string, start: nat): (r: (SkipperToken, int))
    ensures r.0.end <==> forall k :: 0 <= k < |skips| ==> Match(skips[k], regexps, s, start) == -1
    ensures r.0.end ==> r.1 == -1
    ensures !r.0.end ==> exists k :: FirstMatching(skips, regexps, s, start, k) && r.1 == Match(skips[k], regexps, s, start)
  {
    match FirstMatch(skips, regexps, s, start, 0)
    case Some((k, e)) =>
      assert FirstMatching(skips, regexps, s, start, k);
      (SkipperToken(false), e)
    case None => (SkipperToken(true), -1)
  }
}

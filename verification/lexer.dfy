/** `lexer<SyntaxClass>` and `lexem_list<SyntaxClass>`: skip, then lex one token;
    the lexeme list is a lazy, restartable stream holding one token at a time. */
module Lexer {
  import opened Collections
  import opened Tokens
  import opened Matchers
  import opened LexicalSyntax

  /** The lexical half of a syntax class: its `lexical_syntax` units and its
      `skipper` units. */
  datatype LexConfig = LexConfig(units: seq<Unit>, skips: seq<Matcher>)

  /** `white_space_skipper`: one letter unit for ' ', '\t' and '\n'. */
  const WhiteSpace: seq<char> := [' ', '\t', '\n']
  const WhiteSpaceSkipper: seq<Matcher> := [Letter(WhiteSpace)]

  /** `lexer::skip(s, start_index)`: follow skip matches until none applies.
      None stands for a skip match that does not end strictly after the current index
      and within the text: one that does not move (the source loop never ends), one
      that ends past the terminator (the source reads outside the string), and one
      that ends before the current index (the source would go on from there; see
      README, Left out). */
  function Skip(skips: seq<Matcher>, regexps: RegexpOracle, s: string, i: nat): (r: Option<nat>)
    ensures r.Some? ==> i <= r.value && (r.value == i || r.value <= |s|)
    ensures r.Some? ==> forall k :: 0 <= k < |skips| ==> Match(skips[k], regexps, s, r.value) == -1
    decreases |s| - i
  {
    var (tok, e) := SkipToken(skips, regexps, s, i);
    if tok.end then Some(i)
    else if i < e <= |s| then Skip(skips, regexps, s, e)
    else None
  }

  /** With the white-space skipper, skipping stops at the first character at or after
      `i` that is not a blank, and everything it passes over is blank. */
  lemma {:induction false} WhiteSpaceSkip(regexps: RegexpOracle, s: string, i: nat)
    ensures Skip(WhiteSpaceSkipper, regexps, s, i).Some?
    ensures var p := Skip(WhiteSpaceSkipper, regexps, s, i).value;
            i <= p && At(s, p) !in WhiteSpace && forall q :: i <= q < p ==> At(s, q) in WhiteSpace
    decreases |s| - i
  {
    var (tok, e) := SkipToken(WhiteSpaceSkipper, regexps, s, i);
    if !tok.end {
      assert Match(WhiteSpaceSkipper[0], regexps, s, i) != -1;
      assert e == i + 1 && At(s, i) in WhiteSpace;
      assert i < |s|;
      WhiteSpaceSkip(regexps, s, e);
    } else {
      assert Match(WhiteSpaceSkipper[0], regexps, s, i) == -1;
    }
  }

  /** `lexer::get_token(s, start_index, end_index)`: lex at `skip(s, start_index)`. */
  function LexToken(cfg: LexConfig, host: LexHost, s: string, start: nat): (r: Option<(Token, int)>)
    ensures r.Some? <==> Skip(cfg.skips, host.regexps, s, start).Some?
    ensures r.Some? ==> var p := Skip(cfg.skips, host.regexps, s, start).value;
                        && (forall k :: 0 <= k < |cfg.skips| ==> Match(cfg.skips[k], host.regexps, s, p) == -1)
                        && r.value == GetToken(cfg.units, host, s, p)
  {
    match Skip(cfg.skips, host.regexps, s, start)
    case Some(p) => Some(GetToken(cfg.units, host, s, p))
    case None => None
  }

  /** `lexer::get_end_index(s, start_index)`. */
  function LexEndIndex(cfg: LexConfig, host: LexHost, s: string, start: nat): Option<int>
  {
    match Skip(cfg.skips, host.regexps, s, start)
    case Some(p) => Some(GetEndIndex(cfg.units, host, s, p))
    case None => None
  }

  /** Both entry points skip the same way and agree on the end index. */
  lemma LexEndIndexAgrees(cfg: LexConfig, host: LexHost, s: string, start: nat)
    ensures LexEndIndex(cfg, host, s, start).Some? <==> LexToken(cfg, host, s, start).Some?
    ensures LexToken(cfg, host, s, start).Some? ==>
              LexEndIndex(cfg, host, s, start).value == LexToken(cfg, host, s, start).value.1
  {
    match Skip(cfg.skips, host.regexps, s, start)
    case Some(p) => GetEndIndexAgrees(cfg.units, host, s, p);
    case None =>
  }

  /** A token built by `generate_token_with_type` starts where skipping stopped: at or
      after the requested index, and never on text a skip unit would consume. */
  lemma TokenStartsAfterSkip(cfg: LexConfig, host: LexHost, s: string, start: nat)
    requires forall k :: 0 <= k < |cfg.units| ==> cfg.units[k].generate.WithType?
    requires LexToken(cfg, host, s, start).Some?
    ensures var t := LexToken(cfg, host, s, start).value.0;
            t.start >= start &&
            forall k :: 0 <= k < |cfg.skips| ==> Match(cfg.skips[k], host.regexps, s, t.start) == -1
  {
  }

  // ---- lexem_list ----

  /** `lexem_list`: the text, the index lexing started from (before skipping), the end
      index of the current token (-1 when lexing failed) and the token itself. */
  datatype LexemList = LexemList(str: string, start: nat, end: int, token: Token)

  /** The constructor `lexem_list(str, start_index)`: lexes exactly one token. */
  function MakeLexemList(cfg: LexConfig, host: LexHost, str: string, start: nat): (r: Option<LexemList>)
    ensures r.Some? <==> LexToken(cfg, host, str, start).Some?
    ensures r.Some? ==> r.value.str == str && r.value.start == start
    ensures r.Some? ==> (r.value.token, r.value.end) == LexToken(cfg, host, str, start).value
  {
    match LexToken(cfg, host, str, start)
    case Some((tok, end)) => Some(LexemList(str, start, end, tok))
    case None => None
  }

  /** `lexer::get_lazy_lexer(s, start_index)`. */
  function GetLazyLexer(cfg: LexConfig, host: LexHost, str: string, start: nat): (r: Option<LexemList>)
    ensures r.Some? <==> Skip(cfg.skips, host.regexps, str, start).Some?
    ensures r.Some? ==> r.value.str == str && r.value.start == start && Constructed(cfg, host, r.value)
  {
    MakeLexemList(cfg, host, str, start)
  }

  /** `get_next()`: restart at the end of the current token, or at the same index
      when the current token failed. A negative end other than -1 would become a
      huge `size_t` index in the source; that case is None. */
  function GetNext(cfg: LexConfig, host: LexHost, ll: LexemList): (r: Option<LexemList>)
    ensures ll.end != -1 && ll.end >= 0 ==> r == MakeLexemList(cfg, host, ll.str, ll.end)
  {
    var next := if ll.end == -1 then ll.start else ll.end;
    if next < 0 then None else MakeLexemList(cfg, host, ll.str, next)
  }

  /** `is_last()`. */
  predicate IsLast(ll: LexemList)
  {
    ll.end == -1 || At(ll.str, ll.start) == Nul
  }

  /** The list was produced by the constructor (as every list the parser sees is). */
  predicate Constructed(cfg: LexConfig, host: LexHost, ll: LexemList)
  {
    MakeLexemList(cfg, host, ll.str, ll.start) == Some(ll)
  }

  /** A failed token is last, is invalid, and asking for the next one makes no progress:
      the stream restarts at the same index and yields the same list again. */
  lemma FailedTokenIsSticky(cfg: LexConfig, host: LexHost, ll: LexemList)
    requires Constructed(cfg, host, ll)
    requires ll.end == -1
    ensures IsLast(ll)
    ensures !IsValid(ll.token)
    ensures GetNext(cfg, host, ll) == Some(ll)
  {
  }

  /** The current token is stored, not re-lexed: a constructed list answers with the
      token and end index of lexing at its start index. */
  lemma StoredTokenIsLexed(cfg: LexConfig, host: LexHost, ll: LexemList)
    requires Constructed(cfg, host, ll)
    ensures LexToken(cfg, host, ll.str, ll.start) == Some((ll.token, ll.end))
    ensures ll.end == -1 <==> (forall k :: 0 <= k < |cfg.units| ==>
              Match(cfg.units[k].matcher, host.regexps, ll.str, Skip(cfg.skips, host.regexps, ll.str, ll.start).value) == -1)
  {
  }
}

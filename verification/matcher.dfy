/** Matchers over '\0'-terminated text. A text is a `string` whose terminator
    sits at index |s|: reading at or past |s| yields '\0'. */
module Matchers {

  const Nul: char := '\0'

  /** `s[i]` on a '\0'-terminated string. */
  function At(s: string, i: int): char
  {
    if 0 <= i < |s| then s[i] else Nul
  }

  /** `strlen`: the index of the first '\0', or |s|. */
  function Strlen(s: string): (n: nat)
    ensures n <= |s|
    ensures forall k :: 0 <= k < n ==> s[k] != Nul
    ensures n < |s| ==> s[n] == Nul
  {
    if s == [] then 0
    else if s[0] == Nul then 0
    else 1 + Strlen(s[1..])
  }

  /** Reference definition: the text at `index` starts with pattern[first..first+len). */
  ghost predicate PrefixAt(s: string, index: int, pattern: string, first: nat, len: nat)
    requires first + len <= |pattern|
  {
    forall k :: first <= k < first + len ==> At(s, index - first + k) == pattern[k]
  }

  /** The loop of `string::match`: i walks the text, j walks the pattern up to `stop`. */
  function StringScan(pattern: string, stop: nat, s: string, i: nat, j: nat): (r: int)
    requires stop <= Strlen(pattern)
    ensures j <= stop ==> (r != -1 <==> PrefixAt(s, i, pattern, j, stop - j))
    ensures j <= stop && r != -1 ==> r == i + (stop - j)
    ensures j > stop ==> r == i
    decreases stop - j
  {
    if At(s, i) != Nul && j < stop && pattern[j] == At(s, i) then
      var r := StringScan(pattern, stop, s, i + 1, j + 1);
      assert PrefixAt(s, i, pattern, j, stop - j) <==> PrefixAt(s, i + 1, pattern, j + 1, stop - j - 1);
      r
    else if j < stop then
      assert At(s, i - j + j) != pattern[j];
      -1
    else i
  }

  /** `string<String, StartIndex, EndIndex>::match(s, index)`: EndIndex is clamped to
      strlen(String); the match succeeds when the text at `index` spells the pattern
      slice, and returns the index just after it. */
  function StringMatch(pattern: string, first: nat, last: int, s: string, index: nat): (r: int)
    ensures var stop := if last > Strlen(pattern) then Strlen(pattern) else if last < 0 then 0 else last;
            var len := if first < stop then stop - first else 0;
            (r != -1 <==> len == 0 || PrefixAt(s, index, pattern, first, len)) &&
            (r != -1 ==> r == index + len)
  {
    var stop := if last > Strlen(pattern) then Strlen(pattern) else if last < 0 then 0 else last;
    StringScan(pattern, stop, s, index, first)
  }

  /** `letter<Char...>::match(s, index)`. */
  function LetterMatch(chars: seq<char>, s: string, index: nat): (r: int)
    ensures r != -1 <==> At(s, index) in chars
    ensures r != -1 ==> r == index + 1
  {
    if At(s, index) in chars then index + 1 else -1
  }

  /** A letter matcher over one character agrees with the string matcher over the
      one-character pattern, unless that character is the terminator (which the
      string matcher treats as the pattern's end). */
  lemma LetterIsOneCharString(c: char, s: string, index: nat)
    requires c != Nul
    ensures LetterMatch([c], s, index) == StringMatch([c], 0, 1, s, index)
  {
    assert Strlen([c]) == 1;
  }

  /** The matcher of a syntactic unit. A regular expression is an opaque oracle
      `regexps(id, text, index)` supplied by the caller. */
  datatype Matcher =
    | Str(pattern: string, first: nat, last: int)
    | Letter(chars: seq<char>)
    | Regexp(id: nat)

  type RegexpOracle = (nat, string, nat) -> int

  /** A string matcher over the whole of `pattern` (default StartIndex and EndIndex). */
  function WholeString(pattern: string): Matcher
  {
    Str(pattern, 0, Strlen(pattern))
  }

  function Match(m: Matcher, regexps: RegexpOracle, s: string, index: nat): int
  {
    match m
    case Str(p, a, b) => StringMatch(p, a, b, s, index)
    case Letter(cs) => LetterMatch(cs, s, index)
    case Regexp(id) => regexps(id, s, index)
  }

  /** A successful string or letter match never moves backwards; a letter consumes
      exactly one character, which is one of its letters; a string match of a
      non-empty slice ends inside the text. */
  lemma MatchProgress(m: Matcher, regexps: RegexpOracle, s: string, index: nat)
    requires !m.Regexp?
    requires Match(m, regexps, s, index) != -1
    ensures Match(m, regexps, s, index) >= index
    ensures m.Letter? ==> Match(m, regexps, s, index) == index + 1 && At(s, index) in m.chars
    ensures m.Str? ==> Match(m, regexps, s, index) == index || Match(m, regexps, s, index) <= |s|
  {
    if m.Str? {
      var stop := if m.last > Strlen(m.pattern) then Strlen(m.pattern) else if m.last < 0 then 0 else m.last;
      var len := if m.first < stop then stop - m.first else 0;
      if len > 0 {
        var k := m.first + len - 1;
        assert At(s, index - m.first + k) == m.pattern[k];
      }
    }
  }

  /** A string matcher over the whole of a pattern recognises exactly that pattern. */
  lemma WholeStringMatch(pattern: string, s: string, index: nat)
    requires Nul !in pattern
    ensures var r := Match(WholeString(pattern), (id, t, i) => -1, s, index);
            (r != -1 <==> PrefixAt(s, index, pattern, 0, |pattern|)) && (r != -1 ==> r == index + |pattern|)
  {
  }
}

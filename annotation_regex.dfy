/**
 * The one regular expression of the emoji-test parser,
 *     ^\s+(.+) E\d+\.\d+ (.+)
 * under Go's regexp semantics: `\s` is [\t\n\f\r ], `\d` is [0-9], `.` is any
 * character but a newline, and FindStringSubmatch returns the match a
 * backtracking matcher finds first (leftmost, then greedy quantifiers longest
 * first).
 *
 * A match is described by four cut points of the input s:
 *   s[..k]   the leading white space  \s+
 *   s[k..e]  group 1                  (.+)
 *   s[e..t]  the version token        ' E' digits '.' digits ' '
 *   s[t..f]  group 2                  (.+)
 */
module AnnotationRegex {

  import opened GoStrings

  /** `\s` */
  predicate IsRegexSpace(c: char) {
    c == '\t' || c == '\n' || c == '\U{000C}' || c == '\r' || c == ' '
  }

  /** `\d` */
  predicate IsAsciiDigit(c: char) {
    '0' <= c <= '9'
  }

  predicate SpacesIn(s: string, i: int, j: int) {
    0 <= i <= j <= |s| && forall x :: i <= x < j ==> IsRegexSpace(s[x])
  }

  /** `.` matches every character of s[i..j]. */
  predicate NoNewlineIn(s: string, i: int, j: int) {
    0 <= i <= j <= |s| && forall x :: i <= x < j ==> s[x] != '\n'
  }

  /** `\d+` matches s[i..j]. */
  predicate DigitsIn(s: string, i: int, j: int) {
    0 <= i < j <= |s| && forall x :: i <= x < j ==> IsAsciiDigit(s[x])
  }

  /** ` E\d+\.\d+ ` matches s[e..t]. */
  predicate VersionTokenAt(s: string, e: int, t: int) {
    0 <= e && e + 6 <= t <= |s| && s[e] == ' ' && s[e + 1] == 'E' && s[t - 1] == ' '
    && exists p :: e + 3 <= p <= t - 3 && s[p] == '.' && DigitsIn(s, e + 2, p) && DigitsIn(s, p + 1, t - 1)
  }

  /** The whole pattern matches s[..f] with the cut points k, e, t. */
  predicate IsMatch(s: string, k: int, e: int, t: int, f: int) {
    1 <= k < e && SpacesIn(s, 0, k) && NoNewlineIn(s, k, e)
    && VersionTokenAt(s, e, t) && t < f && NoNewlineIn(s, t, f)
  }

  /** The cut points of the match that Go reports. */
  datatype Span = Span(k: nat, e: nat, t: nat, f: nat)

  /** Length of the run of `\s` at the start of s. */
  function SpaceRun(s: string): (m: nat)
    ensures SpacesIn(s, 0, m)
    ensures m < |s| ==> !IsRegexSpace(s[m])
  {
    if s == [] || !IsRegexSpace(s[0]) then 0
    else
      var m := 1 + SpaceRun(s[1..]);
      assert forall x :: 1 <= x < m ==> s[x] == s[1..][x - 1];
      m
  }

  /** The first newline at or after i, or the end of s. */
  function LineEnd(s: string, i: nat): (n: nat)
    requires i <= |s|
    ensures NoNewlineIn(s, i, n)
    ensures n < |s| ==> s[n] == '\n'
    decreases |s| - i
  {
    if i == |s| || s[i] == '\n' then i else LineEnd(s, i + 1)
  }

  /** Length of the run of `\d` starting at i. */
  function DigitRun(s: string, i: nat): (n: nat)
    requires i <= |s|
    ensures i + n <= |s|
    ensures forall x :: i <= x < i + n ==> IsAsciiDigit(s[x])
    ensures i + n < |s| ==> !IsAsciiDigit(s[i + n])
    decreases |s| - i
  {
    if i == |s| || !IsAsciiDigit(s[i]) then 0 else 1 + DigitRun(s, i + 1)
  }

  lemma DigitRunExact(s: string, i: nat, j: nat)
    requires i <= |s| && DigitsIn(s, i, j) && (j == |s| || !IsAsciiDigit(s[j]))
    ensures DigitRun(s, i) == j - i
  {
  }

  /**
   * Where the version token that starts at e ends, if one does. Each `\d+` is
   * followed by a non-digit, so the token is unique.
   */
  function TokenEnd(s: string, e: nat): (r: Option<nat>)
    requires e <= |s|
    ensures r.Some? ==> VersionTokenAt(s, e, r.value)
    ensures forall t :: VersionTokenAt(s, e, t) ==> r == Some(t)
  {
    if e + 1 < |s| && s[e] == ' ' && s[e + 1] == 'E' then
      var a := DigitRun(s, e + 2);
      var p := e + 2 + a;
      if 0 < a && p < |s| && s[p] == '.' then
        var b := DigitRun(s, p + 1);
        var q := p + 1 + b;
        if 0 < b && q < |s| && s[q] == ' ' then
          assert VersionTokenAt(s, e, q + 1) by {
            assert DigitsIn(s, e + 2, p) && DigitsIn(s, p + 1, q);
          }
          TokenUnique(s, e);
          Some(q + 1)
        else
          TokenUnique(s, e);
          None
      else
        TokenUnique(s, e);
        None
    else
      None
  }

  /** A version token at e ends where the digit runs say. */
  lemma TokenUniqueAt(s: string, e: nat, t: int)
    requires VersionTokenAt(s, e, t)
    ensures var a := DigitRun(s, e + 2);
      var p := e + 2 + a;
      0 < a && p < |s| && s[p] == '.'
      && var b := DigitRun(s, p + 1);
      0 < b && p + 1 + b < |s| && s[p + 1 + b] == ' ' && t == p + 2 + b
  {
    var p :| e + 3 <= p <= t - 3 && s[p] == '.' && DigitsIn(s, e + 2, p) && DigitsIn(s, p + 1, t - 1);
    DigitRunExact(s, e + 2, p);
    DigitRunExact(s, p + 1, t - 1);
  }

  /** Every version token at e ends where the digit runs say. */
  lemma TokenUnique(s: string, e: nat)
    requires e + 1 < |s| && s[e] == ' ' && s[e + 1] == 'E'
    ensures forall t :: VersionTokenAt(s, e, t) ==>
      var a := DigitRun(s, e + 2);
      var p := e + 2 + a;
      0 < a && p < |s| && s[p] == '.'
      && var b := DigitRun(s, p + 1);
      0 < b && p + 1 + b < |s| && s[p + 1 + b] == ' ' && t == p + 2 + b
  {
    forall t | VersionTokenAt(s, e, t) {
      TokenUniqueAt(s, e, t);
    }
  }

  /** A version token starts at e and group 2 after it is not empty. */
  predicate TokenFits(s: string, e: nat)
    requires e <= |s|
  {
    TokenEnd(s, e).Some? && TokenEnd(s, e).value < LineEnd(s, TokenEnd(s, e).value)
  }

  /**
   * Greedy group 1: the largest end in (k, hi] at which the rest of the
   * pattern matches, trying the ends from the right.
   */
  function FindGroupEnd(s: string, k: nat, hi: nat): (r: Option<nat>)
    requires hi <= |s|
    ensures r.Some? ==> k < r.value <= hi && TokenFits(s, r.value)
    ensures forall e :: (if r.Some? then r.value < e else k < e) && e <= hi ==> !TokenFits(s, e)
    decreases hi
  {
    if hi <= k then None
    else if TokenFits(s, hi) then Some(hi)
    else FindGroupEnd(s, k, hi - 1)
  }

  /**
   * Greedy `\s+`: the longest leading white space k' <= k for which the rest
   * of the pattern matches.
   */
  function FindFrom(s: string, k: nat): (r: Option<Span>)
    requires k <= SpaceRun(s)
    ensures r.Some? ==> (1 <= r.value.k <= k
      && FindGroupEnd(s, r.value.k, LineEnd(s, r.value.k)) == Some(r.value.e)
      && TokenEnd(s, r.value.e) == Some(r.value.t) && r.value.f == LineEnd(s, r.value.t))
    ensures forall k' :: (if r.Some? then r.value.k < k' else 1 <= k') && k' <= k ==>
      FindGroupEnd(s, k', LineEnd(s, k')).None?
    decreases k
  {
    if k == 0 then None
    else
      match FindGroupEnd(s, k, LineEnd(s, k))
      case Some(e) =>
        var t := TokenEnd(s, e).value;
        Some(Span(k, e, t, LineEnd(s, t)))
      case None => FindFrom(s, k - 1)
  }

  /** regexp.FindStringSubmatch: the cut points of the reported match, if any. */
  function Match(s: string): Option<Span> {
    FindFrom(s, SpaceRun(s))
  }

  /** What any match says about the search functions. */
  lemma MatchAnatomy(s: string, k: int, e: int, t: int, f: int)
    requires IsMatch(s, k, e, t, f)
    ensures 1 <= k <= SpaceRun(s) && k < e <= LineEnd(s, k) && e <= |s|
    ensures TokenEnd(s, e) == Some(t) && f <= LineEnd(s, t) && TokenFits(s, e)
  {
  }

  /** A fitting token after the leading white space gives a match. */
  lemma MatchFromSearch(s: string, k: nat, e: nat)
    requires 1 <= k <= SpaceRun(s) && k < e <= LineEnd(s, k) && TokenFits(s, e)
    ensures IsMatch(s, k, e, TokenEnd(s, e).value, LineEnd(s, TokenEnd(s, e).value))
  {
  }

  /**
   * Match finds a match exactly when there is one, and the one it finds is
   * the one Go reports: the longest leading white space, then the longest
   * group 1 (so the version token is the last one that still leaves a
   * non-empty group 2), then the whole rest of the line as group 2.
   */
  lemma MatchSpec(s: string)
    ensures Match(s).None? ==> forall k, e, t, f :: !IsMatch(s, k, e, t, f)
    ensures Match(s).Some? ==> var m := Match(s).value;
      IsMatch(s, m.k, m.e, m.t, m.f)
      && forall k, e, t, f :: IsMatch(s, k, e, t, f) ==>
           k < m.k || (k == m.k && (e < m.e || (e == m.e && t == m.t && f <= m.f)))
  {
    var r := Match(s);
    forall k, e, t, f | IsMatch(s, k, e, t, f)
      ensures r.Some? && (k < r.value.k || (k == r.value.k && (e < r.value.e || (e == r.value.e && t == r.value.t && f <= r.value.f))))
    {
      MatchAnatomy(s, k, e, t, f);
      var hi := LineEnd(s, k);
      assert FindGroupEnd(s, k, hi).Some?;
    }
    if r.Some? {
      var m := r.value;
      MatchFromSearch(s, m.k, m.e);
    }
  }

  /** A match preferred over every other one is the one Match reports. */
  lemma MatchIsPreferred(s: string, k: int, e: int, t: int, f: int)
    requires IsMatch(s, k, e, t, f)
    requires forall k', e', t', f' :: IsMatch(s, k', e', t', f') ==>
      k' < k || (k' == k && (e' < e || (e' == e && t' == t && f' <= f)))
    ensures Match(s) == Some(Span(k, e, t, f))
  {
    MatchSpec(s);
    assert Match(s).Some?;
    var m := Match(s).value;
    assert IsMatch(s, m.k, m.e, m.t, m.f);
    LexAntisymmetric(m, Span(k, e, t, f));
  }

  /** Two cut points each preferred over the other are the same. */
  lemma LexAntisymmetric(a: Span, b: Span)
    requires a.k < b.k || (a.k == b.k && (a.e < b.e || (a.e == b.e && a.t == b.t && a.f <= b.f)))
    requires b.k < a.k || (b.k == a.k && (b.e < a.e || (b.e == a.e && b.t == a.t && b.f <= a.f)))
    ensures a == b
  {
  }
}

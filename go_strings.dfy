/**
 * The parts of Go's `strings` and `unicode` packages that the two emoji
 * parsers use, on strings seen as sequences of runes (Dafny `char`s).
 */
module GoStrings {

  datatype Option<T> = None | Some(value: T)

  /** A value, or the error that stopped the computation. */
  datatype Result<T, E> = Ok(value: T) | Err(error: E)

  /** unicode.IsSpace: the Unicode White_Space characters. */
  predicate IsSpace(c: char) {
    ('\t' <= c <= '\r') || c == ' ' || c == '\U{0085}' || c == '\U{00A0}' || c == '\U{1680}'
    || ('\U{2000}' <= c <= '\U{200A}') || c == '\U{2028}' || c == '\U{2029}'
    || c == '\U{202F}' || c == '\U{205F}' || c == '\U{3000}'
  }

  /** `sub` occurs in `s` starting at index `i`. */
  predicate OccursAt(s: string, sub: string, i: int) {
    0 <= i && i + |sub| <= |s| && s[i..i + |sub|] == sub
  }

  /** strings.Index: the first occurrence of `sub` in `s`, or -1. */
  function Index(s: string, sub: string): (r: int)
    ensures -1 <= r <= |s|
    ensures r >= 0 ==> OccursAt(s, sub, r)
    ensures forall j :: 0 <= j && (r < 0 || j < r) ==> !OccursAt(s, sub, j)
    decreases |s|
  {
    if |s| < |sub| then -1
    else if s[..|sub|] == sub then 0
    else
      var j := Index(s[1..], sub);
      assert !OccursAt(s, sub, 0);
      assert forall k :: 1 <= k ==> (OccursAt(s, sub, k) <==> OccursAt(s[1..], sub, k - 1)) by {
        forall k | 1 <= k
          ensures OccursAt(s, sub, k) <==> OccursAt(s[1..], sub, k - 1)
        {
          if k + |sub| <= |s| {
            assert s[1..][k - 1..k - 1 + |sub|] == s[k..k + |sub|];
          }
        }
      }
      if j < 0 then -1 else j + 1
  }

  /** For a one-character pattern, Index is the first position holding that character. */
  lemma IndexOfChar(s: string, c: char)
    ensures Index(s, [c]) < 0 ==> c !in s
    ensures Index(s, [c]) >= 0 ==> Index(s, [c]) < |s| && s[Index(s, [c])] == c && c !in s[..Index(s, [c])]
  {
    var m := Index(s, [c]);
    forall j | 0 <= j < |s| && (m < 0 || j < m) ensures s[j] != c {
      assert !OccursAt(s, [c], j);
      assert s[j..j + 1] == [s[j]];
    }
    if m >= 0 {
      assert s[m..m + 1] == [c];
    }
  }

  /** strings.IndexRune: the first position holding `c`, or -1. */
  function IndexRune(s: string, c: char): (r: int)
    ensures r < 0 ==> r == -1 && c !in s
    ensures r >= 0 ==> r < |s| && s[r] == c
    decreases |s|
  {
    if s == [] then -1
    else if s[0] == c then 0
    else
      var j := IndexRune(s[1..], c);
      if j < 0 then -1 else j + 1
  }

  /** No occurrence of `c` comes before the one IndexRune finds. */
  lemma {:induction false} IndexRuneIsFirst(s: string, c: char)
    ensures IndexRune(s, c) >= 0 ==> c !in s[..IndexRune(s, c)]
    decreases |s|
  {
    if s != [] && s[0] != c && IndexRune(s, c) >= 0 {
      var j := IndexRune(s[1..], c);
      IndexRuneIsFirst(s[1..], c);
      assert s[..j + 1] == [s[0]] + s[1..][..j];
    }
  }

  /** The `after` result of strings.Cut(s, string(c)): the text after the first `c`, or "". */
  function CutAfter(s: string, c: char): string {
    if IndexRune(s, c) < 0 then [] else s[IndexRune(s, c) + 1..]
  }

  /** Index with a one-character pattern is IndexRune. */
  lemma IndexRuneIsIndex(s: string, c: char)
    ensures Index(s, [c]) == IndexRune(s, c)
  {
    IndexOfChar(s, c);
    IndexRuneIsFirst(s, c);
  }

  /** A pattern whose first character does not occur in `s` does not occur in `s`. */
  lemma IndexMissingFirstChar(s: string, pat: string)
    requires pat != [] && pat[0] !in s
    ensures Index(s, pat) < 0
  {
  }

  /** Replacing a pattern that does not occur changes nothing. */
  lemma ReplaceAllAbsent(s: string, pat: string, repl: string)
    requires pat != [] && Index(s, pat) < 0
    ensures ReplaceAll(s, pat, repl) == s
  {
  }

  /** strings.Contains */
  predicate Contains(s: string, sub: string) {
    Index(s, sub) >= 0
  }

  /** strings.HasPrefix */
  predicate HasPrefix(s: string, prefix: string) {
    |prefix| <= |s| && s[..|prefix|] == prefix
  }

  /** strings.TrimPrefix */
  function TrimPrefix(s: string, prefix: string): (r: string)
    ensures HasPrefix(s, prefix) ==> prefix + r == s
    ensures !HasPrefix(s, prefix) ==> r == s
  {
    if HasPrefix(s, prefix) then s[|prefix|..] else s
  }

  /** Every character of `r` is a character of `s` or of `extra`. */
  predicate CharsFrom(r: string, s: string, extra: string) {
    forall i :: 0 <= i < |r| ==> r[i] in s || r[i] in extra
  }

  /** Number of leading white-space characters. */
  function LeadingSpaces(s: string): (n: nat)
    ensures n <= |s|
    ensures forall i :: 0 <= i < n ==> IsSpace(s[i])
    ensures n < |s| ==> !IsSpace(s[n])
  {
    if s == [] || !IsSpace(s[0]) then 0 else 1 + LeadingSpaces(s[1..])
  }

  /** Number of trailing white-space characters. */
  function TrailingSpaces(s: string): (n: nat)
    ensures n <= |s|
    ensures forall i :: |s| - n <= i < |s| ==> IsSpace(s[i])
    ensures n < |s| ==> !IsSpace(s[|s| - 1 - n])
  {
    if s == [] || !IsSpace(s[|s| - 1]) then 0 else 1 + TrailingSpaces(s[..|s| - 1])
  }

  /**
   * strings.TrimSpace: the slice of `s` left when the white space at both ends
   * is cut off; it neither starts nor ends with white space.
   */
  function TrimSpace(s: string): (r: string)
    ensures r == [] || (!IsSpace(r[0]) && !IsSpace(r[|r| - 1]))
    ensures LeadingSpaces(s) + |r| <= |s| && r == s[LeadingSpaces(s)..LeadingSpaces(s) + |r|]
    ensures forall k :: LeadingSpaces(s) + |r| <= k < |s| ==> IsSpace(s[k])
  {
    var i := LeadingSpaces(s);
    var j := if i == |s| then i else |s| - TrailingSpaces(s);
    assert i < |s| ==> !IsSpace(s[i]);
    assert i <= j;
    var r := s[i..j];
    assert r != [] ==> r[0] == s[i] && r[|r| - 1] == s[j - 1];
    r
  }

  /** A string without white space is its own trimming. */
  lemma TrimSpaceNoSpace(s: string)
    requires forall i :: 0 <= i < |s| ==> !IsSpace(s[i])
    ensures TrimSpace(s) == s
  {
  }

  /** Trimming cuts exactly the white space before i and from j on. */
  lemma TrimSpaceExact(s: string, i: nat, j: nat)
    requires i < j <= |s| && !IsSpace(s[i]) && !IsSpace(s[j - 1])
    requires forall k :: 0 <= k < i ==> IsSpace(s[k])
    requires forall k :: j <= k < |s| ==> IsSpace(s[k])
    ensures TrimSpace(s) == s[i..j]
  {
    assert LeadingSpaces(s) == i;
  }

  /** Trimming keeps only characters of the input. */
  lemma TrimSpaceChars(s: string)
    ensures CharsFrom(TrimSpace(s), s, [])
  {
    var r := TrimSpace(s);
    var i := LeadingSpaces(s);
    forall k | 0 <= k < |r| ensures r[k] in s {
      assert r[k] == s[i + k];
    }
  }

  /**
   * strings.ReplaceAll: every non-overlapping occurrence of `pat`, found left
   * to right, replaced by `repl`; an empty `pat` matches before every rune and
   * at the end.
   */
  function ReplaceAll(s: string, pat: string, repl: string): (r: string)
    decreases |s|
  {
    if pat == [] then
      if s == [] then repl else repl + [s[0]] + ReplaceAll(s[1..], pat, repl)
    else
      var m := Index(s, pat);
      if m < 0 then s else s[..m] + repl + ReplaceAll(s[m + |pat|..], pat, repl)
  }

  /** A replacement only brings in characters of the input and of `repl`. */
  lemma {:induction false} ReplaceAllChars(s: string, pat: string, repl: string)
    ensures CharsFrom(ReplaceAll(s, pat, repl), s, repl)
    decreases |s|
  {
    var r := ReplaceAll(s, pat, repl);
    if pat == [] {
      if s != [] {
        ReplaceAllChars(s[1..], pat, repl);
        var tail := ReplaceAll(s[1..], pat, repl);
        assert r == repl + [s[0]] + tail;
        forall i | 0 <= i < |r| ensures r[i] in s || r[i] in repl {
          if i < |repl| {
          } else if i == |repl| {
          } else {
            assert r[i] == tail[i - |repl| - 1];
          }
        }
      }
    } else {
      var m := Index(s, pat);
      if m >= 0 {
        var rest := s[m + |pat|..];
        ReplaceAllChars(rest, pat, repl);
        var tail := ReplaceAll(rest, pat, repl);
        assert r == s[..m] + repl + tail;
        forall i | 0 <= i < |r| ensures r[i] in s || r[i] in repl {
          if i < m {
            assert r[i] == s[i];
          } else if i < m + |repl| {
            assert r[i] == repl[i - m];
          } else {
            assert r[i] == tail[i - m - |repl|];
            assert tail[i - m - |repl|] in rest ==> tail[i - m - |repl|] in s;
          }
        }
      }
    }
  }

  /**
   * Replacing a single character by a string without it leaves no such
   * character behind.
   */
  lemma {:induction false} ReplaceAllRemovesChar(s: string, c: char, repl: string)
    requires c !in repl
    ensures c !in ReplaceAll(s, [c], repl)
    decreases |s|
  {
    var m := Index(s, [c]);
    if m < 0 {
      forall j | 0 <= j < |s| ensures s[j] != c {
        assert !OccursAt(s, [c], j);
        assert s[j..j + 1] == [s[j]];
      }
    } else {
      var rest := s[m + 1..];
      ReplaceAllRemovesChar(rest, c, repl);
      forall j | 0 <= j < m ensures s[j] != c {
        assert !OccursAt(s, [c], j);
        assert s[j..j + 1] == [s[j]];
      }
      assert c !in s[..m];
    }
  }

  /**
   * Replacing one character by one character is done position by position:
   * the length is kept and runs are not collapsed.
   */
  lemma {:induction false} ReplaceCharPointwise(s: string, c: char, d: char)
    ensures |ReplaceAll(s, [c], [d])| == |s|
    ensures forall i :: 0 <= i < |s| ==>
      ReplaceAll(s, [c], [d])[i] == if s[i] == c then d else s[i]
    decreases |s|
  {
    var m := Index(s, [c]);
    IndexOfChar(s, c);
    if m >= 0 {
      var rest := s[m + 1..];
      ReplaceCharPointwise(rest, c, d);
      var tail := ReplaceAll(rest, [c], [d]);
      var r := s[..m] + [d] + tail;
      assert ReplaceAll(s, [c], [d]) == r;
      forall i | 0 <= i < |s| ensures r[i] == if s[i] == c then d else s[i] {
        if i < m {
          assert s[i] == s[..m][i];
        } else if i > m {
          assert r[i] == tail[i - m - 1] && s[i] == rest[i - m - 1];
        }
      }
    }
  }

  /**
   * Each occurrence of `c` in `s` replaced by `r`, character by character:
   * the reference for ReplaceAll with a one-character pattern.
   */
  function Substitute(s: string, c: char, r: string): string
    decreases |s|
  {
    if s == [] then [] else (if s[0] == c then r else [s[0]]) + Substitute(s[1..], c, r)
  }

  lemma {:induction false} SubstituteAppend(a: string, b: string, c: char, r: string)
    ensures Substitute(a + b, c, r) == Substitute(a, c, r) + Substitute(b, c, r)
    decreases |a|
  {
    if a == [] {
      assert a + b == b;
    } else {
      assert (a + b)[0] == a[0] && (a + b)[1..] == a[1..] + b;
      SubstituteAppend(a[1..], b, c, r);
    }
  }

  lemma {:induction false} SubstituteAbsent(s: string, c: char, r: string)
    requires c !in s
    ensures Substitute(s, c, r) == s
    decreases |s|
  {
    if s != [] {
      SubstituteAbsent(s[1..], c, r);
    }
  }

  /** Substitution around the first occurrence of `c`, at m. */
  lemma SubstituteAt(s: string, m: nat, c: char, r: string)
    requires m < |s| && s[m] == c && c !in s[..m]
    ensures Substitute(s, c, r) == s[..m] + r + Substitute(s[m + 1..], c, r)
  {
    var rest := s[m + 1..];
    assert s == s[..m] + ([c] + rest);
    SubstituteAppend(s[..m], [c] + rest, c, r);
    SubstituteAppend([c], rest, c, r);
    SubstituteAbsent(s[..m], c, r);
    assert Substitute([c], c, r) == r;
  }

  /** ReplaceAll with a one-character pattern replaces that character wherever it stands, and nothing else. */
  lemma {:induction false} ReplaceAllOneChar(s: string, c: char, r: string)
    ensures ReplaceAll(s, [c], r) == Substitute(s, c, r)
    decreases |s|
  {
    var m := Index(s, [c]);
    IndexOfChar(s, c);
    if m < 0 {
      SubstituteAbsent(s, c, r);
    } else {
      ReplaceAllOneChar(s[m + 1..], c, r);
      SubstituteAt(s, m, c, r);
    }
  }

  /** `sep` joined between the pieces (the inverse of Split). */
  function Join(pieces: seq<string>, sep: string): string
  {
    if pieces == [] then []
    else if |pieces| == 1 then pieces[0]
    else pieces[0] + sep + Join(pieces[1..], sep)
  }

  /** One string per rune, at most `n` of them, the last holding the rest (n < 0: no limit). */
  function Explode(s: string, n: int): (r: seq<string>)
    decreases |s|
  {
    if s == [] || n == 0 then []
    else if n == 1 then [s]
    else [[s[0]]] + Explode(s[1..], if n < 0 then n else n - 1)
  }

  /**
   * strings.SplitN: the pieces of `s` between occurrences of `sep`, at most
   * `n` of them (the last holds the rest); n < 0 means no limit, n == 0 none.
   */
  function SplitN(s: string, sep: string, n: int): (r: seq<string>)
    ensures n != 0 && sep != [] ==> |r| >= 1
    decreases |s|
  {
    if n == 0 then []
    else if sep == [] then Explode(s, n)
    else if n == 1 then [s]
    else
      var m := Index(s, sep);
      if m < 0 then [s]
      else [s[..m]] + SplitN(s[m + |sep|..], sep, if n < 0 then n else n - 1)
  }

  /** strings.Split */
  function Split(s: string, sep: string): seq<string>
  {
    SplitN(s, sep, -1)
  }

  /** Joining a piece in front of a non-empty list of pieces. */
  lemma JoinCons(x: string, tail: seq<string>, sep: string)
    requires tail != []
    ensures Join([x] + tail, sep) == x + sep + Join(tail, sep)
  {
    assert ([x] + tail)[1..] == tail;
  }

  /** One step of SplitN at the first occurrence of the separator. */
  lemma SplitNStep(s: string, sep: string, n: int)
    requires sep != [] && n != 0 && n != 1 && Index(s, sep) >= 0
    ensures var m := Index(s, sep);
      SplitN(s, sep, n) == [s[..m]] + SplitN(s[m + |sep|..], sep, if n < 0 then n else n - 1)
      && s == s[..m] + sep + s[m + |sep|..]
  {
    var m := Index(s, sep);
    assert s[m..m + |sep|] == sep;
    assert s == s[..m] + s[m..m + |sep|] + s[m + |sep|..];
  }

  /** Splitting and joining again gives back the input. */
  lemma {:induction false} JoinSplitN(s: string, sep: string, n: int)
    requires sep != [] && n != 0
    ensures Join(SplitN(s, sep, n), sep) == s
    decreases |s|
  {
    if n != 1 && Index(s, sep) >= 0 {
      var m := Index(s, sep);
      var rest := s[m + |sep|..];
      var n' := if n < 0 then n else n - 1;
      SplitNStep(s, sep, n);
      JoinSplitN(rest, sep, n');
      JoinCons(s[..m], SplitN(rest, sep, n'), sep);
    }
  }

  /** Without a limit, no piece contains the separator. */
  lemma {:induction false} SplitPiecesHaveNoSep(s: string, sep: string)
    requires sep != []
    ensures forall i :: 0 <= i < |Split(s, sep)| ==> !Contains(Split(s, sep)[i], sep)
    decreases |s|
  {
    var m := Index(s, sep);
    if m >= 0 {
      var rest := s[m + |sep|..];
      SplitPiecesHaveNoSep(rest, sep);
      assert Split(s, sep) == [s[..m]] + Split(rest, sep);
      var head := s[..m];
      if Contains(head, sep) {
        var j := Index(head, sep);
        assert head[j..j + |sep|] == s[j..j + |sep|];
        assert OccursAt(s, sep, j);
        assert false;
      }
    }
  }

  /** Splitting at a character: the text before its first occurrence, then the rest split. */
  lemma SplitAtChar(s: string, c: char)
    ensures IndexRune(s, c) < 0 ==> Split(s, [c]) == [s]
    ensures IndexRune(s, c) >= 0 ==>
      Split(s, [c]) == [s[..IndexRune(s, c)]] + Split(s[IndexRune(s, c) + 1..], [c])
  {
    IndexRuneIsIndex(s, c);
  }

  /** Splitting at a character gives one piece exactly when the character does not occur. */
  lemma SplitCountAtChar(s: string, c: char)
    ensures |Split(s, [c])| < 2 <==> c !in s
  {
    SplitAtChar(s, c);
  }

  /** The first piece runs up to the first occurrence, or is all of s. */
  lemma SplitFirstPiece(s: string, c: char)
    ensures IndexRune(s, c) < 0 ==> Split(s, [c])[0] == s
    ensures IndexRune(s, c) >= 0 ==> Split(s, [c])[0] == s[..IndexRune(s, c)]
  {
    SplitAtChar(s, c);
  }

  /** The second piece is the first piece of what follows the first occurrence. */
  lemma SplitSecondPiece(s: string, c: char)
    requires c in s
    ensures |Split(s, [c])| >= 2 && Split(s, [c])[1] == Split(s[IndexRune(s, c) + 1..], [c])[0]
  {
    SplitAtChar(s, c);
  }

  /** SplitN with n = 2 cuts at the first occurrence of the character only. */
  lemma SplitNTwoAtChar(s: string, c: char)
    requires IndexRune(s, c) >= 0
    ensures SplitN(s, [c], 2) == [s[..IndexRune(s, c)], s[IndexRune(s, c) + 1..]]
  {
    IndexRuneIsIndex(s, c);
    var i := IndexRune(s, c);
    assert SplitN(s[i + 1..], [c], 1) == [s[i + 1..]];
  }

  /** Text before a first separator character is the first piece; the rest is split on. */
  lemma SplitAfterFirst(a: string, x: string, c: char)
    requires c !in a
    ensures Split(a + [c] + x, [c]) == [a] + Split(x, [c])
  {
    var s := a + [c] + x;
    assert s[..|a|] == a && s[|a| + 1..] == x;
    SplitAt(s, c, |a|);
  }

  /** A string without the separator is one piece. */
  lemma SplitWithoutSep(s: string, sep: string)
    requires sep != [] && !Contains(s, sep)
    ensures Split(s, sep) == [s]
  {
  }

  /** A string `a + sep + b` with `sep` in neither part splits into exactly `[a, b]`. */
  lemma SplitTwoPieces(a: string, b: string, sep: string)
    requires sep != [] && !Contains(a, sep) && !Contains(b, sep)
    requires !Contains(a + sep[..|sep| - 1], sep)
    ensures Split(a + sep + b, sep) == [a, b]
  {
    var s := a + sep + b;
    assert OccursAt(s, sep, |a|) by {
      assert s[|a|..|a| + |sep|] == sep;
    }
    forall j | 0 <= j < |a| ensures !OccursAt(s, sep, j) {
      if OccursAt(s, sep, j) {
        var w := a + sep[..|sep| - 1];
        assert j + |sep| <= |w|;
        assert w[j..j + |sep|] == s[j..j + |sep|];
        assert OccursAt(w, sep, j);
        assert false;
      }
    }
    assert Index(s, sep) == |a|;
    assert s[..|a|] == a;
    assert s[|a| + |sep|..] == b;
    SplitWithoutSep(b, sep);
    assert Split(s, sep) == [a] + Split(b, sep);
  }

  /** Split cuts at a first occurrence of `c` given by its position. */
  lemma SplitAt(s: string, c: char, i: nat)
    requires i < |s| && s[i] == c && c !in s[..i]
    ensures Split(s, [c]) == [s[..i]] + Split(s[i + 1..], [c])
  {
    var r := IndexRune(s, c);
    IndexRuneIsFirst(s, c);
    assert forall x :: 0 <= x < i ==> s[..i][x] == s[x];
    assert forall x :: 0 <= x < r ==> s[..r][x] == s[x];
    assert r == i;
    SplitAtChar(s, c);
  }

  /**
   * Splitting on a one-character separator distributes over concatenation
   * at an occurrence of that separator.
   */
  lemma {:induction false} SplitConcat(a: string, b: string, c: char)
    ensures Split(a + [c] + b, [c]) == Split(a, [c]) + Split(b, [c])
    decreases |a|
  {
    var m := IndexRune(a, c);
    IndexRuneIsFirst(a, c);
    if m < 0 {
      SplitAfterFirst(a, b, c);
      SplitAtChar(a, c);
    } else {
      SplitConcatStep(a, b, c, m);
      SplitConcat(a[m + 1..], b, c);
      AppendAssoc([a[..m]], Split(a[m + 1..], [c]), Split(b, [c]));
    }
  }

  /** Both splits in SplitConcat start with the text before the first `c` of `a`. */
  lemma SplitConcatStep(a: string, b: string, c: char, m: nat)
    requires m < |a| && a[m] == c && c !in a[..m]
    ensures Split(a + [c] + b, [c]) == [a[..m]] + Split(a[m + 1..] + [c] + b, [c])
    ensures Split(a, [c]) == [a[..m]] + Split(a[m + 1..], [c])
  {
    var s := a + [c] + b;
    assert s[m + 1..] == a[m + 1..] + [c] + b;
    assert s[..m] == a[..m];
    SplitAt(s, c, m);
    SplitAt(a, c, m);
  }

  lemma AppendAssoc<T>(x: seq<T>, y: seq<T>, z: seq<T>)
    ensures x + (y + z) == (x + y) + z
  {
  }

  /** Length of the run of non-space characters at the start of `s`. */
  function WordLength(s: string): (n: nat)
    ensures n <= |s|
    ensures forall i :: 0 <= i < n ==> !IsSpace(s[i])
    ensures n < |s| ==> IsSpace(s[n])
  {
    if s == [] || IsSpace(s[0]) then 0 else 1 + WordLength(s[1..])
  }

  /** strings.Fields: the maximal runs of non-space characters, in order. */
  function Fields(s: string): (r: seq<string>)
    decreases |s|
  {
    if s == [] then []
    else if IsSpace(s[0]) then Fields(s[1..])
    else
      var n := WordLength(s);
      [s[..n]] + Fields(s[n..])
  }

  /** `s` with its white space removed (reference for Fields). */
  function NonSpace(s: string): (r: string)
  {
    if s == [] then [] else (if IsSpace(s[0]) then [] else [s[0]]) + NonSpace(s[1..])
  }

  /** Concatenation of a list of strings. */
  function Concat(pieces: seq<string>): string
  {
    if pieces == [] then [] else pieces[0] + Concat(pieces[1..])
  }

  lemma {:induction false} NonSpaceAppend(a: string, b: string)
    ensures NonSpace(a + b) == NonSpace(a) + NonSpace(b)
    decreases |a|
  {
    if a == [] {
      assert a + b == b;
    } else {
      assert (a + b)[0] == a[0];
      assert (a + b)[1..] == a[1..] + b;
      NonSpaceAppend(a[1..], b);
    }
  }

  lemma {:induction false} NonSpaceOfWord(w: string)
    requires forall i :: 0 <= i < |w| ==> !IsSpace(w[i])
    ensures NonSpace(w) == w
    decreases |w|
  {
    if w != [] {
      NonSpaceOfWord(w[1..]);
    }
  }

  /**
   * Fields yields non-empty pieces without white space which, put together,
   * are the input with its white space taken out.
   */
  lemma {:induction false} FieldsSpec(s: string)
    ensures forall i :: 0 <= i < |Fields(s)| ==> Fields(s)[i] != []
    ensures forall i, k :: 0 <= i < |Fields(s)| && 0 <= k < |Fields(s)[i]| ==> !IsSpace(Fields(s)[i][k])
    ensures Concat(Fields(s)) == NonSpace(s)
    decreases |s|
  {
    if s != [] {
      if IsSpace(s[0]) {
        FieldsSpec(s[1..]);
      } else {
        var n := WordLength(s);
        FieldsSpec(s[n..]);
        assert Fields(s) == [s[..n]] + Fields(s[n..]);
        NonSpaceOfWord(s[..n]);
        assert s == s[..n] + s[n..];
        NonSpaceAppend(s[..n], s[n..]);
      }
    }
  }

  /** A word without white space, then a white-space character, is the first field. */
  lemma FieldsCons(w: string, c: char, rest: string)
    requires w != [] && IsSpace(c) && forall k :: 0 <= k < |w| ==> !IsSpace(w[k])
    ensures Fields(w + [c] + rest) == [w] + Fields(rest)
  {
    var s := w + [c] + rest;
    var n := WordLength(s);
    assert s[|w|] == c;
    assert forall k :: 0 <= k < |w| ==> s[k] == w[k];
    assert n == |w|;
    assert s[..n] == w;
    assert s[n..] == [c] + rest;
    assert ([c] + rest)[1..] == rest;
  }

  /** A non-empty word without white space is the only field. */
  lemma FieldsOfWord(w: string)
    requires w != [] && forall k :: 0 <= k < |w| ==> !IsSpace(w[k])
    ensures Fields(w) == [w]
  {
    assert WordLength(w) == |w|;
    assert w[..|w|] == w;
  }

  /** A string made only of white space has no fields. */
  lemma {:induction false} FieldsOfBlank(s: string)
    requires forall i :: 0 <= i < |s| ==> IsSpace(s[i])
    ensures Fields(s) == []
    decreases |s|
  {
    if s != [] {
      FieldsOfBlank(s[1..]);
    }
  }

  // ---- The layout of a line into white space and words ----

  /** Nothing but white space. */
  predicate Blank(g: string) {
    forall i :: 0 <= i < |g| ==> IsSpace(g[i])
  }

  /** A non-empty run without white space. */
  predicate IsWord(w: string) {
    w != [] && forall i :: 0 <= i < |w| ==> !IsSpace(w[i])
  }

  /** gaps[0] + words[0] + gaps[1] + ... + words[n-1] + gaps[n] */
  function Weave(gaps: seq<string>, words: seq<string>): string
    requires |gaps| == |words| + 1
    decreases |words|
  {
    if words == [] then gaps[0] else gaps[0] + words[0] + Weave(gaps[1..], words[1..])
  }

  /**
   * `s` is `words`, in order, with white space around them: any amount at
   * either end, at least one white-space character between two words.
   */
  predicate IsLayout(s: string, gaps: seq<string>, words: seq<string>) {
    |gaps| == |words| + 1
    && (forall i :: 0 <= i < |gaps| ==> Blank(gaps[i]))
    && (forall i :: 0 < i < |words| ==> gaps[i] != [])
    && (forall i :: 0 <= i < |words| ==> IsWord(words[i]))
    && s == Weave(gaps, words)
  }

  /** A layout starts with white space exactly when its first gap is not empty. */
  lemma LayoutHead(s: string, gaps: seq<string>, words: seq<string>)
    requires IsLayout(s, gaps, words)
    ensures gaps[0] != [] ==> s != [] && IsSpace(s[0])
    ensures gaps[0] == [] && words != [] ==> s != [] && !IsSpace(s[0])
  {
    if words != [] {
      assert s == gaps[0] + words[0] + Weave(gaps[1..], words[1..]);
    }
  }

  /** Dropping the first gap and word of a layout leaves a layout. */
  lemma LayoutTail(s: string, gaps: seq<string>, words: seq<string>)
    requires IsLayout(s, gaps, words) && words != []
    ensures IsLayout(Weave(gaps[1..], words[1..]), gaps[1..], words[1..])
    ensures s == gaps[0] + (words[0] + Weave(gaps[1..], words[1..]))
  {
    forall i | 0 <= i < |gaps| - 1 ensures Blank(gaps[1..][i]) {
      assert gaps[1..][i] == gaps[i + 1];
    }
    forall i | 0 < i < |words| - 1 ensures gaps[1..][i] != [] {
      assert gaps[1..][i] == gaps[i + 1];
    }
    forall i | 0 <= i < |words| - 1 ensures IsWord(words[1..][i]) {
      assert words[1..][i] == words[i + 1];
    }
  }

  /** One more white-space character in front widens the first gap. */
  lemma WeaveCons(c: char, gaps: seq<string>, words: seq<string>)
    requires |gaps| == |words| + 1
    ensures Weave([[c] + gaps[0]] + gaps[1..], words) == [c] + Weave(gaps, words)
  {
    var gaps' := [[c] + gaps[0]] + gaps[1..];
    assert gaps'[0] == [c] + gaps[0] && gaps'[1..] == gaps[1..];
  }

  /** White space in front does not change the fields. */
  lemma {:induction false} FieldsAfterBlank(g: string, x: string)
    requires Blank(g)
    ensures Fields(g + x) == Fields(x)
    decreases |g|
  {
    if g == [] {
      assert g + x == x;
    } else {
      assert (g + x)[0] == g[0] && (g + x)[1..] == g[1..] + x;
      FieldsAfterBlank(g[1..], x);
    }
  }

  /** A word followed by nothing or by white space is the first field. */
  lemma FieldsWordThen(w: string, r: string)
    requires IsWord(w) && (r == [] || IsSpace(r[0]))
    ensures Fields(w + r) == [w] + Fields(r)
  {
    if r == [] {
      assert w + r == w;
      FieldsOfWord(w);
    } else {
      var c, t := r[0], r[1..];
      assert w + r == w + [c] + t by { assert r == [c] + t; }
      FieldsCons(w, c, t);
    }
  }

  /** A white-space character in front of a layout joins its first gap. */
  lemma LayoutConsSpace(c: char, s: string, gaps: seq<string>, words: seq<string>)
    requires IsSpace(c) && IsLayout(s, gaps, words)
    ensures IsLayout([c] + s, [[c] + gaps[0]] + gaps[1..], words)
  {
    var gaps' := [[c] + gaps[0]] + gaps[1..];
    WeaveCons(c, gaps, words);
    assert forall i :: 0 < i < |gaps'| ==> gaps'[i] == gaps[i];
  }

  /** A word in front of a layout that starts with white space (or has no words) is its new first word. */
  lemma LayoutConsWord(w: string, s: string, gaps: seq<string>, words: seq<string>)
    requires IsWord(w) && IsLayout(s, gaps, words) && (words != [] ==> gaps[0] != [])
    ensures IsLayout(w + s, [[]] + gaps, [w] + words)
  {
    var gaps', words' := [[]] + gaps, [w] + words;
    assert gaps'[1..] == gaps && words'[1..] == words;
    assert Weave(gaps', words') == [] + w + s;
    assert forall i :: 0 < i < |gaps'| ==> gaps'[i] == gaps[i - 1];
    assert forall i :: 0 < i < |words'| ==> words'[i] == words[i - 1];
  }

  /** The fields of `s` are laid out in `s` as its words, in order. */
  lemma {:induction false} FieldsLayout(s: string)
    ensures exists gaps :: IsLayout(s, gaps, Fields(s))
    decreases |s|
  {
    if s == [] {
      assert Fields(s) == [] && Weave([[]], []) == s;
      assert IsLayout(s, [[]], Fields(s));
    } else if IsSpace(s[0]) {
      FieldsLayout(s[1..]);
      var gaps :| IsLayout(s[1..], gaps, Fields(s[1..]));
      LayoutConsSpace(s[0], s[1..], gaps, Fields(s[1..]));
      assert s == [s[0]] + s[1..];
      assert IsLayout(s, [[s[0]] + gaps[0]] + gaps[1..], Fields(s));
    } else {
      var n := WordLength(s);
      var rest := s[n..];
      FieldsLayout(rest);
      var gaps :| IsLayout(rest, gaps, Fields(rest));
      LayoutHead(rest, gaps, Fields(rest));
      assert IsWord(s[..n]) by {
        assert forall i :: 0 <= i < n ==> s[..n][i] == s[i];
      }
      LayoutConsWord(s[..n], rest, gaps, Fields(rest));
      assert s == s[..n] + rest;
      assert Fields(s) == [s[..n]] + Fields(rest);
      assert IsLayout(s, [[]] + gaps, Fields(s));
    }
  }

  /** Any layout of `s` into words has exactly the fields of `s` as its words. */
  lemma {:induction false} LayoutFields(s: string, gaps: seq<string>, words: seq<string>)
    requires IsLayout(s, gaps, words)
    ensures words == Fields(s)
    decreases |words|
  {
    if words == [] {
      FieldsOfBlank(s);
    } else {
      var r := Weave(gaps[1..], words[1..]);
      LayoutTail(s, gaps, words);
      LayoutFields(r, gaps[1..], words[1..]);
      FieldsAfterBlank(gaps[0], words[0] + r);
      assert r != [] ==> gaps[1..][0] != [];
      LayoutHead(r, gaps[1..], words[1..]);
      FieldsWordThen(words[0], r);
    }
  }
}

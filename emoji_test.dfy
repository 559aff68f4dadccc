/**
 * The emoji-test.txt pipeline (src/main.go): the annotation extractor, the
 * line parser with its current-subgroup pointer, the line loop of `main`
 * that tracks the subgroup headers, and the snippet fields written for each
 * record.
 *
 * A data line of emoji-test.txt reads
 *     1F600 ; fully-qualified # <emoji> E1.0 grinning face
 * and a header line
 *     # subgroup: face-smiling
 */
module EmojiTest {

  import opened GoStrings
  import opened AnnotationRegex

  /** The Go run-time failure the parser can hit: a slice index out of range. */
  datatype Error = IndexOutOfRange

  /** EmojiData */
  datatype EmojiData = EmojiData(Emoji: string, Description: string, Subgroup: string)

  // ---- extractDescriptionAndEmoji ----

  /**
   * The four quote strings deleted from descriptions, character for character
   * as they stand in the source text (the curly quotes, stored there in a
   * mis-decoded three-character form).
   */
  const QuoteLiterals: seq<string> := [
    "\U{201A}\U{00C4}\U{00F4}",
    "\U{201A}\U{00C4}\U{00F2}",
    "\U{201A}\U{00C4}\U{00FA}",
    "\U{201A}\U{00C4}\U{00F9}"
  ]

  /** The deletions applied to a description, in order. */
  const Deletions: seq<string> := [",", ":"] + QuoteLiterals

  /** strings.ReplaceAll(s, d, "") for each d of `dels` in turn. */
  function DeleteAll(s: string, dels: seq<string>): string
    decreases |dels|
  {
    if dels == [] then s else DeleteAll(ReplaceAll(s, dels[0], ""), dels[1..])
  }

  /** Deleting one list of strings and then another is deleting both in turn. */
  lemma {:induction false} DeleteAllAppend(s: string, xs: seq<string>, ys: seq<string>)
    ensures DeleteAll(s, xs + ys) == DeleteAll(DeleteAll(s, xs), ys)
    decreases |xs|
  {
    if xs == [] {
      assert xs + ys == ys;
    } else {
      assert (xs + ys)[0] == xs[0] && (xs + ys)[1..] == xs[1..] + ys;
      DeleteAllAppend(ReplaceAll(s, xs[0], ""), xs[1..], ys);
    }
  }

  /** Deleting never brings in a character. */
  lemma {:induction false} DeleteAllChars(s: string, dels: seq<string>)
    ensures CharsFrom(DeleteAll(s, dels), s, [])
    decreases |dels|
  {
    if dels != [] {
      var s' := ReplaceAll(s, dels[0], "");
      ReplaceAllChars(s, dels[0], "");
      DeleteAllChars(s', dels[1..]);
    }
  }

  /** Every one-character deletion string is gone from the result. */
  lemma {:induction false} DeleteAllRemovesChars(s: string, dels: seq<string>)
    ensures forall i :: 0 <= i < |dels| && |dels[i]| == 1 ==> dels[i][0] !in DeleteAll(s, dels)
    decreases |dels|
  {
    if dels != [] {
      var s' := ReplaceAll(s, dels[0], "");
      DeleteAllRemovesChars(s', dels[1..]);
      DeleteAllChars(s', dels[1..]);
      if |dels[0]| == 1 {
        assert dels[0] == [dels[0][0]];
        ReplaceAllRemovesChar(s, dels[0][0], "");
      }
      forall i | 1 <= i < |dels| && |dels[i]| == 1 ensures dels[i][0] !in DeleteAll(s, dels) {
        assert dels[1..][i - 1] == dels[i];
      }
    }
  }

  /** Deleting strings that do not occur changes nothing. */
  lemma {:induction false} DeleteAllAbsent(s: string, dels: seq<string>)
    requires forall i :: 0 <= i < |dels| ==> dels[i] != [] && dels[i][0] !in s
    ensures DeleteAll(s, dels) == s
    decreases |dels|
  {
    if dels != [] {
      IndexMissingFirstChar(s, dels[0]);
      ReplaceAllAbsent(s, dels[0], "");
      DeleteAllAbsent(s, dels[1..]);
    }
  }

  /** Each deletion string starts with a comma, a colon or U+201A. */
  lemma DeletionStarts()
    ensures forall i :: 0 <= i < |Deletions| ==> (Deletions[i] != []
      && (Deletions[i][0] == ',' || Deletions[i][0] == ':' || Deletions[i][0] == '\U{201A}'))
  {
  }

  /** The description cleanup with a given list of deletions: spaces to hyphens, trim, then the deletions. */
  function NormalizeWith(g: string, dels: seq<string>): string {
    DeleteAll(TrimSpace(ReplaceAll(g, " ", "-")), dels)
  }

  /** The description cleanup of extractDescriptionAndEmoji. */
  function NormalizeDescription(g: string): string {
    NormalizeWith(g, Deletions)
  }

  /** extractDescriptionAndEmoji: (emoji, description), or ("", "") without a match. */
  function ExtractDescriptionAndEmoji(input: string): (string, string) {
    match Match(input)
    case Some(m) => (TrimSpace(input[m.k..m.e]), NormalizeDescription(input[m.t..m.f]))
    case None => ("", "")
  }

  /** Whatever is deleted, no space is left, and no one-character deletion string either. */
  lemma NormalizeRemoves(g: string, dels: seq<string>)
    ensures ' ' !in NormalizeWith(g, dels)
    ensures forall i :: 0 <= i < |dels| && |dels[i]| == 1 ==> dels[i][0] !in NormalizeWith(g, dels)
  {
    var h := ReplaceAll(g, " ", "-");
    ReplaceAllRemovesChar(g, ' ', "-");
    TrimSpaceChars(h);
    DeleteAllChars(TrimSpace(h), dels);
    DeleteAllRemovesChars(TrimSpace(h), dels);
  }

  /** A normalised description holds no space, comma or colon. */
  lemma DescriptionIsClean(g: string)
    ensures ' ' !in NormalizeDescription(g)
    ensures ',' !in NormalizeDescription(g) && ':' !in NormalizeDescription(g)
  {
    NormalizeRemoves(g, Deletions);
    assert Deletions[0] == [','] && Deletions[1] == [':'];
  }

  /**
   * The curly quotes U+2019, U+2018, U+201C and U+201D: the four quote
   * literals are their UTF-8 bytes shown in the Mac OS Roman encoding.
   */
  const CurlyQuotes: seq<string> := ["\U{2019}", "\U{2018}", "\U{201C}", "\U{201D}"]

  /** With the quote literals read as the curly quotes, none of the four is left either. */
  lemma CurlyQuotesRemoved(g: string)
    ensures var d := NormalizeWith(g, [",", ":"] + CurlyQuotes);
      ' ' !in d && ',' !in d && ':' !in d
      && '\U{2019}' !in d && '\U{2018}' !in d && '\U{201C}' !in d && '\U{201D}' !in d
  {
    var dels := [",", ":"] + CurlyQuotes;
    NormalizeRemoves(g, dels);
    assert dels[0] == [','] && dels[1] == [':'] && dels[2] == ['\U{2019}'] && dels[3] == ['\U{2018}'];
    assert dels[4] == ['\U{201C}'] && dels[5] == ['\U{201D}'];
  }

  /** Characters a description may hold that the cleanup leaves alone. */
  predicate IsPlainChar(c: char) {
    !IsSpace(c) && c != ',' && c != ':' && c != '\U{201A}'
  }

  /** Each space replaced by one hyphen, everything else kept. */
  function Hyphenate(g: string): (r: string)
  {
    seq(|g|, i requires 0 <= i < |g| => if g[i] == ' ' then '-' else g[i])
  }

  /**
   * A description of plain characters and spaces comes out with every space
   * replaced by its own hyphen (runs are not collapsed) and nothing else changed.
   */
  lemma PlainDescription(g: string)
    requires forall i :: 0 <= i < |g| ==> g[i] == ' ' || IsPlainChar(g[i])
    ensures NormalizeDescription(g) == Hyphenate(g)
  {
    var h := ReplaceAll(g, " ", "-");
    ReplaceCharPointwise(g, ' ', '-');
    assert h == Hyphenate(g);
    assert forall i :: 0 <= i < |h| ==> IsPlainChar(h[i]) || h[i] == '-';
    TrimSpaceNoSpace(h);
    DeletionStarts();
    DeleteAllAbsent(h, Deletions);
  }

  /** The input of QuoteLiteralSurvives: a U+201A, then the second quote string, then the rest of the first. */
  const Interleaved: string := "\U{201A}\U{201A}\U{00C4}\U{00F2}\U{00C4}\U{00F4}"

  /** The input has no space, so hyphenating and trimming leave it alone. */
  lemma InterleavedSurvivesHyphens()
    ensures TrimSpace(ReplaceAll(Interleaved, " ", "-")) == Interleaved
  {
    IndexMissingFirstChar(Interleaved, " ");
    ReplaceAllAbsent(Interleaved, " ", "-");
    TrimSpaceNoSpace(Interleaved);
  }

  /** The input has no comma and no colon. */
  lemma InterleavedSurvivesPunctuation()
    ensures DeleteAll(Interleaved, [",", ":"]) == Interleaved
  {
    IndexMissingFirstChar(Interleaved, ",");
    ReplaceAllAbsent(Interleaved, ",", "");
    IndexMissingFirstChar(Interleaved, ":");
    ReplaceAllAbsent(Interleaved, ":", "");
  }

  /** The first quote string does not occur in the input. */
  lemma InterleavedLacksFirstQuote()
    ensures ReplaceAll(Interleaved, QuoteLiterals[0], "") == Interleaved
  {
    var g, q0 := Interleaved, QuoteLiterals[0];
    forall j | 0 <= j ensures !OccursAt(g, q0, j) {
      if j + 3 <= |g| {
        assert g[j..j + 3] == [g[j], g[j + 1], g[j + 2]];
      }
    }
    ReplaceAllAbsent(g, q0, "");
  }

  /** Deleting the second quote string out of the middle closes up the first. */
  lemma InterleavedFormsFirstQuote()
    ensures ReplaceAll(Interleaved, QuoteLiterals[1], "") == QuoteLiterals[0]
  {
    var g, q1 := Interleaved, QuoteLiterals[1];
    assert !OccursAt(g, q1, 0) by { assert g[0..3][1] == g[1]; }
    assert OccursAt(g, q1, 1) by { assert g[1..4] == q1; }
    assert Index(g, q1) == 1;
    IndexMissingFirstChar(g[4..], q1);
    ReplaceAllAbsent(g[4..], q1, "");
  }

  /** The last two quote strings do not occur in the first. */
  lemma FirstQuoteLacksLastQuotes()
    ensures DeleteAll(QuoteLiterals[0], QuoteLiterals[2..]) == QuoteLiterals[0]
  {
    var q0, q2, q3 := QuoteLiterals[0], QuoteLiterals[2], QuoteLiterals[3];
    assert !OccursAt(q0, q2, 0) by { assert q0[0..3][2] == q0[2]; }
    assert Index(q0, q2) < 0;
    ReplaceAllAbsent(q0, q2, "");
    assert !OccursAt(q0, q3, 0) by { assert q0[0..3][2] == q0[2]; }
    assert Index(q0, q3) < 0;
    ReplaceAllAbsent(q0, q3, "");
    assert QuoteLiterals[2..] == [q2, q3];
    assert [q2, q3][1..] == [q3];
    assert DeleteAll(q0, [q3]) == DeleteAll(q0, []);
  }

  /**
   * With the quote strings as they stand, a deleted quote string can survive:
   * deleting the second one out of the middle of this input forms the first.
   */
  lemma QuoteLiteralSurvives()
    ensures NormalizeDescription(Interleaved) == QuoteLiterals[0]
  {
    var g, q := Interleaved, QuoteLiterals;
    InterleavedSurvivesHyphens();
    InterleavedSurvivesPunctuation();
    DeleteAllAppend(g, [",", ":"], q);
    InterleavedLacksFirstQuote();
    assert DeleteAll(g, q) == DeleteAll(g, q[1..]);
    InterleavedFormsFirstQuote();
    assert q[1..][0] == q[1] && q[1..][1..] == q[2..];
    assert DeleteAll(g, q[1..]) == DeleteAll(q[0], q[2..]);
    FirstQuoteLacksLastQuotes();
  }

  /** Without leading white space the pattern cannot match. */
  lemma ExtractNeedsLeadingSpace(input: string)
    requires input == [] || !IsRegexSpace(input[0])
    ensures ExtractDescriptionAndEmoji(input) == ("", "")
  {
  }

  /**
   * Without a version token ` E<digits>.<digits> ` followed by at least one
   * more character of the line the pattern cannot match.
   */
  lemma ExtractNeedsVersionToken(input: string)
    requires forall e, t :: VersionTokenAt(input, e, t) ==> t == |input| || input[t] == '\n'
    ensures ExtractDescriptionAndEmoji(input) == ("", "")
  {
    MatchSpec(input);
  }

  /**
   * On a match, the emoji is group 1 with the white space at its ends cut
   * off and the description is group 2 normalised; group 1 runs to the last
   * version token that leaves group 2 non-empty.
   */
  lemma ExtractOnMatch(input: string, k: nat, e: nat, t: nat, f: nat)
    requires IsMatch(input, k, e, t, f)
    requires forall k', e', t', f' :: IsMatch(input, k', e', t', f') ==>
      k' < k || (k' == k && (e' < e || (e' == e && t' == t && f' <= f)))
    ensures ExtractDescriptionAndEmoji(input) == (TrimSpace(input[k..e]), NormalizeDescription(input[t..f]))
  {
    MatchIsPreferred(input, k, e, t, f);
  }

  // ---- parseEmojiLine ----

  const SubgroupMarker: string := "# subgroup:"

  predicate IsHeader(line: string) {
    HasPrefix(line, SubgroupMarker)
  }

  /** The header's subgroup name as parseEmojiLine stores it. */
  function HeaderName(line: string): string {
    TrimSpace(TrimPrefix(line, SubgroupMarker))
  }

  /** The line is not a fully-qualified emoji definition. */
  predicate IsSkipped(line: string) {
    !Contains(line, ";") || !Contains(line, "#") || HasPrefix(line, "#")
    || Contains(line, "minimally-qualified") || Contains(line, "unqualified") || Contains(line, "component")
  }

  /**
   * a is the text of `rest` between its first '#' (at j) and the next '#' or
   * its end (at k).
   */
  predicate IsHashPiece(rest: string, j: int, k: int, a: string) {
    0 <= j < k <= |rest| && rest[j] == '#' && '#' !in rest[..j]
    && (k == |rest| || rest[k] == '#') && '#' !in rest[j + 1..k] && a == rest[j + 1..k]
  }

  /** Piece 1 of a split at '#' is the text after the first '#' up to the next. */
  lemma SecondHashPiece(rest: string)
    requires '#' in rest
    ensures |Split(rest, "#")| >= 2
    ensures exists j, k :: IsHashPiece(rest, j, k, Split(rest, "#")[1])
  {
    SplitSecondPiece(rest, '#');
    var j := IndexRune(rest, '#');
    var tail := rest[j + 1..];
    SplitFirstPiece(tail, '#');
    IndexRuneIsFirst(rest, '#');
    var n := IndexRune(tail, '#');
    var m := if n < 0 then |tail| else n;
    HashPieceAt(rest, j, n);
    assert IsHashPiece(rest, j, j + 1 + m, Split(rest, "#")[1]);
  }

  /** The text after a first '#' at j, up to the next '#' or the end, is a hash piece. */
  lemma HashPieceAt(rest: string, j: int, n: int)
    requires 0 <= j < |rest| && rest[j] == '#' && '#' !in rest[..j]
    requires n == IndexRune(rest[j + 1..], '#')
    ensures var m := if n < 0 then |rest| - j - 1 else n;
      IsHashPiece(rest, j, j + 1 + m, rest[j + 1..][..m])
  {
    var tail := rest[j + 1..];
    IndexRuneIsFirst(tail, '#');
    var m := if n < 0 then |tail| else n;
    assert tail[..m] == rest[j + 1..j + 1 + m];
  }

  /**
   * strings.Split(strings.SplitN(line, ";", 2)[1], "#")[1]; reading piece 1
   * of a one-piece split is Go's index-out-of-range failure.
   */
  function AnnotationText(line: string): (r: Result<string, Error>)
    requires Contains(line, ";")
  {
    var pieces := Split(SplitN(line, ";", 2)[1], "#");
    if |pieces| < 2 then Err(IndexOutOfRange) else Ok(pieces[1])
  }

  /** AnnotationText reads the pieces of the text after the first ';'. */
  lemma AnnotationTextAfter(line: string)
    requires Contains(line, ";")
    ensures var pieces := Split(line[IndexRune(line, ';') + 1..], "#");
      AnnotationText(line) == if |pieces| < 2 then Err(IndexOutOfRange) else Ok(pieces[1])
  {
    IndexRuneIsIndex(line, ';');
    SplitNTwoAtChar(line, ';');
  }

  /**
   * The annotation is out of range exactly when no '#' follows the first
   * ';', and otherwise is the text after the first '#' that follows it, up
   * to the next '#' or the line's end.
   */
  lemma AnnotationTextSpec(line: string)
    requires Contains(line, ";")
    ensures IndexRune(line, ';') >= 0
    ensures AnnotationText(line).Err? <==> '#' !in CutAfter(line, ';')
    ensures AnnotationText(line).Ok? ==>
      exists j, k :: IsHashPiece(CutAfter(line, ';'), j, k, AnnotationText(line).value)
  {
    IndexRuneIsIndex(line, ';');
    AnnotationTextAfter(line);
    var rest := CutAfter(line, ';');
    SplitCountAtChar(rest, '#');
    if '#' in rest {
      SecondHashPiece(rest);
    }
  }

  /**
   * The data branch of parseEmojiLine for a given current subgroup: nothing
   * for a skipped line, otherwise exactly one record carrying the subgroup,
   * even when the annotation does not match (then emoji and description are
   * both empty), or the index failure.
   */
  function ParseData(line: string, subgroup: string): (r: Result<seq<EmojiData>, Error>)
    ensures IsSkipped(line) ==> r == Ok([])
    ensures !IsSkipped(line) ==> (r.Err? <==> '#' !in CutAfter(line, ';'))
    ensures r.Ok? && !IsSkipped(line) ==> (AnnotationText(line).Ok? && |r.value| == 1 && r.value[0].Subgroup == subgroup
      && (r.value[0].Emoji, r.value[0].Description) == ExtractDescriptionAndEmoji(AnnotationText(line).value))
  {
    if IsSkipped(line) then Ok([])
    else
      AnnotationTextSpec(line);
      match AnnotationText(line)
      case Err(e) => Err(e)
      case Ok(bits) =>
        var found := ExtractDescriptionAndEmoji(bits);
        Ok([EmojiData(found.0, found.1, subgroup)])
  }

  /** The `*string` that parseEmojiLine reads and writes. */
  class StringRef {
    var value: string

    constructor (v: string)
      ensures value == v
    {
      value := v;
    }
  }

  /**
   * parseEmojiLine: a header line overwrites the subgroup behind the pointer
   * and yields nothing; any other line leaves it alone and yields ParseData's
   * records for it.
   */
  method ParseEmojiLine(line: string, currentSubgroup: StringRef) returns (r: Result<seq<EmojiData>, Error>)
    modifies currentSubgroup
    ensures IsHeader(line) ==> currentSubgroup.value == HeaderName(line) && r == Ok([])
    ensures !IsHeader(line) ==>
      currentSubgroup.value == old(currentSubgroup.value) && r == ParseData(line, old(currentSubgroup.value))
  {
    if HasPrefix(line, SubgroupMarker) {
      currentSubgroup.value := TrimSpace(TrimPrefix(line, SubgroupMarker));
      return Ok([]);
    }
    if IsSkipped(line) {
      return Ok([]);
    }
    var bits := AnnotationText(line);
    if bits.Err? {
      return Err(bits.error);
    }
    var found := ExtractDescriptionAndEmoji(bits.value);
    var emojis: seq<EmojiData> := [];
    emojis := emojis + [EmojiData(found.0, found.1, currentSubgroup.value)];
    assert emojis == [EmojiData(found.0, found.1, currentSubgroup.value)];
    return Ok(emojis);
  }

  // ---- the line loop of main ----

  /** The subgroup name as main stores it: '&' spelled "and", spaces as hyphens. */
  function CleanSubgroup(line: string): string {
    ReplaceAll(ReplaceAll(HeaderName(line), "&", "and"), " ", "-")
  }

  /** How main spells one character of a subgroup name. */
  function SpellChar(x: char): string {
    if x == '&' then "and" else if x == ' ' then "-" else [x]
  }

  /** A subgroup name spelled character by character. */
  function Spell(h: string): string
    decreases |h|
  {
    if h == [] then [] else SpellChar(h[0]) + Spell(h[1..])
  }

  /** The two replacements together spell the name character by character. */
  lemma {:induction false} SubstituteTwice(h: string)
    ensures Substitute(Substitute(h, '&', "and"), ' ', "-") == Spell(h)
    decreases |h|
  {
    if h != [] {
      var x := if h[0] == '&' then "and" else [h[0]];
      assert Substitute(h, '&', "and") == x + Substitute(h[1..], '&', "and");
      SubstituteAppend(x, Substitute(h[1..], '&', "and"), ' ', "-");
      SubstituteTwice(h[1..]);
      if h[0] == '&' {
        SubstituteAbsent("and", ' ', "-");
      } else {
        assert Substitute(x, ' ', "-") == SpellChar(h[0]) by {
          assert x[1..] == [];
        }
      }
    }
  }

  /**
   * A cleaned subgroup name is the header name with each '&' spelled "and"
   * and each space spelled '-', everything else kept; so it holds no '&'
   * and no space.
   */
  lemma CleanSubgroupSpec(line: string)
    ensures CleanSubgroup(line) == Spell(HeaderName(line))
    ensures '&' !in CleanSubgroup(line) && ' ' !in CleanSubgroup(line)
  {
    var a := ReplaceAll(HeaderName(line), "&", "and");
    ReplaceAllOneChar(HeaderName(line), '&', "and");
    ReplaceAllOneChar(a, ' ', "-");
    SubstituteTwice(HeaderName(line));
    ReplaceAllRemovesChar(HeaderName(line), '&', "and");
    ReplaceAllRemovesChar(a, ' ', "-");
    ReplaceAllChars(a, " ", "-");
  }

  /** What the loop carries from line to line: the subgroup (none before the first header) and the records so far. */
  datatype ScanState = ScanState(current: Option<string>, records: seq<EmojiData>)

  /** One iteration of the loop. */
  function Step(st: ScanState, line: string): (r: Result<ScanState, Error>)
    ensures IsHeader(line) ==> r == Ok(ScanState(Some(CleanSubgroup(line)), st.records))
    ensures !IsHeader(line) && r.Ok? ==> r.value.current == st.current
    ensures r.Ok? ==> st.records <= r.value.records && |r.value.records| <= |st.records| + 1
    ensures st.current.None? ==> r.Ok? && r.value.records == st.records
  {
    if IsHeader(line) then Ok(ScanState(Some(CleanSubgroup(line)), st.records))
    else if st.current.None? then Ok(st)
    else
      match ParseData(line, st.current.value)
      case Err(e) => Err(e)
      case Ok(recs) => Ok(ScanState(st.current, st.records + recs))
  }

  /** The loop over `lines` from state `st`, stopping at the first failure. */
  function Run(st: ScanState, lines: seq<string>): Result<ScanState, Error>
    decreases |lines|
  {
    if lines == [] then Ok(st)
    else
      match Run(st, lines[..|lines| - 1])
      case Err(e) => Err(e)
      case Ok(t) => Step(t, lines[|lines| - 1])
  }

  function Scan(lines: seq<string>): Result<ScanState, Error> {
    Run(ScanState(None, []), lines)
  }

  /** Running over two blocks of lines is running over the first, then the second. */
  lemma {:induction false} RunAppend(st: ScanState, a: seq<string>, b: seq<string>)
    ensures Run(st, a + b) == match Run(st, a) case Err(e) => Err(e) case Ok(t) => Run(t, b)
    decreases |b|
  {
    if b == [] {
      assert a + b == a;
    } else {
      var b' := b[..|b| - 1];
      assert (a + b)[..|a + b| - 1] == a + b';
      RunAppend(st, a, b');
    }
  }

  predicate NoHeader(lines: seq<string>) {
    forall i :: 0 <= i < |lines| ==> !IsHeader(lines[i])
  }

  /** Data lines before the first header yield nothing and cannot fail. */
  lemma {:induction false} RunBeforeFirstHeader(st: ScanState, lines: seq<string>)
    requires st.current.None? && NoHeader(lines)
    ensures Run(st, lines) == Ok(st)
    decreases |lines|
  {
    if lines != [] {
      RunBeforeFirstHeader(st, lines[..|lines| - 1]);
    }
  }

  /** Number of lines that pass the filter. */
  function CountAccepted(lines: seq<string>): nat
    decreases |lines|
  {
    if lines == [] then 0
    else CountAccepted(lines[..|lines| - 1]) + if IsHeader(lines[|lines| - 1]) || IsSkipped(lines[|lines| - 1]) then 0 else 1
  }

  /** The records that `lines` yield under subgroup `c`, in line order. */
  function Records(lines: seq<string>, c: string): seq<EmojiData>
    decreases |lines|
  {
    if lines == [] then []
    else
      Records(lines[..|lines| - 1], c)
      + match ParseData(lines[|lines| - 1], c)
        case Ok(recs) => recs
        case Err(_) => []
  }

  /**
   * Under a subgroup, lines without a header keep that subgroup, keep the
   * earlier records in place, and add one record per accepted line, in line
   * order, each carrying the subgroup.
   */
  lemma {:induction false} RunUnderHeader(st: ScanState, lines: seq<string>, c: string)
    requires st.current == Some(c) && NoHeader(lines) && Run(st, lines).Ok?
    ensures var t := Run(st, lines).value;
      t.current == Some(c) && t.records == st.records + Records(lines, c)
      && |t.records| == |st.records| + CountAccepted(lines)
      && forall i :: |st.records| <= i < |t.records| ==> t.records[i].Subgroup == c
    decreases |lines|
  {
    if lines != [] {
      var p := lines[..|lines| - 1];
      var line := lines[|lines| - 1];
      RunUnderHeader(st, p, c);
      var u := Run(st, p).value;
      var t := Run(st, lines).value;
      assert Step(u, line) == Ok(t);
      assert ParseData(line, c).Ok?;
      assert t.records == u.records + ParseData(line, c).value;
      AppendAssoc(st.records, Records(p, c), ParseData(line, c).value);
    }
  }

  /**
   * After a header line, every record the following header-free lines
   * produce carries that header's cleaned name, one per accepted line.
   */
  lemma HeaderThenData(before: seq<string>, header: string, lines: seq<string>)
    requires IsHeader(header) && NoHeader(lines) && Scan(before + [header] + lines).Ok?
    ensures Scan(before).Ok?
    ensures var n := |Scan(before).value.records|;
      var t := Scan(before + [header] + lines).value;
      t.records == Scan(before).value.records + Records(lines, CleanSubgroup(header))
      && |t.records| == n + CountAccepted(lines)
      && forall i :: n <= i < |t.records| ==> t.records[i].Subgroup == CleanSubgroup(header)
  {
    var init := ScanState(None, []);
    RunAppend(init, before + [header], lines);
    RunAppend(init, before, [header]);
    assert Run(init, before).Ok?;
    var s0 := Run(init, before).value;
    assert Run(s0, [header]) == Step(s0, header);
    var s1 := ScanState(Some(CleanSubgroup(header)), s0.records);
    RunUnderHeader(s1, lines, CleanSubgroup(header));
  }

  // ---- generateAlfredSnippetJSON ----

  /** The alfredsnippet object of one JSON file. */
  datatype AlfredSnippet = AlfredSnippet(Snippet: string, UID: string, Name: string, Keyword: string)

  /** One file to write and pack: its path and its content. */
  datatype SnippetFile = SnippetFile(Path: string, Content: AlfredSnippet)

  /**
   * The fields of the snippet: the glyph, the id, "(<subgroup>) <description>"
   * as the name and the description as the keyword.
   */
  function GenerateAlfredSnippet(emoji: EmojiData, emojiChar: string, uid: string): (s: AlfredSnippet)
    ensures s.Snippet == emojiChar && s.UID == uid && s.Keyword == emoji.Description
    ensures s.Name == "(" + emoji.Subgroup + ") " + s.Keyword
  {
    AlfredSnippet(emojiChar, uid, "(" + emoji.Subgroup + ") " + emoji.Description, emoji.Description)
  }

  /** The JSON file name: build/<description> [<uid>].json */
  function SnippetFileName(description: string, uid: string): (p: string)
    ensures |p| == |description| + |uid| + 14
    ensures p[..6] == "build/" && p[6..6 + |description|] == description
    ensures p[6 + |description|..8 + |description|] == " [" && p[8 + |description|..|p| - 6] == uid
    ensures p[|p| - 6..] == "].json"
  {
    "build/" + description + " [" + uid + "].json"
  }

  function SnippetFileFor(emoji: EmojiData, uid: string): SnippetFile {
    SnippetFile(SnippetFileName(emoji.Description, uid), GenerateAlfredSnippet(emoji, emoji.Emoji, uid))
  }

  /** The files for the records, the i-th record getting the i-th generated id. */
  function SnippetFiles(records: seq<EmojiData>, uid: nat -> string): (fs: seq<SnippetFile>)
    ensures |fs| == |records|
    ensures forall i :: 0 <= i < |records| ==> fs[i] == SnippetFileFor(records[i], uid(i))
  {
    seq(|records|, i requires 0 <= i < |records| => SnippetFileFor(records[i], uid(i)))
  }

  lemma SnippetFilesSnoc(records: seq<EmojiData>, x: EmojiData, uid: nat -> string)
    ensures SnippetFiles(records + [x], uid) == SnippetFiles(records, uid) + [SnippetFileFor(x, uid(|records|))]
  {
  }

  /** One more line is one more step. */
  lemma ScanSnoc(lines: seq<string>, i: nat, st: ScanState)
    requires i < |lines| && Scan(lines[..i]) == Ok(st)
    ensures Scan(lines[..i + 1]) == Step(st, lines[i])
  {
    assert lines[..i + 1][..i] == lines[..i];
  }

  /**
   * The inner loop of main: one snippet file per new record, each under the
   * next generated id, appended after the files already made.
   */
  method WriteSnippets(files: seq<SnippetFile>, ghost records: seq<EmojiData>, recs: seq<EmojiData>, uid: nat -> string)
    returns (filesToZip: seq<SnippetFile>)
    requires files == SnippetFiles(records, uid)
    ensures filesToZip == SnippetFiles(records + recs, uid)
  {
    filesToZip := files;
    for j := 0 to |recs|
      invariant filesToZip == SnippetFiles(records + recs[..j], uid)
    {
      var emoji := recs[j];
      var id := uid(|filesToZip|);
      var fileName := SnippetFileName(emoji.Description, id);
      var snippet := GenerateAlfredSnippet(emoji, emoji.Emoji, id);
      filesToZip := filesToZip + [SnippetFile(fileName, snippet)];
      assert records + recs[..j + 1] == (records + recs[..j]) + [emoji];
      SnippetFilesSnoc(records + recs[..j], emoji, uid);
    }
    assert recs[..|recs|] == recs;
  }

  /** What the whole loop of main produces: the files to pack, in line order. */
  function Pack(lines: seq<string>, uid: nat -> string): Result<seq<SnippetFile>, Error> {
    match Scan(lines)
    case Err(e) => Err(e)
    case Ok(st) => Ok(SnippetFiles(st.records, uid))
  }

  /** A failure ends the scan: later lines are not read. */
  lemma PackStopsAt(lines: seq<string>, i: nat, uid: nat -> string, e: Error)
    requires i <= |lines| && Scan(lines[..i]) == Err(e)
    ensures Pack(lines, uid) == Err(e)
  {
    RunAppend(ScanState(None, []), lines[..i], lines[i..]);
    assert lines[..i] + lines[i..] == lines;
  }

  /**
   * The loop of main (package mode): header lines replace the current
   * subgroup pointer, other lines are parsed once a subgroup is known, and
   * each record becomes one snippet file, written under the next generated
   * id. `uid(n)` stands for the n-th value of generateUID.
   */
  method GenerateSnippets(lines: seq<string>, uid: nat -> string) returns (r: Result<seq<SnippetFile>, Error>)
    ensures r == Pack(lines, uid)
  {
    var filesToZip: seq<SnippetFile> := [];
    var currentSubgroup: StringRef? := null;
    ghost var st := ScanState(None, []);
    for i := 0 to |lines|
      invariant Scan(lines[..i]) == Ok(st)
      invariant (currentSubgroup == null) == st.current.None?
      invariant currentSubgroup != null ==> fresh(currentSubgroup) && st.current == Some(currentSubgroup.value)
      invariant filesToZip == SnippetFiles(st.records, uid)
    {
      var line := lines[i];
      ScanSnoc(lines, i, st);
      if HasPrefix(line, SubgroupMarker) {
        var subgroup := TrimSpace(TrimPrefix(line, SubgroupMarker));
        subgroup := ReplaceAll(subgroup, "&", "and");
        subgroup := ReplaceAll(subgroup, " ", "-");
        currentSubgroup := new StringRef(subgroup);
        assert Step(st, line) == Ok(ScanState(Some(subgroup), st.records));
        st := ScanState(Some(subgroup), st.records);
      } else if currentSubgroup != null {
        var emojiData := ParseEmojiLine(line, currentSubgroup);
        if emojiData.Err? {
          assert Step(st, line) == Err(emojiData.error);
          PackStopsAt(lines, i + 1, uid, emojiData.error);
          return Err(emojiData.error);
        }
        var recs := emojiData.value;
        assert Step(st, line) == Ok(ScanState(st.current, st.records + recs));
        filesToZip := WriteSnippets(filesToZip, st.records, recs, uid);
        st := ScanState(st.current, st.records + recs);
      } else {
        assert Step(st, line) == Ok(st);
      }
    }
    assert lines[..|lines|] == lines;
    return Ok(filesToZip);
  }
}

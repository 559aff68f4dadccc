/**
 * The emoji-sequences.txt reader (main.go): the line parser that splits a
 * line into fields and pairs the code-point pieces of a range with the
 * description pieces, and the conversion of a code-point field to runes.
 *
 * A line of emoji-sequences.txt reads
 *     1F1E6 1F1E8 ; RGI_Emoji_Flag_Sequence ; flag: Ascension Island # E2.0 [1] (🇦🇨)
 * and a range line
 *     231A..231B ; Basic_Emoji ; watch..hourglass done # E0.6 [2] (⌚..⌛)
 */
module EmojiSequences {

  import opened GoStrings
  import GoStrconv

  /** EmojiData */
  datatype EmojiData = EmojiData(CodePoint: string, Description: string)

  function Min(a: int, b: int): int {
    if a < b then a else b
  }

  // ---- parseEmojiLine ----

  /** The ';'-separated fields of a line. */
  function LineFields(line: string): (r: seq<string>)
    ensures |r| >= 1
  {
    Split(line, ";")
  }

  /** The first field, trimmed: one code point, a sequence, or a range A..B. */
  function CodePointField(line: string): string {
    TrimSpace(LineFields(line)[0])
  }

  /** The third field up to its first '#', trimmed. */
  function DescriptionField(line: string): string
    requires |LineFields(line)| >= 3
  {
    TrimSpace(Split(LineFields(line)[2], "#")[0])
  }

  function CodePointPieces(line: string): seq<string> {
    Split(CodePointField(line), "..")
  }

  function DescriptionPieces(line: string): seq<string>
    requires |LineFields(line)| >= 3
  {
    Split(DescriptionField(line), "..")
  }

  /**
   * parseEmojiLine: nothing for a line of fewer than three fields; otherwise
   * the i-th code-point piece paired with the i-th description piece, as many
   * records as the shorter of the two lists has pieces.
   */
  method ParseEmojiLine(line: string) returns (emojis: seq<EmojiData>)
    ensures |LineFields(line)| < 3 ==> emojis == []
    ensures |LineFields(line)| >= 3 ==>
      |emojis| == Min(|CodePointPieces(line)|, |DescriptionPieces(line)|)
      && forall i :: 0 <= i < |emojis| ==>
           emojis[i] == EmojiData(CodePointPieces(line)[i], DescriptionPieces(line)[i])
  {
    var parts := LineFields(line);
    if |parts| < 3 {
      return [];
    }
    var codePointsSplit := CodePointPieces(line);
    var descriptionsSplit := DescriptionPieces(line);
    emojis := PairPieces(codePointsSplit, descriptionsSplit);
  }

  /**
   * The pairing loop of parseEmojiLine: the i-th code point with the i-th
   * description, stopping at the end of the shorter list.
   */
  method PairPieces(codePointsSplit: seq<string>, descriptionsSplit: seq<string>) returns (emojis: seq<EmojiData>)
    ensures |emojis| == Min(|codePointsSplit|, |descriptionsSplit|)
    ensures forall i :: 0 <= i < |emojis| ==> emojis[i] == EmojiData(codePointsSplit[i], descriptionsSplit[i])
  {
    emojis := [];
    for i := 0 to |codePointsSplit|
      invariant |emojis| == Min(i, |descriptionsSplit|)
      invariant forall j :: 0 <= j < |emojis| ==> emojis[j] == EmojiData(codePointsSplit[j], descriptionsSplit[j])
    {
      if i < |descriptionsSplit| {
        emojis := emojis + [EmojiData(codePointsSplit[i], descriptionsSplit[i])];
      }
    }
  }

  /**
   * The description is the third field cut at its first '#' and trimmed, so
   * it holds no '#'; its '..'-pieces join back to it.
   */
  lemma DescriptionFieldSpec(line: string)
    requires |LineFields(line)| >= 3
    ensures var f := LineFields(line)[2];
      DescriptionField(line) == TrimSpace(if '#' in f then f[..IndexRune(f, '#')] else f)
    ensures '#' !in DescriptionField(line)
    ensures Join(DescriptionPieces(line), "..") == DescriptionField(line)
  {
    var f := LineFields(line)[2];
    SplitFirstPiece(f, '#');
    IndexRuneIsFirst(f, '#');
    var piece := Split(f, "#")[0];
    assert '#' !in piece;
    TrimSpaceChars(piece);
    JoinSplitN(DescriptionField(line), "..", -1);
  }

  /** A string without a ';' is one field. */
  lemma OneField(a: string)
    requires ';' !in a
    ensures Split(a, ";") == [a]
  {
    IndexMissingFirstChar(a, ";");
    SplitWithoutSep(a, ";");
  }

  /** Three fields without ';' joined by ';' are the fields of the line. */
  lemma ThreeFields(a: string, b: string, c: string)
    requires ';' !in a && ';' !in b && ';' !in c
    ensures LineFields(a + ";" + b + ";" + c) == [a, b, c]
  {
    OneField(c);
    SplitAfterFirst(b, c, ';');
    SplitAfterFirst(a, b + ";" + c, ';');
    assert a + ";" + b + ";" + c == a + [';'] + (b + ";" + c);
  }

  /** A line of three fields and more: the three, then the fields of the rest. */
  lemma MoreFields(a: string, b: string, c: string, rest: string)
    requires ';' !in a && ';' !in b && ';' !in c
    ensures LineFields(a + ";" + b + ";" + c + ";" + rest) == [a, b, c] + Split(rest, ";")
  {
    ThreeFields(a, b, c);
    SplitConcat(a + ";" + b + ";" + c, rest, ';');
  }

  /** Fields after the third change neither the code points nor the description. */
  lemma ExtraFieldsIgnored(a: string, b: string, c: string, rest: string)
    requires ';' !in a && ';' !in b && ';' !in c
    ensures var short := a + ";" + b + ";" + c;
      var long := short + ";" + rest;
      |LineFields(short)| == 3 && |LineFields(long)| >= 3
      && CodePointField(long) == CodePointField(short) && DescriptionField(long) == DescriptionField(short)
  {
    ThreeFields(a, b, c);
    MoreFields(a, b, c, rest);
  }

  /** Without '..' in either field a line gives exactly one code point and one description. */
  lemma SinglePieces(line: string)
    requires |LineFields(line)| >= 3
    requires !Contains(CodePointField(line), "..") && !Contains(DescriptionField(line), "..")
    ensures CodePointPieces(line) == [CodePointField(line)]
    ensures DescriptionPieces(line) == [DescriptionField(line)]
    ensures Min(|CodePointPieces(line)|, |DescriptionPieces(line)|) == 1
  {
    SplitWithoutSep(CodePointField(line), "..");
    SplitWithoutSep(DescriptionField(line), "..");
  }

  /** ".." cannot occur in a string whose only '.' is its last character. */
  lemma NoDoubleDot(a: string)
    requires '.' !in a
    ensures !Contains(a, "..") && !Contains(a + ".", "..")
  {
    IndexMissingFirstChar(a, "..");
    var w := a + ".";
    forall j | 0 <= j ensures !OccursAt(w, "..", j) {
      if j + 2 <= |w| {
        assert w[j..j + 2][0] == w[j];
        assert w[j] == '.' ==> j == |a|;
      }
    }
  }

  /**
   * A range A..B gives its two endpoints as written and nothing in between:
   * the code points of the range are not enumerated.
   */
  lemma RangeEndpoints(line: string, a: string, b: string)
    requires CodePointField(line) == a + ".." + b && '.' !in a && '.' !in b
    ensures CodePointPieces(line) == [a, b]
  {
    NoDoubleDot(a);
    NoDoubleDot(b);
    assert ".."[..1] == ".";
    SplitTwoPieces(a, b, "..");
  }

  // ---- convertCodePointToEmoji ----

  /** A Unicode scalar value: what Go's string(rune) encodes as itself. */
  predicate IsScalar(v: int) {
    0 <= v < 0xD800 || 0xE000 <= v < 0x11_0000
  }

  /** Go's conversion of one rune: an invalid code point becomes U+FFFD. */
  function RuneToChar(v: int): char {
    if IsScalar(v) then v as char else '\U{FFFD}'
  }

  /** string(runes) at the level of runes. */
  function RunesToString(runes: seq<int>): (s: string)
    ensures |s| == |runes|
  {
    seq(|runes|, i requires 0 <= i < |runes| => RuneToChar(runes[i]))
  }

  /** Every character converts back to itself; nothing else converts to a scalar other than U+FFFD. */
  lemma RuneToCharSpec(v: int, c: char)
    ensures RuneToChar(c as int) == c
    ensures RuneToChar(v) as int == v || RuneToChar(v) == '\U{FFFD}'
    ensures RuneToChar(v) == '\U{FFFD}' ==> v == 0xFFFD || !IsScalar(v)
  {
  }

  /** The values of the tokens that parse, in token order (prefix form of the loop). */
  function ParsedRunes(tokens: seq<string>): seq<int>
    decreases |tokens|
  {
    if tokens == [] then []
    else
      ParsedRunes(tokens[..|tokens| - 1])
      + match GoStrconv.ParseInt(tokens[|tokens| - 1])
        case Ok(v) => [v]
        case Err(_) => []
  }

  /**
   * convertCodePointToEmoji: the runes of the whitespace-separated tokens
   * that parse as signed 32-bit hexadecimal numbers, in order; other tokens
   * are skipped.
   */
  method ConvertCodePointToEmoji(codePointStr: string) returns (r: string)
    ensures r == RunesToString(ParsedRunes(Fields(codePointStr)))
    ensures |r| <= |Fields(codePointStr)|
  {
    var emojiRunes: seq<int> := [];
    var codePoints := Fields(codePointStr);
    for i := 0 to |codePoints|
      invariant emojiRunes == ParsedRunes(codePoints[..i])
      invariant |emojiRunes| <= i
    {
      var cp := codePoints[i];
      assert codePoints[..i + 1][..i] == codePoints[..i];
      var runeValue := GoStrconv.ParseInt(cp);
      if runeValue.Err? {
        continue;
      }
      emojiRunes := emojiRunes + [runeValue.value];
    }
    assert codePoints[..|codePoints|] == codePoints;
    return RunesToString(emojiRunes);
  }

  lemma {:induction false} ParsedRunesAppend(a: seq<string>, b: seq<string>)
    ensures ParsedRunes(a + b) == ParsedRunes(a) + ParsedRunes(b)
    decreases |b|
  {
    if b == [] {
      assert a + b == a;
    } else {
      var b' := b[..|b| - 1];
      assert (a + b)[..|a + b| - 1] == a + b';
      ParsedRunesAppend(a, b');
    }
  }

  /** A token that does not parse contributes nothing, wherever it stands. */
  lemma SkipsInvalidToken(a: seq<string>, t: string, b: seq<string>)
    requires GoStrconv.ParseInt(t).Err?
    ensures ParsedRunes(a + [t] + b) == ParsedRunes(a + b)
  {
    ParsedRunesAppend(a + [t], b);
    ParsedRunesAppend(a, [t]);
    ParsedRunesAppend(a, b);
    assert [t][..0] == [];
  }

  /** A token that parses contributes its value, in its place. */
  lemma KeepsValidToken(a: seq<string>, t: string, b: seq<string>)
    requires GoStrconv.ParseInt(t).Ok?
    ensures ParsedRunes(a + [t] + b) == ParsedRunes(a) + [GoStrconv.ParseInt(t).value] + ParsedRunes(b)
  {
    ParsedRunesAppend(a + [t], b);
    ParsedRunesAppend(a, [t]);
    assert [t][..0] == [];
  }

  /** When every token parses there is one rune per token, in token order. */
  lemma {:induction false} AllTokensValid(tokens: seq<string>)
    requires forall i :: 0 <= i < |tokens| ==> GoStrconv.ParseInt(tokens[i]).Ok?
    ensures |ParsedRunes(tokens)| == |tokens|
    ensures forall i :: 0 <= i < |tokens| ==> ParsedRunes(tokens)[i] == GoStrconv.ParseInt(tokens[i]).value
    decreases |tokens|
  {
    if tokens != [] {
      var p := tokens[..|tokens| - 1];
      AllTokensValid(p);
    }
  }

  /** Empty or all-white-space input gives the empty string. */
  lemma BlankGivesEmpty(s: string)
    requires forall i :: 0 <= i < |s| ==> IsSpace(s[i])
    ensures RunesToString(ParsedRunes(Fields(s))) == ""
  {
    FieldsOfBlank(s);
  }
}

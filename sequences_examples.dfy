/**
 * Worked examples of the emoji-sequences.txt reader: a sample data line,
 * a token that is not a code point, and a two-rune flag sequence.
 */
module EmojiSequencesExamples {

  import opened GoStrings
  import GoStrconv
  import opened EmojiSequences

  lemma SampleSplitsAtSemicolons(line: string)
    requires line == "1F600 ; Emoji ; grinning face # x"
    ensures line == "1F600 " + ";" + " Emoji " + ";" + " grinning face # x"
  {
  }

  lemma SampleFieldsHaveNoSemicolon(a: string, b: string, c: string)
    requires a == "1F600 " && b == " Emoji " && c == " grinning face # x"
    ensures ';' !in a && ';' !in b && ';' !in c
  {
  }

  lemma SampleFields(line: string)
    requires line == "1F600 ; Emoji ; grinning face # x"
    ensures LineFields(line) == ["1F600 ", " Emoji ", " grinning face # x"]
  {
    SampleSplitsAtSemicolons(line);
    SampleFieldsHaveNoSemicolon("1F600 ", " Emoji ", " grinning face # x");
    ThreeFields("1F600 ", " Emoji ", " grinning face # x");
  }

  lemma SampleComment(c: string)
    requires c == " grinning face # x"
    ensures Split(c, "#")[0] == " grinning face "
  {
    assert c == " grinning face " + ['#'] + " x";
    SplitAfterFirst(" grinning face ", " x", '#');
  }

  lemma SampleCodePoint(a: string)
    requires a == "1F600 "
    ensures TrimSpace(a) == "1F600" && !Contains(TrimSpace(a), "..")
  {
    TrimSpaceExact(a, 0, 5);
    IndexMissingFirstChar("1F600", "..");
  }

  lemma SampleDescription(d: string)
    requires d == " grinning face "
    ensures TrimSpace(d) == "grinning face" && !Contains(TrimSpace(d), "..")
  {
    assert d[0] == ' ' && d[1] == 'g' && d[13] == 'e' && d[14] == ' ' && |d| == 15;
    TrimSpaceExact(d, 1, 14);
    SampleDescriptionHasNoDot(d[1..14]);
  }

  lemma SampleDescriptionHasNoDot(t: string)
    requires t == "grinning face"
    ensures !Contains(t, "..")
  {
    assert '.' !in t;
    IndexMissingFirstChar(t, "..");
  }

  /** The sample data line "1F600 ; Emoji ; grinning face # x" gives one code point and one description. */
  lemma SampleLine(line: string)
    requires line == "1F600 ; Emoji ; grinning face # x"
    ensures |LineFields(line)| == 3
    ensures CodePointPieces(line) == ["1F600"] && DescriptionPieces(line) == ["grinning face"]
  {
    SampleFields(line);
    SampleCodePoint(LineFields(line)[0]);
    SampleComment(LineFields(line)[2]);
    SampleDescription(Split(LineFields(line)[2], "#")[0]);
    SinglePieces(line);
  }

  /** "ZZZZ" is one token that does not parse, so nothing comes out. */
  lemma InvalidTokenGivesEmpty()
    ensures RunesToString(ParsedRunes(Fields("ZZZZ"))) == ""
  {
    FieldsOfWord("ZZZZ");
    GoStrconv.ParseIntSpec("ZZZZ");
    assert !GoStrconv.IsHexDigit("ZZZZ"[0]);
  }

  /** The regional indicators U and S, written in hexadecimal, parse to their code points. */
  lemma HexOfFlagLetters()
    ensures GoStrconv.ParseInt("1F1FA") == Ok(0x1F1FA)
    ensures GoStrconv.ParseInt("1F1F8") == Ok(0x1F1F8)
  {
    FormatFlagLetters();
    GoStrconv.ParseFormatRoundTrip(0x1F1FA);
    GoStrconv.ParseFormatRoundTrip(0x1F1F8);
  }

  lemma FormatFlagLetters()
    ensures GoStrconv.FormatHex(0x1F1FA) == "1F1FA" && GoStrconv.FormatHex(0x1F1F8) == "1F1F8"
  {
    FormatCommonPrefix();
    assert GoStrconv.HexChar(10) == 'A' && GoStrconv.HexChar(8) == '8';
    assert GoStrconv.FormatHexNat(0x1F1FA) == "1F1F" + ['A'];
    assert GoStrconv.FormatHexNat(0x1F1F8) == "1F1F" + ['8'];
  }

  lemma FormatCommonPrefix()
    ensures GoStrconv.FormatHexNat(0x1F1F) == "1F1F"
  {
    assert GoStrconv.HexChar(1) == '1' && GoStrconv.HexChar(15) == 'F';
    assert GoStrconv.FormatHexNat(1) == "1";
    assert GoStrconv.FormatHexNat(0x1F) == "1" + ['F'];
    assert GoStrconv.FormatHexNat(0x1F1) == "1F" + ['1'];
    assert GoStrconv.FormatHexNat(0x1F1F) == "1F1" + ['F'];
  }

  lemma FlagTokens(s: string)
    requires s == "1F1FA 1F1F8"
    ensures Fields(s) == ["1F1FA", "1F1F8"]
  {
    FlagTokenWords(s);
    FieldsCons("1F1FA", ' ', "1F1F8");
    FieldsOfWord("1F1F8");
  }

  lemma FlagTokenWords(s: string)
    requires s == "1F1FA 1F1F8"
    ensures s == "1F1FA" + [' '] + "1F1F8"
    ensures forall k :: 0 <= k < |"1F1FA"| ==> !IsSpace("1F1FA"[k])
    ensures forall k :: 0 <= k < |"1F1F8"| ==> !IsSpace("1F1F8"[k])
  {
  }

  /** "1F1FA 1F1F8" (the regional indicators U and S) gives those two runes. */
  lemma FlagGivesTwoRunes(s: string)
    requires s == "1F1FA 1F1F8"
    ensures RunesToString(ParsedRunes(Fields(s))) == "\U{1F1FA}\U{1F1F8}"
  {
    FlagTokens(s);
    HexOfFlagLetters();
    var tokens := Fields(s);
    AllTokensValid(tokens);
    var runes := ParsedRunes(tokens);
    assert runes == [0x1F1FA, 0x1F1F8];
  }
}

# alfredmoji, modelled in Dafny

alfredmoji turns the Unicode emoji data files into an Alfred snippet pack.
This project models the two line readers at its core and proves what they
compute.

- **emoji-test.txt reader** (`src/main.go`):
  - `parseEmojiLine` filters lines, cuts out the annotation text after the
    first `;`, and hands it to `extractDescriptionAndEmoji`.
  - `extractDescriptionAndEmoji` matches the regular expression
    `^\s+(.+) E\d+\.\d+ (.+)` and normalises the description.
  - The line loop of `main` tracks the current `# subgroup:` header.
  - Each record becomes one snippet file, whose fields are set by
    `generateAlfredSnippetJSON`.
- **emoji-sequences.txt reader** (`main.go`):
  - `parseEmojiLine` splits a line into `;`-fields. It pairs the `..`-pieces
    of the code-point field with those of the description.
  - `convertCodePointToEmoji` parses whitespace-separated hexadecimal tokens
    into runes.

Modules:

| file | module | what it holds |
|---|---|---|
| `go_strings.dfy` | `GoStrings` | the `strings` functions the readers call, on strings as sequences of runes, with reference definitions (`NonSpace`, `IsLayout`, `Substitute`) they are proved against |
| `go_strconv.dfy` | `GoStrconv` | `strconv.ParseInt(s, 16, 32)`, with a reference definition of hexadecimal literals and a formatter as its inverse |
| `annotation_regex.dfy` | `AnnotationRegex` | the one regular expression, as a match predicate `IsMatch`, and `Match`, the match Go's leftmost-first semantics reports |
| `emoji_test.dfy` | `EmojiTest` | the emoji-test.txt reader (`ExtractDescriptionAndEmoji`, `AnnotationText`, `ParseData`, `ParseEmojiLine`), the subgroup-tracking loop (`CleanSubgroup`, `Step`, `GenerateSnippets`), the snippet fields |
| `emoji_sequences.dfy` | `EmojiSequences` | the emoji-sequences.txt reader and the rune conversion (`ConvertCodePointToEmoji`, specified by `ParsedRunes`) |
| `sequences_examples.dfy` | `EmojiSequencesExamples` | worked inputs for the emoji-sequences.txt reader |

How the Go code is rendered:

- The `*string` subgroup pointer is a class, `StringRef`. `parseEmojiLine`
  writes through it, so its method has a `modifies` clause.
- The loops are methods, each proved against a functional definition:
  - the line loop of `main` against a fold (`Scan`, `Pack`);
  - the pairing loop against its element-wise result;
  - the rune loop against `ParsedRunes`.
- The Go run-time failure `strings.Split(parts[1], "#")[1]` is index out of
  range when no `#` follows the first `;`. It is modelled as
  `Err(IndexOutOfRange)`, which ends the loop the way the panic ends the
  program.

## Model

| member | source | states |
|---|---|---|
| GoStrings.TrimSpace | src/main.go:131 | the result starts and ends with a non-space; it is the slice that follows the leading white space; everything after it is white space |
| GoStrings.ReplaceCharPointwise | src/main.go:134 | replacing one character by another keeps the length and changes exactly the positions that held it, so runs of spaces are not collapsed |
| GoStrings.ReplaceAllOneChar | src/main.go:281-282 | replacing a one-character pattern equals substituting the replacement for each occurrence of that character, character by character, every other character kept |
| GoStrings.ReplaceAllRemovesChar | src/main.go:135-136 | after replacing a character by text not containing it, the character no longer occurs |
| GoStrings.JoinSplitN | main.go:49-50 | joining the pieces of a split with the separator gives back the input |
| GoStrings.SplitPiecesHaveNoSep | main.go:49-50 | no piece of an unlimited split contains the separator |
| GoStrings.SplitConcat | main.go:38 | splitting at a one-character separator distributes over concatenation at an occurrence of it |
| GoStrings.FieldsSpec | main.go:70 | every field is non-empty and free of white space, and the fields concatenate to the input with its white space removed |
| GoStrings.FieldsLayout | main.go:70 | the input is its fields, in order, with white space around them: any amount at either end, at least one white-space character between two fields |
| GoStrings.LayoutFields | main.go:70 | any way of laying out the input as words in that form has exactly the fields as its words, so `Fields` splits around each run of white space and nowhere else |
| GoStrconv.ParseInt | main.go:72 | any value returned lies in the signed 32-bit range |
| GoStrconv.ParseIntSpec | main.go:72 | parsing succeeds exactly for an optional sign followed by one or more hex digits of either case whose value fits 32 signed bits, and then returns that value |
| GoStrconv.ParseFormatRoundTrip | main.go:72 | every signed 32-bit value, written in hexadecimal, parses back to itself |
| AnnotationRegex.MatchSpec | src/main.go:126-127 | `Match` (the model of `FindStringSubmatch`) finds a match exactly when the pattern matches somewhere; the one it reports is preferred over every other: longest leading white space, then longest group 1, then longest group 2 |
| AnnotationRegex.MatchIsPreferred | src/main.go:126-127 | a match preferred over all others is the one reported |
| AnnotationRegex.TokenEnd | src/main.go:126 | the version token ` E<digits>.<digits> ` at a position, when there is one, and it is unique |
| EmojiTest.NormalizeRemoves | src/main.go:134-140 | whatever list of strings is deleted, the cleaned description has no space and none of the one-character deletion strings |
| EmojiTest.DescriptionIsClean | src/main.go:134-136 | the cleaned description holds no space, comma or colon |
| EmojiTest.CurlyQuotesRemoved | src/main.go:134-140 | with the four quote literals read as the curly quotes U+2019, U+2018, U+201C and U+201D, none of them is left either |
| EmojiTest.PlainDescription | src/main.go:134 | a description of ordinary characters and spaces comes out with each space turned into its own hyphen and nothing else changed |
| EmojiTest.QuoteLiteralSurvives | src/main.go:137-140 | with the quote literals exactly as they stand (three characters each), deleting the second one out of the middle of an input forms the first, which stays in the result |
| EmojiTest.ExtractNeedsLeadingSpace | src/main.go:126-145 | input that does not start with white space gives `("", "")` |
| EmojiTest.ExtractNeedsVersionToken | src/main.go:126-145 | input with no version token followed by at least one more character on its line gives `("", "")` |
| EmojiTest.ExtractOnMatch | src/main.go:124-146 | `ExtractDescriptionAndEmoji`: on the reported match, the emoji is group 1 trimmed and the description is group 2 cleaned |
| EmojiTest.AnnotationTextSpec | src/main.go:165-167 | `AnnotationText`, the annotation, fails exactly when no `#` follows the first `;`; otherwise it is the text after the first such `#` up to the next `#` or the end of the line |
| EmojiTest.ParseData | src/main.go:156-178 | a filtered-out line yields nothing; any other line fails exactly when no `#` follows its first `;`, and otherwise yields exactly one record with the current subgroup, with empty emoji and description when the annotation does not match |
| EmojiTest.ParseEmojiLine | src/main.go:149-179 | a header line sets the pointed-to subgroup to the trimmed header name and yields nothing; any other line leaves the subgroup alone and yields what `ParseData` gives |
| EmojiTest.CleanSubgroupSpec | src/main.go:280-282 | `CleanSubgroup` spells the trimmed header name character by character: each `&` as `and`, each space as `-`, every other character kept; so it contains no `&` and no space |
| EmojiTest.Step | src/main.go:276-313 | a header sets the current subgroup to its cleaned name and adds no records; another line keeps the subgroup and adds at most one record after the earlier ones; before the first header, nothing is added and nothing can fail |
| EmojiTest.RunBeforeFirstHeader | src/main.go:287 | data lines before the first header produce no records and cannot fail |
| EmojiTest.RunUnderHeader | src/main.go:287-313 | under a subgroup, header-free lines append exactly `Records`: the records the lines yield, in line order, one per accepted line, each carrying that subgroup |
| EmojiTest.HeaderThenData | src/main.go:276-313 | after a header, the following header-free lines append exactly the records they yield under the header's cleaned name, in line order, one per accepted line |
| EmojiTest.GenerateAlfredSnippet | src/main.go:184-189 | the snippet is the emoji and the uid is the given id; the keyword is the description, and the name is `(` subgroup `) ` followed by the keyword |
| EmojiTest.SnippetFileName | src/main.go:299 | the file name reads `build/`, the description, ` [`, the uid, `].json`, each part recoverable at its position |
| EmojiTest.WriteSnippets | src/main.go:292-306 | the inner loop appends one file per new record, named and filled from that record and the next generated id |
| EmojiTest.PackStopsAt | src/main.go:167 | once a line fails, the whole run fails with that error |
| EmojiTest.GenerateSnippets | src/main.go:270-314 | the loop of `main` produces exactly the files of the fold over the lines, in line order, or the first failure |
| EmojiSequences.ParseEmojiLine | main.go:37-63 | fewer than three fields yield nothing; otherwise as many records as the shorter piece list, the i-th code-point piece with the i-th description piece |
| EmojiSequences.PairPieces | main.go:52-60 | the pairing loop yields the i-th code point with the i-th description, as many as the shorter list has |
| EmojiSequences.DescriptionFieldSpec | main.go:45-46 | the description is the third field cut at its first `#` and trimmed; it holds no `#`; its pieces join back to it |
| EmojiSequences.ThreeFields | main.go:38 | three `;`-free texts joined by `;` are exactly the fields of the line |
| EmojiSequences.ExtraFieldsIgnored | main.go:38-46 | fields after the third change neither the code points nor the description |
| EmojiSequences.SinglePieces | main.go:49-60 | without `..` in either field a line yields exactly one record |
| EmojiSequences.RangeEndpoints | main.go:49 | a range `A..B` yields its two endpoints as written, with nothing in between |
| EmojiSequences.RuneToCharSpec | main.go:79 | every valid code point converts to itself; an invalid one becomes U+FFFD |
| EmojiSequences.ConvertCodePointToEmoji | main.go:66-80 | the result is `ParsedRunes`: the runes of the tokens that parse, in token order, at most one per token |
| EmojiSequences.SkipsInvalidToken | main.go:72-75 | a token that does not parse contributes nothing, wherever it stands |
| EmojiSequences.KeepsValidToken | main.go:72-76 | a token that parses contributes its value, in its place |
| EmojiSequences.AllTokensValid | main.go:71-77 | when every token parses there is one rune per token, in token order |
| EmojiSequences.BlankGivesEmpty | main.go:70-79 | empty or all-white-space input gives the empty string |
| EmojiSequencesExamples.SampleLine | main.go:38-60 | `1F600 ; Emoji ; grinning face # x` has three fields and yields the single pair `1F600` and `grinning face` |
| EmojiSequencesExamples.InvalidTokenGivesEmpty | main.go:70-79 | `ZZZZ` gives the empty string |
| EmojiSequencesExamples.FlagGivesTwoRunes | main.go:70-79 | `1F1FA 1F1F8` gives the two regional-indicator runes U+1F1FA and U+1F1F8 |

## Left out

- `fetchEmojiData` (both files) is not part of this model. It does an HTTP GET, checks for a cache file, and reads and writes it. The lines are a parameter instead.
- `zipFiles`, `addFileToZip` and `generateInfoPlist` are not part of this model. They write archives and files.
- `generateUID` draws a random UUID. It becomes the parameter `uid`, where `uid(n)` is the id given to the n-th file.
- `json.Marshal`, `os.WriteFile`, `os.Mkdir` and `os.RemoveAll` are not modelled. Only the field values and file names are.
  - Every write is taken to succeed. The branch that prints an error and leaves a file out of the pack (src/main.go:302-303) is not modelled.
- Flag parsing, the display mode of `main` (src/main.go:307-311) and all `fmt.Printf` output are left out.
- The `main` of `main.go` (main.go:82-102) only prints, and is left out.
- `string(emojiRunes)` is modelled at the level of runes. The UTF-8 bytes are not modelled; an invalid rune becomes U+FFFD.
- EmojiTest.SnippetFileName: `filepath.Join` also cleans the path (`..`, repeated `/`). The model joins with a plain `/`. The two differ only for descriptions holding `/` or `..`.
- EmojiTest.DescriptionIsClean: it does not state that the four quote literals are gone, because as written they are not always gone.
  - As written (src/main.go:137-140), each literal is three characters (U+201A, U+00C4 and one more).
  - Deleting one can then join its neighbours into another literal; `QuoteLiteralSurvives` gives such an input.
  - These literals are the UTF-8 bytes of the curly quotes shown in the Mac OS Roman encoding. Under that reading each is one character, and `CurlyQuotesRemoved` proves all four are gone.
- EmojiTest.ParseEmojiLine: its header branch (src/main.go:150-154) is modelled. `main` never reaches it, because `main` handles header lines itself first (src/main.go:278). `GenerateSnippets` therefore calls it only on other lines.

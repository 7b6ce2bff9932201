# Card registry compiler, modelled in Dafny

The registry compiler (`tools/registry_compile.py`) reads the master markdown text of the
*Codex Abyssiae* deck and writes one JSON record per card. It works in these steps:

- It cuts the text at every newline that is followed by `##` and a whitespace character.
- It keeps the segments that start with `## `.
- For each kept block, it reads the card name from the first `## ` heading line.
- It reads the fields of the block with the unanchored search `-\s*KEY:\s*([^\n]+)`. A field is
  usually a line of the form `- KEY: value`, but the search starts at any `-`, even one inside a
  word (`- X-Ray: y` gives `Ray` the value `y`), and the first match in the block wins.
- It skips a block that has no name or whose `App Pulls` value is empty.
- For every other block it derives these values:
  - an id slug from the name;
  - a suit from keywords in the name;
  - an angel and a demon from the `Angel/Demon` field, split at `↔`;
  - a crystal and its chemistry from the `Crystal` field, split at the parentheses;
  - a frequency: the number after `Solfeggio =` in the `Technical` field, or else a keyword
    table over the `Ray` field;
  - two lists parsed from comma- or semicolon-separated fields.

The model is written as these modules:

- `Text` holds Python's string operations over `seq<char>`: `isspace`, `strip`, `lower`,
  `split`, `join`, `replace`, `in`, `find` and `rfind`.
- `Fields` models the two regular expressions that read a block, written out as scanners with
  Python's backtracking:
  - the `field` pattern `-\s*KEY:\s*([^\n]+)`;
  - the heading pattern `^##\s+(.+?)\s*$`.
- `Rules` models `suit` and `map_freq` as ordered keyword tables. The first rule that fires
  decides.
- `Lists` models `parse_list`.
- `Cards` models the id slug, the angel/demon split and the crystal/chemistry split.
- `Freq` models the frequency:
  - the `Solfeggio\s*=\s*([\d\.]+)` search;
  - `float()` on the captured text;
  - the fall-back to `map_freq`.
- `Registry` models the block split and the record assembly. It also holds the compiler's loop,
  as the method `CompileLoop`. That method is proved equal to the function `CompileBlocks`, and
  the order, count and failure properties are lemmas about that function.

The compiler stops with a `ValueError` when `float()` rejects the captured Solfeggio text (for
example `1.2.3` or `.`). The model returns `Err(InvalidNumber(text))` in that case, and
`Compile` then returns that error instead of a list of records.

A field whose value is empty after the colon takes its value from the next non-blank line. This
happens because `\s*` also matches newlines. The model does the same, and
`Fields.FieldFirstOccurrence` states it: its `gap` may contain newlines.

## Model

| member | source | states |
|---|---|---|
| Text.Strip | tools/registry_compile.py:15 | The result has no whitespace at either end and is no longer than the input. |
| Text.StripUnique | tools/registry_compile.py:15 | A trimmed infix with only whitespace around it is exactly what `strip` returns. |
| Text.StripAround | tools/registry_compile.py:15 | Whitespace around a trimmed text is what `strip` removes. |
| Text.StripTrimmed | tools/registry_compile.py:15 | `strip` leaves a text that is already trimmed unchanged. |
| Text.StripAvoids | tools/registry_compile.py:15 | `strip` only removes characters: one that does not occur in the input does not occur in the result. |
| Text.Lower | tools/registry_compile.py:18 | Same length; each character is mapped to lower case on its own. |
| Text.Replace | tools/registry_compile.py:66 | Same length; each occurrence of the old character becomes the new one and every other character is kept; the old character no longer occurs. |
| Text.IndexOf | tools/registry_compile.py:91 | `find`: the first index holding the character, with no earlier one, or the length of the text when none holds it. |
| Text.LastIndexOf | tools/registry_compile.py:92 | `rfind`: the last index holding the character, or -1. |
| Text.Split | tools/registry_compile.py:67 | At least one part, and no part contains the separator. |
| Text.JoinSplit | tools/registry_compile.py:67 | Joining the parts of a split with the separator gives the text back. |
| Text.SplitJoin | tools/registry_compile.py:67 | Splitting parts joined by a separator they do not contain gives the parts back. |
| Text.SplitConcat | tools/registry_compile.py:67 | A separator splits a text into the parts of its left side followed by those of its right side. |
| Text.NotContainsChar | tools/registry_compile.py:19-22 | A word cannot occur in a text that lacks one of its characters. |
| Text.IsSpace | tools/registry_compile.py:11 | Python's `\s` and `str.isspace` on a character: the ASCII whitespace, the separator controls 0x1C-0x1F and the Unicode spaces. |
| Registry.SplitPointAt | tools/registry_compile.py:11 | `\n(?=##\s)` matches at `i`: a newline followed by `##` and a whitespace character. |
| Registry.NextSplit | tools/registry_compile.py:11 | The first position at or after `i` where `\n(?=##\s)` matches, or the end of the text, with no match before it. |
| Registry.Segments | tools/registry_compile.py:11 | `re.split`: the first segment is the text before the first split point, and every later segment starts with `##`. |
| Registry.JoinSegments | tools/registry_compile.py:11 | The segments joined with newlines give back the whole text; the split drops only the newlines it splits at. |
| Registry.SegmentsHaveNoSplitPoint | tools/registry_compile.py:11 | No segment holds a split point, so every cut was made. |
| Registry.SegmentsOfJoin | tools/registry_compile.py:11 | Blocks whose lines do not start with `#`, joined with newlines, are cut back into exactly those blocks. |
| Registry.SegmentsOfBlock | tools/registry_compile.py:11 | A block with no line starting with `#` is not cut at all. |
| Registry.FirstCut | tools/registry_compile.py:11 | Such a block followed by a newline and a `## ` block is cut exactly at that newline. |
| Registry.BlocksOfJoin | tools/registry_compile.py:11 | A master text made of `## ` blocks yields exactly those blocks, in order. |
| Registry.Headed | tools/registry_compile.py:11 | The kept segments all start with `## `, and there are no more of them than segments. |
| Registry.HeadedMembers | tools/registry_compile.py:11 | The filter keeps a segment iff it starts with `## `. |
| Registry.HeadedAll | tools/registry_compile.py:11 | The filter keeps every segment when all of them start with `## `. |
| Registry.Blocks | tools/registry_compile.py:11 | Every block of the master text starts with `## `. |
| Fields.SpaceRun | tools/registry_compile.py:14 | A greedy `\s*`: the whitespace run that starts at `i`, ending at a non-space character or at the end. |
| Fields.LineEnd | tools/registry_compile.py:14 | `[^\n]+` runs to the next newline or to the end of the text. |
| Fields.ValueAt | tools/registry_compile.py:14 | The captured value is non-empty and holds no newline. |
| Fields.ValueAtStart | tools/registry_compile.py:14 | Whitespace (newlines included) and then a line that starts with a non-blank character: the capture is the rest of that line. |
| Fields.KeyValueAt | tools/registry_compile.py:14 | With the whitespace before the key given back one character at a time, the capture holds no newline. |
| Fields.KeyValueAtStart | tools/registry_compile.py:14 | Once the whitespace is given back down to `lead`, `KEY:` followed by a text on which the value pattern matches captures that match. |
| Fields.FieldMatchAt | tools/registry_compile.py:14 | The pattern tried at one position captures a text without a newline. |
| Fields.FieldMatchAtStart | tools/registry_compile.py:14 | At a `-`, whitespace, `KEY:` and a text on which `\s*([^\n]+)` matches, the capture is what that value pattern captures. |
| Fields.FieldMatchAtContains | tools/registry_compile.py:14 | A match at a position implies that `KEY:` occurs in the text from there on. |
| Fields.FieldFrom | tools/registry_compile.py:14-15 | The value found from `i` on is trimmed and has no newline. |
| Fields.Field | tools/registry_compile.py:13-15 | `field(b, k)` returns a trimmed, single-line text, or "" when nothing matches. |
| Fields.FieldAbsent | tools/registry_compile.py:13-15 | A block without `KEY:` anywhere gives the empty value. |
| Fields.FieldFromAbsent | tools/registry_compile.py:14-15 | Without `KEY:` in the block, the search from any position finds nothing and gives "". |
| Fields.KeyValueAtContains | tools/registry_compile.py:14 | A match at any position implies that `KEY:` occurs in the block. |
| Fields.FieldFromSkips | tools/registry_compile.py:14 | `re.search` passes over the positions where the pattern does not match. |
| Fields.KeyValueAtWitness | tools/registry_compile.py:14 | A match after the dash has `KEY:` at a position no later than the greedy whitespace run's end. |
| Fields.FieldMatchWitness | tools/registry_compile.py:14 | A match at `k` is a `-` at `k`, only whitespace, then `KEY:`. |
| Fields.NoMatchBefore | tools/registry_compile.py:14 | In text made of whole lines without `KEY:`, followed by a `-`, no match starts, when the key neither starts with `-` nor holds a newline. |
| Fields.KeyInsidePre | tools/registry_compile.py:14 | A `KEY:` reached from a dash inside whole lines, through whitespace only, lies inside those lines when a `-` follows them and the key neither starts with `-` nor holds a newline. |
| Fields.FieldFirstOccurrence | tools/registry_compile.py:13-15 | For whole lines without `KEY:` followed by `- KEY: value`, the field is the stripped value, and anything after it, later duplicates of the key included, is ignored. The gap after the colon may span newlines. The key must not start with `-` or hold a newline, which every key the compiler reads satisfies. |
| Fields.FieldSpacedValue | tools/registry_compile.py:13-15 | Under the same conditions, `- KEY:` followed by spaces, a trimmed value, trailing spaces and the next line gives exactly the value. |
| Fields.FieldExample | tools/registry_compile.py:13-15 | The block `## Example` / `- Key:   Value with spaces   ` / `- Other: Something` gives `Value with spaces` for `Key`. |
| Fields.FieldInsideWord | tools/registry_compile.py:14 | The search is not anchored at a line start: `- X-Ray: y` gives the `Ray` value `y`. |
| Fields.LastNonNewline | tools/registry_compile.py:14 | Where a greedy `\s*` that reached the end of the text comes to rest: the last non-newline index in the range, with only newlines after it, or none when the range is all newlines. |
| Fields.HeadingAt | tools/registry_compile.py:72 | The heading pattern tried at one line start captures text without a newline. |
| Fields.HeadingFrom | tools/registry_compile.py:72-75 | The name found from the line start `l` on, when there is one, is trimmed and single-line. |
| Fields.HeadingName | tools/registry_compile.py:72-75 | The card name, when there is one, is trimmed and single-line. |
| Fields.HeadingMissing | tools/registry_compile.py:72-74 | For a block starting with `## `, the heading search fails iff everything after `## ` is newlines. |
| Fields.HeadingFromNewlines | tools/registry_compile.py:72 | A text of nothing but newlines from `l` on has no heading from `l`. |
| Fields.HeadingAtText | tools/registry_compile.py:72-75 | At a `##` line whose whitespace run is followed by a non-blank character, the name is the rest of that line, stripped. |
| Fields.HeadingAtLine | tools/registry_compile.py:72-75 | `##`, a non-empty whitespace run and a text that starts with a non-blank character and runs to the end of the line: the capture is that text, stripped. |
| Fields.HeadingOfTitleLine | tools/registry_compile.py:72-75 | A block `## TITLE` followed by a newline or by nothing is named `TITLE`, stripped. |
| Fields.StripAfterLeadingSpace | tools/registry_compile.py:75 | Stripping does not depend on leading whitespace that was already skipped. |
| Fields.NoHeadingNoFields | tools/registry_compile.py:72-78 | A block that the heading test skips has every field empty, so the missing-name `continue` never drops a block that the `App Pulls` test would keep. |
| Rules.FirstMatch | tools/registry_compile.py:17-23 | An ordered keyword table returns the fall-back or the value of one of its rules. |
| Rules.FirstMatchFirstFiring | tools/registry_compile.py:17-23 | The first rule that fires decides, whatever later rules would say. |
| Rules.FirstMatchNoneFires | tools/registry_compile.py:17-49 | When no rule fires, the fall-back is returned. |
| Rules.FirstMatchCases | tools/registry_compile.py:17-49 | Either the first firing rule gives the answer, or no rule fires and the fall-back does. |
| Rules.FirstOf | tools/registry_compile.py:17-49 | If a rule fires, some rule at or before it is the first one that fires. |
| Rules.Suit | tools/registry_compile.py:17-23 | The suit is total and is one of wands, cups, pentacles, swords or majors. |
| Rules.SuitMajors | tools/registry_compile.py:17-23 | A name is in the majors iff it contains none of the six suit words, in any case. |
| Rules.SuitChain | tools/registry_compile.py:17-23 | The suit table gives what the source's chain of tests gives: `wands`, then `cups`, then `pentacles` or `coin`, then `swords` or `blade`, else `majors`, over the lower-cased name. |
| Rules.SuitOfQueenOfCoins | tools/registry_compile.py:21 | "Queen of Coins" is in pentacles, through the `coin` keyword. |
| Rules.SuitOfBladeDancer | tools/registry_compile.py:22 | "Blade Dancer" is in swords, through the `blade` keyword. |
| Rules.SuitOfTheFool | tools/registry_compile.py:23 | "The Fool" is in the majors. |
| Rules.MapFreq | tools/registry_compile.py:25-49 | The frequency is always one of 963, 852, 528, 417, 285 or 432. |
| Rules.MapFreqChain | tools/registry_compile.py:43-49 | The frequency table gives what the source's chain of tests gives, in the order written, over the lower-cased ray. |
| Rules.MapFreqDefault | tools/registry_compile.py:43-49 | The default 432 is returned iff none of the eleven colour words occurs in the lower-cased ray. |
| Rules.MapFreqPrecedence | tools/registry_compile.py:45-46 | "emerald and silver" gives 852: the earlier rule wins, not the earlier word. |
| Rules.MapFreqNoColour | tools/registry_compile.py:49 | A ray with no colour word gives 432. |
| Rules.MapFreqWithoutLetters | tools/registry_compile.py:43-49 | A ray without the letters `g`, `l` and `r`, in any case, gives 432: every colour word holds one of them. |
| Lists.NonEmpty | tools/registry_compile.py:68 | The filter keeps only non-empty elements and never lengthens the list. |
| Lists.NonEmptyKeeps | tools/registry_compile.py:68 | Every kept element is one of the input's. |
| Lists.NonEmptyConcat | tools/registry_compile.py:68 | The filter works piecewise over a concatenation, keeping the order. |
| Lists.Items | tools/registry_compile.py:66-68 | The pipeline for a non-empty value: replace `;` by `,`, split at `,`, strip each part, drop the empty ones. |
| Lists.ParseList | tools/registry_compile.py:51-68 | Every element is non-empty, has no surrounding whitespace, and contains no `,` and no `;`. |
| Lists.ItemsAreItems | tools/registry_compile.py:66-68 | The same holds for the pipeline without the empty-input guard. |
| Lists.ParseListItems | tools/registry_compile.py:64-68 | The empty-input guard gives what the pipeline would give anyway. |
| Lists.ItemsAround | tools/registry_compile.py:66-68 | A separator splits the items into those of its left side followed by those of its right side. |
| Lists.ParseListSeparator | tools/registry_compile.py:66-68 | A comma ends one item and starts the next, and a semicolon does exactly the same; the order of items is kept. |
| Lists.ParseListToken | tools/registry_compile.py:67-68 | A text without separators is one stripped item, or no item when it is blank. |
| Lists.ParseListJoin | tools/registry_compile.py:51-68 | Items written out with commas between them are read back unchanged. |
| Lists.ParseListStep | tools/registry_compile.py:66-68 | A separator-free piece, a separator and the rest give the piece's item followed by the rest's items. |
| Lists.ParseListChain | tools/registry_compile.py:66-68 | Six separator-free pieces joined by `,` and `;` give their items in order. |
| Lists.ParseListShape | tools/registry_compile.py:66-68 | The pattern `a, b; c,, , d` gives `[a, b, c, d]` for any four item characters. |
| Lists.ParseListExample | tools/registry_compile.py:51-68 | "a, b; c,, , d" gives ["a", "b", "c", "d"]. |
| Cards.IsWordChar | tools/registry_compile.py:79 | `\w` as the model reads it: ASCII letters, digits and `_`. |
| Cards.NonWordRun | tools/registry_compile.py:79 | `[^\w]+` consumes the maximal run of non-word characters. |
| Cards.Collapse | tools/registry_compile.py:79 | After the substitution only word characters remain, and the text is no longer than before. |
| Cards.Slug | tools/registry_compile.py:79 | The id is no longer than the name and consists of lower-case word characters only. |
| Cards.CollapseWords | tools/registry_compile.py:79 | A text of word characters is left unchanged. |
| Cards.CollapseRun | tools/registry_compile.py:79 | A run of non-word characters before a word character, or before the end, becomes one `_`. |
| Cards.SlugIdempotent | tools/registry_compile.py:79 | The id of an id is itself. |
| Cards.CollapseSeparated | tools/registry_compile.py:79 | Each maximal run of separators between words becomes one `_`. |
| Cards.SlugTwoWords | tools/registry_compile.py:79 | Two words with a space between them give the two words in lower case, joined by `_`. |
| Cards.SlugOfTheFool | tools/registry_compile.py:79 | "The Fool" gives "the_fool". |
| Cards.AngelDemon | tools/registry_compile.py:82-86 | Without `↔` both names are empty; both names are always trimmed. |
| Cards.AngelDemonParts | tools/registry_compile.py:83-86 | The angel is the stripped text before the first `↔`, and the demon is the stripped text between it and the next `↔`. |
| Cards.AngelDemonSpaced | tools/registry_compile.py:83-86 | `A ↔ D` gives back the trimmed names A and D. |
| Cards.AngelDemonExample | tools/registry_compile.py:83-86 | "Michael ↔ Belial" gives the angel Michael and the demon Belial. |
| Cards.Crystal | tools/registry_compile.py:87-88 | The crystal is trimmed and contains no `(`. |
| Cards.Chemistry | tools/registry_compile.py:89-94 | The chemistry is trimmed; it is non-empty only when the line has both `(` and `)` and the last `)` comes at least two places after the first `(`. |
| Cards.ChemistryAt | tools/registry_compile.py:90-94 | Given the index of the first `(` (the length when there is none) and of the last `)` (-1 when there is none), the chemistry is trimmed and is non-empty only when `(` exists and `)` comes at least two places after it. |
| Cards.Inside | tools/registry_compile.py:93-94 | The text between the two indices, stripped, is non-empty only when the end is after the start; always trimmed. |
| Cards.ChemistryMisordered | tools/registry_compile.py:90-94 | When the only `)` comes before the first `(`, as in `Quartz) (SiO2`, there is no chemistry. |
| Cards.FirstParen | tools/registry_compile.py:91 | `find` gives the index of the first `(`. |
| Cards.LastParen | tools/registry_compile.py:92 | `rfind` gives the index of the last `)` when the text after it has none. |
| Cards.ChemistryBetween | tools/registry_compile.py:90-94 | With the first `(` at `o` and the last `)` at `c > o`, the chemistry is the stripped text between them (empty when they are adjacent). |
| Cards.CrystalBeforeParen | tools/registry_compile.py:88 | The crystal is the stripped text before the first `(`. |
| Cards.CrystalOfParts | tools/registry_compile.py:88 | `NAME (CHEM) tail` has the crystal NAME, stripped. |
| Cards.ChemistryOfParts | tools/registry_compile.py:90-94 | `NAME (CHEM) tail`, with no `(` in NAME and no `)` in the tail, has the chemistry CHEM, stripped. |
| Cards.CrystalChemistryParts | tools/registry_compile.py:87-94 | `NAME (CHEM) tail`, with no `)` in the tail, gives the crystal NAME and the chemistry CHEM, each stripped. |
| Cards.CrystalNoParen | tools/registry_compile.py:88-94 | Without `(`, the whole stripped line is the crystal and the chemistry is empty. |
| Freq.ParseNumber | tools/registry_compile.py:97 | `float()` on a `[\d.]+` text succeeds iff the text has a digit and at most one dot; on failure, the error carries the text. |
| Freq.NatText | tools/registry_compile.py:97 | The decimal digits of a natural number are non-empty and are all digits. |
| Freq.DigitsOfNatText | tools/registry_compile.py:97 | Reading the digits of a number back gives the number. |
| Freq.ParseDigits | tools/registry_compile.py:97 | A non-empty text of digits reads as the number it denotes. |
| Freq.ParseNatText | tools/registry_compile.py:97 | `float(str(n)) == n` for a natural number. |
| Freq.NumRun | tools/registry_compile.py:96 | The greedy `[\d\.]+` takes the maximal run of digits and dots. |
| Freq.AssignedNumber | tools/registry_compile.py:96 | `NAME\s*=\s*([\d\.]+)` at the start of a text: the capture is non-empty and made of digits and dots. |
| Freq.AssignedNumberStart | tools/registry_compile.py:96 | NAME, whitespace, `=`, whitespace and a maximal run of digits and dots: the capture is exactly that run. |
| Freq.SolfeggioFrom | tools/registry_compile.py:96 | The search from `i` on captures a non-empty text of digits and dots, when it finds one. |
| Freq.SolfeggioText | tools/registry_compile.py:96 | A captured number text is non-empty and made of digits and dots only. |
| Freq.SolfeggioFromPasses | tools/registry_compile.py:96 | The search passes over positions where the pattern does not match. |
| Freq.SolfeggioFromNoneAt | tools/registry_compile.py:96 | When the search from `i` finds nothing, the pattern matches at no later position. |
| Freq.SolfeggioFromNone | tools/registry_compile.py:96 | The search from `i` finds nothing iff the pattern matches at no position from `i` on. |
| Freq.SolfeggioFromAt | tools/registry_compile.py:96 | A result of the search from `i` is the match at the first position from `i` where the pattern matches. |
| Freq.SolfeggioTextFirst | tools/registry_compile.py:96 | `re.search` over the `Technical` value: no number iff the pattern matches nowhere; otherwise the number of the first position where it matches. |
| Freq.SolfeggioNeedsEquals | tools/registry_compile.py:96 | A value without `=` has no Solfeggio number. |
| Freq.RedRay | tools/registry_compile.py:48 | The ray `red` gives 285. |
| Freq.FreqFallbackExample | tools/registry_compile.py:95-97 | "Something without a Solfeggio value" with the ray `red` gives the frequency 285: the word alone is no assignment. |
| Freq.MarkerNotInPre | tools/registry_compile.py:96 | `Solfeggio` has its only `S` in front, so in a text without it followed by `Solfeggio`, no occurrence starts before the appended one. |
| Freq.SolfeggioFromAbsent | tools/registry_compile.py:96 | Without the word `Solfeggio` there is no match. |
| Freq.SolfeggioFromSkips | tools/registry_compile.py:96 | Positions where `Solfeggio` does not start are passed over. |
| Freq.SolfeggioFound | tools/registry_compile.py:96 | With no `Solfeggio` before the first `Solfeggio = N`, the captured text is N. |
| Freq.CardFreq | tools/registry_compile.py:95-97 | Without a Solfeggio number the frequency is the ray's `map_freq`; with one it is `float()` of that number text, and an error comes only from a Solfeggio text that `float()` rejects. |
| Freq.FreqFromRay | tools/registry_compile.py:97 | A `Technical` value without `Solfeggio` gives the ray's frequency. |
| Freq.SolfeggioOverrides | tools/registry_compile.py:95-97 | With no `Solfeggio` before it, the first `Solfeggio = N` decides the frequency, whatever the ray: it is `float(N)`, or the error `float()` raises. |
| Registry.WellFormed | tools/registry_compile.py:79-122 | What every record satisfies: trimmed single-line field values, the id and suit derived from the name, a non-empty `App Pulls`, a crystal without `(`, and list elements that are items. |
| Registry.ReadFrom | tools/registry_compile.py:80-122 | Each value of a record is read from its block's field: letter, astrology, ray, deities, artifact, pigment, tara, thought, HGA fragment, pattern glyph, psyche and technical as `field` gives them; angel and demon split from `Angel/Demon`; crystal and chemistry from `Crystal`; the two lists parsed from their fields. |
| Registry.BuildCard | tools/registry_compile.py:98-122 | The record is well formed: the id is the slug of the name, the suit is the name's suit, every field is trimmed, and the list elements are items. Every other value is read from the block as `ReadFrom` says. Name, App Pulls and frequency are the ones given. |
| Registry.AssembleCard | tools/registry_compile.py:71-122 | A block is skipped iff it has no heading or an empty `App Pulls`. An emitted record is well formed, with the heading's name, the block's `App Pulls`, the block's frequency and every other value read from the block as `ReadFrom` says. A failure comes only from the Solfeggio number. |
| Registry.Qualifies | tools/registry_compile.py:71-78 | A block is kept when the heading search succeeds and its `App Pulls` value is non-empty. |
| Registry.AssembleBlock | tools/registry_compile.py:71-122 | The loop body for one block, with the source's early exits, gives exactly `AssembleCard`. |
| Registry.CountQualifying | tools/registry_compile.py:71-78 | There are no more qualifying blocks than blocks. |
| Registry.Collect | tools/registry_compile.py:70-122 | There are no more records than outcomes, and each record is one of the outcomes' emitted cards. |
| Registry.Outcomes | tools/registry_compile.py:71 | One outcome per block, in block order. |
| Registry.CompileBlocks | tools/registry_compile.py:70-122 | There are no more records than blocks. |
| Registry.Compile | tools/registry_compile.py:11-122 | The compiler's result is `CompileBlocks` of the master text's blocks. |
| Registry.CompileLoop | tools/registry_compile.py:70-122 | The imperative loop, which appends cards and stops at the first failure, computes exactly `CompileBlocks`. |
| Registry.CollectErrorSticks | tools/registry_compile.py:97 | Once an outcome has failed, later outcomes do not matter. |
| Registry.CollectAppend | tools/registry_compile.py:70-122 | The records of two runs of outcomes are concatenated in order; the first error wins. |
| Registry.CollectFirstFailure | tools/registry_compile.py:97 | Collecting fails iff some outcome failed, and then it reports the first failure. |
| Registry.CollectCount | tools/registry_compile.py:98 | One record per outcome that was not skipped. |
| Registry.OutcomesAppend | tools/registry_compile.py:71 | The outcomes of two runs of blocks are concatenated in order. |
| Registry.CompileErrorSticks | tools/registry_compile.py:97 | Once a block has failed, later blocks do not matter. |
| Registry.CompileAppend | tools/registry_compile.py:70-122 | Records keep block order: the records of `a + b` are those of `a` followed by those of `b`. |
| Registry.CompileSnoc | tools/registry_compile.py:71-122 | One more block at the end adds its record, or nothing, or the error. |
| Registry.CompileWellFormed | tools/registry_compile.py:98-122 | Every record written is well formed and is the record of one of the blocks. |
| Registry.CompileFailsAtFirstFailure | tools/registry_compile.py:97 | The compiler fails iff some block fails, and then it reports the first failing block's error. |
| Registry.CountOutcomes | tools/registry_compile.py:73-78 | The outcomes that are not skipped are exactly the qualifying blocks. |
| Registry.CompileCount | tools/registry_compile.py:70-122 | Without a failure, there is exactly one record per block that has a name and a non-empty `App Pulls`. |

## Left out

- Reading the input file, the command-line arguments and their defaults (lines 5-9) are not modelled. The master text is the parameter `md` of `Compile`.
- Writing `cards.json` is not modelled: creating the directory, the JSON encoding and the final summary line (lines 124-127). The model's output is the list of `Card` values.
- Freq.ParseNumber: `float()` is modelled as the exact rational value of the text. The rounding to a binary double is left out.
- `\w` in the id slug is ASCII letters, digits and `_` in the model. Python's `str` patterns also count other Unicode letters and digits as word characters.
- `\d` in the Solfeggio pattern is the ASCII digits in the model. Python also accepts other Unicode decimal digits.
- Text.Lower: `lower()` maps only the ASCII capitals. Every keyword the compiler compares against is ASCII. In the id, non-ASCII letters do not survive anyway: with the ASCII `\w` above they become `_`.
- `parse_list(None)` and `map_freq(None)` are not modelled. Every caller in the compiler passes a string (the result of `field`), never `None`.
- Registry.Compile does not check that card ids are unique. The source does not check this either.

# Groninger Archieven register extraction, modelled in Dafny

The repository turns OCR'd pages of the Groningen address registers into person
records, one JSON file per page, and then post-processes those files. This
project models its core, the deterministic text pipeline around the language
model:

- **Page cleaning** (`cleaned_extract.py`). `strip_text` rewrites newlines and
  braces and drops disallowed characters. `remove_phone_numbers` deletes
  `Tel.`/`Telef.`/`Telefoon.` references. `split_text` cuts the page after each
  house number. `strip_left_side` and the candidate filter of `process_page`
  pick the lines worth sending to the model.
- **Line preparation.** `fix_ocr_mistakes` repairs digits in parenthesised
  initials. `format_initials_and_spacing` fixes spacing and closes initials
  with a dot. `preprocess_line` does both.
- **Reply parsing.** `process_line` finds the `{...}` objects in the model's
  reply and decodes them in order.
- **Page selection and the page loop.** `get_text` selects the pages, and the
  main loop numbers each page and collects the records of each candidate line.
- **CSV conversion** (`convert_json_to_csv.py`). The row loop writes one row
  per person dict, with year, page number, name, job title and address.
- **Combining** (`combine_jsons.py`). For every year directory, in name order,
  the page files are loaded without their `year` key and sorted by `page`. The
  combined document goes to `combined_registers/<root>_combined.json`.

Three regular expressions are modelled by one scanner, `Regex.SpansFrom`: the
telephone pattern, the house-number pattern and the brace pattern of the
reply. The scanner finds leftmost, non-overlapping matches over a
pattern-specific matcher, and each of these three matchers is proved equal to
a declarative statement of what its pattern matches (`Regex.TelephoneAtExact`,
`Regex.HouseNumberAtExact`, `Regex.BracedAtExact`). The other substitutions
(newlines, `-\n`, `{`, the character class of `strip_text`, the space after a
dot, `\s+`, the dot after an initial, `^[^a-zA-Z]+`) are written as direct
recursive functions over the string. They are not derived from a pattern
semantics. Their contracts and lemmas state what each substitution does.

`fix_ocr_mistakes` is built line by line: the text is cut at each newline and
each line is rewritten on its own, because `.` does not match a newline. This
is how the model is defined, not a fact proved against a regular-expression
engine. Every line that reaches it in the page loop is free of newlines
(`Segment.ProcessPageOneLine`), and there it is the single-line rewrite
`Preprocess.FixLine`.

The language model (`ask`) and `json.loads`/`json.load` (`decode`, or a
file's already-decoded `content`) are parameters of the model. The directory
listing of `combine_jsons.py` is a value of type `Combine.Entry`.

Modules follow the program:

| module | contents |
|---|---|
| `Wrappers` | `Option` and `Result`; `Fault` for the exceptions that reach the top of a loop |
| `Chars` | ASCII character classes, `str.strip`, index search |
| `Regex` | the patterns, the match scanner, `re.sub`/`re.split`/`re.findall` over spans |
| `Normalize` | `strip_text` and `remove_phone_numbers` |
| `Segment` | `split_text`, `strip_left_side` and `process_page` |
| `Preprocess` | `fix_ocr_mistakes`, `format_initials_and_spacing` and `preprocess_line` |
| `JsonModel` | JSON values, `dict.get`, `dict.pop` and iteration |
| `Extract` | `get_text`, `process_line` and the page loop |
| `Csv` | the row loop of `convert_json_to_csv.py` |
| `Sorting` | a stable sort specification (Python's `sorted`) |
| `Combine` | `combine_jsons.py` |

## Where the code and its documentation differ

The model follows the code in every case below.

- **`strip_text` hyphen rule.** The docstring says a hyphen followed by a line
  break is joined. But line 188 replaces every `\n` by a space first, so the
  `-\n` rule at line 189 never fires (`Normalize.HyphenRuleIsDead`), and
  `"a-\nb"` becomes `"a- b"` (`Normalize.HyphenBreakBecomesSpace`).
- **`split_text` output.** The docstring says that house numbers stay with the
  text before them. The code glues the stripped house number on without a
  space, and drops the text after the last house number (`Segment.FragmentShape`).
- **`format_initials_and_spacing` on camel case.** The docstring example says
  `"ThisIsAString"` becomes `"This. Is. A. String."`. In the code, `\b` never
  falls between two letters, so the string is unchanged
  (`Preprocess.CamelCaseUnchanged`).
- **`fix_ocr_mistakes` reach.** The pattern `\(.*[134].*\)` is greedy. It covers
  from the first `(` to the last `)` of a line, so digits between two groups
  are rewritten too (`Preprocess.OcrMatchSpansGroups`).
- **`process_page` filter precedence.** The filter reads
  `'(' in line or (')' in line and 15 < len(line) < 150)`. A line with `(`
  passes whatever its length (`Segment.IsCandidate`).
- **`process_line` on a bad object.** The first object that fails to decode
  ends the loop, and the persons decoded before it are kept
  (`Extract.ExtractRecordsStopsAtFailure`).
- **`get_text` range errors.** Slicing never raises `IndexError`, so an
  out-of-range page range gives a shorter or empty list. A page that is not a
  dict, or has no `text`, raises an exception that is not caught (`Extract.Texts`).
- **`remove_phone_numbers` case.** The pattern is case-sensitive except for the
  first letter (`[Tt]el`), although the docstring calls it case-insensitive.

## Model

| member | source | states |
|---|---|---|
| Chars.Trim | cleaned_extract.py:250 | `str.strip()` is a window `s[a..b]` of the input with only whitespace before `a` and after `b`; it has no whitespace at either end, and is empty only when the input is all whitespace |
| Chars.TrimNonBlank | cleaned_extract.py:250 | stripping a string that has a non-whitespace character leaves something |
| Chars.TrimWindow | cleaned_extract.py:250 | stripping keeps one window of the input and drops only whitespace on either side of it |
| Chars.TrimKeepsSolidSuffix | cleaned_extract.py:248 | stripping `a + t`, where `t` has no whitespace, strips only the left of `a` |
| Chars.TrimLeftKeepsSolidSuffix | cleaned_extract.py:248 | `lstrip` of `a + t`, where `t` is non-empty and has no whitespace, is `lstrip` of `a` followed by all of `t` |
| Regex.TelephoneAtExact | cleaned_extract.py:214 | the telephone matcher ends at `e` exactly when `s[i..e]` is a word boundary, `Tel`, `Telef` or `Telefoon` (first letter in either case), a dot, whitespace, digits and a word boundary |
| Regex.HouseNumberAtExact | cleaned_extract.py:244 | the house-number matcher ends at `e` exactly when `\s\d+[a-zA-Z0-9]*\b` matches from `i` to `e` (greedy, with backtracking to a word boundary) |
| Regex.BracedAtExact | cleaned_extract.py:424 | the lazy `\{.*?\}` matcher (DOTALL) ends at `e` exactly when `s[i..e]` is `{`, no `}`, then `}` |
| Regex.SpansFrom | cleaned_extract.py:215 | the matches found from position `i` are in order, non-empty, non-overlapping and inside the string |
| Regex.SpansFromIsScan | cleaned_extract.py:215 | the scanner's spans are a leftmost, non-overlapping scan: no match starts in any gap, and each span is the match at its start |
| Regex.ScanUnique | cleaned_extract.py:215 | two scans of the same string with the same matcher are equal, so the scan is the one `re` performs |
| Regex.ScanLeftmost | cleaned_extract.py:215 | if a match starts at `q`, the scan has a span that starts at or before `q` |
| Regex.ScanMatchAt | cleaned_extract.py:215 | each span of a scan is a match at its start, and no match starts in the gap before it |
| Regex.SpansFromEmpty | cleaned_extract.py:215 | the scan is empty exactly when no match starts anywhere |
| Regex.DeleteSpans | cleaned_extract.py:215 | `re.sub(p, '', s)` only removes characters, and removes at least one when there is a match |
| Regex.DeleteSpansOutside | cleaned_extract.py:215 | `re.sub(p, '', s)` deletes exactly the matched text: what remains is every character that no match covers, in order |
| Regex.OutsideSplit | cleaned_extract.py:215 | the characters outside the matches of a window are those of its two halves, in order |
| Regex.SplitAt | cleaned_extract.py:245 | `re.split` with one capturing group gives `2n + 1` parts for `n` matches |
| Regex.SplitAtIndex | cleaned_extract.py:245 | part `2k` of `re.split` is the gap before match `k`, and part `2k + 1` is match `k` itself |
| Regex.SpanTextsAt | cleaned_extract.py:424 | entry `k` of `re.findall` is the text of the `k`-th match |
| Normalize.ReplaceNewlines | cleaned_extract.py:188 | no newline is left, every other character comes from the input, and a string without newlines is unchanged |
| Normalize.RemoveHyphenBreaks | cleaned_extract.py:189 | deleting `-\n` only removes characters, two at a time, and leaves a string without newlines unchanged |
| Normalize.HyphenRuleIsDead | cleaned_extract.py:188-189 | after newlines are replaced, the `-\n` substitution changes nothing |
| Normalize.BracesToParens | cleaned_extract.py:190 | every `{` becomes `(`, position by position, and nothing else changes |
| Normalize.KeepAllowed | cleaned_extract.py:192-193 | the result is a sub-multiset of the input holding exactly the allowed characters that occur in it, and an already clean string is unchanged |
| Normalize.ReplaceNewlinesKeeps | cleaned_extract.py:188 | text without a newline passes unchanged, whatever follows it |
| Normalize.NewlinePairToSpace | cleaned_extract.py:188 | `\n\n` becomes one space: the alternation tries the pair first |
| Normalize.NewlineToSpace | cleaned_extract.py:188 | a newline that no second newline follows becomes one space |
| Normalize.ReplaceNewlinesAppend | cleaned_extract.py:188 | two texts are rewritten separately unless a newline pair straddles the seam |
| Normalize.RemoveHyphenBreaksAppend | cleaned_extract.py:189 | two texts are rewritten separately unless a `-` at the end of the first meets a newline at the start of the second |
| Normalize.HyphenBreakRemoved | cleaned_extract.py:189 | `a + "-\n" + b` becomes the rewrite of `a` followed by that of `b`: the hyphen and the line break both go |
| Normalize.BracesToParensAppend | cleaned_extract.py:190 | two texts are rewritten separately |
| Normalize.KeepAllowedAppend | cleaned_extract.py:192-193 | two texts are filtered separately, so the order of the kept characters is the input order |
| Normalize.KeepAllowedOne | cleaned_extract.py:192-193 | one character is kept exactly when it is in the allowed class |
| Normalize.StripTextSteps | cleaned_extract.py:188-193 | `strip_text` is the newline, brace and filter substitutions in that order, the `-\n` rule having no effect |
| Normalize.StripTextAppend | cleaned_extract.py:188-193 | two texts are cleaned separately unless a newline pair straddles the seam |
| Normalize.StripTextOne | cleaned_extract.py:188-193 | a newline becomes a space, `{` becomes `(`, an allowed character stays and any other character goes |
| Normalize.StripTextNewlinePair | cleaned_extract.py:188-193 | a newline pair becomes a single space |
| Normalize.StripText | cleaned_extract.py:168-193 | the result is no longer than the text, holds only allowed characters with no newline and no `{`, and a text already made of such characters is unchanged |
| Normalize.HyphenBreakBecomesSpace | cleaned_extract.py:188-193 | `"a-\nb"` becomes `"a- b"`: the hyphen is kept and the line break becomes a space |
| Normalize.StripTextIdempotent | cleaned_extract.py:168-193 | cleaning a cleaned text changes nothing |
| Normalize.RemovePhoneNumbers | cleaned_extract.py:196-215 | the result is exactly the characters that no telephone match of the scan covers, in order, and the text is unchanged exactly when no telephone reference occurs in it |
| Normalize.PhoneNumberDeleted | cleaned_extract.py:210-215 | `"Tel. 12 x"` becomes `" x"`: the reference goes with its number, and the space after it stays |
| Normalize.RemovePhoneNumbersKeepsStripped | cleaned_extract.py:359 | removing phone numbers from cleaned text keeps it clean |
| Normalize.NormalizePage | cleaned_extract.py:359 | the page text fed to `split_text` is the cleaned page with exactly its telephone matches deleted, in order; it holds only cleaned characters, and a clean page without telephone references passes unchanged |
| Segment.HouseNumberShape | cleaned_extract.py:244 | each house number is one whitespace character, a digit, then letters and digits up to a word boundary |
| Segment.Fragments | cleaned_extract.py:245-250 | there is one fragment per house number, fragment `k` being line `k` of `FragmentShape` |
| Segment.FragmentShape | cleaned_extract.py:245-250 | fragment `k` is the left-stripped text before house number `k` with that number appended without the space, and is not empty |
| Segment.TrimHouseNumber | cleaned_extract.py:248 | stripping a matched house number drops exactly its leading whitespace character |
| Segment.GluePairs | cleaned_extract.py:247-248 | an odd list of `2n + 1` parts gives `n` lines, and line `k` joins part `2k` with the stripped part `2k + 1` |
| Segment.TrimmedNonBlank | cleaned_extract.py:250 | the result is never longer, holds no empty line, and when no line is blank it is every line stripped, in order |
| Segment.CombinedLine | cleaned_extract.py:247-250 | the stripped glued pair `k` is fragment `k` |
| Segment.SplitText | cleaned_extract.py:218-250 | `split_text` returns exactly one fragment per house number, each of the shape stated in `FragmentShape` |
| Segment.GluedLines | cleaned_extract.py:247-250 | stripping the glued pairs of the split and dropping blank ones gives exactly the fragments, in order |
| Segment.LeadingNonLetters | cleaned_extract.py:302 | the count of leading characters is the length of the longest prefix of non-letters |
| Segment.StripLeftSide | cleaned_extract.py:280-302 | the result is the input from its first ASCII letter on, character by character, and is empty when there is no letter |
| Segment.IsCandidate | cleaned_extract.py:361 | a line with `(` passes at any length; outside lengths 16 to 149 only a line with `(` passes; within them a line passes exactly when it has `(` or `)` |
| Segment.Candidates | cleaned_extract.py:361 | there are never more lines than fragments, and each is empty or starts with a letter |
| Segment.CandidatesAllPass | cleaned_extract.py:361 | when every fragment passes the filter there is one line per fragment, in order, each the fragment stripped on the left |
| Segment.CandidatesMembers | cleaned_extract.py:361 | every kept line is a left-stripped candidate, and every candidate's left-stripped line is kept |
| Segment.CandidatesOne | cleaned_extract.py:361 | one fragment gives its left-stripped line when it passes the filter and nothing otherwise |
| Segment.CandidatesAppend | cleaned_extract.py:361 | the comprehension distributes over concatenation, so the result is the per-fragment results in fragment order |
| Segment.ProcessPage | cleaned_extract.py:330-364 | an empty or non-string page gives no lines; the lines of a string page are `Candidates` of the fragments of the cleaned page, in order; there are at most as many lines as house numbers, and each line is empty or starts with a letter |
| Segment.FragmentOneLine | cleaned_extract.py:245-250 | a fragment of a text without newlines has no newline |
| Segment.CandidatesOneLine | cleaned_extract.py:361 | a candidate line of a newline-free text has no newline |
| Segment.ProcessPageOneLine | cleaned_extract.py:359-361 | no line `process_page` returns holds a newline, so `preprocess_line` only sees single lines |
| Preprocess.RewriteDigits | cleaned_extract.py:326 | after the three `replace` calls no `1`, `3` or `4` is left, and only `J` and `.` are added |
| Preprocess.RewriteDigitsPerCharacter | cleaned_extract.py:326 | the chained `replace` calls rewrite each character on its own: `1` becomes `J.`, `3` and `4` become `J` |
| Preprocess.OcrSpan | cleaned_extract.py:326 | a span found starts with `(`, ends with `)` and has a `1`, `3` or `4` strictly between them |
| Preprocess.OcrSpanIsTheMatch | cleaned_extract.py:326 | on a line without newlines, the span found is a match of `\(.*[134].*\)` and contains every other match; with no span, nothing matches |
| Preprocess.FixLine | cleaned_extract.py:326 | a line with no match of the pattern is unchanged; the match case is `FixLineShape` |
| Preprocess.FixLineShape | cleaned_extract.py:326 | the text around the match is unchanged, and the match is rewritten digit by digit |
| Preprocess.FixOcrMistakes | cleaned_extract.py:305-327 | on a line without newlines, `fix_ocr_mistakes` is the single-line rewrite |
| Preprocess.FixOcrWithoutDigits | cleaned_extract.py:305-327 | a text with no `1`, `3` or `4` is unchanged |
| Preprocess.OcrMatchSpansGroups | cleaned_extract.py:326 | the greedy match rewrites the digit between two groups: `"(A) 1 (B)"` becomes `"(A) J. (B)"` |
| Preprocess.SpaceAfterDotsFrom | cleaned_extract.py:275 | inserting the spaces at most doubles the text, the output starts with a space exactly when a dot precedes a non-whitespace character, and every dot that is followed by anything is followed by whitespace |
| Preprocess.SpaceAfterDotsAddsSpaces | cleaned_extract.py:275 | the pass only inserts spaces: no character is lost, and every character other than a space occurs as often as before |
| Preprocess.SpaceAfterDotsLast | cleaned_extract.py:275 | nothing is added after the last character |
| Preprocess.SpaceAfterDotsSeam | cleaned_extract.py:275 | a whitespace run is left as it is, and the text on either side is handled on its own |
| Preprocess.SpacePositions | cleaned_extract.py:275 | a space is inserted at exactly the positions where `(?<=[.])(?=[^\s])` matches: character `q` lands at `q` plus the spaces inserted up to `q`, a space sits just before it when the pattern matches at `q`, and the length counts one space per match |
| Preprocess.SpaceLandingNext | cleaned_extract.py:275 | consecutive characters land one apart, or two apart when the pattern matches between them |
| Preprocess.SpaceExample | cleaned_extract.py:275 | `"a.b,c"` becomes `"a. b,c"`: a space after the dot and none after the comma |
| Preprocess.SpaceAfterDotsErase | cleaned_extract.py:275 | inserting a space after each dot changes nothing but spaces |
| Preprocess.CollapseSpaces | cleaned_extract.py:276 | collapsing never lengthens the text, and what remains is spaces and the input's non-whitespace characters |
| Preprocess.CollapseKeepsCounts | cleaned_extract.py:276 | every character other than whitespace occurs as often as before |
| Preprocess.NoSpaceNoCollapse | cleaned_extract.py:276 | a text without whitespace is unchanged |
| Preprocess.CollapseAppend | cleaned_extract.py:276 | two texts collapse separately when the first does not end in whitespace |
| Preprocess.CollapseRun | cleaned_extract.py:276 | a leading whitespace run before a non-whitespace character becomes one space |
| Preprocess.CollapseSeam | cleaned_extract.py:276 | a whitespace run between two non-whitespace characters becomes exactly one space, and each side collapses on its own |
| Preprocess.CollapseSpacesWellSpaced | cleaned_extract.py:276 | after `\s+` becomes `' '`, every whitespace character is a single space |
| Preprocess.CollapseKeepsWellSpaced | cleaned_extract.py:276 | a single-spaced text is unchanged by collapsing |
| Preprocess.CollapseSpacesIdempotent | cleaned_extract.py:276 | collapsing twice is collapsing once |
| Preprocess.CollapseSpacesErase | cleaned_extract.py:276 | collapsing changes nothing but whitespace |
| Preprocess.DotsAfterInitialsFrom | cleaned_extract.py:277 | adding the dots after initials never shortens the text, at most doubles it plus one, and adds nothing but dots |
| Preprocess.DotsWellSpaced | cleaned_extract.py:277 | adding the dots after initials to a single-spaced text keeps it single-spaced |
| Preprocess.DotsInitialsClosed | cleaned_extract.py:277 | after the dots are added, every capital is followed by a word character or a dot |
| Preprocess.DotsErase | cleaned_extract.py:277 | adding the dots changes nothing but dots |
| Preprocess.DotsAddsDots | cleaned_extract.py:277 | the pass only inserts dots: no character is lost, and every character other than a dot occurs as often as before |
| Preprocess.DotsSeam | cleaned_extract.py:277 | a whitespace run is left as it is, and the text on either side is handled on its own |
| Preprocess.DotsPositions | cleaned_extract.py:277 | a dot is inserted at exactly the positions where `(?<=[A-Z])(?!\.)\b` matches: character `q` lands at `q` plus the dots inserted up to `q`, a dot sits just before it when the pattern matches at `q`, and the length counts one dot per match |
| Preprocess.FormatInitialsAndSpacing | cleaned_extract.py:253-277 | the result is single-spaced, every capital is followed by a word character or a dot, only spaces and dots differ from the input, and no dot is lost |
| Preprocess.FormatSeam | cleaned_extract.py:275-277 | a whitespace run between two words comes out as one space, and the text on either side is formatted on its own |
| Preprocess.FormatExample | cleaned_extract.py:271-277 | `"a.b,c"` is formatted as `"a. b,c"` |
| Preprocess.LettersOnlyUnchanged | cleaned_extract.py:275-277 | a run of letters not ending in a capital is unchanged |
| Preprocess.CamelCaseUnchanged | cleaned_extract.py:265-277 | `"ThisIsAString"` is returned unchanged, unlike the docstring example |
| Preprocess.InitialsSeparated | cleaned_extract.py:275-277 | `"J.H"` becomes `"J. H."` |
| Preprocess.PreprocessLine | cleaned_extract.py:367-386 | the prepared line is single-spaced with closed initials, differs from the OCR-fixed line only in spaces and dots, and keeps every dot of it |
| JsonModel.Get | cleaned_extract.py:162 | a key lookup succeeds exactly when the key is present, and gives that key's value |
| JsonModel.GetOr | convert_json_to_csv.py:43-45 | `dict.get(key, default)` gives the default exactly when the key is absent, else the key's value |
| JsonModel.Pop | combine_jsons.py:19 | `pop("year", None)` removes every entry with that key and keeps every other entry and lookup |
| JsonModel.PopAppend | combine_jsons.py:19 | popping works entry by entry, so the entries that stay keep their order |
| JsonModel.PopOne | combine_jsons.py:19 | one entry goes exactly when it has the key |
| JsonModel.Iterate | convert_json_to_csv.py:42 | a `for` over a list yields its items, over a string its characters, over a dict its keys, and fails on a scalar |
| Extract.ClampIndex | cleaned_extract.py:162 | a slice bound is clamped as Python does, including negative bounds counted from the end |
| Extract.PySlice | cleaned_extract.py:162 | `xs[lo:hi]` is the clamped window of `xs`, element by element, and is empty when the bounds cross |
| Extract.Texts | cleaned_extract.py:162 | the texts are collected exactly when every selected page is a dict with `text`; otherwise the first bad page gives `TypeError` or `KeyError('text')` |
| Extract.GetText | cleaned_extract.py:129-165 | a non-dict, a missing `content` or a non-list `content` gives `[]`, and the only failures are those of `Texts` |
| Extract.SliceFrom | cleaned_extract.py:162 | with non-negative bounds, `xs[lo:hi]` is the run of `xs` from `lo` up to `hi` or the end |
| Extract.GetTextSelectsPages | cleaned_extract.py:154-165 | when every page in the window has text, whatever the other pages hold, the result is the text of pages `first_page` to `last_page`, cut at the end of the document |
| Extract.ReplyObjects | cleaned_extract.py:424 | every object found in a reply starts with `{`, ends with `}` and has no `}` inside |
| Extract.BracedObject | cleaned_extract.py:424 | each object found is the text of a lazy brace match in the reply |
| Extract.NoBraceNoObjects | cleaned_extract.py:424 | a reply without `{` yields no objects |
| Extract.DecodedPrefix | cleaned_extract.py:425-428 | the decoded persons decode the leading objects in order, and stop at the first object that fails to decode |
| Extract.DecodedPrefixUnique | cleaned_extract.py:425-428 | any list with the `DecodedPrefix` properties is that prefix |
| Extract.ExtractRecords | cleaned_extract.py:419-430 | no reply or an empty reply gives `[]`, there are never more persons than objects, and person `k` is what object `k` decodes to |
| Extract.ExtractRecordsStopsAtFailure | cleaned_extract.py:423-428 | the `k`-th object's person is kept exactly when objects `0` to `k` all decode |
| Extract.ProcessLine | cleaned_extract.py:389-430 | the loop appends the decoded objects of the model's reply for the line until the first failure |
| Extract.ProcessPreprocessed | cleaned_extract.py:490 | one line's persons are those of the model's reply to the prepared line |
| Extract.LineRecords | cleaned_extract.py:490 | no reply to the prepared line gives no persons; otherwise there are at most as many persons as objects in the reply, and person `k` is what object `k` decodes to |
| Extract.PageLines | cleaned_extract.py:489-490 | the inner loop gives one entry per line, in line order, each the line's persons |
| Extract.OnePage | cleaned_extract.py:486-490 | one page's record carries its page number and the per-line persons of its candidate lines |
| Extract.ExtractPages | cleaned_extract.py:485-490 | the page loop gives one record per selected text, in order, numbered from `first_page` |
| Extract.ExtractedPage | cleaned_extract.py:485-490 | page `k` is numbered `first_page + k` and has one entry per candidate line of text `k`, each that line's persons |
| Extract.RunExtraction | cleaned_extract.py:483-490 | falsy data gives no pages, a `get_text` failure is a failure, and otherwise the pages are those of `ExtractPages` over the selected texts |
| Csv.EntryRow | convert_json_to_csv.py:48-54 | a row holds year and page number, then each field's value, or `""` when the field is absent |
| Csv.EntryRows | convert_json_to_csv.py:45-54 | one row per dict entry of a register, every row of the page's year and page number |
| Csv.PageRows | convert_json_to_csv.py:42-54 | a page that is not a dict fails, a page without `register` writes nothing, and every row carries the year |
| Csv.EntryRowsAsPairs | convert_json_to_csv.py:45-54 | a register's rows are the dict rows of its (page number, entry) pairs |
| Csv.RowsInPageOrder | convert_json_to_csv.py:42-54 | when no page fails, the rows are the dict entries of all pages, page by page and entry by entry |
| Csv.DictRowsCount | convert_json_to_csv.py:47 | there are exactly as many rows as dict entries |
| Csv.RowsUntil | convert_json_to_csv.py:42-57 | every row written has five cells and starts with the year |
| Csv.FailureStays | convert_json_to_csv.py:56-57 | after the first failing page nothing more is written |
| Csv.CsvRows | convert_json_to_csv.py:39-57 | the header is always written first, data without `pages` gives only the header, and non-dict data fails after the header |
| Csv.CsvRowsOfPages | convert_json_to_csv.py:39-45 | the rows are the header followed by the rows of the pages in order |
| Csv.RowCount | convert_json_to_csv.py:39-54 | when no page fails, the flag is clear and there is one row per dict entry plus the header |
| Csv.WritePage | convert_json_to_csv.py:45-54 | the register loop writes exactly one page's rows |
| Csv.WriteOnePage | convert_json_to_csv.py:43-54 | a page either appends its rows or fails and appends nothing |
| Csv.WritePages | convert_json_to_csv.py:42-57 | the pages loop writes the rows of the pages up to the first failure, and reports that failure |
| Csv.ConvertRows | convert_json_to_csv.py:34-57 | the whole conversion writes the rows and the failure flag that `CsvRows` specifies |
| Sorting.StrLtIrreflexive | combine_jsons.py:6 | no string sorts before itself |
| Sorting.StrLtTransitive | combine_jsons.py:6 | string order is transitive |
| Sorting.StrLtTotal | combine_jsons.py:6 | any two different strings are ordered one way or the other |
| Sorting.KeyLtOrder | combine_jsons.py:22 | the order on sort keys is a strict total order |
| Sorting.BeforeOrder | combine_jsons.py:22 | key-then-position is a strict order that is total on distinct positions |
| Sorting.SortItems | combine_jsons.py:22 | the sort returns a permutation of its input |
| Sorting.InsertSorted | combine_jsons.py:22 | inserting a later item into a sorted list keeps it sorted and adds exactly that item |
| Sorting.SortItemsCorrect | combine_jsons.py:22 | the sort orders by key, keeps equal keys in input order, and is a permutation |
| Sorting.SortValues | combine_jsons.py:22 | the sorted values are a permutation of the input values |
| Sorting.SortedMeans | combine_jsons.py:22 | in a sorted list no later key is smaller, and equal keys keep their order |
| Sorting.SortedUnique | combine_jsons.py:22 | two stable orderings of the same items are equal, so any stable sort gives this result |
| Sorting.NumberedMembers | combine_jsons.py:22 | every item of a permutation of the numbered input is the input element at its index, with its key |
| Combine.ByName | combine_jsons.py:6 | `sorted(os.listdir(...))` is a permutation of the listing |
| Combine.ByNameAscending | combine_jsons.py:6 | the names come out in ascending string order |
| Combine.SplitExtRoot | combine_jsons.py:10 | `splitext(i)[0]` is a prefix that differs from the name exactly when a dot follows a non-dot character, and then cuts at the last dot |
| Combine.SplitExtExample | combine_jsons.py:10 | `"1901.v2"` gives the year `"1901"` |
| Combine.LoadPage | combine_jsons.py:17-19 | a file loads exactly when it decodes to a dict, which is returned without `year`; otherwise the error is a decode error, `TypeError` for a list, or `AttributeError` for a scalar |
| Combine.Kept | combine_jsons.py:15 | the files read are exactly those not named `.DS_Store` |
| Combine.LoadPages | combine_jsons.py:14-20 | when loading succeeds there is at most one page per file, and every page is a dict without `year` |
| Combine.LoadedPages | combine_jsons.py:14-20 | a year's pages load exactly when every kept file loads, and there is one page per kept file, in listing order |
| Combine.LoadFailureStays | combine_jsons.py:14-20 | after the first file that fails, the year fails with that error |
| Combine.LoadYear | combine_jsons.py:13-20 | the file loop gives what `LoadPages` specifies |
| Combine.PageFields | combine_jsons.py:22 | the sort keys `x['page']` are evaluated for every page, failing with `KeyError('page')` or `TypeError` |
| Combine.OrderKeys | combine_jsons.py:22 | keys are orderable exactly when all are integers or booleans, or all are strings, and each orderable key keeps its value |
| Combine.SortPagesFails | combine_jsons.py:22 | sorting dict pages fails exactly when a page has no `page`, or there are two or more pages with unorderable keys |
| Combine.SortPages | combine_jsons.py:22 | a successful sort keeps the number of pages, and the only failures are `TypeError`, `KeyError('page')` and unorderable keys |
| Combine.SortedItemsFrom | combine_jsons.py:22 | each sorted page is an input page, with the key taken from its own `page` |
| Combine.SortPagesPermutes | combine_jsons.py:22 | the sorted pages are a permutation of the loaded pages |
| Combine.SortPagesOrder | combine_jsons.py:22 | pages come out by ascending `page`, and pages with equal `page` keep their file order |
| Combine.CombineDir | combine_jsons.py:8-24 | one year directory gives what `CombineYear` specifies |
| Combine.CombineYear | combine_jsons.py:9-24 | a combined year goes to `combined_registers/<root>_combined.json`, has `year` set to the root of the directory name, and a `pages` list of dicts none of which carries `year` |
| Combine.CombinedYear | combine_jsons.py:9-24 | the output path is `combined_registers/<root>_combined.json`, and the document is `year` then the sorted `pages` |
| Combine.CombinedPages | combine_jsons.py:13-22 | there is one combined page per kept file, and each is the loaded form of one of them |
| Combine.Dirs | combine_jsons.py:8 | only directories of the listing are combined |
| Combine.RunAll | combine_jsons.py:6-24 | there are at most as many outputs as entries, and each output is the combination of a directory of the listing |
| Combine.RunAllOutputs | combine_jsons.py:6-24 | there are at most as many outputs as directories, and with no failure output `k` is the combination of directory `k` |
| Combine.RunFailureStays | combine_jsons.py:6-24 | the first failing directory stops the run |
| Combine.CombineAll | combine_jsons.py:6-24 | the directory loop over the name-sorted listing gives what `RunAll` specifies |

## Left out

- The language model. Prompt construction (`make_system_message`,
  `make_human_message`) and `ask_llama` are one parameter
  `ask: string -> Option<string>`.
- JSON decoding and encoding. `json.loads` is the parameter `decode`.
  `json.load` in `combine_jsons.py` is a file's `content`, and `None` means it
  cannot be opened or parsed. `json.dump` and `create_page_json` are left out;
  the page loop returns the records it would write.
- File system, printing and progress bars. `load_json` (its result is the
  `data` parameter), `os.makedirs`, `open`, the progress bar and the messages
  printed on errors are left out.
- Extract.RunExtraction: `cleaned_extract.py:4` is `import tqdm`, which binds
  the module, so the call `tqdm(enumerate(text_list), ...)` at line 485 raises
  `TypeError: 'module' object is not callable`. As written, the script stops
  before the first page whenever `data` is truthy and `get_text` succeeds.
  The model follows the evidently intended `from tqdm import tqdm`: the
  progress bar yields the pages unchanged.
- JSON objects with repeated keys. A JSON object is a list of fields, and
  `JsonModel.Get` reads the first field with the key. `json.loads` keeps the
  last value of a repeated key, so the model takes `decode` and the files'
  `content` to yield objects whose keys are unique. There the two readings
  agree.
- CSV details. The `csv` writer's quoting and file writing are left out; a row
  is a sequence of JSON values.
- Csv.ConvertRows: the case where loading the input file failed and `data` is
  unbound is left out. There the source writes the header, and the
  `NameError` is caught at lines 56-57.
- The other scripts. `ocr.py`, `binarize_images.py` and `convert_pdf_to_jpg.py`
  drive external OCR and imaging tools, and are not part of this model.
- Unicode whitespace. The model's `\s`, `\w`, `\b` and `str.strip` know only
  ASCII whitespace and word characters. On `str` patterns `re` also counts
  non-ASCII whitespace and word characters, but the explicit ranges
  `[a-zA-Z]` and `0-9` are ASCII in both. `strip_text` (line 192) therefore
  deletes every non-ASCII letter and digit before any later pattern runs. Only
  non-ASCII whitespace such as U+00A0 survives it, since `\s` keeps it; from
  there on `re` and `str.strip` treat it as whitespace and the model does not.
- Floating-point numbers. JSON values have no floats, so no sort key or page
  number can be a float.
- Combine.OrderKeys: keys that are all lists are reported as
  `UnorderableKeys`. Python would compare them element by element.
- Combine.SortPages: inherits the `OrderKeys` limitation for list-valued
  `page` keys. Mixed, null or dict keys fail with `TypeError`, as in Python.
- Sorting.KeyLt: the order across integer and string keys is only there to
  make the order total. `OrderKeys` never yields a mix.
- Sorting.SortItems: Python's Timsort is replaced by stable insertion.
  `Sorting.SortedUnique` shows that they agree, because a stable sort has only
  one result.
- Combine.SplitExtRoot: names are single path components, with no separators,
  as `os.listdir` returns them.
- `dict.pop` in place. `combine_jsons.py` mutates each loaded dict; the model
  returns a new value (`JsonModel.Pop`), which is equivalent because no other
  reference to the dict exists.

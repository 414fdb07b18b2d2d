# email_checker in Dafny

`email_checker.py` checks a marketing e-mail against its copydoc. The
copydoc is a text file of blocks separated by blank lines: the first line of
a block names it and the other lines hold its expected text. The checker:

- reads the copydoc into an insertion-ordered dictionary from name to text;
- collects the text nodes of the e-mail's HTML, each normalised to one
  trimmed line;
- scores every expected block against every e-mail text block;
- reports near matches (a score of at least 50 and below 100) as
  discrepancies, and reports blocks that nothing reached as missing;
- for a discrepancy, cuts a snippet of each text around their first
  difference.

This project models that core and proves what it guarantees.

- `text.dfy` (`Text`): the Python string primitives the checker is built
  from: `strip`, `split`, `join` and `splitlines`. Whitespace is the six
  ASCII whitespace characters, and `'\n'` is the only line break.
- `normalize.dfy` (`Normalize`): `clean_text` (the substitution
  `(?m)^\s+` → `""`), the per-node normaliser, and the loop that collects
  the normalised nodes.
- `ordered_dict.dfy` (`OrderedDict`): a Python `dict` as a sequence of
  entries in insertion order. `d[k] = v` replaces a known key's value in
  place and appends a new key.
- `copydoc.dfy` (`Copydoc`): `read_text_blocks_correct` on the file's
  content, as a method with its loop. It is proved against the
  specification function `ParseCopydoc`.
- `compare.dfy` (`Compare`): `compare_text_blocks`, as a method with its two
  nested loops. It is proved against `AllRecords` and `MissingBlocks`. The
  similarity score (`difflib` ratio × 100) is a parameter: any function
  from two texts to a real number in [0, 100].
- `snippet.dfy` (`Snippet`): `find_difference_snippet`, as a loop over an
  edit script given as input. The script is constrained by
  `WellFormedOpcodes`, the shape `get_opcodes` guarantees: contiguous ranges
  that tile both texts, and `equal` ranges that hold the same text. Python's
  slice clamping is modelled as `PySlice`.

Three behaviours of the code are worth stating outright:

- The per-node loop skips empty nodes (`if text:`, line 19). Nodes made
  only of whitespace are kept, and each normalises to `""`.
- The reader parses every piece of the blank-line split, empty pieces
  included, and each empty piece yields the key `""`.
- The comment at line 9 speaks of replacing indentation with a single
  space. The substitution at line 10 deletes the indentation.

## Model

| member | source | states |
|---|---|---|
| Text.Strip | email_checker.py:22-23 | `str.strip()` returns a slice `s[i:j]` with only whitespace before `i` and after `j`, and the result has no whitespace at either end |
| Text.TrimStart | email_checker.py:22 | the leading half of `strip()`: a suffix of the text, with only whitespace cut off before it, that does not start with whitespace |
| Text.TrimEnd | email_checker.py:22 | the trailing half of `strip()`: a prefix of the text, with only whitespace cut off after it, that does not end with whitespace |
| Text.StripEach | email_checker.py:22 | `[line.strip() for line in lines]` has one entry per line, entry `i` is the strip of line `i`, and no entry has whitespace at either end |
| Text.StripEmpty | email_checker.py:22 | a stripped line is empty exactly when the line is all whitespace |
| Text.StripTrimmed | email_checker.py:34-35 | stripping a text with no surrounding whitespace changes nothing |
| Text.StripChars | email_checker.py:22 | stripping introduces no character |
| Text.Split | email_checker.py:31 | `split` always yields at least one piece, even for the empty text |
| Text.SplitJoin | email_checker.py:31 | joining the pieces of `s.split(sep)` with `sep` gives back `s`: splitting loses no character |
| Text.SplitAvoids | email_checker.py:33 | no piece of `block.split("\n")` contains a line break |
| Text.SplitTrailing | email_checker.py:31 | a text ending with the separator splits into at least two pieces; the last piece is a suffix shorter than the separator |
| Text.JoinSplit | email_checker.py:31 | splitting `sep.join(parts)` gives back `parts` when no separator straddles or ends a piece |
| Text.SplitLines | email_checker.py:21 | no line holds a line break; there are no lines exactly when the text is empty |
| Text.SplitLinesJoin | email_checker.py:21 | the lines of `splitlines()`, joined with line breaks, give back the text up to one final line break: only that break is lost |
| Text.Join | email_checker.py:23 | `sep.join(parts)` is as long as the parts together plus one separator between each two; no parts give `""` |
| Text.JoinLast | email_checker.py:23 | joining two or more parts ends with the separator and the last part |
| Normalize.Unindent | email_checker.py:10 | the substitution deletes only whitespace, and no line of the result starts with whitespace |
| Normalize.CleanText | email_checker.py:5-11 | `clean_text` deletes only whitespace, keeping every other character in order, and no line of its result starts with whitespace |
| Normalize.CleanTextDeletesIndentation | email_checker.py:5-11 | `clean_text` keeps exactly the characters outside the whitespace run that begins their line: whitespace after a line's first non-whitespace character survives, indentation is deleted, every non-whitespace character is kept in order, and no line of the result starts with whitespace |
| Normalize.LineStart | email_checker.py:10 | where the `(?m)^` anchor before position `k` sits: just after a line break or at 0, with no line break between it and `k` |
| Normalize.UnindentSurvivors | email_checker.py:10 | read from any position, the substitution keeps a character exactly when the text from its line's start up to and including it is not all whitespace |
| Normalize.LineState | email_checker.py:10 | a character is indentation exactly when it is whitespace and its line so far is whitespace; a line break starts a fresh line |
| Normalize.UnindentFixed | email_checker.py:10 | a text with no indented line is left unchanged |
| Normalize.CleanTextIdempotent | email_checker.py:5-11 | `clean_text(clean_text(t)) == clean_text(t)` |
| Normalize.UnindentOneLine | email_checker.py:10 | on a single line, `clean_text` is `lstrip` |
| Normalize.NormalizeNode | email_checker.py:21-23 | a normalised node has no whitespace at either end |
| Normalize.NormalizedNodeIsTrimmedLine | email_checker.py:21-23 | a normalised node is one line with no surrounding whitespace; a whitespace-only node normalises to `""` |
| Normalize.CleanTextRedundantInNode | email_checker.py:23 | after lines are joined with spaces, `clean_text` changes nothing the final `strip` does not |
| Normalize.ExtractedBlocks | email_checker.py:17-24 | at most one block per node: nodes are skipped, never split |
| Normalize.ExtractedBlocksAreTrimmedLines | email_checker.py:17-24 | every collected block is a single trimmed line |
| Normalize.ExtractTextBlocks | email_checker.py:17-24 | the loop returns each non-empty node, normalised, in document order; every block is a single trimmed line |
| OrderedDict.Keys | email_checker.py:43 | the keys of `items()`: one per entry, in insertion order |
| OrderedDict.Get | email_checker.py:36 | a key has no value exactly when it is not in the dictionary; a value found is that of an entry for the key |
| OrderedDict.Insert | email_checker.py:36 | `d[k] = v` keeps a known key in its position and appends a new key at the end |
| OrderedDict.InsertGet | email_checker.py:36 | after `d[k] = v`, `k` maps to `v` and every other key keeps its value |
| OrderedDict.InsertEntries | email_checker.py:36 | `d[k] = v` keeps one entry per key and adds no entry other than `(k, v)` |
| OrderedDict.InsertNew | email_checker.py:36 | `d[k] = v` for a new key appends exactly that entry |
| Copydoc.RemoveBackslashes | email_checker.py:34 | exactly the backslashes are deleted: every other character is kept, in order, and no backslash is left |
| Copydoc.RemoveBackslashesChars | email_checker.py:34 | removing backslashes adds no character, and a line without backslashes is unchanged |
| Copydoc.ParseBlock | email_checker.py:33-35 | a block's key and value have no whitespace at either end |
| Copydoc.ParseBlockWellFormed | email_checker.py:33-35 | a block's key and value are single trimmed lines, the key holds no backslash, and a one-line block has the empty value |
| Copydoc.Build | email_checker.py:32-36 | the dictionary has at most one entry per block, and at least one when there is a block |
| Copydoc.ParseCopydoc | email_checker.py:27-37 | the dictionary is never empty: even empty content is one block |
| Copydoc.ReadTextBlocks | email_checker.py:27-37 | the loop returns the dictionary of `ParseCopydoc`: every block of the blank-line split, parsed and inserted in order |
| Copydoc.BuildEntries | email_checker.py:32-36 | the dictionary has one entry per key, and each entry is one of the parsed pairs |
| Copydoc.ParsedBlocksWellFormed | email_checker.py:27-37 | the parsed copydoc has unique keys; no key holds a backslash; every key and value is a single trimmed line |
| Copydoc.BuildValue | email_checker.py:36 | each key holds the value of the last block naming it (last write wins) |
| Copydoc.BuildKeysPresent | email_checker.py:36 | a key is in the dictionary exactly when some block names it |
| Copydoc.BuildKeyOrder | email_checker.py:36 | the keys appear in the order in which each first occurs among the blocks |
| Copydoc.ParserSkipsNoBlock | email_checker.py:31-36 | every block, an empty one included, puts its key in the dictionary; a block that no later block renames supplies its key's value |
| Copydoc.ParserKeepsFirstPosition | email_checker.py:31-36 | a repeated key keeps the position of its first block |
| Copydoc.EmptyBlock | email_checker.py:33-35 | an empty block parses to key `""` with value `""` |
| Copydoc.TrailingBlankLine | email_checker.py:31-36 | content ending in a blank line maps the key `""` to `""` |
| Copydoc.EntryBlockParses | email_checker.py:33-35 | the block written for an entry (the bare name for an empty body, else the name, a line break and the body) parses back to `(name, body)` for a well-formed name and body |
| Copydoc.NameParses | email_checker.py:33-35 | a one-line block is a key with the empty value |
| Copydoc.EntryBlockUncut | email_checker.py:31 | the block written for an entry holds no blank line, so the split of line 31 leaves it whole |
| Copydoc.RoundTrip | email_checker.py:27-37 | parsing a copydoc written from a non-empty list of well-formed entries, empty bodies included, gives back the same entries in the same order |
| Copydoc.BuildDistinct | email_checker.py:32-36 | inserting pairs with distinct keys yields exactly those pairs, in order |
| Compare.CompareTextBlocks | email_checker.py:39-57 | the nested loops return the records of `AllRecords` and the dictionary of `MissingBlocks` |
| Compare.RecordsFor | email_checker.py:45-52 | the inner loop adds at most one record per candidate |
| Compare.Matched | email_checker.py:44-52 | `found` is never set without a candidate |
| Compare.AllRecords | email_checker.py:43-55 | no e-mail blocks, no records |
| Compare.MissingBlocks | email_checker.py:54-55 | at most one missing entry per expected block |
| Compare.MatchedIffSomeScoreReachesHalf | email_checker.py:44-52 | `found` is set exactly when some candidate scores 50 or more |
| Compare.RecordsForExactly | email_checker.py:45-52 | a record is added for a block exactly when a candidate scores at least 50 and below 100; it holds the block's key, its text, that candidate and that score |
| Compare.RecordsWellFormed | email_checker.py:43-52 | every record is `(key, expected text of key, candidate, score)`, with the pair in the copydoc, the candidate in the e-mail, and a score of at least 50 and below 100 |
| Compare.AllRecordsAppend | email_checker.py:43-55 | records follow the copydoc's block order |
| Compare.RecordsForAppend | email_checker.py:45-52 | within one block, records follow the e-mail's block order |
| Compare.PerfectMatchKeepsScanning | email_checker.py:47-48 | a score of 100 adds no record, sets `found`, and does not stop the scan of later candidates |
| Compare.PerfectThenNearMatch | email_checker.py:47-52 | a block matched perfectly can still get a record from a later near match |
| Compare.MissingBlocksExactly | email_checker.py:54-55 | a key is missing exactly when it is an expected block that nothing matched, and it maps to its expected text |
| Compare.MissingIffAllBelowHalf | email_checker.py:43-55 | a block is missing exactly when every candidate scores below 50; otherwise its key is absent from the missing blocks |
| Compare.RecordedNeverMissing | email_checker.py:50-55 | a key with a discrepancy record is never missing |
| Compare.EmptyEmail | email_checker.py:43-57 | against no e-mail blocks there are no records, and every expected block is missing, in the copydoc's order |
| Snippet.FindDifferenceSnippet | email_checker.py:59-69 | neither snippet is longer than its text, and a script of `equal` opcodes only yields `("", "")` |
| Snippet.WindowStart | email_checker.py:66 | `max(i1 - 10, 0)`: never negative, never after `i1`, at most 10 before it, and either 0 or exactly `i1 - 10` |
| Snippet.WindowEnd | email_checker.py:67 | `min(i2 + 10, len)`: never past the text or `i2 + 10`, and equal to one of them |
| Snippet.PySlice | email_checker.py:68 | a slice is never longer than its text, bounds inside the text give `s[start..end]`, and a non-negative end at or before the start gives `""` |
| Snippet.FirstChange | email_checker.py:64-65 | the first opcode that is not `equal`, with every opcode before it `equal` |
| Snippet.SliceBound | email_checker.py:68 | a slice bound is clamped to the text, and a bound inside the text is used as is |
| Snippet.FindSnippet | email_checker.py:63-69 | the loop returns the pair `FindDifferenceSnippet` describes: the window of the first change, or `("", "")` |
| Snippet.FirstChangeAt | email_checker.py:64-65 | the loop's early return happens at the first opcode that is not `equal` |
| Snippet.AllEqualMeansSameText | email_checker.py:64-69 | a well-formed script without a change describes two equal texts, so for differing texts the function always reaches the window branch of lines 66-68 |
| Snippet.FirstChangeAligned | email_checker.py:64-65 | the first change starts at the same offset in both texts, and the texts agree before it |
| Snippet.SnippetWindow | email_checker.py:66-68 | `0 <= start <= i1 <= i2 <= end <= len(correct)`; the expected snippet is `correct[start:end]`, contains `correct[i1:i2]` and is at most 20 longer; the found snippet is the same range of the e-mail text, clamped |
| Snippet.ExpectedWindow | email_checker.py:66-68 | the same window facts for one opcode that fits the expected text |
| Snippet.EmailSnippetMissesInsertion | email_checker.py:68 | "Hi" against "Hi there" gives `("Hi", "Hi")`: the found snippet misses the inserted text |
| Snippet.AlignedSnippetShowsChange | email_checker.py:66-68 | with the e-mail's own indices, the found snippet contains `email[j1:j2]` and is at most 20 longer; the expected snippet is unchanged |
| Snippet.AlignedSnippet | email_checker.py:68 | the corrected function keeps the expected snippet of line 68, and its found snippet is no longer than the e-mail text |
| Snippet.FoundWindowStart | email_checker.py:66 | the corrected start, from the e-mail's `j1`: never negative, never after `j1`, at most 10 before it |
| Snippet.FoundWindowEnd | email_checker.py:67 | the corrected end, from the e-mail's `j2`: never past the e-mail text or `j2 + 10`, and equal to one of them |
| Snippet.FoundWindow | email_checker.py:68 | the found text's own window around a change holds the changed range |
| Snippet.AlignedSnippetShowsInsertion | email_checker.py:68 | the corrected snippet of "Hi" against "Hi there" is `("Hi", "Hi there")` |

## Left out

- HTML parsing with BeautifulSoup (lines 15-17): the text nodes are an input to `Normalize.ExtractTextBlocks`.
- File reading and UTF-8 decoding (lines 15, 29-30): the copydoc's content is an input to `Copydoc.ReadTextBlocks`. The failure paths for unreadable files are not modelled.
- `difflib.SequenceMatcher` (lines 46, 63-64): its ratio is the parameter `sim`, a function into [0, 100]. The opcodes are an input, constrained only by `Snippet.WellFormedOpcodes`. Nothing about how difflib chooses matching blocks is modelled.
- The interactive report under `__main__` (lines 72-108): prompting, printing and the report layout.
- Floating point: the score is an exact real. `similarity == 100` is exact equality, so rounding that lands just below 100 is not modelled.
- Text.IsSpace: whitespace is the six ASCII whitespace characters. Python's `\s`, `strip()` and `isspace()` also accept the separators `\x1c`-`\x1f`, `\x85` and Unicode spaces.
- Text.SplitLines: `'\n'` is the only line boundary. Python's `splitlines()` also breaks at `\r`, `\r\n`, `\v`, `\f`, `\x1c`-`\x1e`, `\x85`, `\u2028` and `\u2029`.
- Copydoc.RoundTrip: proved for non-empty lists of entries. The empty list is written as `""`, which reads back as the single entry `("", "")`, so it cannot round-trip.
- Normalize.Unindent: its own contract says only that whitespace alone is deleted and that no line is left indented; exactly which characters go is stated by Normalize.UnindentSurvivors.
- Normalize.ExtractedBlocks: its own contract is a length bound; what each block is, is stated by Normalize.ExtractTextBlocks and Normalize.ExtractedBlocksAreTrimmedLines.
- Copydoc.Build: its own contract bounds the size; keys, values and order are stated by Copydoc.BuildKeysPresent, Copydoc.BuildValue and Copydoc.BuildKeyOrder.
- Compare.RecordsFor: its own contract is a length bound; the records themselves are stated by Compare.RecordsForExactly.
- Compare.Matched: its own contract gives one direction; the full condition is stated by Compare.MatchedIffSomeScoreReachesHalf.
- Compare.AllRecords: its own contract covers the empty e-mail; the records are stated by Compare.RecordsWellFormed and Compare.AllRecordsAppend.
- Compare.MissingBlocks: its own contract is a length bound; the entries are stated by Compare.MissingBlocksExactly.
- Snippet.FindDifferenceSnippet: its own contract bounds the lengths; the window is stated by Snippet.SnippetWindow.

## Findings

| source | as written | input that shows it | evidently intended | confidence | as-written member | corrected member |
|---|---|---|---|---|---|---|
| email_checker.py:68 | the e-mail text is sliced with the window computed from the expected text's indices `i1`, `i2` and its length | correct `"Hi"`, e-mail `"Hi there"`, opcodes `equal(0,2,0,2)`, `insert(2,2,2,8)`: the result is `("Hi", "Hi")` and the inserted `" there"` is not shown | cut the e-mail text around `j1`, `j2`, clamped to the e-mail's own length, so the found snippet shows its side of the change | not executed | Snippet.EmailSnippetMissesInsertion | Snippet.AlignedSnippetShowsChange |

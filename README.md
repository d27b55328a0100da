# Phone numbers from screenshots, in Dafny

`extraer_numeros.py` goes through a folder of screenshots taken from WhatsApp groups.
For every file whose name ends in `png`, `jpg` or `jpeg`, it runs OCR on the image. It
then collects every international phone number that `re.findall` finds in the text with
the pattern `REGEX_NUMERO` = `\+\d{1,3}\s?\d{1,4}[\s-]?\d{3,4}[\s-]?\d{3,4}`. Finally it
writes the distinct numbers to `numeros_extraidos.txt`, sorted, each stripped and followed
by `'\n'`.

This project models the part of that script that is its own logic:

- `pattern.dfy` (module `PhonePattern`) holds the pattern as a list of atoms. `Match` is a
  backtracking matcher that tries alternatives in the order Python's `re` does: a bounded
  repetition tries its largest count first, and an optional separator is tried present
  before absent. `Accepts` is the declarative language of the pattern. `Match` is proved
  sound and complete against `Accepts`, and greedy. Every word of the language has the
  phone-number shape.
- `scanner.dfy` (module `Scanner`) is `re.findall` as `extraer_numeros_imagen` uses it.
  It is stated for any pattern that begins with a literal `+`, as `REGEX_NUMERO` does, so
  the script's call is `FindAll(PHONE, text)`. `Scan` tries the pattern at each position.
  After a match it resumes at the match's end; otherwise it moves on by one character.
  `IsScan` describes the result without saying how it is computed. `ScanIsScan` shows
  that `Scan` has that description, and `ScanUnique` that it is the only result with it.
  `FindAll` returns the matched substrings. The last part of the file applies the matcher
  to the phone pattern: four digit runs with separators between them are matched whole.
- `order.dfy` (module `StringOrder`) holds Python's `<` on strings, its order laws, and
  `sorted()` of a set as the method `Sorted`.
- `folder.dfy` (module `Folder`) holds `procesar_carpeta`: the file-name filter, `str.strip()`,
  the set gathered over the listing, and the method `ProcessFolder`. Its first loop keeps
  the invariant that the set equals `Collected` of the files seen so far. Its second loop
  writes the lines.
- `examples.dfy` (module `DocExamples`) covers the three numbers of the comment at line 10,
  and a folder holding a repeated number.
- `wrappers.dfy` holds `Option`.

The OCR step (`Image.open` followed by `pytesseract.image_to_string`) is a parameter
`ocr: string -> Option<string>`. The value `None` stands for an exception raised while
opening or reading an image. The script has no `try`, so such an exception ends the run
before the output file is opened; `ProcessFolder` returns `Aborted(file)` in that case.
The folder listing (`os.listdir`) is a parameter `listing: seq<string>`.

Where the code says something other than its comments:

- The comment at line 10 lists `+54 9 376 411 0177` among the numbers the pattern
  detects. That number has five digit groups, and the pattern allows only four after the
  `+`. `re.findall` returns only its first 13 characters, `+54 9 376 411`. The model
  follows the pattern: see `DocExamples.Argentina` and `DocExamples.ArgentinaTwice`.

A match is 9 to 19 characters long: the shortest is `+`, one digit, one digit, three digits
and three digits. Both bounds are proved in `PhonePattern.PhoneShape`.

The `lines` of the model are the strings passed to `f.write`, one per number, not the
physical lines of the file. `\s` includes line breaks (`\n`, `\r`, `\v`, `\f`, `\x1c` to
`\x1e`, `\x85`, U+2028, U+2029), so one number can span several physical lines, as
`DocExamples.LineBreakInside` shows for `+54 9\n376 411`.

## Model

| member | source | states |
|---|---|---|
| PhonePattern.IsDigit | extraer_numeros.py:11 | `\d` on ASCII; definition, used by `PhoneShape` |
| PhonePattern.IsSpace | extraer_numeros.py:11 | `\s`: the characters for which Python's `str.isspace` holds; definition, used by `PhoneShape` and `Folder.Strip` |
| PhonePattern.PHONE | extraer_numeros.py:11 | `REGEX_NUMERO` as a list of atoms; definition, its properties are in `PhoneShape` and `PhoneLengths` |
| PhonePattern.Accepts | extraer_numeros.py:11 | The language of an atom list; definition, the partner of `Match` in `MatchSound` and `MatchComplete` |
| PhonePattern.Match | extraer_numeros.py:11 | A match found at `i` ends between `i` and the end of the text; what it means is in `MatchSound`, `MatchComplete` and `RepTakes` |
| PhonePattern.MatchSound | extraer_numeros.py:11 | What the matcher consumes is a word of the pattern's language |
| PhonePattern.MatchRepSound | extraer_numeros.py:11 | Soundness of a repetition tried from count `n` downwards |
| PhonePattern.MatchComplete | extraer_numeros.py:11 | If some prefix of the text from `i` is a word of the pattern, the matcher finds a match at `i` |
| PhonePattern.MatchRepComplete | extraer_numeros.py:11 | A repetition tried from count `m` downwards succeeds when some count `n <= m` lets the rest match |
| PhonePattern.MatchNoneIff | extraer_numeros.py:11 | The matcher fails at `i` exactly when no prefix of the text from `i` is a word of the pattern |
| PhonePattern.RepTakes | extraer_numeros.py:11 | Greediness: when `n` is the largest count the characters allow and the rest matches after it, the repetition takes exactly `n` |
| PhonePattern.RepTakesFrom | extraer_numeros.py:11 | Greediness for a repetition tried from count `m` downwards |
| PhonePattern.LengthBounds | extraer_numeros.py:11 | A word of an atom list is between its minimum and maximum lengths |
| PhonePattern.CharsAllowed | extraer_numeros.py:11 | Every character of a word is allowed by some atom of the list |
| PhonePattern.LastInClass | extraer_numeros.py:11 | When the list ends in a repetition of at least one character, the word's last character is in that repetition's class |
| PhonePattern.PhoneLengths | extraer_numeros.py:11 | The phone pattern's words are at least 9 and at most 19 characters long |
| PhonePattern.PhoneTailAllows | extraer_numeros.py:11 | After the `+`, the phone pattern allows only digits, whitespace and `-` |
| PhonePattern.AcceptsLit | extraer_numeros.py:11 | A word of a pattern that begins with a literal begins with that character, and the rest is a word of the rest of the pattern |
| PhonePattern.PhoneShape | extraer_numeros.py:11 | Every word of the phone pattern is 9 to 19 characters long, starts with `+`, ends with a digit, and has only digits, whitespace and `-` after the `+` |
| Scanner.MatchAt | extraer_numeros.py:11 | A match at `i` is never empty: it ends after `i` and within the text |
| Scanner.MatchAtAccepts | extraer_numeros.py:11 | A match found at `i` is a word of the pattern |
| Scanner.MatchAtNoneIff | extraer_numeros.py:11 | No match at `i` exactly when no prefix from `i` has the pattern's shape |
| Scanner.Scan | extraer_numeros.py:24 | Every span of the scan from `pos` lies between `pos` and the end of the text and is not empty |
| Scanner.ScanIsScan | extraer_numeros.py:24 | The scan from `pos` satisfies `IsScan`: spans in order that do not overlap, each the match at its start, and every position with a match lies inside some span |
| Scanner.ScanFound | extraer_numeros.py:24 | A match at `pos` followed by a scan from its end is a scan from `pos` |
| Scanner.FoundMatch | extraer_numeros.py:24 | In that case each span is still the match found at its start |
| Scanner.FoundOrdered | extraer_numeros.py:24 | In that case the spans still do not overlap |
| Scanner.FoundCover | extraer_numeros.py:24 | In that case every position with a match still lies inside some span |
| Scanner.ScanSkipped | extraer_numeros.py:24 | With no match at `pos`, a scan from `pos + 1` is a scan from `pos` |
| Scanner.ScanUnique | extraer_numeros.py:24 | Any sequence of spans that satisfies `IsScan` is the scan |
| Scanner.FirstSpan | extraer_numeros.py:24 | When there is a match at `pos`, any scan from `pos` starts with that match |
| Scanner.TailScan | extraer_numeros.py:24 | After the first span, the scan resumes at that span's end |
| Scanner.NextScan | extraer_numeros.py:24 | With no match at `pos`, a scan from `pos` is also a scan from `pos + 1` |
| Scanner.SpanCount | extraer_numeros.py:24 | A scan from `pos` has at most `|s| - pos` spans |
| Scanner.Ordered | extraer_numeros.py:24 | An earlier span of a scan ends no later than a later span starts |
| Scanner.FindAll | extraer_numeros.py:24 | `re.findall`: definition, its properties are in `FindAllIsScan`, `FindAllAreNumbers` and `FindAllInOrder` |
| Scanner.FindAllIsScan | extraer_numeros.py:24 | For any spans that satisfy `IsScan`, findall returns one string per span, the text between its ends, each a word of the pattern starting with `+` |
| Scanner.FindAllAreNumbers | extraer_numeros.py:11-24 | Every string findall returns for the phone pattern is a word of it, 9 to 19 characters long, starting with `+` and ending with a digit |
| Scanner.FindAllInOrder | extraer_numeros.py:24 | The matches are substrings of the text that do not overlap, in increasing order of start |
| Scanner.PlusesShrink | extraer_numeros.py:24 | A later start of the text holds no more `+` characters |
| Scanner.NoPluses | extraer_numeros.py:24 | A stretch without `+` counts none |
| Scanner.PlusBound | extraer_numeros.py:24 | A scan has no more matches than the text from `pos` has `+` characters |
| Scanner.NoPlusNoMatch | extraer_numeros.py:24 | A text without `+` gives no matches |
| Scanner.SkipTo | extraer_numeros.py:24 | The scan passes over a stretch without `+` without finding anything |
| Scanner.ScanNoPlus | extraer_numeros.py:24 | Once no `+` is left, the scan finds nothing more |
| Scanner.RunTaken | extraer_numeros.py:11 | A digit repetition facing exactly `n` digits, `n` within its bounds, takes all of them when the rest matches after them |
| Scanner.SepTaken | extraer_numeros.py:11 | An optional separator that is present is taken when the rest matches after it |
| Scanner.LastGroups | extraer_numeros.py:11 | The last two groups: 3 or 4 digits, a space or `-`, and 3 or 4 digits are matched whole |
| Scanner.MiddleGroup | extraer_numeros.py:11 | The second group of 1 to 4 digits and the separator after it are matched in front of the last two groups |
| Scanner.LeadingGroup | extraer_numeros.py:11 | The `+`, the country code of 1 to 3 digits and the whitespace after it are matched in front of the other groups |
| Scanner.SeparatedGroups | extraer_numeros.py:11 | A `+` followed by four digit runs within the pattern's bounds, with one separator between runs and whitespace after the first, is matched whole |
| DocExamples.Peru | extraer_numeros.py:10-11 | findall on `+51 958-123-456` returns just that whole string |
| DocExamples.Chile | extraer_numeros.py:10-11 | findall on `+56 9 8765 4321` returns just that whole string |
| DocExamples.LineBreakInside | extraer_numeros.py:11-24 | findall on `+54 9\n376 411` returns that whole string: a match can span a line break |
| DocExamples.WholeTextOnce | extraer_numeros.py:24 | A text that the pattern matches whole is found once, as itself |
| DocExamples.Argentina | extraer_numeros.py:10-11 | findall on `+54 9 376 411 0177` returns only `+54 9 376 411` |
| DocExamples.DigitsRun | extraer_numeros.py:11 | One to four digits followed by a character that is not a digit form a run of exactly that length |
| DocExamples.ArgentinaAt | extraer_numeros.py:11 | The 14 characters `+54 9 376 411 ` at any position give a match of 13 characters there |
| DocExamples.ArgentinaTwice | extraer_numeros.py:24 | A text that holds `+54 9 376 411 0177` twice gives `+54 9 376 411` twice |
| DocExamples.TwiceScan | extraer_numeros.py:24 | The spans of that text are (5, 18) and (27, 40) |
| DocExamples.TwiceFirst | extraer_numeros.py:24 | From the first occurrence, the scan finds it and then resumes at the second |
| DocExamples.TwiceSecond | extraer_numeros.py:24 | From the second occurrence, the scan finds only it |
| DocExamples.FailureDependsOnOrder | extraer_numeros.py:22-39 | For two image files whose OCR raises, the listing `a, b` fails at `a` and the listing `b, a` at `b` |
| DocExamples.SkipAndRead | extraer_numeros.py:32-40 | A skipped file followed by a screenshot that yields only `w`: nothing fails and the set is `{w}` |
| DocExamples.RepeatedNumberOnce | extraer_numeros.py:32-45 | A skipped file followed by a screenshot whose text gives the same number twice: the output is that number on a single line |
| StringOrder.Less | extraer_numeros.py:44 | Python's `<` on strings, by code point; definition, its laws are in the lemmas below |
| StringOrder.LessIrreflexive | extraer_numeros.py:44 | No string sorts before itself |
| StringOrder.LessTransitive | extraer_numeros.py:44 | The string order is transitive |
| StringOrder.LessTotal | extraer_numeros.py:44 | Of two different strings, one sorts before the other |
| StringOrder.LessTransitiveAll | extraer_numeros.py:44 | Transitivity for all strings at once |
| StringOrder.SortedUnique | extraer_numeros.py:44 | Two strictly increasing sequences with the same elements are equal, so `sorted()` of a set has one result |
| StringOrder.HasLeast | extraer_numeros.py:44 | A non-empty set of strings has a least element |
| StringOrder.Sorted | extraer_numeros.py:44 | `sorted(found)` is strictly increasing and holds exactly the elements of `found` |
| Folder.IsImageName | extraer_numeros.py:36 | The filter; definition, its properties are in `ImageNameExamples`, `ImageNameSuffix` and `ImageNameCase` |
| Folder.ImageNameExamples | extraer_numeros.py:36 | `photo.JPEG`, `xPNG` and `Jpg` pass the filter; `a.gif` and `shot.png.txt` do not |
| Folder.ImageNameSuffix | extraer_numeros.py:36 | Only the last four characters of a name decide the filter; no dot is required |
| Folder.LowerTail | extraer_numeros.py:36 | The lowered name's last four characters do not depend on what comes before them |
| Folder.SameTail | extraer_numeros.py:36 | Two strings with the same last four characters end alike in any suffix of at most four |
| Folder.LowerIdempotent | extraer_numeros.py:36 | Lowering twice is lowering once |
| Folder.LowerOfUpper | extraer_numeros.py:36 | Lowering an upper-cased name gives the lowered name |
| Folder.ImageNameCase | extraer_numeros.py:36 | The filter gives the same verdict for a name, its lower-case form and its upper-case form |
| Folder.TrimStart | extraer_numeros.py:45 | Leading whitespace removed: the result is a suffix, everything cut is whitespace, and it does not start with whitespace |
| Folder.TrimEnd | extraer_numeros.py:45 | Trailing whitespace removed: the result is a prefix, everything cut is whitespace, and it does not end with whitespace |
| Folder.Strip | extraer_numeros.py:45 | `str.strip()`: a middle part of the string, everything cut on either side is whitespace, and it neither starts nor ends with whitespace |
| Folder.StripKeepsNumber | extraer_numeros.py:45 | Stripping never changes a match |
| Folder.Extracted | extraer_numeros.py:36-40 | The numbers one listed file adds; definition, used by `CollectedIff` |
| Folder.Gathered | extraer_numeros.py:32-40 | The union over the listing; definition, its property is `GatheredIff` |
| Folder.Collected | extraer_numeros.py:32-40 | The set after the loop; definition, its properties are in `CollectedIff`, `CollectedStep` and `CollectedAreNumbers` |
| Folder.Fails | extraer_numeros.py:22-23 | The OCR of an image file raises; definition, used by `FirstFailureIff` |
| Folder.FirstFailure | extraer_numeros.py:22-39 | The file at which the uncaught exception ends the run; definition, its properties are in `FirstFailureIff` and `FirstFailurePrefix` |
| Folder.OutputFor | extraer_numeros.py:43-45 | The strings written for a set; definition, its properties are in `OutputLines` and `OutputUnique` |
| Folder.CollectedStep | extraer_numeros.py:35-40 | One more file adds its own numbers to the set |
| Folder.GatheredIff | extraer_numeros.py:32-40 | An element of the union comes from some name of the listing |
| Folder.CollectedIff | extraer_numeros.py:32-40 | A number is in the set exactly when some listed image file's text yields it |
| Folder.CollectedAreNumbers | extraer_numeros.py:39-40 | Every number in the set is a word of the pattern, 9 to 19 characters long |
| Folder.FirstFailureIff | extraer_numeros.py:22-39 | The run fails exactly when the OCR of some image file raises, and then at the first such file |
| Folder.FirstFailurePrefix | extraer_numeros.py:35-39 | A failure among the first files is the failure of the whole listing |
| Folder.ListingOrderIrrelevant | extraer_numeros.py:35 | Listings with the same names give the same set and the same failure verdict |
| Folder.OutputUnique | extraer_numeros.py:43-45 | There is only one output for a given set |
| Folder.OutputLines | extraer_numeros.py:32-45 | Each string written is a gathered number plus `'\n'`, every gathered number is written, and the numbers go in strictly increasing order, so no number is written twice |
| Folder.SingleOutput | extraer_numeros.py:43-45 | The output for one number is a single string: that number followed by `'\n'` |
| Folder.SameNamesSameOutput | extraer_numeros.py:35-45 | Listings with the same names give the same output |
| Folder.ProcessFolder | extraer_numeros.py:27-45 | The run is aborted exactly when some image file's OCR raises, at the first such file; otherwise the strings written are the output for `Collected(listing, ocr)` |

## Left out

- OCR and image decoding (`Image.open`, `pytesseract.image_to_string`, lines 22-23) are external library calls. They are the parameter `ocr`, with `None` for an exception.
- `os.listdir` (line 35) is the parameter `listing`. Its order is unspecified. The gathered set, the strings written and whether the run fails do not depend on it (`Folder.ListingOrderIrrelevant`, `Folder.SameNamesSameOutput`). Which file an aborted run reports does depend on it, as in Python, where the exception comes from the first failing image in the listing (`DocExamples.FailureDependsOnOrder`).
- `os.path.join` (line 37) with the fixed folder `CARPETA_IMAGENES` is left out, because it maps names one-to-one to paths. `ocr` takes the file name.
- The `print` calls (lines 38, 47) are console output. The one at line 38 runs before each image's OCR; if it raises (an encoding error on its emoji when standard output is not UTF-8), the run ends at that file, which the model does not cover.
- Opening and writing the output file (lines 43-45) is file I/O. The model gives the lines written; the file's content is their concatenation. A failure to open or write the file is not modelled. Neither is newline translation on platforms that write `\r\n`.
- The `__main__` entry point (lines 51-52) only calls `procesar_carpeta` on the fixed folder.
- PhonePattern.IsDigit: accepts only the ASCII digits. In a str pattern, Python's `\d` accepts every Unicode decimal digit. Text with other scripts' digits is outside the model.
- Folder.Lower: lower-cases only ASCII letters, where Python's `str.lower()` covers all of Unicode. The filter verdict is unaffected, because no non-ASCII character lowers to any of the letters `p`, `n`, `g`, `j` or `e`.
- Folder.OutputLines: speaks of the strings passed to `f.write`, not of the file's physical lines. A number can hold a line break, since `\s` includes `\n`, `\r` and other line separators, so the file can have more physical lines than numbers, and a physical line can repeat (`+54 9\n376 411` and `+54 9\n376 412` both give a line `+54 9`). It also orders the numbers, not the strings with their `'\n'`: `sorted()` compares the numbers, and `\s` includes characters below `'\n'`, such as the tab. When one number is a prefix of another and a tab follows it there, the two strings compare the other way round.
- `sorted()` is Timsort in Python. `StringOrder.Sorted` repeatedly takes the least remaining element. Only the result is modelled, and `StringOrder.SortedUnique` shows it is the only possible one.

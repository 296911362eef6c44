# PDFSort, modelled in Dafny

PDFSort (`pdfsort.py`) reads every page of the PDF files in a directory. It
classifies each page by paper size ("format") against a fixed table of
standard sizes. It can print a table of how many pages each format has
(`-t`). It can also write the pages of each format to their own PDF files
(`-w`), optionally split into numbered files of at most `--limit` pages.

This project models that core and proves properties of it:

- `PaperSizes` (`paper_sizes.dfy`) is the `PaperSizes` table with 48
  entries, in dict order. The duplicate key `A1х3` is resolved the way a
  Python dict literal resolves it: the key keeps its first position and takes
  the last value.
- `Classifier` (`classifier.dfy`) is `find_fmt`. It builds the dict keyed by
  distance and looks the chosen key up in the table again, as the code does.
  The least key `min(distances.keys())` is taken as `MinDistance`, the least
  distance over the table entries. `Classifier.MinDistanceIsLeastKey` proves
  the two equal. The result is proved equal to the last table entry at the
  least Manhattan distance.
- `Strings` (`strings.dfy`) holds two facts about cancelling a common prefix
  or suffix. They are used to tell file names and size texts apart.
- `Decimal` (`decimal.dfy`) covers `str()` of integers and `--limit` parsing.
- `Tally` (`tally.dfy`) is `get_format_info`: a loop building a dict whose
  keys keep insertion order.
- `FormatTable` (`format_table.dfy`) is `draw_format_info_tab`. The lines it
  would print are returned, with keys in ascending string order.
- `Grouping` (`grouping.dfy`) is `write_fmt_file` and
  `subwrite_limit_fmt_file`: the filtering, the limit slices, the file names
  and the metadata. A written file is a value `OutputFile(name, pages,
  metadata)`.
- `PdfSort` (`pdfsort.dfy`) covers the two actions of `main`: the table, and
  the write loop over the tally's keys.

A page is modelled as `Page(width, height, portrait)`:

- `width` and `height` are the media-box sides rounded to whole points, as
  `int(round(x, 0))` gives them;
- `portrait` records whether the unrounded width is at most the unrounded
  height.

The program labels a page with `find_fmt(w, h, False)`, which is
`Tally.Label`. The tally, the grouping and the write loop are stated for any
labelling function `labelOf: Page -> string`. Their lemmas therefore hold for
`Tally.Label` in particular (see `Tally.ExampleAllA4`).

In a few points the code behaves otherwise than a reader of its purpose
might expect. The model follows the code in each of them:

- When two table entries are equally near, the dict comprehension keeps the
  LAST of them (pdfsort.py:127-129), not the first.
- The orientation suffix `-P`/`-L` appears only when `orient` is on, in the
  composite text as well (pdfsort.py:134, 139).
- `find_fmt(600, 800, False)` is therefore `"600x800 ~Letter(612x792)"`
  (`Classifier.ExampleNearLetter`).
- The composite text prints the normalised pair `(w1, h1)`, short side first
  (pdfsort.py:123-125), not the rounded width and height. Rounding is
  monotone, so the rounded sides agree with the orientation flag, and
  `Classifier.Normalise` then states that the pair is (short, long).
- When the limit divides the number of pages, an empty last file is written
  (see Findings).

## Model

| member | source | states |
|---|---|---|
| PaperSizes.Table | pdfsort.py:19-69 | the table has 48 entries, entry i being the i-th key of the dict with its value |
| PaperSizes.TableOrdered | pdfsort.py:19-69 | every entry's first number is positive and below its second, as the table's comment demands |
| PaperSizes.TableNamesDistinct | pdfsort.py:19-69 | no two entries share a name once the duplicate key is merged |
| PaperSizes.TableSeparated | pdfsort.py:19-69 | any two entries are more than 4 points apart, so at most one lies within the tolerance of 2 |
| PaperSizes.DuplicateKeyResolved | pdfsort.py:65-66 | `A1х3` is entry 45 with the later value 2384x6742; it occurs once, and 2384x5055 is not a value |
| PaperSizes.IndexOf | pdfsort.py:136 | a key lookup returns the first entry of that name, and None exactly when no entry has it |
| PaperSizes.IndexOfName | pdfsort.py:136 | with distinct names, looking up entry k's name gives back k |
| Decimal.DigitsValue | pdfsort.py:318 | `int(s)` of a string of digits: the value of the digits, most significant first; its properties are stated by NatToStringRoundTrip and LeadingZeroValue |
| Decimal.LeadingZeroValue | pdfsort.py:318 | a leading zero does not change the value of a string of digits |
| Decimal.NatToString | pdfsort.py:125 | `str(n)` of a natural number is a non-empty run of digits without a leading zero |
| Decimal.NatToStringRoundTrip | pdfsort.py:125 | the digits of `str(n)` read back as n |
| Decimal.NatToStringInjective | pdfsort.py:220 | different numbers give different texts |
| Decimal.IntToString | pdfsort.py:125 | `str(i)` is the digits of the magnitude of i, preceded by `-` when i is negative |
| Decimal.IntToStringInjective | pdfsort.py:125 | different integers give different texts |
| Decimal.IntToStringChars | pdfsort.py:125 | `str(i)` holds only digits and possibly a leading `-`, so never an `x` |
| Decimal.ParseLimit | pdfsort.py:318 | an argument that is not all digits (the empty one included) gives 0 |
| Decimal.ParseLimitRoundTrip | pdfsort.py:318 | the limit written as `str(n)` parses back to n |
| Decimal.ParseLimitLeadingZero | pdfsort.py:318 | a leading zero does not change the limit |
| Strings.PrefixCancel | pdfsort.py:220 | texts equal after a common prefix are equal |
| Strings.SuffixCancel | pdfsort.py:220 | texts equal before a common suffix are equal |
| Classifier.Distances | pdfsort.py:127-129 | the dict comprehension `{distance: key}` over the table, later entries overwriting earlier ones at the same distance; stated by DistancesKeys, DistancesValues and DistancesLast |
| Classifier.DistancesKeys | pdfsort.py:127-129 | the distance of every entry is a key of the distance dict |
| Classifier.DistancesValues | pdfsort.py:127-129 | every key of the distance dict is the distance of some entry and maps to that entry's name |
| Classifier.DistancesLast | pdfsort.py:127-129 | a distance maps to the name of the LAST entry at that distance |
| Classifier.MinDistance | pdfsort.py:130 | the least distance is the distance of some entry and at most every entry's distance |
| Classifier.MinDistanceIsLeastKey | pdfsort.py:130 | `min(distances.keys())` is the least distance |
| Classifier.ClosestIndex | pdfsort.py:127-131 | some entry is the last one at the least distance |
| Classifier.LastNearestUnique | pdfsort.py:127-131 | the last nearest entry is unique |
| Classifier.ClosestKeyIsLastNearest | pdfsort.py:127-131 | the key `find_fmt` picks is the name of the last nearest entry, at the least distance |
| Classifier.Normalise | pdfsort.py:123 | the pair holds the two sides; for sides that agree with the orientation flag it is (short, long) |
| Classifier.Suffix | pdfsort.py:133-139 | the suffix `-P` or `-L`, only when orient is on; used by FindFmtNearest and ClassifyExact |
| Classifier.StdSize | pdfsort.py:135-142 | the standard size text, long side first for landscape; stated by StdSizeOrientations and LetterStdSize |
| Classifier.FindFmt | pdfsort.py:106-147 | `find_fmt` over a table, step by step as written; its result is stated by FindFmtNearest and FindFmtOrientationFolded |
| Classifier.Classify | pdfsort.py:106-147 | `find_fmt` over the program's table; stated by ClassifyNearest, ClassifyWithinTolerance, ClassifyExact and OrientationFoldedIffNear |
| Classifier.FindFmtNearest | pdfsort.py:106-147 | with last nearest entry k, `find_fmt` returns k's name and suffix within 2 points, and otherwise `"{w1}x{h1} ~{name}{suffix}({std})"` with std oriented like the page |
| Classifier.WithinToleranceIsNearest | pdfsort.py:144-145 | in a table with gaps above 4, an entry within 2 points is the last nearest |
| Classifier.ClassifyNearest | pdfsort.py:106-147 | the same as FindFmtNearest for the program's table |
| Classifier.ClassifyWithinTolerance | pdfsort.py:144-145 | a page within 2 points of entry k gets k's name and the suffix |
| Classifier.ClassifyExact | pdfsort.py:133-145 | every table size, upright or turned, gets its own name, with `-P`/`-L` exactly when orient is on |
| Classifier.SplitAtX | pdfsort.py:147 | a text `a + "x" + b` with no `x` in a determines a |
| Classifier.StdSizeOrientations | pdfsort.py:135-142 | the standard size text of a non-square entry differs between portrait and landscape |
| Classifier.FindFmtOrientationFolded | pdfsort.py:133-147 | without suffix, a page and the same page turned get the same label exactly when the nearest entry is within 2 points |
| Classifier.OrientationFoldedIffNear | pdfsort.py:161 | the tally's labels merge portrait and landscape of a size exactly when the size is within 2 points of a table entry |
| Classifier.NearestTo600x800 | pdfsort.py:127-131 | the last nearest entry to 600x800 is Letter 612x792, 20 points away |
| Classifier.ClassifyNear600x800 | pdfsort.py:147 | 600x800 and 800x600 get the composite text about Letter |
| Classifier.ExampleNearLetter | pdfsort.py:147 | the exact texts `600x800 ~Letter(612x792)`, `600x800 ~Letter-P(612x792)` and `600x800 ~Letter-L(792x612)` |
| Classifier.ExampleA4Portrait | pdfsort.py:144-145 | 595x842 upright is `A4`, or `A4-P` with orient |
| Classifier.ExampleA4Landscape | pdfsort.py:144-145 | 842x595 turned is `A4`, or `A4-L` with orient |
| Tally.Label | pdfsort.py:161 | the label of a page, `find_fmt(w, h, False)`; stated by LabelA4 and, through Classify, by the Classifier lemmas |
| Tally.Labels | pdfsort.py:160-161 | one label per page, label i being the label of page i |
| Tally.Count | pdfsort.py:162-165 | the number of occurrences of a label; stated by CountPositive and DistinctCount |
| Tally.Tallied | pdfsort.py:159-166 | the dict after the loop has seen the labels; stated by TalliedAppend and TalliedCounts |
| Tally.LabelsAppend | pdfsort.py:160-161 | the labels of one more page end with its own label |
| Tally.CountPositive | pdfsort.py:162-165 | a label's count is at least 1 exactly when it occurs, and at most the number of labels |
| Tally.FirstOccurrences | pdfsort.py:159-166 | the dict's key order holds each label once and nothing else |
| Tally.TalliedAppend | pdfsort.py:162-165 | a new key is appended with count 1, a seen key goes up by 1 |
| Tally.TalliedCounts | pdfsort.py:159-166 | the dict's keys are the labels in order of first occurrence, each mapped to its count |
| Tally.GetFormatInfo | pdfsort.py:149-166 | the loop builds that dict: keys in first-occurrence order, every count equal to the label's count and at least 1 |
| Tally.DistinctCount | pdfsort.py:162-165 | in a list of distinct keys every key occurs once |
| Tally.CountsSumToTotal | pdfsort.py:159-166 | the counts of distinct keys covering all labels add up to the number of labels |
| Tally.TallySumsToPages | pdfsort.py:159-166 | the tally's counts add up to the number of pages |
| Tally.UniformPages | pdfsort.py:159-166 | N equal pages give one key, counted N times |
| Tally.LabelA4 | pdfsort.py:161 | an upright 595x842 page is labelled `A4` |
| Tally.ExampleAllA4 | pdfsort.py:159-166 | N upright 595x842 pages are tallied as `{"A4": N}` |
| FormatTable.LexLess | pdfsort.py:176 | Python's string order, character by character by code point; stated by the LexLess lemmas |
| FormatTable.LexLessIrreflexive | pdfsort.py:176 | string order is irreflexive |
| FormatTable.LexLessAsymmetric | pdfsort.py:176 | string order is asymmetric |
| FormatTable.LexLessTransitive | pdfsort.py:176 | string order is transitive |
| FormatTable.LexLessTotal | pdfsort.py:176 | two different strings are ordered one way or the other |
| FormatTable.LeastExists | pdfsort.py:176 | a non-empty set of labels has a least one |
| FormatTable.SortedExists | pdfsort.py:176 | every set of labels has an ascending listing |
| FormatTable.SortedCons | pdfsort.py:176 | a label below an ascending list extends it in order |
| FormatTable.SortedKeys | pdfsort.py:176 | `sorted(keys)`: ascending, with exactly the keys, each once |
| FormatTable.SortedUnique | pdfsort.py:176 | two ascending lists of the same labels are equal |
| FormatTable.Least | pdfsort.py:176 | the loop finds the least label of a non-empty set |
| FormatTable.SortLabels | pdfsort.py:176 | repeated selection of the least label gives `sorted(keys)` |
| FormatTable.SelectionStep | pdfsort.py:176 | appending the least remaining label keeps the listing ascending and below what remains |
| FormatTable.Repeat | pdfsort.py:175 | `c * n` is n copies of c |
| FormatTable.PadLeft | pdfsort.py:175-177 | `>width` right-aligns with spaces and never cuts |
| FormatTable.Header | pdfsort.py:175 | two header lines, 37 and 37 characters wide |
| FormatTable.Row | pdfsort.py:177 | `f"{fmt:>27} {cnt:>9}"`; stated by RowFields |
| FormatTable.RowFields | pdfsort.py:177 | a row is 37 wide, with the label ending at column 27, then a space, then the count ending the line |
| FormatTable.JoinFields | pdfsort.py:177 | the two fields of a row are recovered from it |
| FormatTable.DrawFormatInfoTab | pdfsort.py:168-177 | the header lines, then one row per key in ascending order with its count |
| FormatTable.FormatRows | pdfsort.py:176-177 | the loop prints row k for key k |
| FormatTable.DistinctCard | pdfsort.py:176 | an ascending list has as many labels as elements |
| FormatTable.ExampleOrder | pdfsort.py:176 | `A4` is listed before `Letter` |
| Grouping.Select | pdfsort.py:237-240 | the pages whose label is the format, in order; stated by SelectCount and SelectAt |
| Grouping.Filter | pdfsort.py:237-240 | the pages the writer gets, the selection by each page's own label; stated by FilterSpec |
| Grouping.SelectCount | pdfsort.py:237-240 | the selection keeps as many pages as carry the format |
| Grouping.MatchingIndicesBounded | pdfsort.py:237-240 | the kept positions are positions of the pages |
| Grouping.MatchingIndicesAscend | pdfsort.py:237-240 | the kept positions ascend |
| Grouping.MatchingIndicesExact | pdfsort.py:237-240 | a position is kept exactly when its label is the format |
| Grouping.SelectAt | pdfsort.py:237-240 | the k-th page kept is the page at the k-th kept position |
| Grouping.FilterSpec | pdfsort.py:237-240 | the writer's pages are exactly the pages of the format, in their original order, Count of them |
| Grouping.FilterAppend | pdfsort.py:238-240 | one more page is kept exactly when its label is the format |
| Grouping.SelectConcat | pdfsort.py:237-240 | selecting from two runs of pages selects from each, one after the other |
| Grouping.LabelsConcat | pdfsort.py:160-161 | the labels of two runs of pages are the labels of each |
| Grouping.FilterConcat | pdfsort.py:237-240 | the filter of two runs of pages is the filter of each, one after the other |
| Grouping.FilterNone | pdfsort.py:239 | pages of which none has the format's label are all dropped |
| Grouping.FilterIgnoresOthers | pdfsort.py:239 | pages of other labels inserted anywhere do not change the filter |
| Grouping.SelectPages | pdfsort.py:237-240 | the loop adds exactly the pages of the format |
| Grouping.WholeFileName | pdfsort.py:265 | `{dirname}_{fmt}_pdf.pdf`; stated by WholeNamesDistinct |
| Grouping.ChunkFileName | pdfsort.py:220 | `{dirname}_{fmt}_pdf-{i}.pdf`; stated by ChunkNamesDistinct |
| Grouping.ChunkNamesDistinct | pdfsort.py:220 | the numbered files of a format have distinct names |
| Grouping.WholeNamesDistinct | pdfsort.py:265 | different formats go to different single files |
| Grouping.Chunks | pdfsort.py:249-259 | the slices of the limit loop as a recursion; stated by ChunksLength, ChunkAt, ChunksConcat, ChunksBounded and ChunksLastEmpty |
| Grouping.ChunksLength | pdfsort.py:251 | the limit loop cuts `n // limit + 1` slices |
| Grouping.ChunkAt | pdfsort.py:252-259 | slice i is `pages[i*limit : min((i+1)*limit, n)]` |
| Grouping.Offset | pdfsort.py:252-258 | `start` after i rounds: i steps of `limit`; stated by OffsetIsProduct |
| Grouping.OffsetIsProduct | pdfsort.py:252-258 | `start` after i rounds is `i * limit` |
| Grouping.ChunkAtOffset | pdfsort.py:252-259 | slice i runs from `start` after i rounds to `start` after i + 1 rounds, clamped to n |
| Grouping.ChunkFileAt | pdfsort.py:254-259 | round i of the loop writes slice i to file i, after the files of the slices before it |
| Grouping.ChunksConcat | pdfsort.py:249-262 | the slices put together are the pages |
| Grouping.ChunksBounded | pdfsort.py:253-256 | no slice holds more than `limit` pages |
| Grouping.ChunksLastEmpty | pdfsort.py:251-256 | the last slice is empty exactly when the limit divides n |
| Grouping.DivStep | pdfsort.py:251 | removing one slice of `limit` pages lowers `n // limit` by one and keeps `n % limit` |
| Grouping.FmtFiles | pdfsort.py:249-266 | the files `write_fmt_file` writes for the selected pages; stated by FmtFilesSpec |
| Grouping.ChunkFiles | pdfsort.py:243-257 | slice i goes to the file numbered i, with the metadata `/Creator` and `/Producer` both `PDFSort` |
| Grouping.ChunkFilesAppend | pdfsort.py:254-257 | one more slice adds one file, numbered after the others |
| Grouping.ChunkFilesPages | pdfsort.py:254-257 | the numbered files hold the slices' pages, in order |
| Grouping.FmtFilesSpec | pdfsort.py:249-266 | the files hold the selected pages in order; with `0 < limit < n` there are `n // limit + 1` of them, each with at most `limit` pages; otherwise one file; their names are distinct |
| Grouping.PySlice | pdfsort.py:211 | `s[start:stop]` is the plain slice when in range and empty when stop <= start |
| Grouping.SubwriteLimitFmtFile | pdfsort.py:189-222 | file i is named `{dirname}_{fmt}_pdf-{i}.pdf` and holds `pages[start:stop]` with the metadata |
| Grouping.WriteChunks | pdfsort.py:250-259 | the limit loop run for fnum rounds writes the first fnum slices, numbered from 0 |
| Grouping.WriteFmtFile | pdfsort.py:224-267 | `write_fmt_file` writes the slices, or one file, of exactly the format's pages |
| Grouping.EmptyTrailingFile | pdfsort.py:249-259 | when the limit divides n, the last file written holds no page |
| Grouping.ExampleFourPagesLimitTwo | pdfsort.py:249-259 | 4 pages with limit 2 give files of 2, 2 and 0 pages |
| Grouping.CorrectedChunks | pdfsort.py:249-259 | the intended slicing: full slices of `limit` pages, then a non-empty rest; stated by CorrectedChunksSpec and ChunksAsWritten |
| Grouping.CorrectedChunksSpec | pdfsort.py:249-259 | the intended slicing cuts ceil(n / limit) non-empty slices of at most `limit` pages, which together are the pages |
| Grouping.ChunksAsWritten | pdfsort.py:249-259 | the slicing as written is the intended one plus one empty slice exactly when the limit divides n |
| Grouping.CorrectedPrefix | pdfsort.py:254 | running the loop for ceil(n / limit) rounds gives the intended slices |
| Grouping.CorrectedFmtFiles | pdfsort.py:249-266 | the files written with the intended slicing; stated by CorrectedFmtFilesSpec |
| Grouping.CorrectedFmtFilesSpec | pdfsort.py:249-266 | with the intended slicing no file is empty and the pages are kept in order; the files as written are these plus the empty one when the limit divides n |
| Grouping.WriteChunksCorrected | pdfsort.py:250-259 | the loop with ceil(n / limit) rounds writes the intended slices |
| Grouping.WriteFmtFileCorrected | pdfsort.py:224-267 | `write_fmt_file` with the intended slicing |
| PdfSort.SelectAllAppend | pdfsort.py:333-336 | one more page is written once if its label is one of the formats, else not at all |
| PdfSort.SelectAllPartition | pdfsort.py:333-336 | selecting each of distinct formats that cover all labels yields every page exactly once |
| PdfSort.MultisetLast | pdfsort.py:333-336 | the pages are those before the last one plus the last one |
| PdfSort.SelectAllEmpty | pdfsort.py:333-336 | no pages give no selection |
| PdfSort.AllFiles | pdfsort.py:333-336 | the files written for a list of formats, in order; stated by AllFilesAppend, AllFilesPages and EveryPageWrittenOnce |
| PdfSort.AllFilesAppend | pdfsort.py:333-336 | the files of one more format follow the files of the formats before it |
| PdfSort.PagesOfAppend | pdfsort.py:333-336 | the pages of two runs of files are the pages of each, one after the other |
| PdfSort.AllFilesPages | pdfsort.py:332-336 | the pages of all files written are the formats' selections, format after format |
| PdfSort.WriteAll | pdfsort.py:332-336 | the write loop calls `write_fmt_file` for each key of the tally, in insertion order |
| PdfSort.EveryPageWrittenOnce | pdfsort.py:332-336 | every page read is written exactly once over all files |
| PdfSort.WrittenPagesLabelled | pdfsort.py:333-336 | every page written for a list of formats carries one of those labels |
| PdfSort.RereadSameSelection | pdfsort.py:333-335 | when the pages read again for the k-th format also hold pages already written for earlier formats, anywhere among them, the k-th format still selects the same pages |
| PdfSort.FormatGroupPages | pdfsort.py:333-336 | the files of one format hold exactly that format's pages, as many as the tally counts |
| PdfSort.DrawTable | pdfsort.py:319-322 | `-t` prints the header and one row per label of the pages, ascending, with its page count |
| PdfSort.SortedDistinct | pdfsort.py:176 | an ascending list has no repeats |
| PdfSort.TableCountsSumToPages | pdfsort.py:319-322 | the count column of the table adds up to the number of pages |

## Left out

- Reading PDF files (`collect_pdf_content`, pypdf's `PdfReader`) and writing
  them (`PdfWriter`, `write`, `close`) are left out: a page is the value
  `Page`, and a written file is the value `OutputFile`.
- Finding the files (`list_files_recursive`) and creating the output directory
  (`mk_output_dir`, `os.path`) are left out. The directory base name is the
  parameter `dirname`, and the output directory in front of the file names is
  not modelled.
- Floating point is left out: the rounding `int(round(x, 0))` and the
  comparison of the unrounded sides arrive already done, as the fields of
  `Page`.
- Option parsing (`getopt`), `usage`, `--version`, `sys.exit` and the
  `assert False` for unknown options are left out. The two actions are
  modelled as `PdfSort.DrawTable` and `PdfSort.WriteAll`, and the limit
  option as `Decimal.ParseLimit`.
- `print` is left out: `FormatTable.DrawFormatInfoTab` returns the lines it
  would print.
- The loading error message for a missing file (pdfsort.py:102-103) is not
  part of this model.
- Decimal.ParseLimit: `str.isdigit` also accepts non-ASCII digits. The model
  accepts only `0`-`9` and gives 0 for any other character. For the
  characters that `str.isdigit` accepts but `int` refuses, such as `²`,
  pdfsort.py:318 raises `ValueError` and the program stops; the model does
  not capture that stop.
- FormatTable.SortLabels: Python's `sorted` is modelled by selection of the
  least key; only its result, the ascending order, is stated.
- FormatTable.LexLess compares characters by code point, as Python compares
  strings; the label `A4х3` contains the Cyrillic letter `х` (U+0445).
- PdfSort.WriteAll: the pages are read again for each format at
  pdfsort.py:335, and the model uses the pages of the first read instead.
  The later reads differ: the output directory lies inside the input
  directory (pdfsort.py:17, 83), and the search for PDF files is recursive
  (pdfsort.py:84-86). So the read for the k-th format also holds the pages of
  the files written for the formats before it, anywhere among the pages.
  Those pages carry the labels of the earlier formats, which differ from the
  k-th. The filter at pdfsort.py:239 therefore drops them, and
  `PdfSort.RereadSameSelection` proves that the k-th format selects the same
  pages. This assumes that a page written and read back has the same media
  box. Files left in the output directory by an earlier run are simply part
  of the pages read.
- PdfSort.WriteAll keeps the slicing as written, with its empty last file.
  `Grouping.CorrectedFmtFilesSpec` states how the corrected files differ from
  that: only by that empty file.

## Findings

| source | as written | input that shows it | evidently intended | confidence | as-written member | corrected member |
|---|---|---|---|---|---|---|
| pdfsort.py:249-259 | `fnum = np // limit + 1` slices are written, and the last one is clamped to `np`, so when `limit` divides `np` the last slice is `pages[np:np]` and an empty numbered PDF file is written | 4 pages of one format with `--limit 2`: files `_pdf-0` and `_pdf-1` with 2 pages each, and `_pdf-2` with none | ceil(np / limit) files, none empty | not executed | Grouping.ExampleFourPagesLimitTwo | Grouping.CorrectedFmtFilesSpec |

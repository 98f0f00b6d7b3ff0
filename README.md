# Notebook-to-PDF report assembly, modelled in Dafny

`scripts/create_pdf.py` turns the analysis notebooks of the project into one
PDF report. It does four things:

- It lists the notebooks whose names start with a number, in sorted order.
- It derives a section title and an HTML anchor from each file name.
- It merges the notebooks into one: a title page, a table of contents with
  one link per notebook, a page break, and then per notebook a header, the
  notebook's cells and a page break. Code cells with a blank source are
  dropped, and code cells without an `outputs` field get an empty one.
- It hands the merged notebook to the webPDF exporter with the input and
  output prompts hidden and writes `nba_pattern_analysis.pdf`. It stops
  early when no notebook matched.

The model has six modules:

- `PyStr` (`py_str.dfy`): the Python string operations the script chains
  together. These are `os.path.basename`, `str.replace`, `str.split`,
  `str.join`, `str.title`, `str.lower` and `str.strip`, with lemmas that
  characterise each one.
- `Notebook` (`notebook.dfy`): cells, and the rule that decides which input
  cells are kept.
- `Sections` (`sections.dfy`): the section name, the anchor, the
  table-of-contents line and the header source of one notebook path.
- `Discovery` (`discovery.dfy`): Python's string order and `sorted`, and why
  zero-padded numeric prefixes give reading order.
- `Merge` (`merge.dfy`): `merge_notebooks`. It is written the way the script
  works, as methods that append to a list in loops. `MergeNotebooks` is
  proved equal to the specification function `Merged`. Each loop is proved
  equal to an expression over the functions `Merged` is built from: the
  table-of-contents loop (`FillToc`) over `TocEntries`, the section loop
  (`AppendSections`) over `Body`, and the cell loop (`AppendKept`) over
  `Kept`. The lemmas state what `Merged` guarantees.
- `Cli` (`run.dfy`): `main`, as a method returning how the run ends.

The clock and the file system are parameters of the model; the exporter is
not modelled.
The list the glob returned is a sequence of paths. The parsed files are a
map from path to cells. The month and year of the title page are a string.

## Model

| member | source | states |
|---|---|---|
| Discovery.LessEqTotal | scripts/create_pdf.py:13 | Python's string order is total: of two strings, one is at most the other. |
| Discovery.LessEqTransitive | scripts/create_pdf.py:13 | The string order is transitive. |
| Discovery.LessEqAntisymmetric | scripts/create_pdf.py:13 | Two strings each at most the other are equal. |
| Discovery.SortedPairwise | scripts/create_pdf.py:13 | In a sorted list every name is at most every later name, not only the next one. |
| Discovery.Insert | scripts/create_pdf.py:13 | Inserting into a sorted list keeps it sorted, adds exactly one occurrence of the name, and the new head is the name or the old head. |
| Discovery.SortNames | scripts/create_pdf.py:10-13 | `sorted(notebooks)` is sorted, is a permutation of the glob result (same multiset) and has the same length. |
| Discovery.SortedUnique | scripts/create_pdf.py:13 | Two sorted permutations of the same names are equal, so the discovery order does not depend on the sorting algorithm or on the glob's order. |
| Discovery.SortedDistinctStrict | scripts/create_pdf.py:13 | Sorting distinct paths gives distinct paths in strictly increasing order. |
| Discovery.LessEqCommonPrefix | scripts/create_pdf.py:12-13 | A shared directory prefix does not change how two paths compare: `a <= b` holds exactly when `p + a <= p + b` does, in both directions. |
| Discovery.PaddedNumberOrder | scripts/create_pdf.py:11-13 | Digit strings of one width compare as text the way their numbers compare, whatever follows them. |
| Discovery.OrdinalOrder | scripts/create_pdf.py:11-13 | Of two paths `dir` + zero-padded number + rest, the one with the smaller number sorts strictly first. |
| Discovery.DiscoveryFollowsNumbers | scripts/create_pdf.py:10-13 | With zero-padded prefixes of one width and no number used twice, the discovered list is in strictly increasing number order, as the docstring promises. |
| Discovery.UnpaddedPrefixesSortAsText | scripts/create_pdf.py:10-13 | Without zero-padding the order is textual: `10_a.ipynb` is listed before `2_b.ipynb`. |
| PyStr.Strip | scripts/create_pdf.py:70 | `str.strip()` with no argument: whitespace removed from both ends. Characterised by `StripShape` and `StripEmptyIff`. |
| PyStr.Title | scripts/create_pdf.py:46 | `str.title()`: each letter that does not follow a letter is upper-cased, every other letter lower-cased. Characterised by `TitleFrom`, `TitleFromCase` and `TitleIdempotent`. |
| PyStr.Lower | scripts/create_pdf.py:47 | `str.lower()`, character by character; related to `Title` by `LowerTitle`. |
| PyStr.Basename | scripts/create_pdf.py:45 | `os.path.basename`: the part of the path after its last `/`. Characterised by `BasenameShape` and `BasenameAfterSlash`. |
| PyStr.Join | scripts/create_pdf.py:46 | `sep.join(parts)` for a one-character separator; the inverse of `Split` by `SplitJoinRoundTrip`. |
| PyStr.StripLeadingShape | scripts/create_pdf.py:70 | `lstrip()` removes the longest whitespace prefix: what it cuts is whitespace and what it keeps does not start with whitespace. |
| PyStr.StripTrailingShape | scripts/create_pdf.py:70 | `rstrip()` removes the longest whitespace suffix, in the same sense. |
| PyStr.StripShape | scripts/create_pdf.py:70 | `strip()` is a slice of the input; everything cut off at either end is whitespace; the slice neither starts nor ends with whitespace. |
| PyStr.StripEmptyIff | scripts/create_pdf.py:70 | `not s.strip()` holds exactly when every character of `s` is whitespace, including for the empty string. |
| PyStr.TitleFrom | scripts/create_pdf.py:46 | Title-casing keeps the length. |
| PyStr.TitleFromShape | scripts/create_pdf.py:46 | Title-casing only changes letter case: letters stay letters, other characters are copied, and the lower-case form is unchanged. |
| PyStr.TitleFromCase | scripts/create_pdf.py:46 | A letter is upper-cased exactly when it does not follow a letter, and lower-cased otherwise. |
| PyStr.TitleFromIdempotent | scripts/create_pdf.py:46 | Title-casing a title-cased string from the same state changes nothing. |
| PyStr.TitleIdempotent | scripts/create_pdf.py:46 | `s.title().title() == s.title()`. |
| PyStr.TitleFromAppend | scripts/create_pdf.py:46 | Title-casing a concatenation title-cases the second part knowing only whether the first part ended in a letter. |
| PyStr.TitleLowerWord | scripts/create_pdf.py:46 | A lower-case word is capitalised at its first letter unless it follows a letter. |
| PyStr.TitleTwoWords | scripts/create_pdf.py:46 | Two lower-case words joined by a space are both capitalised. |
| PyStr.LowerTitle | scripts/create_pdf.py:47 | `s.title().lower() == s.lower()`. |
| PyStr.BasenameShape | scripts/create_pdf.py:45 | `os.path.basename` is the longest suffix of the path without `/`, and it follows a `/` when shorter than the path. |
| PyStr.BasenameAfterSlash | scripts/create_pdf.py:45 | The base name of `dir/name` is `name` when `name` has no `/`, whatever `dir` holds. |
| PyStr.RemoveAll | scripts/create_pdf.py:45 | `replace('.ipynb', '')` never lengthens the string. |
| PyStr.RemoveAllAbsent | scripts/create_pdf.py:45 | A string in which the pattern does not occur is left unchanged. |
| PyStr.RemoveAllSuffix | scripts/create_pdf.py:45 | Removing `.ipynb` from `stem + '.ipynb'` gives back `stem` when `stem` holds no `.`. |
| PyStr.RemoveAllChars | scripts/create_pdf.py:45 | Removing a pattern introduces no new character. |
| PyStr.Split | scripts/create_pdf.py:46 | `split` always returns at least one piece. |
| PyStr.SplitCount | scripts/create_pdf.py:46 | `s.split(sep)` has one more piece than `s` has separators. |
| PyStr.JoinSplit | scripts/create_pdf.py:46 | `d.join(s.split(sep))` replaces every separator by `d`. |
| PyStr.SplitJoinRoundTrip | scripts/create_pdf.py:46 | `sep.join(s.split(sep)) == s`. |
| PyStr.SplitAtFirst | scripts/create_pdf.py:46 | Splitting `p + sep + rest`, with no separator in `p`, gives `p` followed by the pieces of `rest`. |
| PyStr.SplitAbsent | scripts/create_pdf.py:46 | A string without the separator splits into itself alone. |
| PyStr.JoinSplitTail | scripts/create_pdf.py:46 | `d.join(s.split(sep)[1:])` drops everything up to the first separator and puts `d` in place of each later separator. |
| PyStr.AfterFirstAt | scripts/create_pdf.py:46 | When the first separator is at index `k`, the tail is `s[k+1:]`. |
| PyStr.AfterFirstAbsent | scripts/create_pdf.py:46 | Without a separator the tail is empty. |
| PyStr.AfterFirstSuffix | scripts/create_pdf.py:46 | The tail is a suffix of the string. |
| Notebook.Dropped | scripts/create_pdf.py:66-71 | The skip test of the inner loop: a code cell whose stripped source is empty. Characterised by `DroppedIff`. |
| Notebook.WithOutputs | scripts/create_pdf.py:66-68 | A code cell without `outputs` gets an empty list; kind and source never change; every other cell is returned as it was. |
| Notebook.DroppedIff | scripts/create_pdf.py:66-71 | A cell is skipped exactly when it is a code cell whose source is all whitespace; markdown and raw cells are never skipped. |
| Sections.Stem | scripts/create_pdf.py:45 | `os.path.basename(fname).replace('.ipynb', '')`; recovered exactly by `StemOfNotebookPath`. |
| Sections.SectionName | scripts/create_pdf.py:46 | The section name derived from a path, the same at lines 46 and 58. It is the split-and-join expression by `SectionNameIsSplitJoin`, and `SectionNameAfterPrefix` says what it holds. |
| Sections.Anchor | scripts/create_pdf.py:47 | `section_name.lower().replace(' ', '-')`, the same at lines 47 and 60. Characterised by `AnchorShape` and `AnchorOfTitle`. |
| Sections.TocLine | scripts/create_pdf.py:47 | The entry `- [name](#anchor)` and a newline; one line by `TocLineIsOneLine`. |
| Sections.HeaderSource | scripts/create_pdf.py:59-61 | The header `<h1 id="anchor">name</h1>` between two newlines, with the same anchor as the entry (`Merge.InputEntry`). |
| Sections.SectionNameIsSplitJoin | scripts/create_pdf.py:45-46 | The section name equals `' '.join(stem.split('_')[1:]).title()`, with the stem being the base name without `.ipynb`. |
| Sections.StemOfNotebookPath | scripts/create_pdf.py:45 | For `dir/stem.ipynb` with no `/` or `.` in `stem`, the stem is recovered exactly. |
| Sections.SectionNameAfterPrefix | scripts/create_pdf.py:46 | The section name is the title-cased part of the stem after its first `_`, with each later `_` read as a space. |
| Sections.SectionNameWithoutUnderscore | scripts/create_pdf.py:46 | A stem without `_` gives an empty section name. |
| Sections.SectionNameOfNotebook | scripts/create_pdf.py:45-46 | The name of `dir/<prefix>_<words>.ipynb` is `<words>` with `_` as spaces, title-cased. |
| Sections.SectionNameOfTwoWords | scripts/create_pdf.py:45-46 | A two-word notebook name gives both words capitalised, joined by one space. |
| Sections.ShotPatternsExample | scripts/create_pdf.py:45-47 | `02_shot_patterns.ipynb` is titled `Shot Patterns`, with anchor `shot-patterns`, in any directory. |
| Sections.AnchorShape | scripts/create_pdf.py:47 | An anchor holds no space and no upper-case letter, is as long as the name, and is its own anchor. |
| Sections.AnchorOfTitle | scripts/create_pdf.py:47 | Title-casing the name does not change its anchor. |
| Sections.SectionNameNoNewline | scripts/create_pdf.py:45-47 | A path without a newline gives a section name and an anchor without one. |
| Sections.LinkLineCount | scripts/create_pdf.py:47 | A link line around a label and a target without newlines holds exactly one newline. |
| Sections.TocLineIsOneLine | scripts/create_pdf.py:47 | A table-of-contents entry is exactly one line and ends in a newline. |
| Merge.TitleSource | scripts/create_pdf.py:22-30 | The title page around the given month and year, ending in a page break; it is the first cell by `AssembleLayout`. |
| Merge.Kept | scripts/create_pdf.py:65-72 | The cells of one input that the inner loop appends. Characterised by `KeptLength`, `KeptIndicesExact`, `KeptAt` and `KeptCells`. |
| Merge.Merged | scripts/create_pdf.py:15-77 | The cells `merge_notebooks` returns: front matter, then one block per input. `MergeNotebooks` computes it, and `AssembleLayout`, `InputBlock`, `InputEntry`, `MergedExportable`, `MergedTocLines` and `MergedLength` state what it holds. |
| Merge.MergeNotebooks | scripts/create_pdf.py:15-77 | Building the list by appending, as the script does, yields exactly `Merged(inputs, date)`. |
| Merge.FillToc | scripts/create_pdf.py:41-47 | The first loop leaves the title cell alone and makes the table-of-contents cell the heading followed by one entry per input, in input order. |
| Merge.AppendSections | scripts/create_pdf.py:52-75 | The second loop appends, per input and in order, its header, its kept cells and a page break. |
| Merge.AppendKept | scripts/create_pdf.py:65-72 | The inner loop, with its `continue`, appends exactly the kept cells of one input. |
| Merge.KeptLength | scripts/create_pdf.py:65-72 | An input contributes as many cells as it has cells that are not skipped. |
| Merge.AssembleLayout | scripts/create_pdf.py:32-50 | The merged notebook has 3 + Σ(2 + kept cells) cells. It opens with the title page, the table-of-contents cell and a page break, in that order. |
| Merge.KeptIndicesIncreasing | scripts/create_pdf.py:65-72 | The kept cells come from increasing positions of the input, so the input order is preserved. |
| Merge.KeptIndicesExact | scripts/create_pdf.py:65-72 | A position of the input is kept exactly when its cell is not skipped. |
| Merge.KeptAt | scripts/create_pdf.py:65-72 | The k-th kept cell is the input cell at the k-th kept position, with its outputs defaulted. |
| Merge.KeptCells | scripts/create_pdf.py:65-72 | No kept code cell is blank or lacks outputs. Every markdown and raw cell is kept, even an empty one. Every non-blank code cell with outputs is kept unchanged. |
| Merge.BodyAppend | scripts/create_pdf.py:52-75 | The sections of two input lists are the sections of the first followed by those of the second. |
| Merge.TocEntriesAppend | scripts/create_pdf.py:44-47 | The same holds for the table-of-contents entries. |
| Merge.BodyAround | scripts/create_pdf.py:52-75 | The body splits around input `i`: the blocks before it, its block, the blocks after it. |
| Merge.TocEntriesAround | scripts/create_pdf.py:44-47 | The entries split around input `i` in the same way. |
| Merge.BlockAt | scripts/create_pdf.py:52-75 | Section `i` occupies one contiguous run after the front matter and earlier blocks: header, kept cells, page break. |
| Merge.EntryAt | scripts/create_pdf.py:44-47 | Entry `i` follows the entries of the earlier inputs. |
| Merge.InputBlock | scripts/create_pdf.py:56-75 | In the merged notebook, input `i`'s block starts right after the earlier blocks. Its header is `<h1 id="anchor">name</h1>`, followed by its kept cells and a page break. |
| Merge.InputEntry | scripts/create_pdf.py:44-47 | In the table of contents, input `i`'s entry is `- [name](#anchor)`. It uses the same anchor as its header's `id`, so each link targets its section. |
| Merge.BodyExportable | scripts/create_pdf.py:65-72 | Sections whose cells are exportable give an exportable body. |
| Merge.MergedExportable | scripts/create_pdf.py:65-72 | Every code cell of the merged notebook has an `outputs` field and a non-blank source, which is the form the exporter needs. |
| Merge.TocHeadingLines | scripts/create_pdf.py:37-40 | The table-of-contents heading spans three lines. |
| Merge.TocEntriesLines | scripts/create_pdf.py:44-47 | One-line entries give one line per input. |
| Merge.EntryIsOneLine | scripts/create_pdf.py:44-47 | An input whose path has no newline contributes exactly one line. |
| Merge.TocLines | scripts/create_pdf.py:37-47 | When no input path contains a newline, the table-of-contents source holds 3 + (number of inputs) newlines. |
| Merge.MergedTocLines | scripts/create_pdf.py:37-47 | The second cell of the merged notebook is the table of contents. When no input path contains a newline, it holds 3 + (number of inputs) newlines. |
| Merge.SectionSizes | scripts/create_pdf.py:52-75 | The section loop appends, per input, its header, one cell per cell that is not skipped, and a page break. |
| Merge.MergedLength | scripts/create_pdf.py:15-77 | The merged notebook has 3 + Σ over the inputs of (2 + the number of that input's cells that are not skipped) cells. |
| Cli.Run | scripts/create_pdf.py:95-120 | `main` ends with nothing written exactly when the glob matched nothing. The model's run aborts exactly when some matched path cannot be read. Otherwise it hands the merge of the sorted paths to the exporter, with both prompts excluded, for `nba_pattern_analysis.pdf`. |

## Left out

- The glob `notebooks/[0-9]*.ipynb` is not modelled. Its result is the `matched` parameter of `Cli.Run`, taken as any list of paths. The pattern itself guarantees only the `notebooks/` prefix, a first character that is a digit and the `.ipynb` suffix, and the model does not rely on these. Numeric prefixes of one width that are zero-padded and never repeated are a naming convention of the notebooks, which the glob does not enforce. `Discovery.DiscoveryFollowsNumbers` states it as its precondition, and `Discovery.UnpaddedPrefixesSortAsText` shows what happens without it.
- Cli.Inputs: stands in for opening each path and calling `nbformat.read` on it (create_pdf.py:53-54). It pairs each path with the cells of the map, in order, and states nothing beyond that.
- File reading and `nbformat.read` are a map from path to parsed cells. A file that cannot be opened or parsed is a path missing from the map, and both end as `Cli.Outcome.Aborted`. The exception's type and message are not modelled.
- Cli.Run: checks that every sorted path is readable before merging. The script reads each file inside its second loop, after the table of contents is built. The two differ only in work done before the exception, and nothing is written either way.
- `convert_to_pdf` is not modelled beyond the two options it sets. Nor is the webPDF rendering, the PDF bytes, or writing them. `Cli.Outcome.Exported` records the options, the file name and the cells handed to the exporter. Its failures, and a failed write of the PDF, also end the script with an exception (create_pdf.py:112-118). They are not modelled, and `Exported` covers those runs too.
- The clock: `datetime.now().strftime("%B %Y")` is the `date` parameter.
- The progress messages that `main` prints are left out.
- PyStr.TitleFrom and PyStr.Lower: case mapping covers the ASCII letters only. Every other character is treated as uncased, so non-ASCII letters in a file name are not title-cased as Python would title-case them.
- PyStr.Basename: POSIX paths only (`/` as the separator).
- PyStr.Split, PyStr.Join and PyStr.ReplaceChar: only the single-character separators the script uses are covered. `str.replace` with a longer pattern is modelled only for the removal of `.ipynb` (`PyStr.RemoveAll`).
- Cell ids, metadata, `execution_count`, attachments, and the notebook's own metadata and format version are not modelled. An output is an opaque payload.
- The script sets `outputs` on the input's own cell objects, including code cells it then skips. Those objects are dropped afterwards, so the model works on values and records the change only on the cells it keeps.
- The table-of-contents cell is appended to the notebook and then grown through a second reference. The model updates the list entry itself (`Merge.FillToc`).
- Anchor collisions are not modelled. Two notebooks whose names give the same anchor produce two links to the same `id`; the script does nothing about it, and the model proves nothing about anchor uniqueness.
- Names are inserted into the markdown and HTML without escaping, as in the script. The model keeps them verbatim.

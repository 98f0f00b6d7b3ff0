/** The driver (scripts/create_pdf.py:95-120): `main` finds the notebooks,
    stops early when there are none, merges them in sorted order and hands
    the merged notebook to the webPDF exporter, whose output is saved under a
    fixed name.

    The file system is a parameter: `matched` is what the glob pattern
    `notebooks/[0-9]*.ipynb` returned, in whatever order, and `contents` maps
    each readable path to the cells `nbformat.read` parses from it. */
module Cli {
  import opened Notebook
  import opened Discovery
  import opened Merge

  /** The file the PDF is written to (create_pdf.py:115). */
  const OutputFile: string := "nba_pattern_analysis.pdf"

  /** The two options `convert_to_pdf` sets on the exporter (create_pdf.py:85-86). */
  datatype ExportOptions = ExportOptions(excludeInputPrompt: bool, excludeOutputPrompt: bool)

  const WebPdfOptions: ExportOptions := ExportOptions(true, true)

  /** How a run ends: nothing matched and nothing is written, a matched path
      could not be read and the script dies with the exception, or the merged
      cells are handed to the exporter with `options`, for `file`. */
  datatype Outcome =
    | NoNotebooks
    | Aborted
    | Exported(file: string, options: ExportOptions, cells: seq<Cell>)

  predicate Readable(paths: seq<string>, contents: map<string, seq<Cell>>)
  {
    forall k :: 0 <= k < |paths| ==> paths[k] in contents
  }

  /** Each path paired with the cells read from it, in the order given. */
  function Inputs(paths: seq<string>, contents: map<string, seq<Cell>>): (r: seq<Input>)
    requires Readable(paths, contents)
    ensures |r| == |paths|
    ensures forall k :: 0 <= k < |r| ==> r[k] == Input(paths[k], contents[paths[k]])
  {
    seq(|paths|, k requires 0 <= k < |paths| => Input(paths[k], contents[paths[k]]))
  }

  /** `main()`: the printed progress messages are left out; the clock's
      month and year come in as `date`. */
  method Run(matched: seq<string>, contents: map<string, seq<Cell>>, date: string) returns (r: Outcome)
    ensures r == NoNotebooks <==> matched == []
    ensures r == Aborted <==> matched != [] && exists p :: p in matched && p !in contents
    ensures r.Exported? ==> r.file == OutputFile && r.options == WebPdfOptions
    ensures r.Exported? ==> var notebooks := SortNames(matched);
      Readable(notebooks, contents) && r.cells == Merged(Inputs(notebooks, contents), date)
  {
    var notebooks := SortNames(matched);
    assert forall p :: p in notebooks <==> p in matched by {
      forall p ensures p in notebooks <==> p in matched {
        assert p in notebooks <==> p in multiset(notebooks);
        assert p in matched <==> p in multiset(matched);
      }
    }
    if |notebooks| == 0 {
      assert |multiset(matched)| == 0;
      return NoNotebooks;
    }
    if !Readable(notebooks, contents) {
      return Aborted;
    }
    var merged := MergeNotebooks(Inputs(notebooks, contents), date);
    r := Exported(OutputFile, WebPdfOptions, merged);
  }
}

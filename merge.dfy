/** Assembly (scripts/create_pdf.py:15-77): `merge_notebooks` builds one
    notebook out of a title page, a table of contents with one entry per
    input, and then, per input, a header, the input's cells and a page break.

    The specification functions below describe the finished cell list in two
    steps: each input is first given the section name of its path
    (`Sections`), and the named sections are then laid out (`Assemble`). The
    method `MergeNotebooks` builds the list the way the script does, by
    appending. */
module Merge {
  import opened PyStr
  import opened Notebook
  import opened Sections

  /** One notebook to merge: the path the script was given and the cells
      `nbformat.read` parsed from it. */
  datatype Input = Input(path: string, cells: seq<Cell>)

  /** What one input contributes to the merged notebook: its
      table-of-contents entry, the source of its header cell and the cells
      it keeps. */
  datatype Section = Section(tocLine: string, header: string, cells: seq<Cell>)

  const ReportTitle: string := "NBA Pattern Analysis"

  const PageBreakSource: string := "<div style=\"break-after: page\"></div>"

  const TocHeading: string := "\n# Table of Contents\n\n"

  /** The title page (create_pdf.py:22-30), around the given month and year. */
  function TitleSource(date: string): string
  {
    "\n<div style=\"text-align: center; padding: 100px 0;\">\n"
    + "    <h1 style=\"font-size: 2.5em; color: #333;\">" + ReportTitle + "</h1>\n"
    + "    <p style=\"font-size: 1.2em; color: #666; margin-top: 20px;\">Final Project Report</p>\n"
    + "    <p style=\"font-size: 1.1em; color: #666; margin-top: 50px;\">" + date + "</p>\n"
    + "</div>\n\n" + PageBreakSource + "\n"
  }

  function PageBreak(): Cell
  {
    Markdown(PageBreakSource)
  }

  /** The contribution of one input: the entry and the header are built
      from the section name of its path, the cells are those the inner loop
      keeps. */
  function SectionOf(input: Input): Section
  {
    var name := SectionName(input.path);
    Section(TocLine(name), HeaderSource(name), Kept(input.cells))
  }

  function SectionsOf(inputs: seq<Input>): seq<Section>
  {
    seq(|inputs|, i requires 0 <= i < |inputs| => SectionOf(inputs[i]))
  }

  /** The entries the table of contents holds after the first loop has seen `sections`. */
  function TocEntries(sections: seq<Section>): string
  {
    if sections == [] then []
    else TocEntries(sections[..|sections| - 1]) + sections[|sections| - 1].tocLine
  }

  /** The cells of one input that reach the merged notebook, in order. */
  function Kept(cells: seq<Cell>): seq<Cell>
  {
    if cells == [] then []
    else
      var last := cells[|cells| - 1];
      Kept(cells[..|cells| - 1]) + (if Dropped(last) then [] else [WithOutputs(last)])
  }

  /** The positions of the cells that `Kept` keeps. */
  function KeptIndices(cells: seq<Cell>): seq<nat>
  {
    if cells == [] then []
    else
      KeptIndices(cells[..|cells| - 1]) + (if Dropped(cells[|cells| - 1]) then [] else [|cells| - 1])
  }

  /** One section's contribution: its header, its kept cells and a page break. */
  function Block(section: Section): seq<Cell>
  {
    [Markdown(section.header)] + section.cells + [PageBreak()]
  }

  /** The blocks of `sections`, one after another. */
  function Body(sections: seq<Section>): seq<Cell>
  {
    if sections == [] then []
    else Body(sections[..|sections| - 1]) + Block(sections[|sections| - 1])
  }

  /** Title page, table of contents and page break. */
  function Front(title: string, sections: seq<Section>): seq<Cell>
  {
    [Markdown(title), Markdown(TocHeading + TocEntries(sections)), PageBreak()]
  }

  function Assemble(title: string, sections: seq<Section>): seq<Cell>
  {
    Front(title, sections) + Body(sections)
  }

  /** The cells of the notebook `merge_notebooks` returns. */
  function Merged(inputs: seq<Input>, date: string): seq<Cell>
  {
    Assemble(TitleSource(date), SectionsOf(inputs))
  }

  /** `merge_notebooks(notebook_files)`, with each file's parsed cells
      supplied alongside its path and the date as a parameter. */
  method MergeNotebooks(inputs: seq<Input>, date: string) returns (merged: seq<Cell>)
    ensures merged == Merged(inputs, date)
  {
    var titleCell := Markdown(TitleSource(date));
    merged := [titleCell];
    merged := merged + [Markdown(TocHeading)];
    merged := FillToc(merged, inputs);
    merged := merged + [PageBreak()];
    merged := AppendSections(merged, inputs);
  }

  /** The first loop of `merge_notebooks` (create_pdf.py:44-47): one entry per
      input is appended to the source of the table-of-contents cell, which is
      already in the list, so the cell in the list is the one that grows. */
  method FillToc(prefix: seq<Cell>, inputs: seq<Input>) returns (merged: seq<Cell>)
    requires |prefix| == 2 && prefix[1] == Markdown(TocHeading)
    ensures merged == [prefix[0], Markdown(TocHeading + TocEntries(SectionsOf(inputs)))]
  {
    ghost var sections := SectionsOf(inputs);
    merged := prefix;
    var toc := TocHeading;
    for i := 0 to |inputs|
      invariant toc == TocHeading + TocEntries(sections[..i])
      invariant merged == [prefix[0], Markdown(toc)]
    {
      var line := TocLine(SectionName(inputs[i].path));
      TocGrow(TocHeading, sections, i);
      SectionAt(inputs, i);
      toc := toc + line;
      merged := merged[1 := Markdown(toc)];
    }
    assert sections[..|inputs|] == sections;
  }

  /** The second loop of `merge_notebooks` (create_pdf.py:52-75): per input,
      its header, its kept cells and a page break are appended. */
  method AppendSections(prefix: seq<Cell>, inputs: seq<Input>) returns (merged: seq<Cell>)
    ensures merged == prefix + Body(SectionsOf(inputs))
  {
    ghost var sections := SectionsOf(inputs);
    merged := prefix;
    for i := 0 to |inputs|
      invariant merged == prefix + Body(sections[..i])
    {
      var input := inputs[i];
      var sectionName := SectionName(input.path);
      SectionAt(inputs, i);
      BodyGrow(prefix, sections, i);
      merged := merged + [Markdown(HeaderSource(sectionName))];
      merged := AppendKept(merged, input.cells);
      merged := merged + [PageBreak()];
    }
    assert sections[..|inputs|] == sections;
  }

  /** The inner loop of `merge_notebooks` (create_pdf.py:65-72): the cells of
      one input are appended one by one, a missing `outputs` is defaulted,
      and a code cell with a blank source is skipped. */
  method AppendKept(prefix: seq<Cell>, cells: seq<Cell>) returns (merged: seq<Cell>)
    ensures merged == prefix + Kept(cells)
  {
    merged := prefix;
    for j := 0 to |cells|
      invariant merged == prefix + Kept(cells[..j])
    {
      KeptStep(cells, j);
      var cell := cells[j];
      if cell.Code? {
        if cell.outputs.None? {
          cell := cell.(outputs := Some([]));
        }
        if Strip(cell.source) == [] {
          continue;
        }
      }
      merged := merged + [cell];
    }
    assert cells[..|cells|] == cells;
  }

  lemma TocStep(sections: seq<Section>, i: nat)
    requires i < |sections|
    ensures TocEntries(sections[..i + 1]) == TocEntries(sections[..i]) + sections[i].tocLine
  {
    assert sections[..i + 1][..i] == sections[..i];
  }

  lemma TocGrow(heading: string, sections: seq<Section>, i: nat)
    requires i < |sections|
    ensures heading + TocEntries(sections[..i + 1])
         == (heading + TocEntries(sections[..i])) + sections[i].tocLine
  {
    TocStep(sections, i);
  }

  lemma BodyGrow(prefix: seq<Cell>, sections: seq<Section>, i: nat)
    requires i < |sections|
    ensures prefix + Body(sections[..i + 1])
         == ((prefix + Body(sections[..i])) + [Markdown(sections[i].header)] + sections[i].cells)
            + [PageBreak()]
  {
    BodyStep(sections, i);
  }

  lemma SectionAt(inputs: seq<Input>, i: nat)
    requires i < |inputs|
    ensures SectionsOf(inputs)[i].tocLine == TocLine(SectionName(inputs[i].path))
    ensures SectionsOf(inputs)[i].header == HeaderSource(SectionName(inputs[i].path))
    ensures SectionsOf(inputs)[i].cells == Kept(inputs[i].cells)
  {
  }

  lemma BodyStep(sections: seq<Section>, i: nat)
    requires i < |sections|
    ensures Body(sections[..i + 1]) == Body(sections[..i]) + Block(sections[i])
  {
    assert sections[..i + 1][..i] == sections[..i];
  }

  lemma KeptStep(cells: seq<Cell>, j: nat)
    requires j < |cells|
    ensures Kept(cells[..j + 1]) == Kept(cells[..j]) + (if Dropped(cells[j]) then [] else [WithOutputs(cells[j])])
  {
    assert cells[..j + 1][..j] == cells[..j];
  }

  /** The number of cells of an input that are not dropped. */
  function CountKept(cells: seq<Cell>): nat
  {
    if cells == [] then 0 else (if Dropped(cells[0]) then 0 else 1) + CountKept(cells[1..])
  }

  /** The cells the merged notebook gives each section, summed: header,
      cells and page break. */
  function BlockSizes(sections: seq<Section>): nat
  {
    if sections == [] then 0 else 2 + |sections[0].cells| + BlockSizes(sections[1..])
  }

  lemma {:induction false} CountKeptAppend(a: seq<Cell>, b: seq<Cell>)
    ensures CountKept(a + b) == CountKept(a) + CountKept(b)
  {
    if a == [] {
      assert a + b == b;
    } else {
      assert (a + b)[0] == a[0] && (a + b)[1..] == a[1..] + b;
      CountKeptAppend(a[1..], b);
    }
  }

  /** Every cell that is not dropped is kept, and only those. */
  lemma {:induction false} KeptLength(cells: seq<Cell>)
    ensures |Kept(cells)| == CountKept(cells)
  {
    if cells != [] {
      var n := |cells|;
      KeptLength(cells[..n - 1]);
      assert cells == cells[..n - 1] + [cells[n - 1]];
      CountKeptAppend(cells[..n - 1], [cells[n - 1]]);
    }
  }

  lemma {:induction false} BlockSizesAppend(a: seq<Section>, b: seq<Section>)
    ensures BlockSizes(a + b) == BlockSizes(a) + BlockSizes(b)
  {
    if a == [] {
      assert a + b == b;
    } else {
      assert (a + b)[0] == a[0] && (a + b)[1..] == a[1..] + b;
      BlockSizesAppend(a[1..], b);
    }
  }

  lemma {:induction false} BodyLength(sections: seq<Section>)
    ensures |Body(sections)| == BlockSizes(sections)
  {
    if sections != [] {
      var n := |sections|;
      BodyLength(sections[..n - 1]);
      assert sections == sections[..n - 1] + [sections[n - 1]];
      BlockSizesAppend(sections[..n - 1], [sections[n - 1]]);
    }
  }

  /** The merged notebook has 3 + the sum over sections of (2 + kept cells)
      cells, and opens with the title page, the table of contents and a page
      break, in that order. */
  lemma AssembleLayout(title: string, sections: seq<Section>)
    ensures |Assemble(title, sections)| == 3 + BlockSizes(sections)
    ensures Assemble(title, sections)[0] == Markdown(title)
    ensures Assemble(title, sections)[1] == Markdown(TocHeading + TocEntries(sections))
    ensures Assemble(title, sections)[2] == Markdown(PageBreakSource)
  {
    BodyLength(sections);
  }

  /** The cells the inputs contribute, summed: per input, its header, the
      cells that are not dropped and a page break. */
  function InputSizes(inputs: seq<Input>): nat
  {
    if inputs == [] then 0 else 2 + CountKept(inputs[0].cells) + InputSizes(inputs[1..])
  }

  lemma {:induction false} SectionSizes(inputs: seq<Input>)
    ensures BlockSizes(SectionsOf(inputs)) == InputSizes(inputs)
  {
    if inputs != [] {
      SectionSizes(inputs[1..]);
      assert SectionsOf(inputs)[1..] == SectionsOf(inputs[1..]);
      SectionAt(inputs, 0);
      KeptLength(inputs[0].cells);
    }
  }

  /** The merged notebook has three cells of front matter and, per input,
      2 + the number of its cells that are not dropped. */
  lemma MergedLength(inputs: seq<Input>, date: string)
    ensures |Merged(inputs, date)| == 3 + InputSizes(inputs)
  {
    AssembleLayout(TitleSource(date), SectionsOf(inputs));
    SectionSizes(inputs);
  }

  /** `KeptIndices` lists increasing positions of the input, one per kept cell. */
  lemma {:induction false} KeptIndicesIncreasing(cells: seq<Cell>)
    ensures |KeptIndices(cells)| == |Kept(cells)|
    ensures forall k :: 0 <= k < |KeptIndices(cells)| ==> KeptIndices(cells)[k] < |cells|
    ensures forall k, l :: 0 <= k < l < |KeptIndices(cells)| ==> KeptIndices(cells)[k] < KeptIndices(cells)[l]
  {
    if cells != [] {
      KeptIndicesIncreasing(cells[..|cells| - 1]);
    }
  }

  /** A position is listed exactly when the cell there is not dropped. */
  lemma {:induction false} KeptIndicesExact(cells: seq<Cell>)
    ensures forall j :: 0 <= j < |cells| ==> (j in KeptIndices(cells) <==> !Dropped(cells[j]))
  {
    if cells != [] {
      var n := |cells|;
      var front := cells[..n - 1];
      KeptIndicesExact(front);
      KeptIndicesIncreasing(front);
      assert forall j :: 0 <= j < n - 1 ==> front[j] == cells[j];
    }
  }

  /** The `k`-th kept cell is the cell at the `k`-th listed position, with its
      outputs defaulted. */
  lemma {:induction false} KeptAt(cells: seq<Cell>)
    ensures |KeptIndices(cells)| == |Kept(cells)|
    ensures forall k :: 0 <= k < |Kept(cells)| ==>
      KeptIndices(cells)[k] < |cells| && Kept(cells)[k] == WithOutputs(cells[KeptIndices(cells)[k]])
  {
    if cells != [] {
      var n := |cells|;
      var front := cells[..n - 1];
      KeptAt(front);
      KeptIndicesIncreasing(front);
      assert forall j :: 0 <= j < n - 1 ==> front[j] == cells[j];
    }
  }

  /** No kept cell is an empty code cell, every kept code cell has outputs,
      and markdown and raw cells are never dropped, even when empty. */
  lemma KeptCells(cells: seq<Cell>)
    ensures forall c :: c in Kept(cells) && c.Code? ==> c.outputs.Some? && Strip(c.source) != []
    ensures forall j :: 0 <= j < |cells| && !cells[j].Code? ==> cells[j] in Kept(cells)
    ensures forall j :: 0 <= j < |cells| && cells[j].Code? && cells[j].outputs.Some? && Strip(cells[j].source) != [] ==>
      cells[j] in Kept(cells)
  {
    KeptIndicesExact(cells);
    KeptAt(cells);
    var idx, kept := KeptIndices(cells), Kept(cells);
    forall c | c in kept && c.Code? ensures c.outputs.Some? && Strip(c.source) != [] {
      var k :| 0 <= k < |kept| && kept[k] == c;
      assert !Dropped(cells[idx[k]]) by {
        assert idx[k] in idx;
      }
    }
    forall j | 0 <= j < |cells| && !Dropped(cells[j]) ensures WithOutputs(cells[j]) in kept {
      assert j in idx;
      var k :| 0 <= k < |idx| && idx[k] == j;
      assert kept[k] == WithOutputs(cells[j]);
    }
  }

  lemma {:induction false} BodyAppend(a: seq<Section>, b: seq<Section>)
    ensures Body(a + b) == Body(a) + Body(b)
  {
    if b == [] {
      assert a + b == a;
    } else {
      var front, last := b[..|b| - 1], b[|b| - 1];
      assert b == front + [last];
      assert a + b == (a + front) + [last];
      BodyAppend(a, front);
      BodySnoc(a + front, last);
      BodySnoc(front, last);
    }
  }

  lemma BodySnoc(sections: seq<Section>, last: Section)
    ensures Body(sections + [last]) == Body(sections) + Block(last)
  {
    assert (sections + [last])[..|sections|] == sections;
  }

  lemma {:induction false} TocEntriesAppend(a: seq<Section>, b: seq<Section>)
    ensures TocEntries(a + b) == TocEntries(a) + TocEntries(b)
  {
    if b == [] {
      assert a + b == a;
    } else {
      var front, last := b[..|b| - 1], b[|b| - 1];
      assert b == front + [last];
      assert a + b == (a + front) + [last];
      TocEntriesAppend(a, front);
      TocEntriesSnoc(a + front, last);
      TocEntriesSnoc(front, last);
    }
  }

  lemma TocEntriesSnoc(sections: seq<Section>, last: Section)
    ensures TocEntries(sections + [last]) == TocEntries(sections) + last.tocLine
  {
    assert (sections + [last])[..|sections|] == sections;
  }

  /** The body splits around section `i`: the blocks before it, its own
      block, the blocks after it. */
  lemma BodyAround(sections: seq<Section>, i: nat)
    requires i < |sections|
    ensures Body(sections) == Body(sections[..i]) + Block(sections[i]) + Body(sections[i + 1..])
  {
    var before, after := sections[..i], sections[i + 1..];
    assert sections == (before + [sections[i]]) + after;
    BodyAppend(before + [sections[i]], after);
    BodyStep(sections, i);
    assert sections[..i + 1] == before + [sections[i]];
  }

  /** The table of contents splits around section `i` in the same way. */
  lemma TocEntriesAround(sections: seq<Section>, i: nat)
    requires i < |sections|
    ensures TocEntries(sections) == TocEntries(sections[..i]) + sections[i].tocLine + TocEntries(sections[i + 1..])
  {
    assert sections == sections[..i + 1] + sections[i + 1..];
    TocEntriesAppend(sections[..i + 1], sections[i + 1..]);
    TocStep(sections, i);
  }

  /** Section `i` contributes one contiguous block of the notebook, after the
      title page, the table of contents, the page break and the blocks of the
      sections before it: its header, then its kept cells, then a page break. */
  lemma BlockAt(title: string, sections: seq<Section>, i: nat)
    requires i < |sections|
    ensures var at, kept := 3 + BlockSizes(sections[..i]), sections[i].cells;
      var m := Assemble(title, sections);
      at + |kept| + 1 < |m|
      && m[at] == Markdown(sections[i].header)
      && m[at + 1..at + 1 + |kept|] == kept
      && m[at + 1 + |kept|] == Markdown(PageBreakSource)
  {
    var block, at := Block(sections[i]), BlockSizes(sections[..i]);
    BodyBlockAt(sections, i);
    SliceAfter(Front(title, sections), Body(sections), at, at + |block|);
    var m := Assemble(title, sections);
    assert m[3 + at..3 + at + |block|] == block;
    BlockParts(sections[i], m, 3 + at);
  }

  /** Within the body, section `i`'s block follows the blocks before it. */
  lemma BodyBlockAt(sections: seq<Section>, i: nat)
    requires i < |sections|
    ensures var at, block := BlockSizes(sections[..i]), Block(sections[i]);
      at + |block| <= |Body(sections)| && Body(sections)[at..at + |block|] == block
  {
    BodyAround(sections, i);
    BodyLength(sections[..i]);
  }

  lemma SliceAfter<T>(a: seq<T>, b: seq<T>, lo: nat, hi: nat)
    requires lo <= hi <= |b|
    ensures (a + b)[|a| + lo..|a| + hi] == b[lo..hi]
  {
  }

  lemma SliceOfSlice<T>(m: seq<T>, lo: nat, hi: nat, i: nat, j: nat)
    requires lo <= hi <= |m| && i <= j <= hi - lo
    ensures m[lo..hi][i..j] == m[lo + i..lo + j]
  {
    var a, b := m[lo..hi][i..j], m[lo + i..lo + j];
    assert |a| == |b|;
    forall k | 0 <= k < |a| ensures a[k] == b[k] {
      assert a[k] == m[lo..hi][i + k] == m[lo + i + k];
    }
  }

  lemma BlockParts(section: Section, m: seq<Cell>, at: nat)
    requires var n := |Block(section)|; at + n <= |m| && m[at..at + n] == Block(section)
    ensures var kept := section.cells;
      at + |kept| + 1 < |m|
      && m[at] == Markdown(section.header)
      && m[at + 1..at + 1 + |kept|] == kept
      && m[at + 1 + |kept|] == Markdown(PageBreakSource)
  {
    var block, k := Block(section), |section.cells|;
    assert m[at] == block[0];
    SliceOfSlice(m, at, at + |block|, 1, 1 + k);
    assert block[1..1 + k] == section.cells;
    assert m[at + 1 + k] == block[1 + k];
  }

  /** Section `i`'s table-of-contents entry follows the entries of the
      sections before it. */
  lemma EntryAt(sections: seq<Section>, i: nat)
    requires i < |sections|
    ensures var t, line := |TocEntries(sections[..i])|, sections[i].tocLine;
      t + |line| <= |TocEntries(sections)| && TocEntries(sections)[t..t + |line|] == line
  {
    TocEntriesAround(sections, i);
  }

  /** For the notebook `merge_notebooks` returns: input `i`'s block follows
      the blocks of the inputs before it; its header shows the section name
      and carries the anchor as its `id`; its kept cells follow the header and
      a page break closes the block. */
  lemma InputBlock(inputs: seq<Input>, date: string, i: nat)
    requires i < |inputs|
    ensures var name, at := SectionName(inputs[i].path), 3 + BlockSizes(SectionsOf(inputs)[..i]);
      var kept := Kept(inputs[i].cells);
      var m := Merged(inputs, date);
      at + |kept| + 1 < |m|
      && m[at] == Markdown("\n<h1 id=\"" + Anchor(name) + "\">" + name + "</h1>\n")
      && m[at + 1..at + 1 + |kept|] == kept
      && m[at + 1 + |kept|] == Markdown(PageBreakSource)
  {
    var sections := SectionsOf(inputs);
    SectionAt(inputs, i);
    BlockAt(TitleSource(date), sections, i);
  }

  /** Input `i`'s table-of-contents entry follows the entries of the inputs
      before it and links, by the anchor, to the `id` of its header. */
  lemma InputEntry(inputs: seq<Input>, i: nat)
    requires i < |inputs|
    ensures var name, t := SectionName(inputs[i].path), |TocEntries(SectionsOf(inputs)[..i])|;
      var line := "- [" + name + "](#" + Anchor(name) + ")\n";
      var entries := TocEntries(SectionsOf(inputs));
      t + |line| <= |entries| && entries[t..t + |line|] == line
  {
    var sections := SectionsOf(inputs);
    assert sections[i] == SectionOf(inputs[i]);
    EntryAt(sections, i);
  }

  /** Every code cell has an `outputs` field and a source that is not
      blank: the form the exporter needs. */
  predicate Exportable(cells: seq<Cell>)
  {
    forall c :: c in cells && c.Code? ==> c.outputs.Some? && Strip(c.source) != []
  }

  lemma {:induction false} BodyExportable(sections: seq<Section>)
    requires forall k :: 0 <= k < |sections| ==> Exportable(sections[k].cells)
    ensures Exportable(Body(sections))
  {
    if sections != [] {
      BodyExportable(sections[..|sections| - 1]);
    }
  }

  /** Every code cell of the merged notebook has an `outputs` field and a
      source that is not blank. */
  lemma MergedExportable(inputs: seq<Input>, date: string)
    ensures Exportable(Merged(inputs, date))
  {
    var sections := SectionsOf(inputs);
    forall k | 0 <= k < |sections| ensures Exportable(sections[k].cells) {
      KeptCells(inputs[k].cells);
    }
    BodyExportable(sections);
    assert Merged(inputs, date) == Front(TitleSource(date), sections) + Body(sections);
  }

  /** The table-of-contents heading spans three lines. */
  lemma TocHeadingLines()
    ensures Count(TocHeading, '\n') == 3
  {
    var h := TocHeading;
    assert h[0] == '\n' && h[1..] == "# Table of Contents" + "\n\n";
    CountAbsent("# Table of Contents", '\n');
    CountAppend("# Table of Contents", "\n\n", '\n');
    assert "\n\n"[1..] == "\n" && "\n"[1..] == [];
  }

  /** The entries hold one line per section when every entry is one line. */
  lemma {:induction false} TocEntriesLines(sections: seq<Section>)
    requires forall k :: 0 <= k < |sections| ==> Count(sections[k].tocLine, '\n') == 1
    ensures Count(TocEntries(sections), '\n') == |sections|
  {
    if sections != [] {
      var n := |sections|;
      TocEntriesLines(sections[..n - 1]);
      CountAppend(TocEntries(sections[..n - 1]), sections[n - 1].tocLine, '\n');
    }
  }

  lemma EntryIsOneLine(input: Input)
    requires '\n' !in input.path
    ensures Count(SectionOf(input).tocLine, '\n') == 1
  {
    SectionNameNoNewline(input.path);
    TocLineIsOneLine(SectionName(input.path));
  }

  /** When no input path holds a newline, the table-of-contents cell of the
      merged notebook has the three heading lines and one line per input. */
  lemma MergedTocLines(inputs: seq<Input>, date: string)
    requires forall k :: 0 <= k < |inputs| ==> '\n' !in inputs[k].path
    ensures Merged(inputs, date)[1].source == TocHeading + TocEntries(SectionsOf(inputs))
    ensures Count(Merged(inputs, date)[1].source, '\n') == 3 + |inputs|
  {
    TocLines(inputs);
    AssembleLayout(TitleSource(date), SectionsOf(inputs));
  }

  lemma TocLines(inputs: seq<Input>)
    requires forall k :: 0 <= k < |inputs| ==> '\n' !in inputs[k].path
    ensures Count(TocHeading + TocEntries(SectionsOf(inputs)), '\n') == 3 + |inputs|
  {
    var sections := SectionsOf(inputs);
    forall k | 0 <= k < |sections| ensures Count(sections[k].tocLine, '\n') == 1 {
      EntryIsOneLine(inputs[k]);
    }
    TocEntriesLines(sections);
    TocHeadingLines();
    CountAppend(TocHeading, TocEntries(sections), '\n');
  }
}

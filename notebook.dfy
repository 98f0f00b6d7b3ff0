/** The notebook cells that scripts/create_pdf.py reads, builds and carries
    into the merged notebook, and the rule that decides which input cells are
    kept (create_pdf.py:65-72). */
module Notebook {
  import opened PyStr

  datatype Option<T> = None | Some(value: T)

  /** One entry of a code cell's `outputs` list; the merge never looks inside it. */
  datatype Output = Output(payload: string)

  /** A notebook cell with its `cell_type` and `source`; a code cell's
      `outputs` field may be missing from the parsed document. */
  datatype Cell =
    | Markdown(source: string)
    | Code(source: string, outputs: Option<seq<Output>>)
    | Raw(source: string)

  /** `cell.cell_type == 'code' and not cell.source.strip()`: a code cell whose
      source is empty or only whitespace is skipped. */
  predicate Dropped(c: Cell)
  {
    c.Code? && Strip(c.source) == []
  }

  /** A code cell without `outputs` gets an empty list; everything else is as it was. */
  function WithOutputs(c: Cell): (r: Cell)
    ensures r.source == c.source && r.Code? == c.Code? && r.Markdown? == c.Markdown?
    ensures r.Code? ==> r.outputs.Some?
    ensures c.Code? && c.outputs.None? ==> r.outputs == Some([])
    ensures !c.Code? || c.outputs.Some? ==> r == c
  {
    if c.Code? && c.outputs.None? then c.(outputs := Some([])) else c
  }

  /** The drop rule in terms of the characters of the source: a code cell is
      dropped exactly when every character of its source is whitespace, and a
      markdown or raw cell never is. */
  lemma DroppedIff(c: Cell)
    ensures Dropped(c) <==> c.Code? && forall i :: 0 <= i < |c.source| ==> IsSpace(c.source[i])
  {
    StripEmptyIff(c.source);
  }
}

/**
 * `strip_output` (notebooks_in_order/check_notebooks_in_order.py, lines
 * 72-90): clear every cell's stored outputs and drop its legacy prompt number.
 */
module Strip {
  import opened Wrappers
  import opened Notebook
  import opened ExecutionOrder

  /**
   * One cell after stripping: a cell that has `outputs` keeps the attribute
   * with an empty list, `prompt_number` is gone, and nothing else changes.
   */
  function StripCell(c: Cell): (s: Cell)
    ensures s.kind == c.kind && s.source == c.source && s.metadata == c.metadata
    ensures s.outputs.Some? <==> c.outputs.Some?
    ensures s.outputs.Some? ==> s.outputs.value == []
    ensures s.promptNumber == None
  {
    var outputs := if c.outputs.Some? then Some([]) else None;
    c.(outputs := outputs, promptNumber := None)
  }

  /** A whole cell list after stripping, cell by cell. */
  function StripAll(cells: seq<Cell>): seq<Cell> {
    seq(|cells|, i requires 0 <= i < |cells| => StripCell(cells[i]))
  }

  /** A stripped cell list carries no outputs and no prompt numbers. */
  predicate Stripped(cells: seq<Cell>) {
    forall i | 0 <= i < |cells| ::
      (cells[i].outputs.Some? ==> cells[i].outputs.value == []) && cells[i].promptNumber == None
  }

  /**
   * The loop of `strip_output` over the notebook's cells, in place: the
   * array is the notebook read into memory.
   */
  method StripCells(cells: array<Cell>)
    modifies cells
    ensures cells[..] == StripAll(old(cells[..]))
  {
    for i := 0 to cells.Length
      invariant forall k | 0 <= k < i :: cells[k] == StripCell(old(cells[k]))
      invariant forall k | i <= k < cells.Length :: cells[k] == old(cells[k])
    {
      var cell := cells[i];
      if cell.outputs.Some? {
        cell := cell.(outputs := Some([]));
      }
      if cell.promptNumber.Some? {
        cell := cell.(promptNumber := None);
      }
      cells[i] := cell;
    }
  }

  /** Stripping yields a stripped notebook, and stripping it again changes nothing. */
  lemma StripAllStripped(cells: seq<Cell>)
    ensures Stripped(StripAll(cells))
    ensures StripAll(StripAll(cells)) == StripAll(cells)
  {
  }

  /** Stripping keeps the cell count, the order and every cell's kind, source and metadata. */
  lemma StripAllKeeps(cells: seq<Cell>)
    ensures |StripAll(cells)| == |cells|
    ensures forall i | 0 <= i < |cells| ::
      StripAll(cells)[i].kind == cells[i].kind &&
      StripAll(cells)[i].source == cells[i].source &&
      StripAll(cells)[i].metadata == cells[i].metadata
  {
  }

  /** An already stripped notebook is left as it is. */
  lemma StrippedFixed(cells: seq<Cell>)
    requires Stripped(cells)
    ensures StripAll(cells) == cells
  {
    forall i | 0 <= i < |cells| ensures StripAll(cells)[i] == cells[i] {
      var c := cells[i];
      assert c.promptNumber == None;
    }
  }

  /**
   * Stripping leaves the execution sequence alone: it clears outputs and
   * prompt numbers but not the code cells' execution counts.
   */
  lemma {:induction false} StripKeepsExecutionCounts(cells: seq<Cell>)
    ensures ExecutionCounts(StripAll(cells)) == ExecutionCounts(cells)
    decreases |cells|
  {
    if cells != [] {
      var t := cells[..|cells| - 1];
      assert StripAll(cells)[..|cells| - 1] == StripAll(t);
      StripKeepsExecutionCounts(t);
    }
  }

  /** So a notebook that failed the check still fails it once stripped. */
  lemma StripKeepsVerdict(cells: seq<Cell>, flags: Flags)
    ensures Verdict(ExecutionCounts(StripAll(cells)), flags) == Verdict(ExecutionCounts(cells), flags)
  {
    StripKeepsExecutionCounts(cells);
  }
}

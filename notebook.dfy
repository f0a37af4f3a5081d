/**
 * The notebook data model and the extraction of the execution sequence
 * (notebooks_in_order/check_notebooks_in_order.py, lines 14-18).
 */
module Notebook {
  import opened Wrappers

  /** One stored output of a cell; its payload is not interpreted here. */
  datatype Output = Output(outputType: string, text: string)

  /** The `cell_type` of a cell; only code cells carry an `execution_count`. */
  datatype Kind = Code(executionCount: Option<int>) | Markdown | Raw

  /**
   * A cell as the notebook reader presents it.  An attribute the cell does
   * not have is `None`: `outputs` is absent on markdown and raw cells, and
   * `promptNumber` is the legacy `prompt_number` attribute.  Every other
   * attribute is folded into `metadata`, which no operation touches.
   */
  datatype Cell = Cell(
    kind: Kind,
    source: string,
    outputs: Option<seq<Output>>,
    promptNumber: Option<int>,
    metadata: map<string, string>)

  /** A cell contributes to the execution sequence when it is a code cell whose source is not exactly empty. */
  predicate Qualifies(c: Cell) {
    c.kind.Code? && c.source != ""
  }

  /** What one cell contributes to the execution sequence. */
  function Contribution(c: Cell): seq<Option<int>> {
    if Qualifies(c) then [c.kind.executionCount] else []
  }

  /**
   * The execution sequence of a notebook: the execution counts of its
   * qualifying cells, in document order.
   */
  function ExecutionCounts(cells: seq<Cell>): (counts: seq<Option<int>>)
    ensures |counts| <= |cells|
  {
    if cells == [] then []
    else ExecutionCounts(cells[..|cells| - 1]) + Contribution(cells[|cells| - 1])
  }

  /** A notebook without a qualifying cell has an empty execution sequence. */
  lemma {:induction false} NoQualifyingCells(cells: seq<Cell>)
    requires forall i | 0 <= i < |cells| :: !Qualifies(cells[i])
    ensures ExecutionCounts(cells) == []
    decreases |cells|
  {
    if cells != [] {
      NoQualifyingCells(cells[..|cells| - 1]);
    }
  }

  /** Extraction distributes over concatenation: document order is kept and cells do not interact. */
  lemma {:induction false} ExecutionCountsAppend(a: seq<Cell>, b: seq<Cell>)
    ensures ExecutionCounts(a + b) == ExecutionCounts(a) + ExecutionCounts(b)
    decreases |b|
  {
    if b == [] {
      assert a + b == a;
    } else {
      var b' := b[..|b| - 1];
      assert (a + b)[..|a + b| - 1] == a + b';
      assert (a + b)[|a + b| - 1] == b[|b| - 1];
      ExecutionCountsAppend(a, b');
    }
  }

  /** A markdown cell, a raw cell or a code cell with empty source leaves the sequence unchanged wherever it sits. */
  lemma {:induction false} ExecutionCountsSkip(before: seq<Cell>, c: Cell, after: seq<Cell>)
    requires !Qualifies(c)
    ensures ExecutionCounts(before + [c] + after) == ExecutionCounts(before + after)
  {
    ExecutionCountsAppend(before + [c], after);
    ExecutionCountsAppend(before, [c]);
    SingleCell(c);
    ExecutionCountsAppend(before, after);
  }

  /**
   * A qualifying cell, including one whose source is only whitespace,
   * contributes its execution count at its own position in document order.
   */
  lemma {:induction false} ExecutionCountsKeep(before: seq<Cell>, c: Cell, after: seq<Cell>)
    requires Qualifies(c)
    ensures ExecutionCounts(before + [c] + after)
         == ExecutionCounts(before) + [c.kind.executionCount] + ExecutionCounts(after)
  {
    ExecutionCountsAppend(before + [c], after);
    ExecutionCountsAppend(before, [c]);
    SingleCell(c);
  }

  lemma SingleCell(c: Cell)
    ensures ExecutionCounts([c]) == Contribution(c)
  {
    assert [c][..0] == [];
  }
}

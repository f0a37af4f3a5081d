# notebooks-in-order, modelled in Dafny

This project models `check_notebooks_in_order.py`. The script is a pre-commit
and CI gate. It checks that the code cells of Jupyter notebooks were run once,
from top to bottom. With `--strip-on-fail` it also clears the stored outputs of
every notebook that fails. The model covers:

- **The execution sequence** (`notebook.dfy`, module `Notebook`). A cell is a
  `Code`, `Markdown` or `Raw` cell with a source string. A code cell carries an
  optional execution count. `outputs` and `prompt_number` are optional
  attributes, and every other attribute is folded into `metadata`.
  `ExecutionCounts` keeps the counts of code cells whose source is not exactly
  `""`, in document order.
- **The validator** `check_execution_order` (`execution_order.dfy`, module
  `ExecutionOrder`). It has three sub-checks: `AllExecuted`, `InOrder`, and
  top-to-bottom, which is both of those together. It also has the vacuous pass
  when no count is set. `Verdict` is the decision as a formula.
  `CheckExecutionOrder` is the source's algorithm: it appends the requested
  sub-results to a list seeded with `true` and then ANDs the list. It is proved
  equal to `Verdict`. Lemmas state what the checks mean:
  - in order means every set count equals its rank among the set counts;
  - top to bottom means the sequence is exactly `[1, ..., N]`;
  - a flag that is not set never affects the result.
- **`strip_output`** (`strip.dfy`, module `Strip`). It is a loop over an
  `array<Cell>` that rewrites each cell in place. It is proved against
  `StripAll`. Lemmas show that stripping clears outputs and prompt numbers and
  changes nothing else. They also show that stripping twice has the same
  effect as stripping once.
- **`check_all_notebooks`** (`batch.dfy`, module `Batch`). It is a class
  `NotebookStore` whose field `files` maps each path to a notebook's cells.
  Reading is a lookup, and writing assigns a new map. The first loop builds the
  `check_results` dict, with its keys in first-occurrence order. The second
  loop reports each failing notebook and, with `stripOnFail`, strips it. The
  result is true iff every listed notebook passes.

Facts of the code the model keeps:

- The code does not check that execution counts are positive, so the model
  uses `int`. Counts of zero or below simply fail the in-order check.
- There is one order check: the set counts must equal `1..N` exactly. A
  sequence that is merely increasing, such as `[2, 3]`, fails it.
- `strip_output` does not touch the `execution_count` of nbformat-4 cells. So a
  notebook that failed still fails after stripping. `Strip.StripKeepsVerdict`
  states this.

## Model

| member | source | states |
|---|---|---|
| `Notebook.ExecutionCounts` | notebooks_in_order/check_notebooks_in_order.py:14-18 | the execution sequence has at most one entry per cell |
| `Notebook.NoQualifyingCells` | notebooks_in_order/check_notebooks_in_order.py:15-18 | a notebook without a non-empty code cell has an empty execution sequence |
| `Notebook.ExecutionCountsAppend` | notebooks_in_order/check_notebooks_in_order.py:15-18 | extraction distributes over concatenation: document order is kept and cells do not interact |
| `Notebook.ExecutionCountsSkip` | notebooks_in_order/check_notebooks_in_order.py:15-17 | a markdown cell, a raw cell or a code cell whose source is exactly `""` contributes nothing, wherever it sits |
| `Notebook.ExecutionCountsKeep` | notebooks_in_order/check_notebooks_in_order.py:15-18 | a code cell with any other source, whitespace-only included, contributes its count at its own position |
| `ExecutionOrder.AllNone` | notebooks_in_order/check_notebooks_in_order.py:20-21 | no entry of the sequence is set (true of the empty sequence); its meaning in terms of filtering is `AllNoneIffNoneExecuted` |
| `ExecutionOrder.AllNoneIffNoneExecuted` | notebooks_in_order/check_notebooks_in_order.py:20-25 | the early return fires exactly when filtering out unset entries leaves nothing |
| `ExecutionOrder.AllExecuted` | notebooks_in_order/check_notebooks_in_order.py:29-41 | all-executed holds iff no entry of the sequence is unset |
| `ExecutionOrder.InOrder` | notebooks_in_order/check_notebooks_in_order.py:43-56 | the set counts, unset ones filtered out, equal `[1, ..., N]`; what this means per entry is `InOrderIffRanked` |
| `ExecutionOrder.AllTrue` | notebooks_in_order/check_notebooks_in_order.py:69 | `all(pass_check)` holds iff every entry of the list is true |
| `ExecutionOrder.Verdict` | notebooks_in_order/check_notebooks_in_order.py:20-27 | an all-unset sequence, the empty one included, passes under every flag combination; with no flag set every sequence passes |
| `ExecutionOrder.CheckExecutionOrder` | notebooks_in_order/check_notebooks_in_order.py:6-69 | the early return plus the AND over the `[True]`-seeded list of appended sub-results equals the verdict on the notebook's extracted sequence |
| `ExecutionOrder.InOrderIffRanked` | notebooks_in_order/check_notebooks_in_order.py:43-56 | in-order holds iff every set count equals one plus the number of set counts before it, so re-runs, gaps and swaps fail and interleaved unset entries do not matter |
| `ExecutionOrder.AscendingAt` | notebooks_in_order/check_notebooks_in_order.py:56 | the reference sequence `[1, ..., n]` has the value j+1 at position j |
| `ExecutionOrder.ExecutedAllSet` | notebooks_in_order/check_notebooks_in_order.py:55 | filtering a fully executed sequence yields its entries' values, in order |
| `ExecutionOrder.RankedIffNumbered` | notebooks_in_order/check_notebooks_in_order.py:55-56 | when all entries are set, each count equals its rank iff it equals its position plus one |
| `ExecutionOrder.TopToBottomIffAscending` | notebooks_in_order/check_notebooks_in_order.py:64-67 | all-executed and in-order together hold iff the sequence is exactly `[1, ..., N]` |
| `ExecutionOrder.NoQualifyingCellsPass` | notebooks_in_order/check_notebooks_in_order.py:15-25 | a notebook with no non-empty code cell passes whatever the flags |
| `ExecutionOrder.DefaultVerdict` | notebooks_in_order/check_notebooks_in_order.py:58-69 | with all three flags set, a sequence passes iff it is all unset or exactly `[1, ..., N]` |
| `ExecutionOrder.VerdictFlags` | notebooks_in_order/check_notebooks_in_order.py:58-69 | requesting fewer sub-checks never turns a pass into a failure; with top-to-bottom set, the other two flags make no difference |
| `ExecutionOrder.Examples` | notebooks_in_order/check_notebooks_in_order.py:43-67 | `[1,3,2]`, `[1,1]`, `[2,3]` and `[2,1,3]` are out of order; `[1,unset,2]` is in order but not all executed; `[1,2,3]` passes and `[2,1]` fails |
| `Strip.StripCell` | notebooks_in_order/check_notebooks_in_order.py:84-88 | a cell with outputs keeps them as an empty list; the prompt number is gone; kind, source and metadata are unchanged |
| `Strip.StripAll` | notebooks_in_order/check_notebooks_in_order.py:84-88 | the cell list after the loop, cell by cell; its properties are `StripAllStripped` and `StripAllKeeps` |
| `Strip.StripCells` | notebooks_in_order/check_notebooks_in_order.py:84-88 | the in-place loop leaves the array equal to the cell-by-cell stripped original |
| `Strip.StripAllStripped` | notebooks_in_order/check_notebooks_in_order.py:84-88 | a stripped notebook has no outputs and no prompt numbers, and stripping twice equals stripping once |
| `Strip.StripAllKeeps` | notebooks_in_order/check_notebooks_in_order.py:84-88 | stripping keeps the cell count, the order, and each cell's kind, source and metadata |
| `Strip.StrippedFixed` | notebooks_in_order/check_notebooks_in_order.py:84-88 | an already stripped notebook is left as it is |
| `Strip.StripKeepsExecutionCounts` | notebooks_in_order/check_notebooks_in_order.py:84-88 | stripping leaves the execution sequence unchanged |
| `Strip.StripKeepsVerdict` | notebooks_in_order/check_notebooks_in_order.py:84-88 | a notebook has the same verdict before and after stripping |
| `Batch.Distinct` | notebooks_in_order/check_notebooks_in_order.py:105-107 | the dict's keys are the listed paths, each once |
| `Batch.CheckResults` | notebooks_in_order/check_notebooks_in_order.py:105-107 | the dict's keys are exactly the listed paths, and each maps to true iff that notebook passes |
| `Batch.CheckResultsSnoc` | notebooks_in_order/check_notebooks_in_order.py:105-107 | checking one more path adds or overwrites that path's entry with its verdict |
| `Batch.Failing` | notebooks_in_order/check_notebooks_in_order.py:109-111 | the paths reported by the loop, in order, at most one per visited key |
| `Batch.FailingIff` | notebooks_in_order/check_notebooks_in_order.py:109-111 | the reported paths are exactly the visited paths whose check failed |
| `Batch.FailingNoRepeats` | notebooks_in_order/check_notebooks_in_order.py:109-111 | walking keys listed once each reports each failing key once |
| `Batch.ReportedIff` | notebooks_in_order/check_notebooks_in_order.py:105-111 | the batch reports exactly the listed notebooks that fail, each once even when its path is listed twice |
| `Batch.StripFailing` | notebooks_in_order/check_notebooks_in_order.py:109-114 | the files with every failing notebook stripped; the set of files is unchanged |
| `Batch.StrippedIff` | notebooks_in_order/check_notebooks_in_order.py:109-114 | strip-on-fail strips exactly the listed failing notebooks; every other file, passing notebooks included, is unchanged |
| `Batch.AfterReport` | notebooks_in_order/check_notebooks_in_order.py:109-114 | the files after the loop has visited a prefix of the keys; no file is created or removed |
| `Batch.AfterReportAt` | notebooks_in_order/check_notebooks_in_order.py:109-114 | after the reporting loop, a file is stripped iff it was visited, failed, and strip-on-fail is set |
| `Batch.StripFailingByKeys` | notebooks_in_order/check_notebooks_in_order.py:109-114 | walking the dict's keys strips exactly the failing files |
| `Batch.AllValuesTrue` | notebooks_in_order/check_notebooks_in_order.py:117 | `all(check_results.values())` holds iff every entry is true |
| `Batch.NotebookStore.CheckExecutionOrder` | notebooks_in_order/check_notebooks_in_order.py:6-18 | a missing path is a read error; otherwise the result is the verdict on that file's cells |
| `Batch.NotebookStore.StripOutput` | notebooks_in_order/check_notebooks_in_order.py:72-90 | the file is rewritten with its cells stripped and no other file changes; a missing path is a read error and changes nothing |
| `Batch.NotebookStore.CheckEach` | notebooks_in_order/check_notebooks_in_order.py:105-107 | the first missing path is the error; otherwise the dict maps each listed path to its verdict, with keys in first-occurrence order |
| `Batch.NotebookStore.ReportFailures` | notebooks_in_order/check_notebooks_in_order.py:109-114 | the failing keys are reported in order, and with strip-on-fail each of them is stripped |
| `Batch.NotebookStore.CheckAllNotebooks` | notebooks_in_order/check_notebooks_in_order.py:93-117 | true iff every listed notebook passes (so an empty list passes); exactly the failing notebooks are reported and, with strip-on-fail, stripped, and the rest are untouched; a missing file aborts before anything is written |
| `Batch.QualifyingCounts` | notebooks_in_order/check_notebooks_in_order.py:15-18 | one or two non-empty code cells yield their own counts, in order |
| `Batch.PassesOne` | notebooks_in_order/check_notebooks_in_order.py:58-69 | a notebook of one executed non-empty code cell passes iff its count is 1 |
| `Batch.PassesTwo` | notebooks_in_order/check_notebooks_in_order.py:58-69 | a notebook of two executed non-empty code cells passes iff their counts are 1 then 2, so `[2, 1]` fails |
| `Batch.StripOnlyFailing` | notebooks_in_order/check_notebooks_in_order.py:109-114 | when exactly one checked notebook failed, strip-on-fail rewrites that file alone |
| `Batch.EndToEnd` | notebooks_in_order/check_notebooks_in_order.py:93-117 | with two passing notebooks and one failing one, the batch fails, only the failing one is reported, and only it is stripped |
| `Batch.Scenario` | notebooks_in_order/check_notebooks_in_order.py:93-117 | notebooks run as `[1]` and `[1, 2]` pass and one run as `[2, 1]` fails: the batch fails, reports the third path alone, and strip-on-fail clears only its outputs |

## Left out

- Reading and writing notebook files (`nbf.read`, `nbf.write`, lines 12, 82 and 90), including JSON parsing and serialisation. They become a lookup in, and an update of, the `files` map. The only read error modelled is a missing file; malformed files are not modelled.
- The console output at lines 111 and 113 becomes the list of reported paths; the wording is not modelled.
- `main`, `argparse` and `sys.exit` (lines 120-137) are command-line plumbing.
- Notebook format 3 (cells nested inside worksheets) is not modelled: a notebook is one flat list of cells.
- Cells are values: two list entries that are the same Python object (aliasing) are not modelled.
- Batch.NotebookStore.StripOutput: a failure while writing the file, and the atomicity of the rewrite, are not modelled, because the writer is outside the model.

/**
 * The batch runner `check_all_notebooks` and the file-level entry points
 * (notebooks_in_order/check_notebooks_in_order.py, lines 6-18, 72-117).
 * The files on disk are a map from path to the notebook's cells; reading
 * is a lookup and writing an update of that map.
 */
module Batch {
  import opened Wrappers
  import opened Notebook
  import opened ExecutionOrder
  import opened Strip

  type Path = string

  /** Reading a path that holds no notebook fails; the source lets the reader's exception propagate. */
  datatype IoError = NotFound(path: Path)

  /** The batch runner's verdict on one notebook: all three sub-checks requested. */
  predicate Passes(cells: seq<Cell>) {
    Verdict(ExecutionCounts(cells), DefaultFlags)
  }

  /** The paths of a list, each once, in the order of first occurrence (the keys of a dict built from it). */
  function Distinct(paths: seq<Path>): (keys: seq<Path>)
    ensures forall p :: p in keys <==> p in paths
    ensures forall a, b | 0 <= a < b < |keys| :: keys[a] != keys[b]
  {
    if paths == [] then []
    else
      var init, last := paths[..|paths| - 1], paths[|paths| - 1];
      var keys := Distinct(init);
      assert forall p :: p in paths <==> p in init || p == last;
      if last in init then keys else keys + [last]
  }

  /** The dict `check_results`: every listed path mapped to its notebook's verdict. */
  function CheckResults(files: map<Path, seq<Cell>>, filenames: seq<Path>): (results: map<Path, bool>)
    requires forall p | p in filenames :: p in files
    ensures forall p :: p in results <==> p in filenames
    ensures forall p | p in results :: results[p] <==> Passes(files[p])
  {
    map p | p in filenames :: Passes(files[p])
  }

  /** Checking one more path adds (or overwrites) that path's entry. */
  lemma CheckResultsSnoc(files: map<Path, seq<Cell>>, filenames: seq<Path>, f: Path)
    requires forall p | p in filenames :: p in files
    requires f in files
    ensures CheckResults(files, filenames + [f]) == CheckResults(files, filenames)[f := Passes(files[f])]
  {
    assert forall p :: p in filenames + [f] <==> p in filenames || p == f;
  }

  /** The paths among `paths` whose check failed, in order. */
  function Failing(results: map<Path, bool>, paths: seq<Path>): (failed: seq<Path>)
    requires forall p | p in paths :: p in results
    ensures |failed| <= |paths|
  {
    if paths == [] then []
    else
      var init, last := paths[..|paths| - 1], paths[|paths| - 1];
      Failing(results, init) + (if results[last] then [] else [last])
  }

  /** The failing paths are exactly the listed paths whose check failed. */
  lemma {:induction false} FailingIff(results: map<Path, bool>, paths: seq<Path>)
    requires forall p | p in paths :: p in results
    ensures forall p :: p in Failing(results, paths) <==> p in paths && !results[p]
    decreases |paths|
  {
    if paths != [] {
      var init, last := paths[..|paths| - 1], paths[|paths| - 1];
      assert forall p :: p in paths <==> p in init || p == last;
      FailingIff(results, init);
    }
  }

  /** Failing paths are reported once each when the paths are listed once each. */
  lemma {:induction false} FailingNoRepeats(results: map<Path, bool>, paths: seq<Path>)
    requires forall p | p in paths :: p in results
    requires forall a, b | 0 <= a < b < |paths| :: paths[a] != paths[b]
    ensures forall a, b | 0 <= a < b < |Failing(results, paths)| ::
      Failing(results, paths)[a] != Failing(results, paths)[b]
    decreases |paths|
  {
    if paths != [] {
      var init, last := paths[..|paths| - 1], paths[|paths| - 1];
      FailingNoRepeats(results, init);
      FailingIff(results, init);
      assert forall k | 0 <= k < |init| :: init[k] == paths[k] && paths[k] != last;
    }
  }

  /** The files once every notebook whose check failed has been stripped. */
  function StripFailing(files: map<Path, seq<Cell>>, results: map<Path, bool>): (after: map<Path, seq<Cell>>)
    ensures after.Keys == files.Keys
  {
    map p | p in files :: if p in results && !results[p] then StripAll(files[p]) else files[p]
  }

  /**
   * What the batch runner reports: each listed notebook that fails, once,
   * and no other.
   */
  lemma ReportedIff(files: map<Path, seq<Cell>>, filenames: seq<Path>)
    requires forall p | p in filenames :: p in files
    ensures forall p :: p in Failing(CheckResults(files, filenames), Distinct(filenames))
                    <==> p in filenames && !Passes(files[p])
    ensures var reported := Failing(CheckResults(files, filenames), Distinct(filenames));
      forall a, b | 0 <= a < b < |reported| :: reported[a] != reported[b]
  {
    FailingIff(CheckResults(files, filenames), Distinct(filenames));
    FailingNoRepeats(CheckResults(files, filenames), Distinct(filenames));
  }

  /**
   * What strip-on-fail leaves on disk: each listed notebook that fails is
   * stripped, and every other file, passing notebooks included, is as it was.
   */
  lemma StrippedIff(files: map<Path, seq<Cell>>, filenames: seq<Path>, p: Path)
    requires forall q | q in filenames :: q in files
    requires p in files
    ensures StripFailing(files, CheckResults(files, filenames)).Keys == files.Keys
    ensures StripFailing(files, CheckResults(files, filenames))[p]
         == if p in filenames && !Passes(files[p]) then StripAll(files[p]) else files[p]
  {
  }

  /**
   * The files after the reporting loop has visited `done`: each visited
   * path whose check failed is stripped when `stripOnFail` is set.
   */
  function AfterReport(before: map<Path, seq<Cell>>, results: map<Path, bool>, done: seq<Path>,
                       stripOnFail: bool): (after: map<Path, seq<Cell>>)
    requires forall p | p in done :: p in results && p in before
    ensures after.Keys == before.Keys
  {
    if done == [] then before
    else
      var prev, last := AfterReport(before, results, done[..|done| - 1], stripOnFail), done[|done| - 1];
      if stripOnFail && !results[last] then prev[last := StripAll(prev[last])] else prev
  }

  /**
   * The reporting loop's effect on one file: it is stripped when it was
   * visited, failed and `stripOnFail` is set (a second visit strips
   * nothing more), and left alone otherwise.
   */
  lemma {:induction false} AfterReportAt(before: map<Path, seq<Cell>>, results: map<Path, bool>, done: seq<Path>,
                                         stripOnFail: bool, p: Path)
    requires forall q | q in done :: q in results && q in before
    requires p in before
    ensures AfterReport(before, results, done, stripOnFail)[p]
         == if stripOnFail && p in done && !results[p] then StripAll(before[p]) else before[p]
    decreases |done|
  {
    if done != [] {
      var init, last := done[..|done| - 1], done[|done| - 1];
      assert forall q :: q in done <==> q in init || q == last;
      AfterReportAt(before, results, init, stripOnFail, p);
      StripAllStripped(before[p]);
    }
  }

  class NotebookStore {
    var files: map<Path, seq<Cell>>

    constructor (files: map<Path, seq<Cell>>)
      ensures this.files == files
    {
      this.files := files;
    }

    /**
     * `check_execution_order` on a path: read the notebook, then validate
     * it; a path that holds no notebook is an error.
     */
    method CheckExecutionOrder(path: Path, flags: Flags) returns (r: Result<bool, IoError>)
      ensures path !in files ==> r == Failure(NotFound(path))
      ensures path in files ==> r == Success(Verdict(ExecutionCounts(files[path]), flags))
    {
      if path !in files {
        return Failure(NotFound(path));
      }
      var cells := files[path];
      var pass := ExecutionOrder.CheckExecutionOrder(cells, flags);
      r := Success(pass);
    }

    /**
     * `strip_output` on a path: read the notebook, strip its cells in
     * memory and write it back; no other file changes.
     */
    method StripOutput(path: Path) returns (r: Option<IoError>)
      modifies this
      ensures path !in old(files) ==> r == Some(NotFound(path)) && files == old(files)
      ensures path in old(files) ==> r == None && files == old(files)[path := StripAll(old(files)[path])]
    {
      if path !in files {
        return Some(NotFound(path));
      }
      var cells := files[path];
      var buffer := new Cell[|cells|](i requires 0 <= i < |cells| => cells[i]);
      assert buffer[..] == cells;
      StripCells(buffer);
      files := files[path := buffer[..]];
      r := None;
    }

    /**
     * The dict comprehension of `check_all_notebooks`: read and check every
     * listed notebook, keyed by path in the order of first occurrence; the
     * first path that holds no notebook ends it with an error.
     */
    method CheckEach(filenames: seq<Path>) returns (r: Result<map<Path, bool>, IoError>, keys: seq<Path>)
      ensures r.Failure? <==> exists p | p in filenames :: p !in files
      ensures r.Failure? ==>
        exists k | 0 <= k < |filenames| :: filenames[k] == r.error.path && r.error.path !in files &&
          forall j | 0 <= j < k :: filenames[j] in files
      ensures r.Success? ==>
        keys == Distinct(filenames) &&
        (forall p | p in filenames :: p in files) &&
        r.value == CheckResults(files, filenames)
    {
      var results: map<Path, bool> := map[];
      keys := [];
      for i := 0 to |filenames|
        invariant forall p | p in filenames[..i] :: p in files
        invariant keys == Distinct(filenames[..i])
        invariant results == CheckResults(files, filenames[..i])
      {
        var f := filenames[i];
        assert filenames[..i + 1] == filenames[..i] + [f];
        var check := CheckExecutionOrder(f, DefaultFlags);
        if check.Failure? {
          return Failure(check.error), keys;
        }
        CheckResultsSnoc(files, filenames[..i], f);
        if f !in results {
          keys := keys + [f];
        }
        results := results[f := check.value];
      }
      assert filenames[..|filenames|] == filenames;
      r := Success(results);
    }

    /**
     * The reporting loop of `check_all_notebooks`: walk the checked paths
     * in order, report each failing one and, with `stripOnFail`, strip it.
     */
    method ReportFailures(keys: seq<Path>, results: map<Path, bool>, stripOnFail: bool)
      returns (reported: seq<Path>)
      requires forall p | p in keys :: p in results
      requires forall p | p in results :: p in files
      modifies this
      ensures reported == Failing(results, keys)
      ensures files == AfterReport(old(files), results, keys, stripOnFail)
    {
      reported := [];
      for j := 0 to |keys|
        invariant files == AfterReport(old(files), results, keys[..j], stripOnFail)
        invariant reported == Failing(results, keys[..j])
      {
        var f := keys[j];
        assert keys[..j + 1][..j] == keys[..j];
        if !results[f] {
          reported := reported + [f];
          if stripOnFail {
            var _ := StripOutput(f);
          }
        }
      }
      assert keys[..|keys|] == keys;
    }

    /**
     * `check_all_notebooks`: read and check every listed notebook, then, in
     * the order the paths were first listed, report each failing one and,
     * with `stripOnFail`, strip it. The result is true iff every notebook
     * passed. A path that holds no notebook aborts the run before anything
     * is written.
     */
    method CheckAllNotebooks(filenames: seq<Path>, stripOnFail: bool)
      returns (r: Result<bool, IoError>, reported: seq<Path>)
      modifies this
      ensures r.Failure? <==> exists p | p in filenames :: p !in old(files)
      ensures r.Failure? ==>
        files == old(files) && reported == [] &&
        exists k | 0 <= k < |filenames| :: filenames[k] == r.error.path && r.error.path !in old(files) &&
          forall j | 0 <= j < k :: filenames[j] in old(files)
      ensures r.Success? ==>
        (r.value <==> forall p | p in filenames :: Passes(old(files)[p])) &&
        reported == Failing(CheckResults(old(files), filenames), Distinct(filenames)) &&
        files == if stripOnFail then StripFailing(old(files), CheckResults(old(files), filenames)) else old(files)
    {
      var checked, keys := CheckEach(filenames);
      if checked.Failure? {
        return Failure(checked.error), [];
      }
      var results := checked.value;
      reported := ReportFailures(keys, results, stripOnFail);
      StripFailingByKeys(old(files), results, keys, stripOnFail);
      r := Success(false !in results.Values);
      AllValuesTrue(results);
    }
  }

  /** `all(d.values())` holds exactly when every key maps to true. */
  lemma AllValuesTrue(results: map<Path, bool>)
    ensures (false !in results.Values) <==> forall p | p in results :: results[p]
  {
    forall p | p in results ensures results[p] in results.Values {
    }
  }

  /** Stripping the failing files reached through the dict's keys is stripping every failing file. */
  lemma StripFailingByKeys(before: map<Path, seq<Cell>>, results: map<Path, bool>,
                           keys: seq<Path>, stripOnFail: bool)
    requires forall p :: p in keys <==> p in results
    requires forall p | p in results :: p in before
    ensures AfterReport(before, results, keys, stripOnFail)
         == if stripOnFail then StripFailing(before, results) else before
  {
    var after := AfterReport(before, results, keys, stripOnFail);
    var expected := if stripOnFail then StripFailing(before, results) else before;
    forall p | p in before ensures after[p] == expected[p] {
      AfterReportAt(before, results, keys, stripOnFail, p);
    }
  }

  /** The execution sequences of one- and two-cell notebooks of non-empty code cells. */
  lemma QualifyingCounts(c: Cell, d: Cell)
    requires Qualifies(c) && Qualifies(d)
    ensures ExecutionCounts([c]) == [c.kind.executionCount]
    ensures ExecutionCounts([c, d]) == [c.kind.executionCount, d.kind.executionCount]
  {
    SingleCell(c);
    ExecutionCountsKeep([c], d, []);
  }

  /** A notebook of one executed non-empty code cell passes exactly when that cell ran first. */
  lemma PassesOne(c: Cell, x: int)
    requires Qualifies(c) && c.kind.executionCount == Some(x)
    ensures Passes([c]) <==> x == 1
  {
    QualifyingCounts(c, c);
    DefaultVerdict([Some(x)]);
    assert !AllNone([Some(x)]) by {
      assert Some(x) in [Some(x)];
    }
    assert Ascending(1) == [Some(1)];
    assert [Some(x)] == [Some(1)] <==> x == 1;
  }

  /**
   * A notebook of two executed non-empty code cells passes exactly when
   * they ran as 1 and 2; in particular markers `[2, 1]` fail.
   */
  lemma PassesTwo(c: Cell, d: Cell, x: int, y: int)
    requires Qualifies(c) && c.kind.executionCount == Some(x)
    requires Qualifies(d) && d.kind.executionCount == Some(y)
    ensures Passes([c, d]) <==> x == 1 && y == 2
  {
    QualifyingCounts(c, d);
    DefaultVerdict([Some(x), Some(y)]);
    assert !AllNone([Some(x), Some(y)]) by {
      assert Some(x) in [Some(x), Some(y)];
    }
    assert Ascending(2) == [Some(1), Some(2)];
    assert [Some(x), Some(y)] == [Some(1), Some(2)] <==> x == 1 && y == 2 by {
      if [Some(x), Some(y)] == [Some(1), Some(2)] {
        assert [Some(x), Some(y)][0] == Some(1) && [Some(x), Some(y)][1] == Some(2);
      }
    }
  }

  /** Three different paths are three keys, in the order listed. */
  lemma DistinctThree(a: Path, b: Path, c: Path)
    requires a != b && b != c && a != c
    ensures Distinct([a, b, c]) == [a, b, c]
  {
    assert [a, b, c][..2] == [a, b] && [a, b][..1] == [a] && [a][..0] == [];
    assert Distinct([a]) == [a];
    assert Distinct([a, b]) == [a, b];
  }


  /** The check results of three listed notebooks of which only the third fails. */
  lemma CheckResultsThree(files: map<Path, seq<Cell>>, a: Path, b: Path, c: Path)
    requires a in files && b in files && c in files
    requires Passes(files[a]) && Passes(files[b]) && !Passes(files[c])
    ensures var results := CheckResults(files, [a, b, c]);
      a in results && b in results && c in results && results[a] && results[b] && !results[c] &&
      forall p | p in results && p != c :: results[p]
  {
  }

  /** Of three listed paths where only the third failed its check, only the third is reported. */
  lemma FailingThree(results: map<Path, bool>, a: Path, b: Path, c: Path)
    requires a in results && b in results && c in results
    requires results[a] && results[b] && !results[c]
    ensures Failing(results, [a, b, c]) == [c]
  {
    assert [a, b, c][..2] == [a, b] && [a, b][..1] == [a] && [a][..0] == [];
    assert Failing(results, [a]) == [];
  }

  /** When exactly one checked notebook failed, strip-on-fail rewrites that file alone. */
  lemma StripOnlyFailing(files: map<Path, seq<Cell>>, results: map<Path, bool>, failed: Path)
    requires failed in files && failed in results && !results[failed]
    requires forall p | p in results && p != failed :: results[p]
    ensures StripFailing(files, results) == files[failed := StripAll(files[failed])]
  {
    var stripped, expected := StripFailing(files, results), files[failed := StripAll(files[failed])];
    forall p | p in files ensures stripped[p] == expected[p] {
    }
  }

  /**
   * The end-to-end scenario: of three listed notebooks the first two pass
   * and the third fails; the batch fails, only the third is reported, and
   * stripping touches only the third.  `Scenario` gives contents that
   * behave so.
   */
  lemma EndToEnd(files: map<Path, seq<Cell>>, a: Path, b: Path, c: Path)
    requires a != b && b != c && a != c
    requires a in files && b in files && c in files
    requires Passes(files[a]) && Passes(files[b]) && !Passes(files[c])
    ensures !(forall p | p in [a, b, c] :: Passes(files[p]))
    ensures Failing(CheckResults(files, [a, b, c]), Distinct([a, b, c])) == [c]
    ensures StripFailing(files, CheckResults(files, [a, b, c])) == files[c := StripAll(files[c])]
  {
    DistinctThree(a, b, c);
    var results := CheckResults(files, [a, b, c]);
    CheckResultsThree(files, a, b, c);
    FailingThree(results, a, b, c);
    StripOnlyFailing(files, results, c);
  }

  /** A code cell with a stored output that was run as the `n`-th execution. */
  function Run(n: int): Cell {
    Cell(Code(Some(n)), "x = 1", Some([Output("stream", "ok")]), None, map[])
  }

  /** The same cell with its output cleared. */
  function StrippedRun(n: int): Cell {
    Cell(Code(Some(n)), "x = 1", Some([]), None, map[])
  }

  /**
   * Concrete contents for the end-to-end scenario: notebooks run as `[1]`
   * and `[1, 2]` pass, one run as `[2, 1]` fails; the batch fails, reports
   * the third path alone and strip-on-fail clears only its outputs.
   */
  lemma Scenario(a: Path, b: Path, c: Path)
    requires a != b && b != c && a != c
    ensures var files := map[a := [Run(1)], b := [Run(1), Run(2)], c := [Run(2), Run(1)]];
      !(forall p | p in [a, b, c] :: Passes(files[p])) &&
      Failing(CheckResults(files, [a, b, c]), Distinct([a, b, c])) == [c] &&
      StripFailing(files, CheckResults(files, [a, b, c])) == files[c := [StrippedRun(2), StrippedRun(1)]]
  {
    var files := map[a := [Run(1)], b := [Run(1), Run(2)], c := [Run(2), Run(1)]];
    PassesOne(Run(1), 1);
    PassesTwo(Run(1), Run(2), 1, 2);
    PassesTwo(Run(2), Run(1), 2, 1);
    assert StripAll([Run(2), Run(1)]) == [StrippedRun(2), StrippedRun(1)];
    EndToEnd(files, a, b, c);
  }
}

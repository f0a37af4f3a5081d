/**
 * The execution-order validator `check_execution_order`
 * (notebooks_in_order/check_notebooks_in_order.py, lines 6-69): its three
 * sub-checks, the verdict they combine into, and what each one means.
 */
module ExecutionOrder {
  import opened Wrappers
  import opened Notebook

  /** Which sub-checks the caller requests; the source defaults all three to true. */
  datatype Flags = Flags(checkAllExecuted: bool, checkTopToBottom: bool, checkInOrder: bool)

  const DefaultFlags := Flags(true, true, true)

  /** `_all_none`: no marker of the sequence is set (vacuously true of the empty sequence). */
  predicate AllNone(counts: seq<Option<int>>) {
    forall x | x in counts :: x == None
  }

  /** No marker is set exactly when filtering out the unset ones leaves nothing. */
  lemma {:induction false} AllNoneIffNoneExecuted(counts: seq<Option<int>>)
    ensures AllNone(counts) <==> Executed(counts) == []
    decreases |counts|
  {
    if counts != [] {
      var init, last := counts[..|counts| - 1], counts[|counts| - 1];
      assert counts == init + [last];
      assert forall x :: x in counts <==> x in init || x == last;
      AllNoneIffNoneExecuted(init);
      if last.Some? {
        assert !AllNone(counts) by {
          assert last in counts;
        }
        assert |Executed(counts)| == |Executed(init)| + 1;
      } else {
        assert AllNone(counts) <==> AllNone(init);
        assert Executed(counts) == Executed(init);
      }
    }
  }

  /** `_check_all_executed`: `None` does not occur in the sequence. */
  predicate AllExecuted(counts: seq<Option<int>>)
    ensures AllExecuted(counts) <==> forall i | 0 <= i < |counts| :: counts[i].Some?
  {
    None !in counts
  }

  /** The set markers of the sequence, in order, with the unset ones filtered out. */
  function Executed(counts: seq<Option<int>>): (xs: seq<int>)
    ensures |xs| <= |counts|
  {
    if counts == [] then []
    else
      var last := counts[|counts| - 1];
      Executed(counts[..|counts| - 1]) + (if last.Some? then [last.value] else [])
  }

  /** The list `[1, 2, ..., n]`. */
  function Iota(n: nat): seq<int> {
    if n == 0 then [] else Iota(n - 1) + [n]
  }

  /** `_check_in_order`: the set markers are exactly `[1, 2, ..., N]`, N being how many there are. */
  predicate InOrder(counts: seq<Option<int>>) {
    Iota(|Executed(counts)|) == Executed(counts)
  }

  /** The sequence of a notebook run once from top to bottom: `[Some(1), ..., Some(n)]`. */
  function Ascending(n: nat): seq<Option<int>> {
    if n == 0 then [] else Ascending(n - 1) + [Some(n)]
  }

  /**
   * The verdict `check_execution_order` returns: a pass when no marker is
   * set, otherwise the conjunction of the sub-checks the flags request,
   * the top-to-bottom check being all-executed and in-order together.
   */
  function Verdict(counts: seq<Option<int>>, flags: Flags): (pass: bool)
    ensures AllNone(counts) ==> pass
    ensures !flags.checkAllExecuted && !flags.checkTopToBottom && !flags.checkInOrder ==> pass
  {
    AllNone(counts) ||
    ((flags.checkInOrder ==> InOrder(counts)) &&
     (flags.checkAllExecuted ==> AllExecuted(counts)) &&
     (flags.checkTopToBottom ==> AllExecuted(counts) && InOrder(counts)))
  }

  /** `all(...)` over a list of booleans. */
  function AllTrue(checks: seq<bool>): (all: bool)
    ensures all <==> forall i | 0 <= i < |checks| :: checks[i]
  {
    false !in checks
  }

  /**
   * `check_execution_order` on a notebook's cells: extract the execution
   * sequence, pass early when no marker is set, otherwise append the
   * requested sub-results to a list seeded with `true` and AND them.
   */
  method CheckExecutionOrder(cells: seq<Cell>, flags: Flags) returns (pass: bool)
    ensures pass == Verdict(ExecutionCounts(cells), flags)
  {
    var counts := ExecutionCounts(cells);
    if AllNone(counts) {
      return true;
    }
    var passCheck := [true];
    if flags.checkInOrder {
      passCheck := passCheck + [InOrder(counts)];
    }
    if flags.checkAllExecuted {
      passCheck := passCheck + [AllExecuted(counts)];
    }
    if flags.checkTopToBottom {
      passCheck := passCheck + [AllExecuted(counts) && InOrder(counts)];
    }
    pass := AllTrue(passCheck);
  }

  // ---------------------------------------------------------------------
  // What the in-order check means

  /**
   * Each set marker equals its rank among the set markers: one plus the
   * number of set markers before it.
   */
  predicate Ranked(counts: seq<Option<int>>) {
    forall j | 0 <= j < |counts| && counts[j].Some? :: counts[j].value == |Executed(counts[..j])| + 1
  }

  /** `Ascending(n)` holds the markers 1 to n, each at its own position. */
  lemma {:induction false} AscendingAt(n: nat)
    ensures |Ascending(n)| == n
    ensures forall j | 0 <= j < n :: Ascending(n)[j] == Some(j + 1)
  {
    if n > 0 {
      AscendingAt(n - 1);
    }
  }

  /** Dropping the last marker keeps the ranks of all the earlier ones. */
  lemma RankedSnoc(counts: seq<Option<int>>)
    requires counts != []
    ensures var t, x := counts[..|counts| - 1], counts[|counts| - 1];
            Ranked(counts) <==> Ranked(t) && (x.Some? ==> x.value == |Executed(t)| + 1)
  {
    var t := counts[..|counts| - 1];
    forall j | 0 <= j < |t|
      ensures counts[..j] == t[..j] && counts[j] == t[j]
    {
    }
  }

  /**
   * The in-order check holds exactly when every set marker equals its rank
   * among the set markers, however many unset markers are interleaved.
   */
  lemma {:induction false} InOrderIffRanked(counts: seq<Option<int>>)
    ensures InOrder(counts) <==> Ranked(counts)
    decreases |counts|
  {
    if counts != [] {
      var t, x := counts[..|counts| - 1], counts[|counts| - 1];
      InOrderIffRanked(t);
      RankedSnoc(counts);
      var e := Executed(t);
      if x.Some? {
        assert Executed(counts) == e + [x.value];
        if InOrder(counts) {
          assert Iota(|e|) + [|e| + 1] == e + [x.value];
          assert Iota(|e|) == (Iota(|e|) + [|e| + 1])[..|e|];
          assert e == (e + [x.value])[..|e|];
        }
      } else {
        assert Executed(counts) == e;
      }
    }
  }

  /** When every marker is set, filtering keeps them all: their values, in order. */
  lemma {:induction false} ExecutedAllSet(counts: seq<Option<int>>)
    requires AllExecuted(counts)
    ensures Executed(counts) == seq(|counts|, i requires 0 <= i < |counts| => counts[i].value)
    decreases |counts|
  {
    if counts != [] {
      var init := counts[..|counts| - 1];
      ExecutedAllSet(init);
    }
  }

  /**
   * The top-to-bottom check (all executed and in order) holds exactly when
   * the sequence is `[Some(1), ..., Some(N)]`.
   */
  lemma TopToBottomIffAscending(counts: seq<Option<int>>)
    ensures AllExecuted(counts) && InOrder(counts) <==> counts == Ascending(|counts|)
  {
    InOrderIffRanked(counts);
    AscendingAt(|counts|);
    assert counts == Ascending(|counts|) <==> Numbered(counts);
    if Numbered(counts) {
      assert AllExecuted(counts);
    }
    if AllExecuted(counts) {
      RankedIffNumbered(counts);
    }
  }

  /** Every marker is set and equals one plus its position. */
  predicate Numbered(counts: seq<Option<int>>) {
    forall j | 0 <= j < |counts| :: counts[j] == Some(j + 1)
  }

  /** With every marker set, a marker's rank is its position plus one. */
  lemma RankedIffNumbered(counts: seq<Option<int>>)
    requires AllExecuted(counts)
    ensures Ranked(counts) <==> Numbered(counts)
  {
    forall j | 0 <= j < |counts|
      ensures |Executed(counts[..j])| == j
    {
      ExecutedAllSet(counts[..j]);
    }
  }

  // ---------------------------------------------------------------------
  // The verdict

  /**
   * A notebook none of whose cells qualifies (no code cell, or only empty
   * ones) passes whatever the flags.
   */
  lemma NoQualifyingCellsPass(cells: seq<Cell>, flags: Flags)
    requires forall i | 0 <= i < |cells| :: !Qualifies(cells[i])
    ensures Verdict(ExecutionCounts(cells), flags)
  {
    NoQualifyingCells(cells);
  }

  /**
   * With the default flags (the batch runner's call) a notebook passes
   * exactly when no marker is set or it reads `[Some(1), ..., Some(N)]`.
   */
  lemma DefaultVerdict(counts: seq<Option<int>>)
    ensures Verdict(counts, DefaultFlags) <==> AllNone(counts) || counts == Ascending(|counts|)
  {
    TopToBottomIffAscending(counts);
  }

  /**
   * A flag that is not set never affects the result: requesting fewer
   * sub-checks can only turn a failure into a pass, and the top-to-bottom
   * check alone decides as much as all three together.
   */
  lemma VerdictFlags(counts: seq<Option<int>>, fewer: Flags, more: Flags)
    requires fewer.checkAllExecuted ==> more.checkAllExecuted
    requires fewer.checkTopToBottom ==> more.checkTopToBottom
    requires fewer.checkInOrder ==> more.checkInOrder
    ensures Verdict(counts, more) ==> Verdict(counts, fewer)
    ensures more.checkTopToBottom ==> Verdict(counts, more) == Verdict(counts, DefaultFlags)
  {
  }

  /**
   * Sample sequences: `[1, 3, 2]`, `[1, 1]`, `[2, 3]`
   * and `[2, 1, 3]` are out of order; `[1, unset, 2]` is in order but not
   * all executed; `[1, 2, 3]` passes every check.
   */
  lemma {:induction false} Examples()
    ensures !InOrder([Some(1), Some(3), Some(2)])
    ensures !InOrder([Some(1), Some(1)])
    ensures !InOrder([Some(2), Some(3)])
    ensures !InOrder([Some(2), Some(1), Some(3)]) && AllExecuted([Some(2), Some(1), Some(3)])
    ensures InOrder([Some(1), None, Some(2)]) && !AllExecuted([Some(1), None, Some(2)])
    ensures Verdict([Some(1), Some(2), Some(3)], DefaultFlags)
    ensures !Verdict([Some(2), Some(1)], DefaultFlags)
  {
    InOrderIffRanked([Some(1), Some(3), Some(2)]);
    InOrderIffRanked([Some(1), Some(1)]);
    InOrderIffRanked([Some(2), Some(3)]);
    InOrderIffRanked([Some(2), Some(1), Some(3)]);
    InOrderIffRanked([Some(1), None, Some(2)]);
    DefaultVerdict([Some(1), Some(2), Some(3)]);
    DefaultVerdict([Some(2), Some(1)]);
    assert [Some(2), Some(1)][0] != Ascending(2)[0];
    assert Some(2) in [Some(2), Some(1)];
  }
}

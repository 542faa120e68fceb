/**
 * The two prune subcommands. `PruneTriplets` discovers the leaf partitions of
 * monthly_network_triplets, drops the empty ones and the ones older than the
 * retention cutoff, and checks that the parents lost exactly the rows it
 * counted. `PruneClassificationState` rebuilds classification_state with the
 * same number of shards, keeping only rows inside the retention window whose
 * condition is still configured.
 */
module Prune {
  import opened Wrappers
  import opened Dates
  import opened Inventory
  import opened Pruner
  import opened Classification
  import opened Database

  datatype CommandError =
    | CutoffOutOfRange(year: int)
    | PartitionCheckFailed(cause: PruneError)
    | RowConservationViolated(rowsBefore: nat, rowsAfter: nat, rowsPruned: nat)

  datatype TripletsReport = TripletsReport(
    cutoff: Date,
    rowsBefore: map<string, nat>,
    rowsAfter: map<string, nat>,
    totalRowsPruned: nat)

  datatype ClassificationReport = ClassificationReport(
    cutoff: Date,
    rowsBefore: nat,
    rowsOutOfWindow: nat,
    rowsWithoutCondition: nat,
    numShards: nat,
    rowsAfter: nat,
    rowsPruned: nat)

  /** `sum(counts.values())` for a dict whose keys are the given tables. */
  function SumCounts(counts: map<string, nat>, keys: seq<string>): (n: nat)
    ensures forall i :: 0 <= i < |keys| && keys[i] in counts ==> counts[keys[i]] <= n
  {
    assert forall i :: 0 < i < |keys| ==> keys[i] == keys[1..][i - 1];
    if keys == [] then 0 else (if keys[0] in counts then counts[keys[0]] else 0) + SumCounts(counts, keys[1..])
  }

  /** `total_partitions`: the country children, then the children of every per-operator partition. */
  method DiscoverLeaves(db: Connection) returns (leaves: seq<string>)
    ensures leaves == Leaves(db.catalog)
    ensures forall t :: t in leaves <==>
      t in Children(db.catalog, CountryParent)
      || exists op :: op in Children(db.catalog, OperatorParent) && t in Children(db.catalog, op)
  {
    var country := db.ChildTableNames(CountryParent);
    var operators := db.ChildTableNames(OperatorParent);
    var operatorMonthly: seq<string> := [];
    for i := 0 to |operators|
      invariant operatorMonthly == OperatorLeaves(db.catalog, operators[..i])
    {
      var monthly := db.ChildTableNames(operators[i]);
      assert operators[..i + 1][..i] == operators[..i];
      operatorMonthly := operatorMonthly + monthly;
    }
    assert operators[..|operators|] == operators;
    leaves := country + operatorMonthly;
    forall t ensures t in leaves <==>
      t in Children(db.catalog, CountryParent)
      || exists op :: op in Children(db.catalog, OperatorParent) && t in Children(db.catalog, op)
    {
      LeavesMembership(db.catalog, t);
    }
  }

  /** `rows_before` / `rows_after`: COUNT(*) of each parent table, keyed by name. */
  method CountParents(db: Connection) returns (counts: map<string, nat>)
    ensures counts.Keys == {CountryParent, OperatorParent}
    ensures forall p :: p in counts ==> counts[p] == ParentRowCount(db.Triplets(), p)
    ensures SumCounts(counts, ParentTables) == TotalRows(db.Triplets())
  {
    counts := map[];
    for i := 0 to |ParentTables|
      invariant counts.Keys == set j | 0 <= j < i :: ParentTables[j]
      invariant forall p :: p in counts ==> counts[p] == ParentRowCount(db.Triplets(), p)
    {
      var n := db.CountParentRows(ParentTables[i]);
      counts := counts[ParentTables[i] := n];
    }
    ParentCountsSum(db.Triplets(), counts);
  }

  lemma ParentCountsSum(s: TripletStore, counts: map<string, nat>)
    requires counts.Keys == set j | 0 <= j < |ParentTables| :: ParentTables[j]
    requires forall p :: p in counts ==> counts[p] == ParentRowCount(s, p)
    ensures counts.Keys == {CountryParent, OperatorParent}
    ensures SumCounts(counts, ParentTables) == TotalRows(s)
  {
    assert ParentTables[0] == CountryParent && ParentTables[1] == OperatorParent;
    assert CountryParent in counts && OperatorParent in counts;
    assert ParentTables[1..] == [OperatorParent] && ParentTables[1..][1..] == [];
    assert SumCounts(counts, ParentTables[1..]) == counts[OperatorParent];
    ParentCountsCoverLeaves(s);
  }

  /**
   * `dirbs-prune triplets`. The database ends as the pruning pass over the
   * discovered leaves leaves it, whether the pass finishes or aborts; on
   * success the parents lost exactly `total_rows_pruned` rows, and on a
   * well-formed hierarchy that check never fails.
   */
  method PruneTriplets(db: Connection, currDate: Date, monthsRetention: nat) returns (r: Result<TripletsReport, CommandError>)
    requires ValidDate(currDate)
    modifies db
    ensures db.classification == old(db.classification)
    ensures RetentionCutoff(currDate, monthsRetention).Failure? ==>
      r == Failure(CutoffOutOfRange(RetentionCutoff(currDate, monthsRetention).error.year))
      && db.Triplets() == old(db.Triplets())
    ensures RetentionCutoff(currDate, monthsRetention).Success? ==>
      var cutoff := RetentionCutoff(currDate, monthsRetention).value;
      var run := PruneAll(old(db.Triplets()), cutoff);
      && db.Triplets() == run.store
      && (run.Aborted? ==> r == Failure(PartitionCheckFailed(run.error)))
      && (run.Finished? ==> r.Success? || r.error.RowConservationViolated?)
      && (r.Success? ==> run.Finished? && r.value.cutoff == cutoff && r.value.totalRowsPruned == run.pruned)
    ensures r.Success? ==>
      && r.value.rowsBefore.Keys == r.value.rowsAfter.Keys == {CountryParent, OperatorParent}
      && (forall p :: p in r.value.rowsBefore ==> r.value.rowsBefore[p] == ParentRowCount(old(db.Triplets()), p))
      && (forall p :: p in r.value.rowsAfter ==> r.value.rowsAfter[p] == ParentRowCount(db.Triplets(), p))
      && SumCounts(r.value.rowsBefore, ParentTables) - SumCounts(r.value.rowsAfter, ParentTables) == r.value.totalRowsPruned
    ensures WellFormed(old(db.Triplets())) ==>
      !(r.Failure? && (r.error.RowConservationViolated? || (r.error.PartitionCheckFailed? && r.error.cause.MissingTable?)))
  {
    var cutoffResult := RetentionCutoff(currDate, monthsRetention);
    if cutoffResult.Failure? {
      return Failure(CutoffOutOfRange(cutoffResult.error.year));
    }
    var cutoff := cutoffResult.value;
    ghost var s0 := db.Triplets();

    var leaves := DiscoverLeaves(db);
    var rowsBefore := CountParents(db);
    if WellFormed(s0) && PruneAll(s0, cutoff).Aborted? {
      AbortedRunStopsAtOffendingLeaf(Leaves(s0.catalog), s0, cutoff, 0);
    }

    var run := PruneLeavesInOrder(db, leaves, cutoff);
    if run.Failure? {
      return Failure(PartitionCheckFailed(run.error));
    }
    var total := run.value;

    var rowsAfter := CountParents(db);
    var before: int := SumCounts(rowsBefore, ParentTables);
    var after: int := SumCounts(rowsAfter, ParentTables);
    if WellFormed(s0) {
      PruneConservesRows(Leaves(s0.catalog), s0, cutoff, 0);
    }
    if before - after != total {
      return Failure(RowConservationViolated(before, after, total));
    }
    r := Success(TripletsReport(cutoff, rowsBefore, rowsAfter, total));
  }

  /**
   * The body of the loop over `total_partitions` for one leaf: read its
   * distinct (month, year) pairs, then drop it if it is empty, or count its rows
   * and drop it if its month is older than the cutoff.
   */
  method PruneLeaf(db: Connection, t: string, cutoff: Date, total: nat) returns (r: Result<nat, PruneError>)
    modifies db
    ensures db.classification == old(db.classification)
    ensures t !in old(db.tables) ==> r == Failure(MissingTable(t)) && db.Triplets() == old(db.Triplets())
    ensures t in old(db.tables) ==>
      var d := Decide(old(db.tables)[t], cutoff);
      && (Stops(d) ==> r == Failure(StopError(t, d)) && db.Triplets() == old(db.Triplets()))
      && (!Stops(d) ==> r == Success(TotalAfter(total, d)) && db.Triplets() == AfterLeaf(old(db.Triplets()), t, d))
  {
    var pairs := db.DistinctMonthPairs(t);
    if pairs.Failure? {
      return Failure(MissingTable(t));
    }
    ghost var rows := db.tables[t];
    assert pairs.value == MonthPairs(rows);
    MonthPairsCount(rows);
    if |pairs.value| > 1 {
      return Failure(MultipleMonths(t, |pairs.value|));
    }
    if |pairs.value| == 0 {
      db.DropTable(t);
      return Success(total);
    }
    var p :| p in pairs.value;
    assert p == rows[0];
    var date := Date(p.year, p.month, 1);
    if !ValidDate(date) {
      return Failure(InvalidPartitionDate(t, p.month, p.year));
    }
    if Before(date, cutoff) {
      var n := db.CountPartitionRows(t);
      db.DropTable(t);
      return Success(total + n);
    }
    return Success(total);
  }

  /** The loop over `total_partitions`: it does to the database what the pruning pass over the leaves describes. */
  method PruneLeavesInOrder(db: Connection, leaves: seq<string>, cutoff: Date) returns (r: Result<nat, PruneError>)
    modifies db
    ensures db.classification == old(db.classification)
    ensures var run := PruneLeaves(leaves, old(db.Triplets()), cutoff, 0);
      && db.Triplets() == run.store
      && (run.Finished? <==> r.Success?)
      && (r.Success? ==> r.value == run.pruned)
      && (r.Failure? ==> r.error == run.error)
  {
    ghost var s0 := db.Triplets();
    var total: nat := 0;
    var i := 0;
    while i < |leaves|
      invariant 0 <= i <= |leaves|
      invariant PruneLeaves(leaves[i..], db.Triplets(), cutoff, total) == PruneLeaves(leaves, s0, cutoff, 0)
      invariant db.classification == old(db.classification)
    {
      var t := leaves[i];
      assert leaves[i..][0] == t && leaves[i..][1..] == leaves[i + 1..];
      var step := PruneLeaf(db, t, cutoff, total);
      if step.Failure? {
        return Failure(step.error);
      }
      total := step.value;
      i := i + 1;
    }
    return Success(total);
  }

  /**
   * `dirbs-prune classification_state`: the diagnostics are taken on the old
   * table, then the table is rebuilt with its current shard count, keeping
   * exactly the retained rows.
   */
  method PruneClassificationState(db: Connection, currDate: Date, monthsRetention: nat, labels: seq<string>)
    returns (r: Result<ClassificationReport, CommandError>)
    requires ValidDate(currDate)
    modifies db
    ensures db.Triplets() == old(db.Triplets())
    ensures RetentionCutoff(currDate, monthsRetention).Failure? ==>
      r == Failure(CutoffOutOfRange(RetentionCutoff(currDate, monthsRetention).error.year))
      && db.classification == old(db.classification)
    ensures RetentionCutoff(currDate, monthsRetention).Success? ==>
      var cutoff := RetentionCutoff(currDate, monthsRetention).value;
      var rows := AllRows(old(db.classification));
      && r.Success?
      && db.classification == Rebuild(old(db.classification), cutoff, labels)
      && r.value.cutoff == cutoff
      && r.value.numShards == |old(db.classification).shards| == |db.classification.shards|
      && r.value.rowsBefore == |rows|
      && r.value.rowsOutOfWindow == CountOutOfWindow(rows, cutoff)
      && r.value.rowsWithoutCondition == CountWithoutActivePrefix(rows, labels)
      && r.value.rowsAfter == |FilterRetained(rows, cutoff, labels)|
      && r.value.rowsPruned == CountRemoved(rows, cutoff, labels)
  {
    var cutoffResult := RetentionCutoff(currDate, monthsRetention);
    if cutoffResult.Failure? {
      return Failure(CutoffOutOfRange(cutoffResult.error.year));
    }
    var cutoff := cutoffResult.value;
    ghost var old0 := db.classification;

    var rowsBefore := db.CountClassificationRows();
    var outOfWindow := CountOutOfWindow(AllRows(db.classification), cutoff);
    var withoutCondition := CountWithoutActivePrefix(AllRows(db.classification), labels);

    var numShards := db.NumPhysicalShards();
    db.RepartitionClassificationState(numShards, cutoff, labels);

    var rowsAfter := db.CountClassificationRows();
    RebuildKeepsRetainedRows(old0, cutoff, labels);
    RebuildRemovesRejectedRows(old0, cutoff, labels);
    r := Success(ClassificationReport(cutoff, rowsBefore, outOfWindow, withoutCondition, numShards, rowsAfter,
                                      PrunedRows(rowsBefore, rowsAfter)));
  }

  /** The count the subcommand's final log line prints: `rows_after - rows_before`. */
  function LoggedPrunedRows(rowsBefore: nat, rowsAfter: nat): (logged: int)
    ensures logged == 0 - PrunedRows(rowsBefore, rowsAfter)
    ensures logged < 0 <==> rowsAfter < rowsBefore
  {
    rowsAfter - rowsBefore
  }

  /** The number of rows the rebuild removed. */
  function PrunedRows(rowsBefore: nat, rowsAfter: nat): (pruned: int)
    ensures pruned >= 0 <==> rowsAfter <= rowsBefore
  {
    rowsBefore - rowsAfter
  }

  /** As written, the logged count is the negation of the rows removed: never positive, negative whenever a row goes. */
  lemma LoggedPrunedRowsIsNegated(table: ShardedTable, cutoff: Date, labels: seq<string>)
    ensures var logged := LoggedPrunedRows(RowCount(table), RowCount(Rebuild(table, cutoff, labels)));
      logged == 0 - CountRemoved(AllRows(table), cutoff, labels) as int && logged <= 0
  {
    RebuildRemovesRejectedRows(table, cutoff, labels);
  }

  /** One expired row: the rebuild removes it and the log line reports -1 pruned rows. */
  lemma LoggedPrunedRowsCounterexample()
    ensures var table := ShardedTable([[ClassificationRow("gsma_not_found", Some(Date(2016, 1, 1)))]]);
      var after := Rebuild(table, Date(2017, 6, 1), ["gsma_not_found"]);
      RowCount(table) == 1 && RowCount(after) == 0 && LoggedPrunedRows(RowCount(table), RowCount(after)) == -1
  {
    var row := ClassificationRow("gsma_not_found", Some(Date(2016, 1, 1)));
    var table := ShardedTable([[row]]);
    assert AllRows(table) == [row];
    RebuildKeepsRetainedRows(table, Date(2017, 6, 1), ["gsma_not_found"]);
    assert [row][1..] == [];
  }

  /** Corrected, the count reported is the number of rows the filter rejected, never negative. */
  lemma PrunedRowsCountsRejectedRows(table: ShardedTable, cutoff: Date, labels: seq<string>)
    ensures var pruned := PrunedRows(RowCount(table), RowCount(Rebuild(table, cutoff, labels)));
      pruned == CountRemoved(AllRows(table), cutoff, labels) && pruned >= 0
  {
    RebuildRemovesRejectedRows(table, cutoff, labels);
  }
}

/**
 * The drop/keep decision the triplets subcommand takes for each leaf
 * partition, and the whole pruning pass over the leaf list as a function of
 * the database it starts from. The lemmas state what a pass that finishes or
 * aborts leaves behind.
 */
module Pruner {
  import opened Dates
  import opened Inventory

  /** The first day of the month a single-month partition holds: `datetime.date(year, month, 1)`. */
  function PartitionDate(p: Triplet): Date {
    Date(p.year, p.month, 1)
  }

  /** Every row of the partition carries the same (month, year) pair. */
  predicate SingleMonth(rows: seq<Triplet>) {
    forall i :: 0 <= i < |rows| ==> rows[i] == rows[0]
  }

  datatype Decision =
    | DropEmpty                           // no rows: dropped whatever the cutoff
    | DropExpired(rowCount: nat)          // one month, older than the cutoff: counted, then dropped
    | Keep                                // one month, inside the retention window
    | SpansMonths(pairCount: nat)         // the `len(invariants_list) <= 1` assertion fails
    | InvalidMonth(month: int, year: int) // datetime.date rejects the pair

  /** Why a pruning pass stopped. */
  datatype PruneError =
    | MissingTable(table: string)
    | MultipleMonths(table: string, pairCount: nat)
    | InvalidPartitionDate(table: string, month: int, year: int)

  predicate Drops(d: Decision) {
    d.DropEmpty? || d.DropExpired?
  }

  lemma MonthPairsCount(rows: seq<Triplet>)
    ensures |MonthPairs(rows)| == 0 <==> rows == []
    ensures rows != [] ==> (|MonthPairs(rows)| == 1 <==> SingleMonth(rows))
  {
    if rows != [] {
      var pairs := MonthPairs(rows);
      assert rows[0] in pairs;
      if SingleMonth(rows) {
        assert pairs == {rows[0]};
      } else {
        var i :| 0 <= i < |rows| && rows[i] != rows[0];
        assert rows[i] in pairs - {rows[0]};
        assert |pairs| == |pairs - {rows[0]}| + 1;
      }
    }
  }

  /** The per-leaf decision, from the distinct (month, year) pairs of the leaf's rows. */
  function Decide(rows: seq<Triplet>, cutoff: Date): (d: Decision)
    ensures d == DropEmpty <==> rows == []
    ensures d.SpansMonths? <==> !SingleMonth(rows)
    ensures d.SpansMonths? ==> d.pairCount >= 2
    ensures d.InvalidMonth? <==> rows != [] && SingleMonth(rows) && !ValidDate(PartitionDate(rows[0]))
    ensures d.DropExpired? <==>
      rows != [] && SingleMonth(rows) && ValidDate(PartitionDate(rows[0])) && Before(PartitionDate(rows[0]), cutoff)
    ensures d == Keep <==>
      rows != [] && SingleMonth(rows) && ValidDate(PartitionDate(rows[0])) && !Before(PartitionDate(rows[0]), cutoff)
    ensures d.DropExpired? ==> d.rowCount == |rows|
  {
    MonthPairsCount(rows);
    var pairs := MonthPairs(rows);
    if |pairs| > 1 then SpansMonths(|pairs|)
    else if |pairs| == 0 then DropEmpty
    else
      var p := rows[0];
      if !ValidDate(PartitionDate(p)) then InvalidMonth(p.month, p.year)
      else if Before(PartitionDate(p), cutoff) then DropExpired(|rows|)
      else Keep
  }

  datatype Run =
    | Finished(store: TripletStore, pruned: nat)
    | Aborted(store: TripletStore, error: PruneError)

  predicate Stops(d: Decision) {
    d.SpansMonths? || d.InvalidMonth?
  }

  /** The database after the decision on leaf t has been carried out. */
  function AfterLeaf(s: TripletStore, t: string, d: Decision): TripletStore {
    if Drops(d) then Drop(s, t) else s
  }

  /** `total_rows_pruned` after the decision on one leaf. */
  function TotalAfter(total: nat, d: Decision): nat {
    if d.DropExpired? then total + d.rowCount else total
  }

  /** The error raised for a decision that stops the pass. */
  function StopError(t: string, d: Decision): PruneError
    requires Stops(d)
  {
    if d.SpansMonths? then MultipleMonths(t, d.pairCount) else InvalidPartitionDate(t, d.month, d.year)
  }

  /**
   * The loop over `total_partitions`: leaves are taken in order, each decided on
   * the database as the earlier drops left it; `total` is `total_rows_pruned`.
   * An abort leaves the drops already done in place.
   */
  function PruneLeaves(leaves: seq<string>, s: TripletStore, cutoff: Date, total: nat): (r: Run)
    ensures r.Finished? ==> r.pruned >= total
    ensures r.Aborted? ==> r.error.table in leaves
    decreases |leaves|
  {
    if leaves == [] then Finished(s, total)
    else
      var t := leaves[0];
      if t !in s.tables then Aborted(s, MissingTable(t))
      else
        var d := Decide(s.tables[t], cutoff);
        if Stops(d) then Aborted(s, StopError(t, d))
        else PruneLeaves(leaves[1..], AfterLeaf(s, t, d), cutoff, TotalAfter(total, d))
  }

  /** The pass the triplets subcommand runs: every discovered leaf, starting from zero. */
  function PruneAll(s: TripletStore, cutoff: Date): (r: Run)
    ensures Leaves(s.catalog) == [] ==> r == Finished(s, 0)
    ensures r.Aborted? ==> r.error.table in Leaves(s.catalog)
  {
    PruneLeaves(Leaves(s.catalog), s, cutoff, 0)
  }

  /** The listed tables the decision drops. */
  function DroppedLeaves(leaves: seq<string>, tables: map<string, seq<Triplet>>, cutoff: Date): set<string> {
    set t | t in leaves && t in tables && Drops(Decide(tables[t], cutoff))
  }

  /** Rows held by the listed tables the decision drops as expired. */
  function ExpiredRows(leaves: seq<string>, tables: map<string, seq<Triplet>>, cutoff: Date): nat {
    if leaves == [] then 0
    else
      (if leaves[0] in tables && Decide(tables[leaves[0]], cutoff).DropExpired? then |tables[leaves[0]]| else 0)
      + ExpiredRows(leaves[1..], tables, cutoff)
  }

  /** The leaves still to visit are distinct leaves of a well-formed hierarchy. */
  predicate RunnableFrom(leaves: seq<string>, s: TripletStore) {
    WellFormed(s) && NoDuplicates(leaves) && forall l :: l in leaves ==> l in Leaves(s.catalog)
  }

  lemma RunnableStep(leaves: seq<string>, s: TripletStore)
    requires RunnableFrom(leaves, s) && leaves != []
    ensures leaves[0] in s.tables && leaves[0] !in leaves[1..]
    ensures RunnableFrom(leaves[1..], s)
    ensures RunnableFrom(leaves[1..], Drop(s, leaves[0]))
  {
    NoDuplicatesTail(leaves);
    assert leaves[0] in leaves;
    DropKeepsWellFormed(s, leaves[0]);
  }

  lemma DroppedFrame(names: seq<string>, tables: map<string, seq<Triplet>>, cutoff: Date, t: string)
    requires t !in names
    ensures DroppedLeaves(names, tables - {t}, cutoff) == DroppedLeaves(names, tables, cutoff)
  {
  }

  lemma {:induction false} ExpiredRowsFrame(names: seq<string>, tables: map<string, seq<Triplet>>, cutoff: Date, t: string)
    requires t !in names
    ensures ExpiredRows(names, tables - {t}, cutoff) == ExpiredRows(names, tables, cutoff)
  {
    if names != [] {
      assert names[0] in names;
      assert t !in names[1..] by { assert forall x :: x in names[1..] ==> x in names; }
      ExpiredRowsFrame(names[1..], tables, cutoff, t);
    }
  }

  /** Carrying out one leaf's decision takes out of the hierarchy exactly the rows it adds to the total. */
  lemma TotalRowsAfterLeaf(s: TripletStore, t: string, cutoff: Date, d: Decision)
    requires WellFormed(s) && t in Leaves(s.catalog) && d == Decide(s.tables[t], cutoff)
    ensures TotalRows(AfterLeaf(s, t, d)) + (if d.DropExpired? then d.rowCount else 0) == TotalRows(s)
  {
    if Drops(d) {
      TotalRowsAfterDrop(s, t);
    }
  }

  /** Row conservation: a finished pass removes from the hierarchy exactly the rows it adds to the total. */
  lemma {:induction false} PruneConservesRows(leaves: seq<string>, s: TripletStore, cutoff: Date, total: nat)
    requires RunnableFrom(leaves, s)
    requires PruneLeaves(leaves, s, cutoff, total).Finished?
    ensures TotalRows(s) + total
         == TotalRows(PruneLeaves(leaves, s, cutoff, total).store) + PruneLeaves(leaves, s, cutoff, total).pruned
  {
    if leaves != [] {
      var t := leaves[0];
      RunnableStep(leaves, s);
      var d := Decide(s.tables[t], cutoff);
      var s1, total1 := AfterLeaf(s, t, d), TotalAfter(total, d);
      assert PruneLeaves(leaves, s, cutoff, total) == PruneLeaves(leaves[1..], s1, cutoff, total1);
      TotalRowsAfterLeaf(s, t, cutoff, d);
      PruneConservesRows(leaves[1..], s1, cutoff, total1);
    }
  }

  /** `total_rows_pruned` is the sum of the row counts of the expired leaves the pass drops. */
  lemma {:induction false} PrunedRowsAreExpiredRows(leaves: seq<string>, s: TripletStore, cutoff: Date, total: nat)
    requires RunnableFrom(leaves, s)
    requires PruneLeaves(leaves, s, cutoff, total).Finished?
    ensures PruneLeaves(leaves, s, cutoff, total).pruned == total + ExpiredRows(leaves, s.tables, cutoff)
  {
    if leaves != [] {
      var t := leaves[0];
      RunnableStep(leaves, s);
      var d := Decide(s.tables[t], cutoff);
      PrunedRowsAreExpiredRows(leaves[1..], AfterLeaf(s, t, d), cutoff, TotalAfter(total, d));
      ExpiredRowsFrame(leaves[1..], s.tables, cutoff, t);
    }
  }

  /**
   * A finished pass drops exactly the empty and the expired leaves, keeps every
   * other table with its rows, and leaves the hierarchy well formed.
   */
  lemma {:induction false} FinishedRunDropsExactlyExpired(leaves: seq<string>, s: TripletStore, cutoff: Date, total: nat)
    requires RunnableFrom(leaves, s)
    requires PruneLeaves(leaves, s, cutoff, total).Finished?
    ensures PruneLeaves(leaves, s, cutoff, total).store.tables == s.tables - DroppedLeaves(leaves, s.tables, cutoff)
    ensures WellFormed(PruneLeaves(leaves, s, cutoff, total).store)
  {
    if leaves == [] {
      assert DroppedLeaves(leaves, s.tables, cutoff) == {};
    } else {
      var t, rest := leaves[0], leaves[1..];
      RunnableStep(leaves, s);
      assert leaves == [t] + rest;
      var d := Decide(s.tables[t], cutoff);
      FinishedRunDropsExactlyExpired(rest, AfterLeaf(s, t, d), cutoff, TotalAfter(total, d));
      DroppedFrame(rest, s.tables, cutoff, t);
      if Drops(d) {
        assert DroppedLeaves(leaves, s.tables, cutoff) == {t} + DroppedLeaves(rest, s.tables, cutoff);
      } else {
        assert DroppedLeaves(leaves, s.tables, cutoff) == DroppedLeaves(rest, s.tables, cutoff);
      }
    }
  }

  /** The pass stopped at leaves[k], on that leaf's own rows, with the drops of leaves[..k] done. */
  predicate AbortedAt(leaves: seq<string>, s: TripletStore, cutoff: Date, k: int, r: Run) {
    && 0 <= k < |leaves|
    && r.Aborted? && r.error.table == leaves[k]
    && leaves[k] in s.tables
    && !Drops(Decide(s.tables[leaves[k]], cutoff)) && !Decide(s.tables[leaves[k]], cutoff).Keep?
    && r.store.tables == s.tables - DroppedLeaves(leaves[..k], s.tables, cutoff)
  }

  /** Every leaf from position k on is still present with the rows it had. */
  predicate UntouchedFrom(leaves: seq<string>, s: TripletStore, k: int, s': TripletStore) {
    forall j :: 0 <= k <= j < |leaves| ==>
      leaves[j] in s.tables && leaves[j] in s'.tables && s'.tables[leaves[j]] == s.tables[leaves[j]]
  }

  /**
   * A leaf spanning several months (or holding an impossible date) aborts the
   * pass at that leaf: the leaves before it were dropped or kept as decided,
   * and neither it nor any later leaf was dropped.
   */
  lemma {:induction false} AbortedRunStopsAtOffendingLeaf(leaves: seq<string>, s: TripletStore, cutoff: Date, total: nat)
    requires RunnableFrom(leaves, s)
    requires PruneLeaves(leaves, s, cutoff, total).Aborted?
    ensures !PruneLeaves(leaves, s, cutoff, total).error.MissingTable?
    ensures exists k :: AbortedAt(leaves, s, cutoff, k, PruneLeaves(leaves, s, cutoff, total))
                     && UntouchedFrom(leaves, s, k, PruneLeaves(leaves, s, cutoff, total).store)
  {
    var r := PruneLeaves(leaves, s, cutoff, total);
    var t := leaves[0];
    RunnableStep(leaves, s);
    var d := Decide(s.tables[t], cutoff);
    if Stops(d) {
      assert leaves[..0] == [];
      assert DroppedLeaves(leaves[..0], s.tables, cutoff) == {};
      assert forall j :: 0 <= j < |leaves| ==> leaves[j] in leaves;
      assert AbortedAt(leaves, s, cutoff, 0, r) && UntouchedFrom(leaves, s, 0, r.store);
    } else {
      var s1, total1 := AfterLeaf(s, t, d), TotalAfter(total, d);
      assert r == PruneLeaves(leaves[1..], s1, cutoff, total1);
      AbortedRunStopsAtOffendingLeaf(leaves[1..], s1, cutoff, total1);
      var k :| AbortedAt(leaves[1..], s1, cutoff, k, r) && UntouchedFrom(leaves[1..], s1, k, r.store);
      AbortedAtShift(leaves, s, cutoff, d, k, r);
    }
  }

  /** An abort at position k of the tail, after the head's decision d, is an abort at k + 1 of the whole list. */
  lemma AbortedAtShift(leaves: seq<string>, s: TripletStore, cutoff: Date, d: Decision, k: int, r: Run)
    requires RunnableFrom(leaves, s) && leaves != [] && leaves[0] in s.tables
    requires d == Decide(s.tables[leaves[0]], cutoff) && !Stops(d)
    requires AbortedAt(leaves[1..], AfterLeaf(s, leaves[0], d), cutoff, k, r)
    requires UntouchedFrom(leaves[1..], AfterLeaf(s, leaves[0], d), k, r.store)
    ensures AbortedAt(leaves, s, cutoff, k + 1, r) && UntouchedFrom(leaves, s, k + 1, r.store)
  {
    var t, rest := leaves[0], leaves[1..];
    RunnableStep(leaves, s);
    var s1 := AfterLeaf(s, t, d);
    assert rest[k] in rest;
    assert s1.tables[rest[k]] == s.tables[rest[k]];
    DroppedPrefixShift(leaves, s.tables, cutoff, k);
    forall j | k + 1 <= j < |leaves|
      ensures leaves[j] in s.tables && leaves[j] in r.store.tables && r.store.tables[leaves[j]] == s.tables[leaves[j]]
    {
      assert leaves[j] == rest[j - 1];
      assert rest[j - 1] in rest;
    }
  }

  /** The tables left after the drops of leaves[..k + 1] are those left after the head, then the drops of the tail's first k. */
  lemma DroppedPrefixShift(leaves: seq<string>, tables: map<string, seq<Triplet>>, cutoff: Date, k: nat)
    requires NoDuplicates(leaves) && 0 <= k < |leaves| - 1 && leaves[0] in tables
    ensures var t, d := leaves[0], Decide(tables[leaves[0]], cutoff);
      var tables1 := if Drops(d) then tables - {t} else tables;
      tables - DroppedLeaves(leaves[..k + 1], tables, cutoff) == tables1 - DroppedLeaves(leaves[1..][..k], tables1, cutoff)
  {
    var t, rest := leaves[0], leaves[1..];
    NoDuplicatesTail(leaves);
    assert leaves[..k + 1] == [t] + rest[..k];
    assert t !in rest[..k] by { assert forall x :: x in rest[..k] ==> x in rest; }
    DroppedFrame(rest[..k], tables, cutoff, t);
    if Drops(Decide(tables[t], cutoff)) {
      assert DroppedLeaves(leaves[..k + 1], tables, cutoff) == {t} + DroppedLeaves(rest[..k], tables, cutoff);
    } else {
      assert DroppedLeaves(leaves[..k + 1], tables, cutoff) == DroppedLeaves(rest[..k], tables, cutoff);
    }
  }

  /** A pass over leaves that are all inside the window changes nothing. */
  lemma {:induction false} AllKeptRunChangesNothing(leaves: seq<string>, s: TripletStore, cutoff: Date, total: nat)
    requires forall l :: l in leaves ==> l in s.tables && Decide(s.tables[l], cutoff) == Keep
    ensures PruneLeaves(leaves, s, cutoff, total) == Finished(s, total)
  {
    if leaves != [] {
      assert leaves[0] in leaves;
      assert forall l :: l in leaves[1..] ==> l in leaves;
      AllKeptRunChangesNothing(leaves[1..], s, cutoff, total);
    }
  }

  /** After a finished pass every remaining leaf is one the decision keeps. */
  lemma {:induction false} FinishedRunLeavesOnlyKept(leaves: seq<string>, s: TripletStore, cutoff: Date, total: nat)
    requires RunnableFrom(leaves, s)
    requires forall l :: l in Leaves(s.catalog) && l !in leaves ==> Decide(s.tables[l], cutoff) == Keep
    requires PruneLeaves(leaves, s, cutoff, total).Finished?
    ensures var s' := PruneLeaves(leaves, s, cutoff, total).store;
      forall l :: l in Leaves(s'.catalog) ==> l in s'.tables && Decide(s'.tables[l], cutoff) == Keep
  {
    if leaves != [] {
      var t, rest := leaves[0], leaves[1..];
      RunnableStep(leaves, s);
      var d := Decide(s.tables[t], cutoff);
      var s1 := AfterLeaf(s, t, d);
      if Drops(d) {
        DropKeepsWellFormed(s, t);
      }
      forall l | l in Leaves(s1.catalog) && l !in rest
        ensures Decide(s1.tables[l], cutoff) == Keep
      {
        assert l in Leaves(s.catalog);
      }
      FinishedRunLeavesOnlyKept(rest, s1, cutoff, TotalAfter(total, d));
    }
  }

  /** Idempotence: a second pass over what a finished pass left drops nothing and prunes no rows. */
  lemma PruneIsIdempotent(s: TripletStore, cutoff: Date)
    requires WellFormed(s)
    requires PruneAll(s, cutoff).Finished?
    ensures PruneAll(PruneAll(s, cutoff).store, cutoff) == Finished(PruneAll(s, cutoff).store, 0)
  {
    var s' := PruneAll(s, cutoff).store;
    FinishedRunLeavesOnlyKept(Leaves(s.catalog), s, cutoff, 0);
    AllKeptRunChangesNothing(Leaves(s'.catalog), s', cutoff, 0);
  }
}

/**
 * The classification_state rebuild: which rows survive the filter the
 * classification_state subcommand hands to the repartitioning step, the
 * sharded table it produces, and the two diagnostic counts it logs first.
 *
 * Labels are matched with `LIKE ANY(labels)`; the model treats labels as
 * wildcard-free, so LIKE is string equality. `starts_with_prefix` is a
 * string-prefix test.
 */
module Classification {
  import opened Wrappers
  import opened Dates

  /** The columns of a classification_state row the pruning looks at. */
  datatype ClassificationRow = ClassificationRow(condName: string, endDate: Option<Date>)

  /** classification_state split into its physical IMEI shards. */
  datatype ShardedTable = ShardedTable(shards: seq<seq<ClassificationRow>>)

  /** `end_date > cutoff OR end_date IS NULL`: a NULL end date is still open. */
  predicate InRetentionWindow(row: ClassificationRow, cutoff: Date)
    ensures row.endDate == Some(cutoff) ==> !InRetentionWindow(row, cutoff)
  {
    row.endDate.None? || Before(cutoff, row.endDate.value)
  }

  /** `cond_name LIKE ANY(labels)` for labels without wildcards. */
  predicate MatchesActiveLabel(condName: string, labels: seq<string>)
    ensures MatchesActiveLabel(condName, labels) ==> HasActivePrefix(condName, labels)
  {
    condName in labels
  }

  /** The filter of the rebuild: a row is kept iff both conditions hold. */
  predicate Retained(row: ClassificationRow, cutoff: Date, labels: seq<string>)
    ensures Retained(row, cutoff, labels) ==> !OutOfWindow(row, cutoff) && HasActivePrefix(row.condName, labels)
  {
    InRetentionWindow(row, cutoff) && MatchesActiveLabel(row.condName, labels)
  }

  /** The rows of one shard that the rebuild copies into the new shard. */
  function FilterRetained(rows: seq<ClassificationRow>, cutoff: Date, labels: seq<string>): (r: seq<ClassificationRow>)
    ensures forall x :: multiset(r)[x] == if Retained(x, cutoff, labels) then multiset(rows)[x] else 0
    ensures |r| <= |rows|
  {
    if rows == [] then []
    else
      assert rows == [rows[0]] + rows[1..];
      (if Retained(rows[0], cutoff, labels) then [rows[0]] else []) + FilterRetained(rows[1..], cutoff, labels)
  }

  /**
   * `repartition_classification_state` with the current shard count and the
   * retention filter: the new table has as many shards as the old one, and
   * each new shard holds exactly the retained rows of the old shard.
   */
  function Rebuild(table: ShardedTable, cutoff: Date, labels: seq<string>): (r: ShardedTable)
    ensures |r.shards| == |table.shards|
    ensures forall i, x :: 0 <= i < |table.shards| ==>
      multiset(r.shards[i])[x] == if Retained(x, cutoff, labels) then multiset(table.shards[i])[x] else 0
  {
    ShardedTable(seq(|table.shards|, i requires 0 <= i < |table.shards| => FilterRetained(table.shards[i], cutoff, labels)))
  }

  /** All rows of the table, shard after shard: what `SELECT ... FROM classification_state` ranges over. */
  function AllRows(table: ShardedTable): seq<ClassificationRow> {
    Concat(table.shards)
  }

  function Concat(shards: seq<seq<ClassificationRow>>): seq<ClassificationRow> {
    if shards == [] then [] else Concat(shards[..|shards| - 1]) + shards[|shards| - 1]
  }

  /** `SELECT COUNT(*) FROM classification_state`. */
  function RowCount(table: ShardedTable): nat {
    |AllRows(table)|
  }

  /** `end_date < cutoff`; a NULL end date compares to nothing and is not counted. */
  predicate OutOfWindow(row: ClassificationRow, cutoff: Date)
    ensures OutOfWindow(row, cutoff) ==> !InRetentionWindow(row, cutoff)
  {
    row.endDate.Some? && Before(row.endDate.value, cutoff)
  }

  predicate StartsWith(s: string, prefix: string) {
    |prefix| <= |s| && s[..|prefix|] == prefix
  }

  /** `starts_with_prefix(cond_name, labels)`. */
  predicate HasActivePrefix(condName: string, labels: seq<string>)
    ensures condName in labels ==> HasActivePrefix(condName, labels)
  {
    assert StartsWith(condName, condName);
    exists l :: l in labels && StartsWith(condName, l)
  }

  /** The "outside the retention window" diagnostic. */
  function CountOutOfWindow(rows: seq<ClassificationRow>, cutoff: Date): (n: nat)
    ensures n <= |rows|
    ensures n == 0 <==> forall i :: 0 <= i < |rows| ==> !OutOfWindow(rows[i], cutoff)
  {
    if rows == [] then 0
    else
      assert forall i :: 0 < i < |rows| ==> rows[i] == rows[1..][i - 1];
      (if OutOfWindow(rows[0], cutoff) then 1 else 0) + CountOutOfWindow(rows[1..], cutoff)
  }

  /** The "conditions no longer existing" diagnostic: `NOT starts_with_prefix(cond_name, labels)`. */
  function CountWithoutActivePrefix(rows: seq<ClassificationRow>, labels: seq<string>): (n: nat)
    ensures n <= |rows|
    ensures n == 0 <==> forall i :: 0 <= i < |rows| ==> HasActivePrefix(rows[i].condName, labels)
  {
    if rows == [] then 0
    else
      assert forall i :: 0 < i < |rows| ==> rows[i] == rows[1..][i - 1];
      (if HasActivePrefix(rows[0].condName, labels) then 0 else 1) + CountWithoutActivePrefix(rows[1..], labels)
  }

  /** Rows the filter removes. */
  function CountRemoved(rows: seq<ClassificationRow>, cutoff: Date, labels: seq<string>): nat {
    if rows == [] then 0
    else (if Retained(rows[0], cutoff, labels) then 0 else 1) + CountRemoved(rows[1..], cutoff, labels)
  }

  /** A row whose end date lies before the cutoff is never retained. */
  lemma OutOfWindowRowsAreRemoved(row: ClassificationRow, cutoff: Date, labels: seq<string>)
    requires OutOfWindow(row, cutoff)
    ensures !Retained(row, cutoff, labels)
  {
  }

  /** A row without an active prefix is never retained. */
  lemma RowsWithoutActivePrefixAreRemoved(row: ClassificationRow, cutoff: Date, labels: seq<string>)
    requires !HasActivePrefix(row.condName, labels)
    ensures !Retained(row, cutoff, labels)
  {
  }

  /**
   * Rows ending exactly on the cutoff: the filter (`end_date > cutoff`) removes
   * every one of them, yet the out-of-window diagnostic (`end_date < cutoff`)
   * counts none of them.
   */
  lemma {:induction false} BoundaryRowsRemovedButNotCounted(rows: seq<ClassificationRow>, cutoff: Date, labels: seq<string>)
    requires forall i :: 0 <= i < |rows| ==> rows[i].endDate == Some(cutoff)
    ensures FilterRetained(rows, cutoff, labels) == []
    ensures CountOutOfWindow(rows, cutoff) == 0
    ensures CountRemoved(rows, cutoff, labels) == |rows|
  {
    if rows != [] {
      assert forall i :: 0 <= i < |rows[1..]| ==> rows[1..][i] == rows[i + 1];
      BoundaryRowsRemovedButNotCounted(rows[1..], cutoff, labels);
    }
  }

  /** Filtering distributes over concatenation. */
  lemma {:induction false} FilterRetainedAppend(a: seq<ClassificationRow>, b: seq<ClassificationRow>, cutoff: Date, labels: seq<string>)
    ensures FilterRetained(a + b, cutoff, labels) == FilterRetained(a, cutoff, labels) + FilterRetained(b, cutoff, labels)
  {
    if a == [] {
      assert a + b == b;
    } else {
      assert (a + b)[1..] == a[1..] + b;
      FilterRetainedAppend(a[1..], b, cutoff, labels);
    }
  }

  /** Every row is either kept or counted as removed. */
  lemma {:induction false} KeptPlusRemoved(rows: seq<ClassificationRow>, cutoff: Date, labels: seq<string>)
    ensures |FilterRetained(rows, cutoff, labels)| + CountRemoved(rows, cutoff, labels) == |rows|
  {
    if rows != [] {
      KeptPlusRemoved(rows[1..], cutoff, labels);
    }
  }

  /** Rows that all pass the filter come through unchanged. */
  lemma {:induction false} FilterKeepsRetainedRows(rows: seq<ClassificationRow>, cutoff: Date, labels: seq<string>)
    requires forall i :: 0 <= i < |rows| ==> Retained(rows[i], cutoff, labels)
    ensures FilterRetained(rows, cutoff, labels) == rows
  {
    if rows != [] {
      assert forall i :: 0 <= i < |rows[1..]| ==> rows[1..][i] == rows[i + 1];
      FilterKeepsRetainedRows(rows[1..], cutoff, labels);
    }
  }

  /** Rows that all fail the filter are all dropped. */
  lemma {:induction false} FilterDropsRemovedRows(rows: seq<ClassificationRow>, cutoff: Date, labels: seq<string>)
    requires forall i :: 0 <= i < |rows| ==> !Retained(rows[i], cutoff, labels)
    ensures FilterRetained(rows, cutoff, labels) == []
  {
    if rows != [] {
      assert forall i :: 0 <= i < |rows[1..]| ==> rows[1..][i] == rows[i + 1];
      FilterDropsRemovedRows(rows[1..], cutoff, labels);
    }
  }

  /** Every row the filter outputs passes it. */
  lemma {:induction false} FilterOutputRetained(rows: seq<ClassificationRow>, cutoff: Date, labels: seq<string>)
    ensures forall i :: 0 <= i < |FilterRetained(rows, cutoff, labels)| ==> Retained(FilterRetained(rows, cutoff, labels)[i], cutoff, labels)
  {
    if rows != [] {
      FilterOutputRetained(rows[1..], cutoff, labels);
    }
  }

  /** Rebuilding twice with the same cutoff and labels gives the same table as rebuilding once. */
  lemma RebuildIsIdempotent(table: ShardedTable, cutoff: Date, labels: seq<string>)
    ensures Rebuild(Rebuild(table, cutoff, labels), cutoff, labels) == Rebuild(table, cutoff, labels)
  {
    var once := Rebuild(table, cutoff, labels);
    forall i | 0 <= i < |table.shards|
      ensures FilterRetained(once.shards[i], cutoff, labels) == once.shards[i]
    {
      FilterOutputRetained(table.shards[i], cutoff, labels);
      FilterKeepsRetainedRows(once.shards[i], cutoff, labels);
    }
  }

  /** Concatenating shard-wise filtered shards is filtering the concatenation. */
  lemma {:induction false} ConcatFiltered(shards: seq<seq<ClassificationRow>>, filtered: seq<seq<ClassificationRow>>, cutoff: Date, labels: seq<string>)
    requires |filtered| == |shards|
    requires forall i :: 0 <= i < |shards| ==> filtered[i] == FilterRetained(shards[i], cutoff, labels)
    ensures Concat(filtered) == FilterRetained(Concat(shards), cutoff, labels)
  {
    if shards != [] {
      var n := |shards| - 1;
      ConcatFiltered(shards[..n], filtered[..n], cutoff, labels);
      FilterRetainedAppend(Concat(shards[..n]), shards[n], cutoff, labels);
    }
  }

  /** The rebuilt table holds the retained rows of the whole old table, shard by shard in order. */
  lemma RebuildKeepsRetainedRows(table: ShardedTable, cutoff: Date, labels: seq<string>)
    ensures AllRows(Rebuild(table, cutoff, labels)) == FilterRetained(AllRows(table), cutoff, labels)
  {
    ConcatFiltered(table.shards, Rebuild(table, cutoff, labels).shards, cutoff, labels);
  }

  /** The rows the rebuild takes out are exactly the rows the filter rejects. */
  lemma RebuildRemovesRejectedRows(table: ShardedTable, cutoff: Date, labels: seq<string>)
    ensures RowCount(table) - RowCount(Rebuild(table, cutoff, labels)) == CountRemoved(AllRows(table), cutoff, labels)
  {
    RebuildKeepsRetainedRows(table, cutoff, labels);
    KeptPlusRemoved(AllRows(table), cutoff, labels);
  }
}

# dirbs-prune, modelled in Dafny

This project models the core of the `dirbs-prune` command of DIRBS Core
(`src/dirbs/cli/prune.py`), which removes data older than the configured
retention window from the PostgreSQL database. It has two subcommands:

- `triplets` computes the retention cutoff (the first day of the current month
  minus `months_retention` months). It then walks every leaf partition of
  `monthly_network_triplets_country` and `monthly_network_triplets_per_mno`.
  Each leaf must hold a single (month, year) pair. An empty leaf is dropped.
  A leaf whose month starts before the cutoff is counted and dropped. Finally
  the command checks that the two parent tables lost exactly the counted rows.
- `classification_state` computes the same cutoff. It counts two diagnostics:
  rows with `end_date < cutoff`, and rows whose condition no longer matches an
  active condition prefix. It then rebuilds the table with its current number
  of physical shards, keeping only rows that end after the cutoff (or never
  end) and whose condition is still configured.

Modules:

- `Wrappers`: `Option` and `Result`.
- `Dates`: proleptic Gregorian dates, `date - relativedelta(months=n)` and the
  retention cutoff, with Python's `date` ordering and its year range 1..9999.
- `Inventory`: the partition catalog (parent to children), leaf discovery,
  `DROP TABLE ... CASCADE`, and the parents' `COUNT(*)`.
- `Pruner`: the per-leaf decision and the whole pruning pass as a function of
  the starting database, with its conservation, exactness, abort and
  idempotence lemmas.
- `Classification`: the retention predicate, the shard-wise rebuild and the
  two diagnostic counts.
- `Database`: a `Connection` class whose fields are the catalog, the partition
  contents and the sharded classification table; its methods are the queries
  and DDL statements the command issues.
- `Prune`: the two subcommands as methods over a `Connection`, proved to do to
  the database what the `Pruner` and `Classification` functions describe.
- `Scenarios`: concrete runs (a 2018-06-15 run with twelve months of
  retention, a leaf holding two months, a 1800-row classification table).

The current date is a parameter (the source falls back to `date.today()`), the
retention period and the active condition labels are parameters, and the
database is the `Connection` object.

## Model

| member | source | states |
|---|---|---|
| Dates.SubtractMonths | src/dirbs/cli/prune.py:83-84 | `date - relativedelta(months=n)` succeeds exactly when the result's year is at least 1; the result is a valid date exactly n months earlier, with the day clamped to the new month's length; the failure reports the year below 1 |
| Dates.RetentionCutoff | src/dirbs/cli/prune.py:83-84 | the cutoff exists exactly when the first of the current month minus the retention stays in year 1 or later; it is a valid first of a month, exactly `months_retention` months before the current month (the classification subcommand computes it the same way at lines 166-167) |
| Dates.CutoffWithoutRetention | src/dirbs/cli/prune.py:83-84 | with zero months of retention the cutoff is the first day of the current month |
| Dates.CutoffIsShiftedFirstOfMonth | src/dirbs/cli/prune.py:83-84 | the cutoff is the first day of the (year, month) whose month index is the current one minus the retention |
| Dates.OlderThanCutoffIff | src/dirbs/cli/prune.py:116 | a partition month starts before the cutoff if and only if it lies more than `months_retention` months before the current month |
| Dates.CutoffMonotone | src/dirbs/cli/prune.py:83-84 | a longer retention never gives a later cutoff, and a cutoff that exists for a longer retention exists for a shorter one |
| Dates.CutoffExample | src/dirbs/cli/prune.py:83-84 | 2018-06-15 with twelve months of retention gives 2017-06-01 |
| Dates.BeforeOnFirstDays | src/dirbs/cli/prune.py:116 | on first days of months, date order is month-index order |
| Dates.MonthIndexInjective | src/dirbs/cli/prune.py:116 | a month index determines the year and month |
| Dates.DaysInMonth | src/dirbs/cli/prune.py:83-84 | every month of the Gregorian calendar has 28 to 31 days |
| Inventory.LeavesMembership | src/dirbs/cli/prune.py:88-92 | a table is a discovered leaf if and only if it is a child of the country parent or a child of some per-operator child of the per-MNO parent |
| Inventory.OperatorLeavesMembership | src/dirbs/cli/prune.py:90-92 | the per-operator monthly list holds exactly the children of the listed operator partitions |
| Inventory.ParentsDistinct | src/dirbs/cli/prune.py:94 | the two parent table names are different tables |
| Inventory.Leaves | src/dirbs/cli/prune.py:88-105 | `total_partitions` starts with the country leaves, in catalog order, followed by the per-operator leaves |
| Inventory.MonthPairs | src/dirbs/cli/prune.py:107 | a leaf has no distinct (month, year) pair exactly when it has no rows |
| Inventory.DropFromCatalog | src/dirbs/cli/prune.py:111 | after `DROP TABLE t CASCADE` the catalog has no entry for t, t is in no child list, and every other child list keeps all its other names |
| Inventory.Drop | src/dirbs/cli/prune.py:123 | a drop removes exactly table t and leaves every other table with its rows |
| Inventory.ParentRowCount | src/dirbs/cli/prune.py:98-99 | a parent's `COUNT(*)` never exceeds the rows of the whole hierarchy |
| Inventory.RemoveName | src/dirbs/cli/prune.py:111 | dropping a table takes exactly that name out of a parent's child list and keeps the others |
| Inventory.LeavesAfterDrop | src/dirbs/cli/prune.py:111 | after `DROP TABLE ... CASCADE` of a leaf, the discovered leaves are the old ones without it |
| Inventory.DropKeepsWellFormed | src/dirbs/cli/prune.py:123 | dropping a leaf keeps the hierarchy well formed (distinct leaves, each with a table, none a parent) |
| Inventory.ParentCountsCoverLeaves | src/dirbs/cli/prune.py:94-101 | the two parents' `COUNT(*)` together are the rows of all leaves |
| Inventory.TotalRowsAfterDrop | src/dirbs/cli/prune.py:123 | dropping a leaf removes exactly its rows from the parents' total |
| Inventory.SumRowsAppend | src/dirbs/cli/prune.py:105 | the row count over `country + operator` leaves is the sum of the two counts |
| Inventory.SumRowsRemove | src/dirbs/cli/prune.py:123 | removing a distinct leaf from a list takes exactly its rows out of the list's count |
| Pruner.MonthPairsCount | src/dirbs/cli/prune.py:107-109 | a leaf has no distinct (month, year) pair exactly when it is empty, and exactly one when all its rows share one |
| Pruner.Decide | src/dirbs/cli/prune.py:107-124 | a leaf is dropped as empty iff it has no rows; it stops the pass iff its rows span several months (at least two pairs) or its single pair is not a valid date; it is dropped as expired, with its full row count, iff its month starts before the cutoff; otherwise it is kept |
| Pruner.PruneLeaves | src/dirbs/cli/prune.py:104-124 | the loop over the leaves, each decided on the database the earlier drops left; a finished pass never lowers `total_rows_pruned`, and an aborted one names a table from the list |
| Pruner.PruneAll | src/dirbs/cli/prune.py:104-124 | the pass over every discovered leaf from a zero total; with no leaves it changes nothing, and an abort names a discovered leaf |
| Pruner.TotalRowsAfterLeaf | src/dirbs/cli/prune.py:117-123 | carrying out one leaf's decision removes from the parents exactly the rows it adds to `total_rows_pruned` |
| Pruner.PruneConservesRows | src/dirbs/cli/prune.py:135-138 | a finished pass over distinct leaves of a well-formed hierarchy removes exactly `total_rows_pruned` rows from the parents, so the conservation assertion holds |
| Pruner.PrunedRowsAreExpiredRows | src/dirbs/cli/prune.py:117-120 | `total_rows_pruned` is the sum of the row counts of the leaves dropped as expired; empty leaves add nothing |
| Pruner.FinishedRunDropsExactlyExpired | src/dirbs/cli/prune.py:106-124 | a finished pass leaves exactly the tables whose own decision is to keep them, and the hierarchy stays well formed |
| Pruner.AbortedRunStopsAtOffendingLeaf | src/dirbs/cli/prune.py:107-113 | on a well-formed hierarchy a pass aborts only at a leaf spanning several months or holding an invalid date; the leaves before it were dropped as decided, and that leaf and every later one are untouched |
| Pruner.AbortedAtShift | src/dirbs/cli/prune.py:106 | an abort at position k of the remaining leaves, after a non-stopping leaf, is an abort at position k + 1 of the whole list |
| Pruner.DroppedPrefixShift | src/dirbs/cli/prune.py:106 | the drops of the first k + 1 leaves are the head's drop followed by the tail's first k drops |
| Pruner.AllKeptRunChangesNothing | src/dirbs/cli/prune.py:116 | a pass over leaves that are all inside the window drops nothing and prunes no rows |
| Pruner.FinishedRunLeavesOnlyKept | src/dirbs/cli/prune.py:106-124 | after a finished pass every remaining leaf is one the decision keeps |
| Pruner.PruneIsIdempotent | src/dirbs/cli/prune.py:104-124 | running the triplets pass again on what a finished pass left drops nothing and prunes zero rows |
| Classification.InRetentionWindow | src/dirbs/cli/prune.py:199-200 | `end_date > cutoff OR end_date IS NULL`; a row ending exactly on the cutoff is outside the window |
| Classification.MatchesActiveLabel | src/dirbs/cli/prune.py:201 | `cond_name LIKE ANY(labels)` for wildcard-free labels; a matching name also has an active prefix |
| Classification.Retained | src/dirbs/cli/prune.py:199-201 | the rebuild's filter; a retained row is neither out of window nor without an active prefix |
| Classification.OutOfWindow | src/dirbs/cli/prune.py:182 | `end_date < cutoff` with NULL excluded; such a row is outside the retention window |
| Classification.HasActivePrefix | src/dirbs/cli/prune.py:190 | `starts_with_prefix(cond_name, labels)`; a name equal to an active label has an active prefix |
| Classification.FilterRetained | src/dirbs/cli/prune.py:199-202 | the kept rows are exactly the input rows that end after the cutoff (or never end) and whose condition is configured, with multiplicity, and never more than the input |
| Classification.Rebuild | src/dirbs/cli/prune.py:198-204 | the rebuilt table has the same number of shards, and each shard keeps exactly the retained rows of the old shard |
| Classification.CountOutOfWindow | src/dirbs/cli/prune.py:180-183 | the out-of-window diagnostic is at most the row count and is zero exactly when no row has an end date before the cutoff |
| Classification.CountWithoutActivePrefix | src/dirbs/cli/prune.py:188-191 | the orphaned-condition diagnostic is at most the row count and is zero exactly when every condition starts with an active label |
| Classification.OutOfWindowRowsAreRemoved | src/dirbs/cli/prune.py:180-183 | every row the out-of-window diagnostic counts is removed by the rebuild |
| Classification.RowsWithoutActivePrefixAreRemoved | src/dirbs/cli/prune.py:188-191 | every row the orphaned-condition diagnostic counts is removed by the rebuild |
| Classification.BoundaryRowsRemovedButNotCounted | src/dirbs/cli/prune.py:180-203 | rows ending exactly on the cutoff are all removed by the rebuild, yet the out-of-window diagnostic counts none of them |
| Classification.FilterRetainedAppend | src/dirbs/cli/prune.py:199-202 | filtering is done row by row: filtering a concatenation is concatenating the filtered parts |
| Classification.KeptPlusRemoved | src/dirbs/cli/prune.py:199-202 | kept rows plus removed rows are all the rows |
| Classification.FilterKeepsRetainedRows | src/dirbs/cli/prune.py:199-202 | rows that all pass the predicate are all kept, in order |
| Classification.FilterDropsRemovedRows | src/dirbs/cli/prune.py:199-202 | rows that all fail the predicate are all removed |
| Classification.FilterOutputRetained | src/dirbs/cli/prune.py:199-202 | every row the rebuild keeps passes the predicate |
| Classification.RebuildIsIdempotent | src/dirbs/cli/prune.py:198-204 | rebuilding twice with the same cutoff and labels is rebuilding once |
| Classification.ConcatFiltered | src/dirbs/cli/prune.py:203-204 | concatenating the shard-wise filtered shards is filtering the concatenated table |
| Classification.RebuildKeepsRetainedRows | src/dirbs/cli/prune.py:203-204 | the rows of the rebuilt table are the old table's rows filtered by the retention predicate |
| Classification.RebuildRemovesRejectedRows | src/dirbs/cli/prune.py:207-209 | the rebuilt table's row count is the old count minus the rows the predicate rejects |
| Database.Connection.ChildTableNames | src/dirbs/cli/prune.py:88-92 | the child list of a table in the partition catalog, empty when it has none |
| Database.Connection.CountParentRows | src/dirbs/cli/prune.py:98-99 | `COUNT(*)` on a parent is the row count of all leaves under it |
| Database.Connection.DistinctMonthPairs | src/dirbs/cli/prune.py:107 | the distinct (month, year) pairs of a table's rows; an error when the table does not exist |
| Database.Connection.CountPartitionRows | src/dirbs/cli/prune.py:118-119 | `COUNT(*)` on one leaf is its number of rows |
| Database.Connection.DropTable | src/dirbs/cli/prune.py:111 | `DROP TABLE ... CASCADE` removes the table and its catalog entries and changes nothing else |
| Database.Connection.CountClassificationRows | src/dirbs/cli/prune.py:173-174 | `COUNT(*)` on classification_state is the number of rows over all shards |
| Database.Connection.NumPhysicalShards | src/dirbs/cli/prune.py:198 | the current number of physical shards |
| Database.Connection.RepartitionClassificationState | src/dirbs/cli/prune.py:203-204 | the table becomes the filtered rebuild with the same shard count; partitions are unchanged |
| Prune.DiscoverLeaves | src/dirbs/cli/prune.py:88-92 | the leaves are the country children followed by each operator partition's children, and a table is among them iff it is a child of one of those |
| Prune.CountParents | src/dirbs/cli/prune.py:94-101 | `rows_before` has one entry per parent, each the parent's `COUNT(*)`, and its values sum to the rows of all leaves |
| Prune.PruneLeaf | src/dirbs/cli/prune.py:107-124 | one iteration: a missing table fails; a leaf that stops the pass fails and changes nothing; otherwise the leaf's decision is carried out and the total grows by the expired rows |
| Prune.PruneLeavesInOrder | src/dirbs/cli/prune.py:104-124 | the loop leaves the database as the pruning pass over the leaves does, succeeds exactly when the pass finishes, and returns its total or its error |
| Prune.PruneTriplets | src/dirbs/cli/prune.py:68-140 | an out-of-range cutoff fails before anything changes; otherwise the database ends as the pass leaves it; on success the report holds both parents' counts before and after and the conservation equation; on a well-formed hierarchy neither the conservation failure nor a missing table can occur |
| Prune.PruneClassificationState | src/dirbs/cli/prune.py:147-214 | an out-of-range cutoff fails before anything changes; otherwise the table is rebuilt with its old shard count and the report holds the before count, both diagnostics, the after count and the number of rows the predicate rejected; that last figure is the corrected `rows_before - rows_after`, not the `rows_after - rows_before` line 214 logs (see "## Findings") |
| Prune.SumCounts | src/dirbs/cli/prune.py:135-136 | `sum(rows.values())` over the parent names; no single parent's count exceeds the sum |
| Prune.LoggedPrunedRows | src/dirbs/cli/prune.py:214 | the figure the last log line prints is minus the rows removed, negative exactly when rows were removed |
| Prune.PrunedRows | src/dirbs/cli/prune.py:214 | the corrected figure, non-negative exactly when the table did not grow |
| Prune.LoggedPrunedRowsIsNegated | src/dirbs/cli/prune.py:214 | as written, the logged number of pruned rows is minus the rows removed, never positive |
| Prune.LoggedPrunedRowsCounterexample | src/dirbs/cli/prune.py:214 | with one expired row, the rebuild removes it and the log line reports -1 pruned rows |
| Prune.PrunedRowsCountsRejectedRows | src/dirbs/cli/prune.py:214 | corrected, the reported number is the count of rows the predicate rejected, never negative |
| Scenarios.JuneCutoffRun | src/dirbs/cli/prune.py:104-124 | with cutoff 2017-06-01, a May 2017 leaf of two rows and an empty leaf are dropped, the June 2017 leaf stays, and two rows are pruned |
| Scenarios.MixedMonthLeafAborts | src/dirbs/cli/prune.py:107-108 | a first leaf holding May and June 2017 aborts the pass with nothing dropped, even though a later leaf is expired |
| Scenarios.ClassificationExample | src/dirbs/cli/prune.py:198-204 | 1000 open rows, 500 rows ending 2016-01-01 and 300 rows ending 2018-01-01 leave 1300 rows in the same number of shards |

## Left out

- Logging, statsd gauges, job metadata and the click command wrapper are not modelled; they do not affect the database.
- `datetime.date.today()` is replaced by the current-date parameter.
- The configuration object is replaced by the retention period and the list of condition labels.
- SQL text composition, `cursor.mogrify` and the connection's encoding are not modelled; the filter is the predicate itself.
- The `dirbs_core_power_user` role scope (`db_role_setter`) is not modelled; it affects privileges only.
- Classification.MatchesActiveLabel: `cond_name LIKE ANY(labels)` is modelled as exact equality with a label; LIKE wildcards (`%`, `_`) in labels are not interpreted.
- Classification.HasActivePrefix: `starts_with_prefix` is modelled as "the condition name starts with one of the labels"; that stored function is not part of this model.
- Classification.Rebuild: row hashing into shards is not modelled; each row stays in the shard it was in, because the shard count is reused.
- Database.Connection.RepartitionClassificationState: the build-then-rename swap is modelled as one assignment; atomicity against concurrent readers is not modelled.
- Transactions and concurrent sessions are not modelled. The connection `conn` comes from `common.cli_wrapper` (src/dirbs/cli/prune.py:67), whose commit mode is not part of this model, and the command never commits explicitly. The model assumes each `DROP TABLE` is committed as issued, so drops done before an abort stay done. If the whole subcommand instead ran in one transaction, PostgreSQL would roll back the earlier drops when the assertion at line 108 fails: an aborted run would leave the hierarchy as it found it, and Pruner.AbortedRunStopsAtOffendingLeaf would describe only the state inside the failed transaction.
- Integer overflow does not arise: PostgreSQL `COUNT(*)` is a 64-bit bigint and Python integers are unbounded; the model uses `nat`.
- A leaf spanning several months aborts the run at that leaf. The leaves earlier in the list have already been dropped by then, because each leaf is checked just before its own decision (Pruner.AbortedRunStopsAtOffendingLeaf).
- Prune.PruneTriplets: a date the Python `datetime.date` constructor rejects (month outside 1..12, year outside 1..9999) is reported as an error value instead of a `ValueError` traceback, and an assertion failure as an error value instead of an `AssertionError`.

## Findings

| source | as written | input that shows it | evidently intended | confidence | as-written member | corrected member |
|---|---|---|---|---|---|---|
| src/dirbs/cli/prune.py:214 | the final log line reports `rows_after - rows_before` rows pruned | one row with condition `gsma_not_found` ending 2016-01-01, cutoff 2017-06-01: the rebuild removes it and the log says -1 rows were pruned | `rows_before - rows_after`, the number of rows removed, never negative | high; not executed | Prune.LoggedPrunedRowsCounterexample | Prune.PrunedRowsCountsRejectedRows |

/**
 * The partition hierarchy of monthly_network_triplets as the database catalog
 * describes it: the country parent has monthly leaf partitions as children,
 * the per-operator parent has one child per operator, each with monthly leaf
 * partitions of its own. Only leaves hold rows; a parent's COUNT(*) is the sum
 * over the leaves beneath it.
 */
module Inventory {

  const CountryParent: string := "monthly_network_triplets_country"
  const OperatorParent: string := "monthly_network_triplets_per_mno"
  /** `parent_tbl_names`, in the order the row counts are taken. */
  const ParentTables: seq<string> := [CountryParent, OperatorParent]

  /** The two parent table names differ: they first part at their 26th character ('c' against 'p'). */
  lemma ParentsDistinct()
    ensures CountryParent != OperatorParent
  {
    assert CountryParent[25] != OperatorParent[25];
  }

  /** The partition-key columns (triplet_month, triplet_year) of one triplet row. */
  datatype Triplet = Triplet(month: int, year: int)

  /** Parent table name to its child tables, in the order the catalog lists them. */
  type Catalog = map<string, seq<string>>

  /** The part of the database the triplets subcommand reads and changes. */
  datatype TripletStore = TripletStore(catalog: Catalog, tables: map<string, seq<Triplet>>)

  /** `utils.child_table_names`: a table with no entry in the catalog has no children. */
  function Children(c: Catalog, parent: string): seq<string> {
    if parent in c then c[parent] else []
  }

  /** The monthly partitions of the given operator partitions, concatenated in order. */
  function OperatorLeaves(c: Catalog, ops: seq<string>): seq<string> {
    if ops == [] then [] else OperatorLeaves(c, ops[..|ops| - 1]) + Children(c, ops[|ops| - 1])
  }

  function CountryLeaves(c: Catalog): seq<string> {
    Children(c, CountryParent)
  }

  function MnoLeaves(c: Catalog): seq<string> {
    OperatorLeaves(c, Children(c, OperatorParent))
  }

  /** `total_partitions`: the country leaves followed by every per-operator leaf. */
  function Leaves(c: Catalog): (r: seq<string>)
    ensures |Children(c, CountryParent)| <= |r| && r[..|Children(c, CountryParent)|] == Children(c, CountryParent)
  {
    CountryLeaves(c) + MnoLeaves(c)
  }

  /** The leaves a parent table's COUNT(*) ranges over. */
  function LeavesUnder(c: Catalog, parent: string): seq<string> {
    if parent == OperatorParent then MnoLeaves(c) else Children(c, parent)
  }

  /** The distinct (month, year) pairs present in a table: `table_invariants_list`. */
  function MonthPairs(rows: seq<Triplet>): (r: set<Triplet>)
    ensures r == {} <==> rows == []
  {
    var pairs := set p | p in rows;
    assert rows != [] ==> rows[0] in pairs;
    pairs
  }

  predicate NoDuplicates(xs: seq<string>) {
    forall i, j :: 0 <= i < j < |xs| ==> xs[i] != xs[j]
  }

  /** xs without any occurrence of t, order kept. */
  function RemoveName(xs: seq<string>, t: string): (r: seq<string>)
    ensures forall x :: x in r <==> x in xs && x != t
    ensures t !in xs ==> r == xs
  {
    if xs == [] then [] else (if xs[0] == t then [] else [xs[0]]) + RemoveName(xs[1..], t)
  }

  /** The catalog after `DROP TABLE t CASCADE`: t loses its own entry and leaves every child list. */
  function DropFromCatalog(c: Catalog, t: string): (r: Catalog)
    ensures r.Keys == c.Keys - {t}
    ensures forall p, x :: p in r ==> (x in r[p] <==> x in c[p] && x != t)
  {
    map p | p in c && p != t :: RemoveName(c[p], t)
  }

  /** `DROP TABLE t CASCADE`: t is gone from the tables and the catalog, every other table keeps its rows. */
  function Drop(s: TripletStore, t: string): (r: TripletStore)
    ensures t !in r.tables && t !in r.catalog
    ensures forall u :: u != t && u in s.tables ==> u in r.tables && r.tables[u] == s.tables[u]
    ensures r.tables.Keys == s.tables.Keys - {t}
  {
    TripletStore(DropFromCatalog(s.catalog, t), s.tables - {t})
  }

  /** Rows held by the named tables; a name with no table contributes nothing. */
  function SumRows(names: seq<string>, tables: map<string, seq<Triplet>>): nat {
    if names == [] then 0
    else (if names[0] in tables then |tables[names[0]]| else 0) + SumRows(names[1..], tables)
  }

  /** `SELECT COUNT(*) FROM parent`. */
  function ParentRowCount(s: TripletStore, parent: string): (n: nat)
    ensures parent in ParentTables ==> n <= TotalRows(s)
  {
    ParentsDistinct();
    SumRowsAppend(CountryLeaves(s.catalog), MnoLeaves(s.catalog), s.tables);
    SumRows(LeavesUnder(s.catalog, parent), s.tables)
  }

  /** All triplet rows in the hierarchy. */
  function TotalRows(s: TripletStore): nat {
    SumRows(Leaves(s.catalog), s.tables)
  }

  /**
   * What the catalog of a partitioned table guarantees: each leaf appears once,
   * exists, and is neither one of the two parents nor an operator partition.
   */
  predicate WellFormed(s: TripletStore) {
    && NoDuplicates(Leaves(s.catalog))
    && forall l :: l in Leaves(s.catalog) ==>
         l in s.tables && l != CountryParent && l != OperatorParent && l !in Children(s.catalog, OperatorParent)
  }

  /** A table is a leaf iff it is a country child or a child of some operator partition. */
  lemma {:induction false} LeavesMembership(c: Catalog, t: string)
    ensures t in Leaves(c) <==>
      t in Children(c, CountryParent) || exists op :: op in Children(c, OperatorParent) && t in Children(c, op)
  {
    OperatorLeavesMembership(c, Children(c, OperatorParent), t);
  }

  lemma {:induction false} OperatorLeavesMembership(c: Catalog, ops: seq<string>, t: string)
    ensures t in OperatorLeaves(c, ops) <==> exists op :: op in ops && t in Children(c, op)
  {
    if ops != [] {
      var init, last := ops[..|ops| - 1], ops[|ops| - 1];
      OperatorLeavesMembership(c, init, t);
      assert ops == init + [last];
      if t in Children(c, last) {
        assert last in ops;
      }
      if exists op :: op in ops && t in Children(c, op) {
        var op :| op in ops && t in Children(c, op);
        if op != last {
          assert op in init;
        }
      }
    }
  }

  lemma {:induction false} RemoveNameAppend(a: seq<string>, b: seq<string>, t: string)
    ensures RemoveName(a + b, t) == RemoveName(a, t) + RemoveName(b, t)
  {
    if a != [] {
      assert (a + b)[1..] == a[1..] + b;
      RemoveNameAppend(a[1..], b, t);
    } else {
      assert a + b == b;
    }
  }

  /** The tail of a list without duplicates has none either, and does not contain the head. */
  lemma NoDuplicatesTail(xs: seq<string>)
    requires NoDuplicates(xs) && xs != []
    ensures NoDuplicates(xs[1..]) && xs[0] !in xs[1..]
  {
    forall i, j | 0 <= i < j < |xs[1..]| ensures xs[1..][i] != xs[1..][j] {
      assert xs[1..][i] == xs[i + 1] && xs[1..][j] == xs[j + 1];
    }
    forall j | 0 <= j < |xs[1..]| ensures xs[1..][j] != xs[0] {
      assert xs[1..][j] == xs[j + 1];
    }
  }

  lemma {:induction false} RemoveNameKeepsDistinct(xs: seq<string>, t: string)
    requires NoDuplicates(xs)
    ensures NoDuplicates(RemoveName(xs, t))
  {
    if xs != [] {
      NoDuplicatesTail(xs);
      RemoveNameKeepsDistinct(xs[1..], t);
      assert xs[0] !in RemoveName(xs[1..], t);
    }
  }

  lemma {:induction false} OperatorLeavesAfterDrop(c: Catalog, ops: seq<string>, t: string)
    requires t !in ops
    ensures OperatorLeaves(DropFromCatalog(c, t), ops) == RemoveName(OperatorLeaves(c, ops), t)
  {
    if ops != [] {
      var init, last := ops[..|ops| - 1], ops[|ops| - 1];
      assert t !in init by {
        assert forall x :: x in init ==> x in ops;
      }
      OperatorLeavesAfterDrop(c, init, t);
      RemoveNameAppend(OperatorLeaves(c, init), Children(c, last), t);
      assert last != t by { assert last in ops; }
    }
  }

  /** Dropping a leaf removes exactly that name from each parent's leaf list. */
  lemma {:induction false} LeavesAfterDrop(c: Catalog, t: string)
    requires t != CountryParent && t != OperatorParent && t !in Children(c, OperatorParent)
    ensures CountryLeaves(DropFromCatalog(c, t)) == RemoveName(CountryLeaves(c), t)
    ensures MnoLeaves(DropFromCatalog(c, t)) == RemoveName(MnoLeaves(c), t)
    ensures Leaves(DropFromCatalog(c, t)) == RemoveName(Leaves(c), t)
  {
    var c' := DropFromCatalog(c, t);
    assert Children(c', OperatorParent) == Children(c, OperatorParent);
    OperatorLeavesAfterDrop(c, Children(c, OperatorParent), t);
    RemoveNameAppend(CountryLeaves(c), MnoLeaves(c), t);
  }

  /** Dropping a leaf keeps the hierarchy well formed. */
  lemma DropKeepsWellFormed(s: TripletStore, t: string)
    requires WellFormed(s) && t in Leaves(s.catalog)
    ensures WellFormed(Drop(s, t))
    ensures Leaves(Drop(s, t).catalog) == RemoveName(Leaves(s.catalog), t)
  {
    LeavesAfterDrop(s.catalog, t);
    RemoveNameKeepsDistinct(Leaves(s.catalog), t);
    var c' := Drop(s, t).catalog;
    assert Children(c', OperatorParent) == Children(s.catalog, OperatorParent);
  }

  lemma {:induction false} SumRowsAppend(a: seq<string>, b: seq<string>, tables: map<string, seq<Triplet>>)
    ensures SumRows(a + b, tables) == SumRows(a, tables) + SumRows(b, tables)
  {
    if a != [] {
      assert (a + b)[1..] == a[1..] + b;
      SumRowsAppend(a[1..], b, tables);
    } else {
      assert a + b == b;
    }
  }

  /** Removing a table the names do not mention changes nothing in their sum. */
  lemma {:induction false} SumRowsFrame(names: seq<string>, tables: map<string, seq<Triplet>>, t: string)
    requires t !in names
    ensures SumRows(names, tables - {t}) == SumRows(names, tables)
  {
    if names != [] {
      assert t !in names[1..] by { assert forall x :: x in names[1..] ==> x in names; }
      SumRowsFrame(names[1..], tables, t);
    }
  }

  /** Dropping one listed table takes exactly its rows out of the sum. */
  lemma {:induction false} SumRowsRemove(names: seq<string>, tables: map<string, seq<Triplet>>, t: string)
    requires NoDuplicates(names) && t in names && t in tables
    ensures SumRows(RemoveName(names, t), tables - {t}) + |tables[t]| == SumRows(names, tables)
  {
    NoDuplicatesTail(names);
    if names[0] == t {
      SumRowsFrame(names[1..], tables, t);
      assert RemoveName(names, t) == names[1..];
    } else {
      SumRowsRemove(names[1..], tables, t);
    }
  }

  /** The two parent counts together cover every leaf once: `sum(rows.values())` is the total. */
  lemma ParentCountsCoverLeaves(s: TripletStore)
    ensures ParentRowCount(s, CountryParent) + ParentRowCount(s, OperatorParent) == TotalRows(s)
  {
    ParentsDistinct();
    SumRowsAppend(CountryLeaves(s.catalog), MnoLeaves(s.catalog), s.tables);
  }

  /** Dropping a leaf lowers the total by exactly that leaf's rows. */
  lemma TotalRowsAfterDrop(s: TripletStore, t: string)
    requires WellFormed(s) && t in Leaves(s.catalog)
    ensures TotalRows(Drop(s, t)) + |s.tables[t]| == TotalRows(s)
  {
    DropKeepsWellFormed(s, t);
    SumRowsRemove(Leaves(s.catalog), s.tables, t);
  }
}

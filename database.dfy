/**
 * The database connection the prune subcommands work through. Its fields are
 * the state the subcommands read and change: the partition catalog, the leaf
 * tables of monthly_network_triplets, and the sharded classification_state
 * table. Each method stands for one query or DDL statement the subcommands
 * issue.
 */
module Database {
  import opened Wrappers
  import opened Dates
  import opened Inventory
  import opened Classification

  class Connection {
    var catalog: Catalog
    var tables: map<string, seq<Triplet>>
    var classification: ShardedTable

    constructor (catalog: Catalog, tables: map<string, seq<Triplet>>, classification: ShardedTable)
      ensures this.catalog == catalog && this.tables == tables && this.classification == classification
    {
      this.catalog := catalog;
      this.tables := tables;
      this.classification := classification;
    }

    /** The triplet partitions as a value. */
    function Triplets(): TripletStore
      reads this
    {
      TripletStore(catalog, tables)
    }

    /** `utils.child_table_names(conn, parent)`. */
    method ChildTableNames(parent: string) returns (names: seq<string>)
      ensures names == Children(catalog, parent)
      ensures forall n :: n in names ==> parent in catalog
    {
      names := Children(catalog, parent);
    }

    /** `SELECT COUNT(*) FROM parent` for one of the two triplet parents. */
    method CountParentRows(parent: string) returns (n: nat)
      ensures n == ParentRowCount(Triplets(), parent)
    {
      n := ParentRowCount(Triplets(), parent);
    }

    /**
     * `utils.table_invariants_list(conn, [table], ['triplet_month', 'triplet_year'])`:
     * the distinct pairs in the table's rows; querying a table that does not exist fails.
     */
    method DistinctMonthPairs(table: string) returns (r: Result<set<Triplet>, string>)
      ensures r.Success? <==> table in tables
      ensures r.Success? ==> forall p :: p in r.value <==> exists i :: 0 <= i < |tables[table]| && tables[table][i] == p
    {
      if table in tables {
        r := Success(MonthPairs(tables[table]));
      } else {
        r := Failure(table);
      }
    }

    /** `SELECT COUNT(*) FROM table` for a leaf partition. */
    method CountPartitionRows(table: string) returns (n: nat)
      requires table in tables
      ensures n == |tables[table]|
    {
      n := |tables[table]|;
    }

    /** `DROP TABLE table CASCADE`. */
    method DropTable(table: string)
      modifies this
      ensures Triplets() == Drop(old(Triplets()), table)
      ensures classification == old(classification)
    {
      catalog := DropFromCatalog(catalog, table);
      tables := tables - {table};
    }

    /** `SELECT COUNT(*) FROM classification_state`. */
    method CountClassificationRows() returns (n: nat)
      ensures n == |AllRows(classification)|
    {
      n := RowCount(classification);
    }

    /** `partition_utils.num_physical_imei_shards(conn)`. */
    method NumPhysicalShards() returns (n: nat)
      ensures n == |classification.shards|
    {
      n := |classification.shards|;
    }

    /**
     * `partition_utils.repartition_classification_state` called with the current
     * shard count and the retention filter: the table is replaced in one step.
     */
    method RepartitionClassificationState(numShards: nat, cutoff: Date, labels: seq<string>)
      requires numShards == |classification.shards|
      modifies this
      ensures classification == Rebuild(old(classification), cutoff, labels)
      ensures Triplets() == old(Triplets())
    {
      classification := Rebuild(classification, cutoff, labels);
    }
  }
}

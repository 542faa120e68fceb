/**
 * Concrete runs of the model: a cutoff of 2017-06-01 (2018-06-15 with twelve
 * months of retention) applied to small partition hierarchies and to a
 * classification table.
 */
module Scenarios {
  import opened Wrappers
  import opened Dates
  import opened Inventory
  import opened Pruner
  import opened Classification

  /** The May 2017 partition is older than the cutoff and goes; the June 2017 one stays; an empty one goes. */
  lemma {:induction false} JuneCutoffRun()
    ensures var store := TripletStore(
        map[CountryParent := ["p201705", "p201706", "p_empty"]],
        map["p201705" := [Triplet(5, 2017), Triplet(5, 2017)], "p201706" := [Triplet(6, 2017)], "p_empty" := []]);
      var cutoff := RetentionCutoff(Date(2018, 6, 15), 12);
      && cutoff == Success(Date(2017, 6, 1))
      && PruneAll(store, cutoff.value).Finished?
      && PruneAll(store, cutoff.value).store.tables == map["p201706" := [Triplet(6, 2017)]]
      && PruneAll(store, cutoff.value).pruned == 2
  {
    CutoffExample();
    var cutoff := Date(2017, 6, 1);
    var may, june := [Triplet(5, 2017), Triplet(5, 2017)], [Triplet(6, 2017)];
    var c: Catalog := map[CountryParent := ["p201705", "p201706", "p_empty"]];
    var s := TripletStore(c, map["p201705" := may, "p201706" := june, "p_empty" := []]);
    ParentsDistinct();
    assert Leaves(c) == ["p201705", "p201706", "p_empty"];
    assert SingleMonth(may) && SingleMonth(june);
    assert Decide(may, cutoff) == DropExpired(2);
    assert Decide(june, cutoff) == Keep;
    var leaves := Leaves(c);
    var s1 := Drop(s, "p201705");
    assert s1.tables == map["p201706" := june, "p_empty" := []];
    assert PruneAll(s, cutoff) == PruneLeaves(leaves[1..], s1, cutoff, 2);
    assert PruneLeaves(leaves[1..], s1, cutoff, 2) == PruneLeaves(leaves[2..], s1, cutoff, 2);
    var s2 := Drop(s1, "p_empty");
    assert s2.tables == map["p201706" := june];
    assert PruneLeaves(leaves[2..], s1, cutoff, 2) == PruneLeaves([], s2, cutoff, 2);
  }

  /** A leaf holding two months stops the pass before anything is dropped, though the next leaf is expired. */
  lemma {:induction false} MixedMonthLeafAborts()
    ensures var store := TripletStore(
        map[CountryParent := ["p_mixed", "p201001"]],
        map["p_mixed" := [Triplet(5, 2017), Triplet(6, 2017)], "p201001" := [Triplet(1, 2010)]]);
      PruneAll(store, Date(2017, 6, 1)) == Aborted(store, MultipleMonths("p_mixed", 2))
  {
    var mixed := [Triplet(5, 2017), Triplet(6, 2017)];
    var c: Catalog := map[CountryParent := ["p_mixed", "p201001"]];
    ParentsDistinct();
    assert Leaves(c) == ["p_mixed", "p201001"];
    assert MonthPairs(mixed) == {Triplet(5, 2017), Triplet(6, 2017)};
    assert !SingleMonth(mixed) by { assert mixed[1] != mixed[0]; }
  }

  /**
   * 1000 open rows and 300 rows ending 2018-01-01 with an active condition stay;
   * 500 rows ending 2016-01-01 go: 1300 rows remain, in the same number of shards.
   */
  lemma ClassificationExample()
    ensures var open := ClassificationRow("duplicate_mk1", None);
      var expired := ClassificationRow("duplicate_mk1", Some(Date(2016, 1, 1)));
      var recent := ClassificationRow("duplicate_mk1", Some(Date(2018, 1, 1)));
      var table := ShardedTable([seq(1000, _ => open) + seq(500, _ => expired) + seq(300, _ => recent)]);
      var after := Rebuild(table, Date(2017, 6, 1), ["duplicate_mk1"]);
      RowCount(after) == 1300 && |after.shards| == |table.shards|
  {
    var cutoff, labels := Date(2017, 6, 1), ["duplicate_mk1"];
    var open := ClassificationRow("duplicate_mk1", None);
    var expired := ClassificationRow("duplicate_mk1", Some(Date(2016, 1, 1)));
    var recent := ClassificationRow("duplicate_mk1", Some(Date(2018, 1, 1)));
    var a, b, c := seq(1000, _ => open), seq(500, _ => expired), seq(300, _ => recent);
    var shards := [a + b + c];
    assert shards[..|shards| - 1] == [];
    assert Concat(shards) == Concat([]) + (a + b + c);
    assert [] + (a + b + c) == a + b + c;
    var table := ShardedTable(shards);
    FilterKeepsRetainedRows(a, cutoff, labels);
    FilterDropsRemovedRows(b, cutoff, labels);
    FilterKeepsRetainedRows(c, cutoff, labels);
    FilterRetainedAppend(a + b, c, cutoff, labels);
    FilterRetainedAppend(a, b, cutoff, labels);
    RebuildKeepsRetainedRows(table, cutoff, labels);
  }
}

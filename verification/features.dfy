/**
 * The aggregation step of the customer ETL job (`compute_features`): the clean
 * table grouped by state, one summary row per state present.
 */
module Features {

  import Frame
  import Order
  import opened Pipeline

  /** One row of the feature table. */
  datatype FeatureRow = FeatureRow(state: string, customers: nat, totalSpending: real, avgSpending: real)

  function StateOf(c: CleanRow): string { c.state }

  function FeatureState(f: FeatureRow): string { f.state }

  /** The distinct states of the table in sorted order, each once (the group keys). */
  function StateKeys(s: seq<CleanRow>): (ks: seq<string>)
    ensures |ks| <= |s|
    ensures Order.Sorted(ks)
    ensures forall i :: 0 <= i < |s| ==> s[i].state in ks
    ensures forall k :: 0 <= k < |ks| ==> ks[k] in Frame.KeySet(s, StateOf)
  {
    if s == [] then []
    else
      var rest := StateKeys(s[1..]);
      Frame.KeySetCons(s[0], s[1..], StateOf);
      assert s == [s[0]] + s[1..];
      assert forall i :: 0 < i < |s| ==> s[i] == s[1..][i - 1];
      var ks := Order.Insert(rest, s[0].state);
      assert forall k :: 0 <= k < |ks| ==> ks[k] in Frame.KeySet(s, StateOf) by {
        forall k | 0 <= k < |ks| ensures ks[k] in Frame.KeySet(s, StateOf) {
          if ks[k] != s[0].state {
            assert ks[k] in rest;
            var m :| 0 <= m < |rest| && rest[m] == ks[k];
          }
        }
      }
      ks
  }

  /** The mask `state == st`. */
  function InState(st: string): CleanRow -> bool {
    (c: CleanRow) => c.state == st
  }

  /** The rows of one state, in their order in the table. */
  function Group(s: seq<CleanRow>, st: string): (g: seq<CleanRow>)
    ensures forall i :: 0 <= i < |g| ==> g[i] in s && g[i].state == st
    ensures forall i :: 0 <= i < |s| && s[i].state == st ==> s[i] in g
  {
    Frame.SelectSound(s, InState(st));
    Frame.SelectComplete(s, InState(st));
    Frame.Select(s, InState(st))
  }

  lemma GroupCons(x: CleanRow, t: seq<CleanRow>, st: string)
    ensures Group([x] + t, st) == (if x.state == st then [x] else []) + Group(t, st)
  {
    Frame.SelectCons(x, t, InState(st));
  }

  /** The sum of `w` over the rows of `s`. */
  function SumOf(s: seq<CleanRow>, w: CleanRow -> real): real {
    if s == [] then 0.0 else w(s[0]) + SumOf(s[1..], w)
  }

  function Spending(c: CleanRow): real { c.spending }

  function One(c: CleanRow): real { 1.0 }

  /** The summary of one non-empty group: distinct ids, total and mean spending. */
  function Aggregate(g: seq<CleanRow>, st: string): (f: FeatureRow)
    requires |g| > 0
    ensures f.state == st
    ensures 1 <= f.customers <= |g|
    ensures f.avgSpending * (|g| as real) == f.totalSpending
  {
    var total := SumOf(g, Spending);
    Frame.KeySetSize(g, CustomerId);
    assert CustomerId(g[0]) in Frame.KeySet(g, CustomerId);
    FeatureRow(st, |Frame.KeySet(g, CustomerId)|, total, total / (|g| as real))
  }

  /** A state present in the table has a non-empty group. */
  lemma GroupOfPresentState(s: seq<CleanRow>, st: string)
    requires st in Frame.KeySet(s, StateOf)
    ensures |Group(s, st)| > 0
  {
    Frame.KeySetWitness(s, StateOf, st);
    var i :| 0 <= i < |s| && StateOf(s[i]) == st;
    assert s[i] in Group(s, st);
  }

  /** One summary row per key of `ks`, in the order of `ks`. */
  function AggregateAll(s: seq<CleanRow>, ks: seq<string>): (fs: seq<FeatureRow>)
    requires forall k :: 0 <= k < |ks| ==> ks[k] in Frame.KeySet(s, StateOf)
    ensures |fs| == |ks|
    ensures forall k :: 0 <= k < |ks| ==>
      var g := Group(s, ks[k]);
      |g| > 0 && fs[k] == Aggregate(g, ks[k])
  {
    if ks == [] then []
    else
      GroupOfPresentState(s, ks[0]);
      [Aggregate(Group(s, ks[0]), ks[0])] + AggregateAll(s, ks[1..])
  }

  /**
   * `compute_features`: one row per distinct state present, with the number of
   * distinct customer ids, the total spending and the mean spending of the
   * state's rows.
   */
  function ComputeFeatures(s: seq<CleanRow>): (fs: seq<FeatureRow>)
    ensures Frame.KeySet(fs, FeatureState) == Frame.KeySet(s, StateOf)
    ensures Frame.DistinctKeys(fs, FeatureState)
    ensures forall k, l :: 0 <= k < l < |fs| ==> Order.Before(fs[k].state, fs[l].state)
    ensures forall k :: 0 <= k < |fs| ==>
      var g := Group(s, fs[k].state);
      && |g| > 0
      && fs[k].customers == |Frame.KeySet(g, CustomerId)|
      && fs[k].totalSpending == SumOf(g, Spending)
      && fs[k].avgSpending == fs[k].totalSpending / (|g| as real)
  {
    var fs := AggregateAll(s, StateKeys(s));
    FeatureStatesAreKeys(s, StateKeys(s), fs);
    fs
  }

  lemma FeatureStatesAreKeys(s: seq<CleanRow>, ks: seq<string>, fs: seq<FeatureRow>)
    requires ks == StateKeys(s) && fs == AggregateAll(s, ks)
    ensures Frame.KeySet(fs, FeatureState) == Frame.KeySet(s, StateOf)
    ensures Frame.DistinctKeys(fs, FeatureState)
    ensures forall k, l :: 0 <= k < l < |fs| ==> Order.Before(fs[k].state, fs[l].state)
    ensures forall k :: 0 <= k < |fs| ==>
      var g := Group(s, fs[k].state);
      && |g| > 0
      && fs[k].customers == |Frame.KeySet(g, CustomerId)|
      && fs[k].totalSpending == SumOf(g, Spending)
      && fs[k].avgSpending == fs[k].totalSpending / (|g| as real)
  {
    assert forall k :: 0 <= k < |fs| ==> FeatureState(fs[k]) == ks[k];
    Order.SortedDistinct(ks);
    FeatureKeysCovered(s, ks, fs);
    FeatureKeysPresent(s, ks, fs);
  }

  lemma FeatureKeysPresent(s: seq<CleanRow>, ks: seq<string>, fs: seq<FeatureRow>)
    requires ks == StateKeys(s)
    requires |fs| == |ks| && forall k :: 0 <= k < |fs| ==> FeatureState(fs[k]) == ks[k]
    ensures Frame.KeySet(fs, FeatureState) <= Frame.KeySet(s, StateOf)
  {
    forall st | st in Frame.KeySet(fs, FeatureState) ensures st in Frame.KeySet(s, StateOf) {
      Frame.KeySetWitness(fs, FeatureState, st);
    }
  }

  lemma FeatureKeysCovered(s: seq<CleanRow>, ks: seq<string>, fs: seq<FeatureRow>)
    requires ks == StateKeys(s)
    requires |fs| == |ks| && forall k :: 0 <= k < |fs| ==> FeatureState(fs[k]) == ks[k]
    ensures Frame.KeySet(s, StateOf) <= Frame.KeySet(fs, FeatureState)
  {
    forall st | st in Frame.KeySet(s, StateOf) ensures st in Frame.KeySet(fs, FeatureState) {
      Frame.KeySetWitness(s, StateOf, st);
      var i :| 0 <= i < |s| && StateOf(s[i]) == st;
      var k :| 0 <= k < |ks| && ks[k] == st;
      assert FeatureState(fs[k]) == st;
    }
  }

  // ---------------------------------------------------------------------------
  // The groups partition the table

  lemma SumOfCons(x: CleanRow, t: seq<CleanRow>, w: CleanRow -> real)
    ensures SumOf([x] + t, w) == w(x) + SumOf(t, w)
  {
    assert ([x] + t)[1..] == t;
  }

  /** Counting rows is summing ones. */
  lemma {:induction false} CountIsSumOfOnes(s: seq<CleanRow>)
    ensures SumOf(s, One) == |s| as real
  {
    if s != [] {
      CountIsSumOfOnes(s[1..]);
    }
  }

  /** The sum of `w` over each group of `ks`, added up over the keys. */
  function GroupedSum(s: seq<CleanRow>, ks: seq<string>, w: CleanRow -> real): real {
    if ks == [] then 0.0 else SumOf(Group(s, ks[0]), w) + GroupedSum(s, ks[1..], w)
  }

  lemma {:induction false} GroupedSumCons(ks: seq<string>, x: CleanRow, t: seq<CleanRow>, w: CleanRow -> real)
    requires Order.Sorted(ks)
    ensures GroupedSum([x] + t, ks, w) == GroupedSum(t, ks, w) + (if x.state in ks then w(x) else 0.0)
  {
    if ks != [] {
      var rest := ks[1..];
      Order.SortedTail(ks);
      GroupedSumCons(rest, x, t, w);
      GroupCons(x, t, ks[0]);
      assert ks == [ks[0]] + rest;
      assert GroupedSum([x] + t, ks, w) == SumOf(Group([x] + t, ks[0]), w) + GroupedSum([x] + t, rest, w);
      assert GroupedSum(t, ks, w) == SumOf(Group(t, ks[0]), w) + GroupedSum(t, rest, w);
      if x.state == ks[0] {
        SumOfCons(x, Group(t, ks[0]), w);
        assert SumOf(Group([x] + t, ks[0]), w) == w(x) + SumOf(Group(t, ks[0]), w);
        assert x.state !in rest;
      } else {
        assert Group([x] + t, ks[0]) == Group(t, ks[0]);
        assert x.state in ks <==> x.state in rest;
      }
    }
  }

  /** Inserting a key adds its group's sum, unless the key was already there. */
  lemma {:induction false} GroupedSumInsert(s: seq<CleanRow>, ks: seq<string>, k: string, w: CleanRow -> real)
    requires Order.Sorted(ks)
    ensures GroupedSum(s, Order.Insert(ks, k), w) ==
      GroupedSum(s, ks, w) + (if k in ks then 0.0 else SumOf(Group(s, k), w))
  {
    if ks != [] && ks[0] != k {
      var r := Order.Insert(ks, k);
      if Order.Before(k, ks[0]) {
        assert r == [k] + ks;
        assert r[1..] == ks;
      } else {
        var rest := ks[1..];
        GroupedSumInsert(s, rest, k, w);
        assert r == [ks[0]] + Order.Insert(rest, k);
        assert r[1..] == Order.Insert(rest, k);
        assert ks == [ks[0]] + rest;
      }
    }
  }

  /** Adding up any per-row quantity group by group gives its total over the table. */
  lemma {:induction false} GroupsPartition(s: seq<CleanRow>, w: CleanRow -> real)
    ensures GroupedSum(s, StateKeys(s), w) == SumOf(s, w)
  {
    if s != [] {
      var x, t := s[0], s[1..];
      assert s == [x] + t;
      GroupsPartition(t, w);
      var ks, kt := StateKeys(s), StateKeys(t);
      assert ks == Order.Insert(kt, x.state);
      GroupedSumCons(ks, x, t, w);
      GroupedSumInsert(t, kt, x.state, w);
      if x.state !in kt {
        assert Group(t, x.state) == [];
      }
    }
  }

  // ---------------------------------------------------------------------------
  // What compute_features promises

  function SumCustomers(fs: seq<FeatureRow>): nat {
    if fs == [] then 0 else fs[0].customers + SumCustomers(fs[1..])
  }

  function SumTotals(fs: seq<FeatureRow>): real {
    if fs == [] then 0.0 else fs[0].totalSpending + SumTotals(fs[1..])
  }

  function SumMeanTimesCustomers(fs: seq<FeatureRow>): real {
    if fs == [] then 0.0 else fs[0].avgSpending * (fs[0].customers as real) + SumMeanTimesCustomers(fs[1..])
  }

  lemma {:induction false} TotalsOfAggregates(s: seq<CleanRow>, ks: seq<string>)
    requires forall k :: 0 <= k < |ks| ==> ks[k] in Frame.KeySet(s, StateOf)
    ensures SumTotals(AggregateAll(s, ks)) == GroupedSum(s, ks, Spending)
  {
    if ks != [] {
      TotalsOfAggregates(s, ks[1..]);
    }
  }

  /** The state totals add up to the spending of the whole table. */
  lemma TotalsAddUpToSpending(s: seq<CleanRow>)
    ensures SumTotals(ComputeFeatures(s)) == SumOf(s, Spending)
  {
    TotalsOfAggregates(s, StateKeys(s));
    GroupsPartition(s, Spending);
  }

  /** With unique ids a group has as many distinct ids as rows. */
  lemma GroupCustomersAreRows(s: seq<CleanRow>, st: string)
    requires Frame.DistinctKeys(s, CustomerId)
    ensures |Frame.KeySet(Group(s, st), CustomerId)| == |Group(s, st)|
  {
    Frame.SelectKeepsDistinct(s, InState(st), CustomerId);
    Frame.DistinctKeysCard(Group(s, st), CustomerId);
  }

  lemma {:induction false} CustomersOfAggregates(s: seq<CleanRow>, ks: seq<string>)
    requires Frame.DistinctKeys(s, CustomerId)
    requires forall k :: 0 <= k < |ks| ==> ks[k] in Frame.KeySet(s, StateOf)
    ensures SumCustomers(AggregateAll(s, ks)) as real == GroupedSum(s, ks, One)
  {
    if ks != [] {
      CustomersOfAggregates(s, ks[1..]);
      GroupCustomersAreRows(s, ks[0]);
      CountIsSumOfOnes(Group(s, ks[0]));
    }
  }

  /**
   * When no customer id repeats, the per-state customer counts add up to the
   * number of distinct ids in the table.
   */
  lemma CustomersAddUpToDistinctIds(s: seq<CleanRow>)
    requires Frame.DistinctKeys(s, CustomerId)
    ensures SumCustomers(ComputeFeatures(s)) == |Frame.KeySet(s, CustomerId)|
  {
    CustomersOfAggregates(s, StateKeys(s));
    GroupsPartition(s, One);
    CountIsSumOfOnes(s);
    Frame.DistinctKeysCard(s, CustomerId);
  }

  /** The row's mean spending times its customer count is its total spending. */
  predicate MeanMatchesTotal(f: FeatureRow) {
    f.avgSpending * (f.customers as real) == f.totalSpending
  }

  /** A row whose mean is over as many rows as it has customers. */
  lemma MeanTimesCount(f: FeatureRow, n: nat)
    requires n > 0 && f.customers == n && f.avgSpending == f.totalSpending / (n as real)
    ensures MeanMatchesTotal(f)
  {
  }

  lemma RowMeanMatchesTotal(s: seq<CleanRow>, k: nat)
    requires Frame.DistinctKeys(s, CustomerId)
    requires k < |ComputeFeatures(s)|
    ensures MeanMatchesTotal(ComputeFeatures(s)[k])
  {
    var fs := ComputeFeatures(s);
    GroupCustomersAreRows(s, fs[k].state);
    MeanTimesCount(fs[k], |Group(s, fs[k].state)|);
  }

  /** When no customer id repeats, each state's mean times its customer count is its total. */
  lemma MeanTimesCustomersIsTotal(s: seq<CleanRow>)
    requires Frame.DistinctKeys(s, CustomerId)
    ensures var fs := ComputeFeatures(s);
      forall k :: 0 <= k < |fs| ==> MeanMatchesTotal(fs[k])
  {
    forall k | 0 <= k < |ComputeFeatures(s)| ensures MeanMatchesTotal(ComputeFeatures(s)[k]) {
      RowMeanMatchesTotal(s, k);
    }
  }

  lemma {:induction false} SumMeanTimesCustomersIsSumTotals(fs: seq<FeatureRow>)
    requires forall k :: 0 <= k < |fs| ==> MeanMatchesTotal(fs[k])
    ensures SumMeanTimesCustomers(fs) == SumTotals(fs)
  {
    if fs != [] {
      SumMeanTimesCustomersIsSumTotals(fs[1..]);
    }
  }

  /**
   * On a table produced by `Transform`: the customer counts add up to the
   * number of distinct ids, which is the number of clean rows; each state's
   * mean times its count is its total; and both the totals and the
   * mean-times-count products add up to the table's spending.
   */
  lemma CleanTableFeaturesConsistent(rows: seq<RawRow>, p: Parsers)
    ensures var clean := Transform(rows, p);
      var fs := ComputeFeatures(clean);
      && SumCustomers(fs) == |Frame.KeySet(clean, CustomerId)| == |clean|
      && (forall k :: 0 <= k < |fs| ==> MeanMatchesTotal(fs[k]))
      && SumMeanTimesCustomers(fs) == SumTotals(fs) == SumOf(clean, Spending)
  {
    var clean := Transform(rows, p);
    CustomersAddUpToDistinctIds(clean);
    Frame.DistinctKeysCard(clean, CustomerId);
    MeanTimesCustomersIsTotal(clean);
    SumMeanTimesCustomersIsSumTotals(ComputeFeatures(clean));
    TotalsAddUpToSpending(clean);
  }

  /** The clean table has at most one feature row per allowed state, and no more than it has rows. */
  lemma CleanTableFeatureCount(rows: seq<RawRow>, p: Parsers)
    ensures var clean := Transform(rows, p);
      var fs := ComputeFeatures(clean);
      |fs| <= |ALLOWED_STATES| && |fs| <= |clean|
  {
    var clean := Transform(rows, p);
    var fs := ComputeFeatures(clean);
    var states := Frame.KeySet(clean, StateOf);
    Frame.DistinctKeysCard(fs, FeatureState);
    forall st | st in states ensures st in ALLOWED_STATES {
      Frame.KeySetWitness(clean, StateOf, st);
    }
    assert ALLOWED_STATES == states + (ALLOWED_STATES - states);
    Frame.KeySetSize(clean, StateOf);
  }

}

/**
 * The bookkeeping of the genetic-algorithm placement planner. Before the search, init
 * flattens the hot tuples of every partition into parallel lists (tuple id, access
 * count, partition), works out the load and plan that remain once the hot tuples are
 * taken out, and appends one entry per slice of the remaining cold ranges. computePlan
 * then fills in missing partition totals, derives the number of placements, the mean
 * load and one range constraint per placement, and returns the plan with its hot tuples
 * demoted; the search outcome is only reported.
 *
 * A hot-tuple map (tuple id to access count) is modelled as the sequence of its entries
 * in iteration order: both loops of init that traverse it visit it in the same order.
 *
 * Line numbers in the comments of this module refer to
 * src/frontend/org/qcri/PartitioningPlanner/placement/GAPlacement.java.
 */
module GAPlacement {
  import opened Wrappers
  import opened Sums
  import opened Seqs

  /** coldPartitionWidth: cold tuples are redistributed in slices of this many tuples. */
  const ColdPartitionWidth: int := 1000

  datatype Range = Range(from: int, to: int)

  type RangeList = seq<Range>

  /** A placement plan: the ranges of tuple ids each partition holds. */
  datatype Plan = Plan(ranges: map<int, RangeList>)

  /** The Plan and Placement methods the planner calls. Their source is not part of this
      model, so they are parameters with no properties assumed. */
  datatype PlanOps = PlanOps(
    removeTupleId: (Plan, int, int) -> Plan,
    rangeSlices: (Plan, int, int) -> seq<RangeList>,
    rangeListWidth: RangeList -> int,
    tupleCount: (Plan, int) -> int,
    /** The access count of a slice: the partition's load per tuple, in floating point, times
        the slice's width, truncated to a long. */
    sliceWeight: (int, int, int) -> int,
    demoteTuples: (seq<HotTuples>, Plan) -> Plan,
    removeEmptyPartitions: Plan -> Plan)

  /** An entry of a hot-tuple map: tuple id and access count. */
  datatype Entry = Entry(id: int, count: int)

  predicate DistinctIds(s: seq<Entry>)
  {
    forall i, j :: 0 <= i < j < |s| ==> s[i].id != s[j].id
  }

  /** A hot-tuple map, as its entries in iteration order. */
  type HotTuples = s: seq<Entry> | DistinctIds(s) witness []

  /** The map whose entries s lists. */
  function AsMap(s: seq<Entry>): map<int, int>
    decreases |s|
  {
    if s == [] then map[] else AsMap(s[..|s| - 1])[s[|s| - 1].id := s[|s| - 1].count]
  }

  /** The sum of the access counts of s. */
  function CountSum(s: seq<Entry>): int
    decreases |s|
  {
    if s == [] then 0 else CountSum(s[..|s| - 1]) + s[|s| - 1].count
  }

  /** The number of hot tuples over all partitions. */
  function TotalSize(hot: seq<HotTuples>): nat
    decreases |hot|
  {
    if hot == [] then 0 else TotalSize(hot[..|hot| - 1]) + |hot[|hot| - 1]|
  }

  lemma {:induction false} AsMapOfEntries(s: HotTuples)
    ensures |AsMap(s)| == |s|
    ensures forall j :: 0 <= j < |s| ==> s[j].id in AsMap(s) && AsMap(s)[s[j].id] == s[j].count
    ensures forall id :: id in AsMap(s) ==> exists j :: 0 <= j < |s| && s[j].id == id
    decreases |s|
  {
    if s != [] {
      var init: HotTuples := s[..|s| - 1];
      AsMapOfEntries(init);
      assert s[|s| - 1].id !in AsMap(init) by {
        forall j | 0 <= j < |init| ensures init[j].id != s[|s| - 1].id {
          assert init[j] == s[j];
        }
      }
      assert forall j :: 0 <= j < |init| ==> init[j] == s[j];
    }
  }

  /** Summing the entries in iteration order gives the map's sum, whatever the order. */
  lemma {:induction false} CountSumIsMapSum(s: HotTuples)
    ensures CountSum(s) == MapSum(AsMap(s))
    decreases |s|
  {
    if s != [] {
      var init: HotTuples := s[..|s| - 1];
      CountSumIsMapSum(init);
      AsMapOfEntries(init);
      assert s[|s| - 1].id !in AsMap(init) by {
        forall id | id in AsMap(init) ensures id != s[|s| - 1].id {
          var j :| 0 <= j < |init| && init[j].id == id;
          assert init[j] == s[j];
        }
      }
      MapSumAdd(AsMap(init), s[|s| - 1].id, s[|s| - 1].count);
    }
  }

  // ---------------------------------------------------------------- hot tuples, flattened

  /** One position of the parallel lists tupleIds, accesses and locations for a hot tuple. */
  datatype HotRecord = HotRecord(id: int, count: int, partition: int)

  function Records(s: seq<Entry>, p: int): seq<HotRecord>
  {
    seq(|s|, k requires 0 <= k < |s| => HotRecord(s[k].id, s[k].count, p))
  }

  /** The hot tuples of all partitions, partition by partition, each map in iteration order. */
  function HotRecords(hot: seq<HotTuples>): seq<HotRecord>
    decreases |hot|
  {
    if hot == [] then [] else HotRecords(hot[..|hot| - 1]) + Records(hot[|hot| - 1], |hot| - 1)
  }

  lemma HotRecordsStep(hot: seq<HotTuples>, p: int)
    requires 0 <= p < |hot|
    ensures HotRecords(hot[..p + 1]) == HotRecords(hot[..p]) + Records(hot[p], p)
  {
    assert hot[..p + 1][..p] == hot[..p];
  }

  /** There is one position per hot tuple. */
  lemma {:induction false} HotRecordsLength(hot: seq<HotTuples>)
    ensures |HotRecords(hot)| == TotalSize(hot)
    decreases |hot|
  {
    if hot != [] {
      HotRecordsLength(hot[..|hot| - 1]);
    }
  }

  /** Tuple j of partition p sits at position TotalSize(hot[..p]) + j: the lists hold the
      hot tuples partition by partition, each map in its iteration order. */
  lemma {:induction false} HotRecordAt(hot: seq<HotTuples>, p: int, j: int)
    requires 0 <= p < |hot| && 0 <= j < |hot[p]|
    ensures TotalSize(hot[..p]) + j < |HotRecords(hot)|
    ensures HotRecords(hot)[TotalSize(hot[..p]) + j] == HotRecord(hot[p][j].id, hot[p][j].count, p)
    decreases |hot|
  {
    var n := |hot| - 1;
    var init := hot[..n];
    HotRecordsLength(init);
    assert HotRecords(hot) == HotRecords(init) + Records(hot[n], n);
    if p < n {
      assert init[p] == hot[p] && init[..p] == hot[..p];
      HotRecordAt(init, p, j);
    } else {
      assert hot[..p] == init;
    }
  }

  /** Every position of the lists names a partition index and a tuple of that partition's
      map, with its access count. */
  lemma HotRecordsSound(hot: seq<HotTuples>)
    ensures forall k :: 0 <= k < |HotRecords(hot)| ==>
      var r := HotRecords(hot)[k];
      0 <= r.partition < |hot| && r.id in AsMap(hot[r.partition]) && AsMap(hot[r.partition])[r.id] == r.count
  {
    forall k | 0 <= k < |HotRecords(hot)|
      ensures var r := HotRecords(hot)[k];
        0 <= r.partition < |hot| && r.id in AsMap(hot[r.partition]) && AsMap(hot[r.partition])[r.id] == r.count
    {
      var p, j := RecordOrigin(hot, k);
      AsMapOfEntries(hot[p]);
    }
  }

  /** The partition and the entry position a position of the lists comes from. */
  lemma {:induction false} RecordOrigin(hot: seq<HotTuples>, k: int) returns (p: int, j: int)
    requires 0 <= k < |HotRecords(hot)|
    ensures 0 <= p < |hot| && 0 <= j < |hot[p]|
    ensures HotRecords(hot)[k] == HotRecord(hot[p][j].id, hot[p][j].count, p)
    decreases |hot|
  {
    var n := |hot| - 1;
    var init := hot[..n];
    if k < |HotRecords(init)| {
      p, j := RecordOrigin(init, k);
      assert init[p] == hot[p];
    } else {
      p, j := n, k - |HotRecords(init)|;
    }
  }

  // ---------------------------------------------------------------- load and plan without the hot tuples

  /** Every partition that has hot tuples has a total, so the lookup at line 72 finds one. */
  predicate LoadCovers(load: map<int, int>, hot: seq<HotTuples>)
  {
    forall p :: 0 <= p < |hot| && |hot[p]| > 0 ==> p in load
  }

  /** The first partition that has hot tuples but no total, where line 72 unboxes null;
      |hot| when there is none. */
  function FirstGap(load: map<int, int>, hot: seq<HotTuples>): (g: nat)
    ensures g <= |hot| && LoadCovers(load, hot[..g])
    ensures g < |hot| ==> |hot[g]| > 0 && g !in load
    decreases |hot|
  {
    if hot == [] then 0
    else
      var n := |hot| - 1;
      var g := FirstGap(load, hot[..n]);
      assert hot[..n][..g] == hot[..g];
      if g < n then (assert hot[..n][g] == hot[g]; g)
      else if |hot[n]| > 0 && n !in load then n
      else (assert hot[..n + 1] == hot; n + 1)
  }

  /** The hot partitions all have totals exactly when there is no first one without. */
  lemma FirstGapCovers(load: map<int, int>, hot: seq<HotTuples>)
    ensures LoadCovers(load, hot) <==> FirstGap(load, hot) == |hot|
  {
    assert hot[..|hot|] == hot;
  }

  /** A partition without a total, after a prefix whose hot partitions all have one, is the first. */
  lemma FirstGapAt(load: map<int, int>, hot: seq<HotTuples>, p: int)
    requires 0 <= p < |hot| && |hot[p]| > 0 && p !in load && LoadCovers(load, hot[..p])
    ensures FirstGap(load, hot) == p
  {
  }

  /** oldLoad once the hot tuples are taken out: each partition's total less the accesses of
      its hot tuples. */
  function Residual(load: map<int, int>, hot: seq<HotTuples>): map<int, int>
  {
    map p | p in load :: load[p] - if 0 <= p < |hot| then CountSum(hot[p]) else 0
  }

  /** The plan after removeTupleId for each tuple of s, in order, from partition p. */
  function RemoveEntries(ops: PlanOps, plan: Plan, p: int, s: seq<Entry>): Plan
    decreases |s|
  {
    if s == [] then plan else ops.removeTupleId(RemoveEntries(ops, plan, p, s[..|s| - 1]), p, s[|s| - 1].id)
  }

  /** The plan after every hot tuple is removed from its partition, partition by partition. */
  function RemoveAll(ops: PlanOps, plan: Plan, hot: seq<HotTuples>): Plan
    decreases |hot|
  {
    if hot == [] then plan
    else RemoveEntries(ops, RemoveAll(ops, plan, hot[..|hot| - 1]), |hot| - 1, hot[|hot| - 1])
  }

  /** The residual load does not depend on the order in which a map lists its tuples. */
  lemma ResidualIsMapDifference(load: map<int, int>, hot: seq<HotTuples>)
    ensures Residual(load, hot).Keys == load.Keys
    ensures forall p :: 0 <= p < |hot| && p in load ==>
      Residual(load, hot)[p] == load[p] - MapSum(AsMap(hot[p]))
  {
    forall p | 0 <= p < |hot| && p in load ensures Residual(load, hot)[p] == load[p] - MapSum(AsMap(hot[p])) {
      CountSumIsMapSum(hot[p]);
    }
  }

  /** The positions of the tupleIds, accesses and locations lists. */
  function IdOf(r: HotRecord): int { r.id }
  function CountOf(r: HotRecord): int { r.count }
  function PartitionOf(r: HotRecord): int { r.partition }

  // ---------------------------------------------------------------- cold slices

  /** One position of slices, sliceSizes and the tail of accesses and locations. */
  datatype ColdSlice = ColdSlice(slice: RangeList, size: int, weight: int, partition: int)

  function Slices(ops: PlanOps, plan: Plan, i: int): seq<RangeList>
  {
    ops.rangeSlices(plan, i, ColdPartitionWidth)
  }

  /** The partitions of order that have slices have a load, so the lookup at line 95 finds one. */
  predicate SlicesHaveLoad(ops: PlanOps, plan: Plan, load: map<int, int>, order: seq<int>)
  {
    forall k :: 0 <= k < |order| && |Slices(ops, plan, order[k])| > 0 ==> order[k] in load
  }

  /** The first partition of order that has slices but no load, where line 95 unboxes
      null; |order| when there is none. */
  function FirstSliceGap(ops: PlanOps, plan: Plan, load: map<int, int>, order: seq<int>): (g: nat)
    ensures g <= |order| && SlicesHaveLoad(ops, plan, load, order[..g])
    ensures g < |order| ==> |Slices(ops, plan, order[g])| > 0 && order[g] !in load
    decreases |order|
  {
    if order == [] then 0
    else
      var n := |order| - 1;
      var g := FirstSliceGap(ops, plan, load, order[..n]);
      assert order[..n][..g] == order[..g];
      if g < n then (assert order[..n][g] == order[g]; g)
      else if |Slices(ops, plan, order[n])| > 0 && order[n] !in load then n
      else (assert order[..n + 1] == order; n + 1)
  }

  /** Every partition with slices has a load exactly when there is no first one without. */
  lemma FirstSliceGapCovers(ops: PlanOps, plan: Plan, load: map<int, int>, order: seq<int>)
    ensures SlicesHaveLoad(ops, plan, load, order) <==> FirstSliceGap(ops, plan, load, order) == |order|
  {
    assert order[..|order|] == order;
  }

  /** The entries of the slices of partition i. */
  function ColdOf(ops: PlanOps, plan: Plan, load: map<int, int>, i: int): seq<ColdSlice>
    requires |Slices(ops, plan, i)| > 0 ==> i in load
  {
    var ps := Slices(ops, plan, i);
    if |ps| == 0 then []
    else
      seq(|ps|, k requires 0 <= k < |ps| =>
        ColdSlice(ps[k], ops.rangeListWidth(ps[k]),
                  ops.sliceWeight(load[i], ops.tupleCount(plan, i), ops.rangeListWidth(ps[k])), i))
  }

  /** The entries of the slices of the partitions of order, in that order. */
  function ColdEntries(ops: PlanOps, plan: Plan, load: map<int, int>, order: seq<int>): seq<ColdSlice>
    requires SlicesHaveLoad(ops, plan, load, order)
    decreases |order|
  {
    if order == [] then []
    else
      var n := |order| - 1;
      assert SlicesHaveLoad(ops, plan, load, order[..n]) by {
        assert forall k :: 0 <= k < n ==> order[..n][k] == order[k];
      }
      ColdEntries(ops, plan, load, order[..n]) + ColdOf(ops, plan, load, order[n])
  }

  /** The number of slices of the partitions of order: sliceCount. */
  function SliceTotal(ops: PlanOps, plan: Plan, order: seq<int>): int
    decreases |order|
  {
    if order == [] then 0 else SliceTotal(ops, plan, order[..|order| - 1]) + |Slices(ops, plan, order[|order| - 1])|
  }

  /** There is one entry per slice, and each entry is a slice of its own partition, cut
      from the plan's ranges for that partition, with that slice's width as its size. */
  lemma {:induction false} ColdEntriesFrom(ops: PlanOps, plan: Plan, load: map<int, int>, order: seq<int>)
    requires SlicesHaveLoad(ops, plan, load, order)
    ensures |ColdEntries(ops, plan, load, order)| == SliceTotal(ops, plan, order)
    ensures forall k :: 0 <= k < |ColdEntries(ops, plan, load, order)| ==>
      var e := ColdEntries(ops, plan, load, order)[k];
      && e.partition in order
      && e.slice in Slices(ops, plan, e.partition)
      && e.size == ops.rangeListWidth(e.slice)
    decreases |order|
  {
    if order != [] {
      var n := |order| - 1;
      assert forall k :: 0 <= k < n ==> order[..n][k] == order[k];
      ColdEntriesFrom(ops, plan, load, order[..n]);
      assert forall q :: q in order[..n] ==> q in order;
    }
  }

  /** Entry k of the cold entries, one position at a time. */
  lemma ColdEntryAt(ops: PlanOps, plan: Plan, load: map<int, int>, order: seq<int>, k: int)
    requires SlicesHaveLoad(ops, plan, load, order)
    requires 0 <= k < |ColdEntries(ops, plan, load, order)|
    ensures var e := ColdEntries(ops, plan, load, order)[k];
      e.partition in order && e.slice in Slices(ops, plan, e.partition) && e.size == ops.rangeListWidth(e.slice)
  {
    ColdEntriesFrom(ops, plan, load, order);
  }

  /** One more partition of order in the scan of lines 91-105. */
  lemma ColdStep(ops: PlanOps, plan: Plan, load: map<int, int>, order: seq<int>, k: int)
    requires 0 <= k < |order| && SlicesHaveLoad(ops, plan, load, order[..k])
    requires |Slices(ops, plan, order[k])| > 0 ==> order[k] in load
    ensures SlicesHaveLoad(ops, plan, load, order[..k + 1])
    ensures ColdEntries(ops, plan, load, order[..k + 1]) == ColdEntries(ops, plan, load, order[..k]) + ColdOf(ops, plan, load, order[k])
    ensures |Slices(ops, plan, order[k])| == 0 ==> ColdEntries(ops, plan, load, order[..k + 1]) == ColdEntries(ops, plan, load, order[..k])
    ensures SliceTotal(ops, plan, order[..k + 1]) == SliceTotal(ops, plan, order[..k]) + |Slices(ops, plan, order[k])|
  {
    assert order[..k + 1][..k] == order[..k];
    assert forall j :: 0 <= j < k ==> order[..k + 1][j] == order[..k][j];
  }

  /** A partition with slices but no load, after a prefix whose partitions with slices all
      have one, is the first such partition. */
  lemma ColdStepFails(ops: PlanOps, plan: Plan, load: map<int, int>, order: seq<int>, k: int)
    requires 0 <= k < |order| && SlicesHaveLoad(ops, plan, load, order[..k])
    requires |Slices(ops, plan, order[k])| > 0 && order[k] !in load
    ensures FirstSliceGap(ops, plan, load, order) == k
    ensures SliceTotal(ops, plan, order[..k + 1]) == SliceTotal(ops, plan, order[..k]) + |Slices(ops, plan, order[k])|
  {
    assert order[..k + 1][..k] == order[..k];
  }

  /** The number of slices of each partition of keys. */
  ghost function SliceCounts(ops: PlanOps, plan: Plan, keys: set<int>): map<int, int>
  {
    map i | i in keys :: |Slices(ops, plan, i)|
  }

  /** The number of slices is the same whichever order the partitions are visited in. */
  lemma {:induction false} SliceTotalOrderFree(ops: PlanOps, plan: Plan, order: seq<int>)
    requires Distinct(order)
    ensures SliceTotal(ops, plan, order) == MapSum(SliceCounts(ops, plan, Elements(order)))
    decreases |order|
  {
    if order == [] {
      assert SliceCounts(ops, plan, Elements(order)) == map[];
    } else {
      var n := |order| - 1;
      var init := order[..n];
      DistinctInit(order);
      SliceTotalOrderFree(ops, plan, init);
      var rest := SliceCounts(ops, plan, Elements(init));
      assert SliceCounts(ops, plan, Elements(order)) == rest[order[n] := |Slices(ops, plan, order[n])|];
      MapSumAdd(rest, order[n], |Slices(ops, plan, order[n])|);
    }
  }

  /** The positions of the slices and sliceSizes lists and of the tail of accesses and locations. */
  function SliceOf(c: ColdSlice): RangeList { c.slice }
  function SizeOf(c: ColdSlice): int { c.size }
  function WeightOf(c: ColdSlice): int { c.weight }
  function ColdPartitionOf(c: ColdSlice): int { c.partition }

  // ---------------------------------------------------------------- computePlan arithmetic

  /** partitionTotals after the fill-in loop has run for the partitions 0 .. n - 1. */
  function ZeroFilled(m: map<int, int>, n: int): map<int, int>
    decreases if n < 0 then 0 else n
  {
    if n <= 0 then m
    else
      var r := ZeroFilled(m, n - 1);
      if n - 1 in r then r else r[n - 1 := 0]
  }

  /** The partition ids 0 .. n - 1. */
  function Below(n: int): (r: set<int>)
    ensures forall j :: j in r <==> 0 <= j < n
    decreases if n < 0 then 0 else n
  {
    if n <= 0 then {} else Below(n - 1) + {n - 1}
  }

  /** The fill-in adds exactly the missing partitions below n, with total 0, and keeps the
      existing totals. */
  lemma {:induction false} ZeroFilledEntries(m: map<int, int>, n: int)
    ensures ZeroFilled(m, n).Keys == m.Keys + Below(n)
    ensures forall i :: i in m ==> ZeroFilled(m, n)[i] == m[i]
    ensures forall i :: 0 <= i < n && i !in m ==> ZeroFilled(m, n)[i] == 0
    decreases if n < 0 then 0 else n
  {
    if n > 0 {
      ZeroFilledEntries(m, n - 1);
    }
  }

  /** The fill-in keeps the sum of the totals. */
  lemma {:induction false} ZeroFilledSum(m: map<int, int>, n: int)
    ensures MapSum(ZeroFilled(m, n)) == MapSum(m)
    decreases if n < 0 then 0 else n
  {
    if n > 0 {
      ZeroFilledSum(m, n - 1);
      var r := ZeroFilled(m, n - 1);
      if n - 1 !in r {
        MapSumAdd(r, n - 1, 0);
      }
    }
  }

  function Abs(a: int): nat
  {
    if a >= 0 then a else -a
  }

  lemma DivNonneg(x: nat, y: int)
    requires y > 0
    ensures x / y >= 0
  {
  }

  /** Java's integer division, which truncates toward zero: the magnitude of the quotient
      is the quotient of the magnitudes, and its sign is the product of the signs. */
  function JavaDiv(a: int, b: int): (q: int)
    requires b != 0
    ensures Abs(q) == Abs(a) / Abs(b)
    ensures q == 0 || ((q > 0) <==> ((a > 0) == (b > 0)))
  {
    var d := Abs(a) / Abs(b);
    DivNonneg(Abs(a), Abs(b));
    if (a >= 0) == (b > 0) then d else -d
  }

  // ---------------------------------------------------------------- the loops of init

  /** One more partition in the residual load and in the coverage check. */
  lemma ResidualStep(load: map<int, int>, hot: seq<HotTuples>, p: int, r: map<int, int>)
    requires 0 <= p < |hot| && r == Residual(load, hot[..p]) && LoadCovers(load, hot[..p])
    ensures p in r <==> p in load
    ensures |hot[p]| == 0 || p in load ==>
      && Residual(load, hot[..p + 1]) == (if |hot[p]| == 0 then r else r[p := r[p] - CountSum(hot[p])])
      && LoadCovers(load, hot[..p + 1])
  {
    assert forall q :: 0 <= q < p ==> hot[..p + 1][q] == hot[..p][q];
  }

  lemma CountSumStep(s: seq<Entry>, e: int)
    requires 0 <= e < |s|
    ensures CountSum(s[..e + 1]) == CountSum(s[..e]) + s[e].count
  {
    assert s[..e + 1][..e] == s[..e];
  }

  lemma RemoveEntriesStep(ops: PlanOps, plan: Plan, p: int, s: seq<Entry>, e: int)
    requires 0 <= e < |s|
    ensures RemoveEntries(ops, plan, p, s[..e + 1]) == ops.removeTupleId(RemoveEntries(ops, plan, p, s[..e]), p, s[e].id)
  {
    assert s[..e + 1][..e] == s[..e];
  }

  lemma SizeStep(ops: PlanOps, plan: Plan, hot: seq<HotTuples>, p: int)
    requires 0 <= p < |hot|
    ensures TotalSize(hot[..p + 1]) == TotalSize(hot[..p]) + |hot[p]|
    ensures RemoveAll(ops, plan, hot[..p + 1]) == RemoveEntries(ops, RemoveAll(ops, plan, hot[..p]), p, hot[p])
  {
    assert hot[..p + 1][..p] == hot[..p];
  }

  /** The inner loop of lines 71-74 for partition p: each hot tuple's accesses are taken
      off the partition's load and the tuple is removed from the plan. It fails on the first
      tuple when the partition has no load. */
  method RemoveTuples(ops: PlanOps, p: int, s: HotTuples, load: map<int, int>, plan: Plan)
    returns (ok: bool, newLoad: map<int, int>, newPlan: Plan)
    ensures ok <==> |s| == 0 || p in load
    ensures ok ==> newLoad == (if |s| == 0 then load else load[p := load[p] - CountSum(s)])
    ensures ok ==> newPlan == RemoveEntries(ops, plan, p, s)
  {
    ok, newLoad, newPlan := true, load, plan;
    var e := 0;
    while e < |s|
      invariant 0 <= e <= |s|
      invariant e > 0 ==> p in load && newLoad == load[p := load[p] - CountSum(s[..e])]
      invariant e == 0 ==> newLoad == load
      invariant newPlan == RemoveEntries(ops, plan, p, s[..e])
    {
      if p !in newLoad {
        return false, newLoad, newPlan;
      }
      CountSumStep(s, e);
      RemoveEntriesStep(ops, plan, p, s, e);
      newLoad := newLoad[p := newLoad[p] - s[e].count];
      newPlan := ops.removeTupleId(newPlan, p, s[e].id);
      e := e + 1;
    }
    assert s[..|s|] == s;
  }

  /** One pass of the outer loop of lines 69-76, for partition p, given the state the
      passes for the partitions before it leave. */
  method RemovePartition(ops: PlanOps, hot: seq<HotTuples>, load: map<int, int>, plan: Plan, p: int,
                         curLoad: map<int, int>, curPlan: Plan, curCount: int)
    returns (ok: bool, newLoad: map<int, int>, newPlan: Plan, tupleCount: int)
    requires 0 <= p < |hot| && LoadCovers(load, hot[..p])
    requires curLoad == Residual(load, hot[..p]) && curPlan == RemoveAll(ops, plan, hot[..p])
    requires curCount == TotalSize(hot[..p])
    ensures tupleCount == TotalSize(hot[..p + 1])
    ensures ok <==> |hot[p]| == 0 || p in load
    ensures ok ==> LoadCovers(load, hot[..p + 1])
    ensures ok ==> newLoad == Residual(load, hot[..p + 1]) && newPlan == RemoveAll(ops, plan, hot[..p + 1])
  {
    SizeStep(ops, plan, hot, p);
    ResidualStep(load, hot, p, curLoad);
    tupleCount := curCount + |hot[p]|;
    ok, newLoad, newPlan := RemoveTuples(ops, p, hot[p], curLoad, curPlan);
  }

  /** The first loop over hotTuplesList (lines 67-76): the load and the plan with the hot
      tuples taken out, and the number of hot tuples. failed is the first partition that has
      hot tuples but no load: the subtraction at line 72 unboxes null there. */
  method RemoveHot(ops: PlanOps, hot: seq<HotTuples>, load: map<int, int>, plan: Plan)
    returns (failed: Option<int>, newLoad: map<int, int>, newPlan: Plan, tupleCount: int)
    ensures failed.None? <==> LoadCovers(load, hot)
    ensures failed.None? ==>
      newLoad == Residual(load, hot) && newPlan == RemoveAll(ops, plan, hot) && tupleCount == TotalSize(hot)
    ensures failed.Some? ==>
      var p := failed.value;
      && 0 <= p < |hot| && |hot[p]| > 0 && p !in load
      && LoadCovers(load, hot[..p])
      && tupleCount == TotalSize(hot[..p + 1])
  {
    failed, newLoad, newPlan, tupleCount := None, load, plan, 0;
    var p := 0;
    while p < |hot|
      invariant 0 <= p <= |hot|
      invariant LoadCovers(load, hot[..p])
      invariant newLoad == Residual(load, hot[..p])
      invariant newPlan == RemoveAll(ops, plan, hot[..p])
      invariant tupleCount == TotalSize(hot[..p])
    {
      var ok;
      ok, newLoad, newPlan, tupleCount := RemovePartition(ops, hot, load, plan, p, newLoad, newPlan, tupleCount);
      if !ok {
        failed := Some(p);
        return;
      }
      p := p + 1;
    }
    assert hot[..|hot|] == hot;
  }

  // ---------------------------------------------------------------- the planner

  /** The exceptions init and computePlan can throw: NullPointerException when a total is
      missing, ArithmeticException when the partition count is zero (line 127). */
  datatype Failure = NullPointerException | ArithmeticException

  datatype Completion = Normal | Abrupt(error: Failure)

  datatype Outcome<T> = Returned(value: T) | Thrown(error: Failure)

  /** A RangeConstraint on one gene of the search: the placement goes to a partition in low .. high. */
  datatype Constraint = Constraint(low: int, high: int)

  /** What computePlan derives deterministically: the returned plan, the number of placements,
      the mean access count it reports, and the constraint of each placement. */
  datatype Computed = Computed(plan: Plan, placementCount: int, meanAccesses: int, constraints: seq<Constraint>)

  /** The caller's partitionTotals map, which computePlan updates in place. */
  class PartitionTotals {
    var entries: map<int, int>

    constructor (entries: map<int, int>)
      ensures this.entries == entries
    {
      this.entries := entries;
    }

    /** Lines 116-120: every partition below partitionCount without a total gets total 0. */
    method FillMissing(partitionCount: int)
      modifies this
      ensures entries == ZeroFilled(old(entries), partitionCount)
    {
      var i := 0;
      while i < partitionCount
        invariant i <= partitionCount || i == 0
        invariant entries == ZeroFilled(old(entries), i)
      {
        if i !in entries {
          entries := entries[i := 0];
        }
        i := i + 1;
      }
    }
  }

  /** Lines 141-143: the range constraint 0 .. partitionCount - 1 for every placement. */
  method RangeConstraints(placementCount: int, partitionCount: int) returns (cs: seq<Constraint>)
    ensures |cs| == if placementCount < 0 then 0 else placementCount
    ensures forall i :: 0 <= i < |cs| ==> cs[i] == Constraint(0, partitionCount - 1)
  {
    cs := [];
    var i := 0;
    while i < placementCount
      invariant i == |cs| && (i <= placementCount || i == 0)
      invariant forall k :: 0 <= k < |cs| ==> cs[k] == Constraint(0, partitionCount - 1)
    {
      cs := cs + [Constraint(0, partitionCount - 1)];
      i := i + 1;
    }
  }

  /** The fields init sets, other than totalAccesses. */
  datatype InitFields = InitFields(
    tupleIds: seq<int>, accesses: seq<int>, locations: seq<int>,
    slices: seq<RangeList>, sliceSizes: seq<int>, tupleCount: int, sliceCount: int)

  /** The fields after lines 78-105 ran on fresh lists, over the partitions of order up to
      the first one with slices but no load: the hot tuples, then the cold slices of the
      partitions before that one. sliceCount also covers that partition. */
  ghost function Listed(ops: PlanOps, hot: seq<HotTuples>, load: map<int, int>, plan: Plan,
                        order: seq<int>, tupleCount: int): InitFields
  {
    var h := FirstSliceGap(ops, plan, load, order);
    Lay(HotRecords(hot), ColdEntries(ops, plan, load, order[..h]), tupleCount,
        SliceTotal(ops, plan, order[..if h == |order| then h else h + 1]))
  }

  /** The parallel lists laid out from the hot records and then the cold slices. */
  function Lay(recs: seq<HotRecord>, cold: seq<ColdSlice>, tupleCount: int, sliceCount: int): InitFields
  {
    InitFields(
      Apply(IdOf, recs),
      Apply(CountOf, recs) + Apply(WeightOf, cold),
      Apply(PartitionOf, recs) + Apply(ColdPartitionOf, cold),
      Apply(SliceOf, cold),
      Apply(SizeOf, cold),
      tupleCount, sliceCount)
  }

  /** Position k of slices and sliceSizes, and position |recs| + k of accesses and
      locations, hold cold slice k. */
  lemma LayColdAt(recs: seq<HotRecord>, cold: seq<ColdSlice>, tupleCount: int, sliceCount: int, k: int)
    requires 0 <= k < |cold|
    ensures var f := Lay(recs, cold, tupleCount, sliceCount);
      && |f.slices| == |cold| && |f.sliceSizes| == |cold|
      && |f.accesses| == |recs| + |cold| && |f.locations| == |recs| + |cold|
      && f.slices[k] == cold[k].slice && f.sliceSizes[k] == cold[k].size
      && f.accesses[|recs| + k] == cold[k].weight && f.locations[|recs| + k] == cold[k].partition
  {
    ApplyConcatRight(CountOf, WeightOf, recs, cold, k);
    ApplyConcatRight(PartitionOf, ColdPartitionOf, recs, cold, k);
    assert Apply(SliceOf, cold)[k] == SliceOf(cold[k]) && Apply(SizeOf, cold)[k] == SizeOf(cold[k]);
  }

  /** The fields as init leaves them. When a hot partition has no total, the lists are
      empty, tupleCount covers the partitions up to and including that one, and sliceCount
      keeps its earlier value; otherwise the lists are those of the residual load and plan. */
  ghost function AfterInit(ops: PlanOps, hot: seq<HotTuples>, totals: map<int, int>, aPlan: Plan,
                           order: seq<int>, priorSliceCount: int): InitFields
  {
    var g := FirstGap(totals, hot);
    if g < |hot| then InitFields([], [], [], [], [], TotalSize(hot[..g + 1]), priorSliceCount)
    else Listed(ops, hot, Residual(totals, hot), RemoveAll(ops, aPlan, hot), order, TotalSize(hot))
  }

  /** init throws a NullPointerException, unboxing a null, at line 72 or at line 95, and completes otherwise. */
  ghost function InitCompletion(ops: PlanOps, hot: seq<HotTuples>, totals: map<int, int>, aPlan: Plan,
                                order: seq<int>): Completion
  {
    if FirstGap(totals, hot) < |hot| then Abrupt(NullPointerException)
    else if FirstSliceGap(ops, RemoveAll(ops, aPlan, hot), Residual(totals, hot), order) < |order| then Abrupt(NullPointerException)
    else Normal
  }

  /** init with a hot partition that has no total: empty lists, and the exception. */
  lemma InitStopsAtGap(ops: PlanOps, hot: seq<HotTuples>, totals: map<int, int>, aPlan: Plan,
                       order: seq<int>, priorSliceCount: int)
    requires FirstGap(totals, hot) < |hot|
    ensures AfterInit(ops, hot, totals, aPlan, order, priorSliceCount)
         == InitFields([], [], [], [], [], TotalSize(hot[..FirstGap(totals, hot) + 1]), priorSliceCount)
    ensures InitCompletion(ops, hot, totals, aPlan, order) == Abrupt(NullPointerException)
  {
  }

  /** init once every hot partition has a total: the lists of the residual load and plan. */
  lemma InitListsAll(ops: PlanOps, hot: seq<HotTuples>, totals: map<int, int>, aPlan: Plan,
                     order: seq<int>, priorSliceCount: int)
    requires FirstGap(totals, hot) == |hot|
    ensures AfterInit(ops, hot, totals, aPlan, order, priorSliceCount)
         == Listed(ops, hot, Residual(totals, hot), RemoveAll(ops, aPlan, hot), order, TotalSize(hot))
    ensures InitCompletion(ops, hot, totals, aPlan, order)
         == if FirstSliceGap(ops, RemoveAll(ops, aPlan, hot), Residual(totals, hot), order) == |order|
            then Normal else Abrupt(NullPointerException)
  {
  }

  /** Once every hot partition has a total, init lays out the hot records and then the
      cold entries of the residual plan. */
  lemma InitIsLaid(ops: PlanOps, hot: seq<HotTuples>, totals: map<int, int>, aPlan: Plan,
                   order: seq<int>, priorSliceCount: int)
    returns (cold: seq<ColdSlice>, sliceCount: int)
    requires FirstGap(totals, hot) == |hot|
    ensures AfterInit(ops, hot, totals, aPlan, order, priorSliceCount) == Lay(HotRecords(hot), cold, TotalSize(hot), sliceCount)
    ensures var load, plan := Residual(totals, hot), RemoveAll(ops, aPlan, hot);
      var h := FirstSliceGap(ops, plan, load, order);
      cold == ColdEntries(ops, plan, load, order[..h])
  {
    var load, plan := Residual(totals, hot), RemoveAll(ops, aPlan, hot);
    var h := FirstSliceGap(ops, plan, load, order);
    cold := ColdEntries(ops, plan, load, order[..h]);
    sliceCount := SliceTotal(ops, plan, order[..if h == |order| then h else h + 1]);
    InitListsAll(ops, hot, totals, aPlan, order, priorSliceCount);
  }

  /** When init completes, the parallel lists hold one position per hot tuple and then one
      per slice: tupleIds has tupleCount entries, slices and sliceSizes have sliceCount, and
      accesses and locations have tupleCount + sliceCount. */
  lemma InitLengths(ops: PlanOps, hot: seq<HotTuples>, totals: map<int, int>, aPlan: Plan,
                    order: seq<int>, priorSliceCount: int)
    requires InitCompletion(ops, hot, totals, aPlan, order) == Normal
    ensures var f := AfterInit(ops, hot, totals, aPlan, order, priorSliceCount);
      && f.tupleCount == TotalSize(hot) && |f.tupleIds| == f.tupleCount
      && |f.slices| == f.sliceCount && |f.sliceSizes| == f.sliceCount
      && |f.accesses| == f.tupleCount + f.sliceCount && |f.locations| == f.tupleCount + f.sliceCount
  {
    var load, plan := Residual(totals, hot), RemoveAll(ops, aPlan, hot);
    HotRecordsLength(hot);
    assert order[..|order|] == order;
    ColdEntriesFrom(ops, plan, load, order);
  }

  /** Position k of lists that begin with the hot records holds hot record k. */
  lemma HotListsAt(ids: seq<int>, counts: seq<int>, partitions: seq<int>, recs: seq<HotRecord>, k: int)
    requires ids == Apply(IdOf, recs) && |recs| <= |counts| && |recs| <= |partitions|
    requires counts[..|recs|] == Apply(CountOf, recs) && partitions[..|recs|] == Apply(PartitionOf, recs)
    requires 0 <= k < |recs|
    ensures ids[k] == recs[k].id && counts[k] == recs[k].count && partitions[k] == recs[k].partition
  {
    assert ids[k] == Apply(IdOf, recs)[k] == IdOf(recs[k]);
    assert counts[k] == counts[..|recs|][k] == Apply(CountOf, recs)[k] == CountOf(recs[k]);
    assert partitions[k] == partitions[..|recs|][k] == Apply(PartitionOf, recs)[k] == PartitionOf(recs[k]);
  }

  /** Tuple j of partition p sits at position TotalSize(hot[..p]) + j of lists that begin
      with the hot records. */
  lemma HotListsHold(ids: seq<int>, counts: seq<int>, partitions: seq<int>, hot: seq<HotTuples>, p: int, j: int)
    requires ids == Apply(IdOf, HotRecords(hot))
    requires |HotRecords(hot)| <= |counts| && |HotRecords(hot)| <= |partitions|
    requires counts[..|HotRecords(hot)|] == Apply(CountOf, HotRecords(hot))
    requires partitions[..|HotRecords(hot)|] == Apply(PartitionOf, HotRecords(hot))
    requires 0 <= p < |hot| && 0 <= j < |hot[p]|
    ensures var k := TotalSize(hot[..p]) + j;
      && k < |ids| && k < |counts| && k < |partitions|
      && ids[k] == hot[p][j].id && counts[k] == hot[p][j].count && partitions[k] == p
  {
    HotRecordAt(hot, p, j);
    HotListsAt(ids, counts, partitions, HotRecords(hot), TotalSize(hot[..p]) + j);
  }

  /** Once every hot partition has a total, init's lists begin with the hot records. */
  lemma InitHotPart(ops: PlanOps, hot: seq<HotTuples>, totals: map<int, int>, aPlan: Plan,
                    order: seq<int>, priorSliceCount: int)
    requires FirstGap(totals, hot) == |hot|
    ensures var f, recs := AfterInit(ops, hot, totals, aPlan, order, priorSliceCount), HotRecords(hot);
      && f.tupleCount == |recs| == TotalSize(hot)
      && |recs| <= |f.accesses| && |recs| <= |f.locations|
      && f.tupleIds == Apply(IdOf, recs)
      && f.accesses[..|recs|] == Apply(CountOf, recs)
      && f.locations[..|recs|] == Apply(PartitionOf, recs)
  {
    var cold, sc := InitIsLaid(ops, hot, totals, aPlan, order, priorSliceCount);
    var recs := HotRecords(hot);
    HotRecordsLength(hot);
    assert (Apply(CountOf, recs) + Apply(WeightOf, cold))[..|recs|] == Apply(CountOf, recs);
    assert (Apply(PartitionOf, recs) + Apply(ColdPartitionOf, cold))[..|recs|] == Apply(PartitionOf, recs);
  }

  /** When init completes, sliceCount is the number of slices of all partitions of the
      residual plan, whatever order its key set is iterated in. */
  lemma InitSliceCountOrderFree(ops: PlanOps, hot: seq<HotTuples>, totals: map<int, int>, aPlan: Plan,
                                order: seq<int>, priorSliceCount: int)
    requires InitCompletion(ops, hot, totals, aPlan, order) == Normal
    requires Distinct(order) && Elements(order) == RemoveAll(ops, aPlan, hot).ranges.Keys
    ensures AfterInit(ops, hot, totals, aPlan, order, priorSliceCount).sliceCount
         == MapSum(SliceCounts(ops, RemoveAll(ops, aPlan, hot), RemoveAll(ops, aPlan, hot).ranges.Keys))
  {
    var cold, sc := InitIsLaid(ops, hot, totals, aPlan, order, priorSliceCount);
    assert order[..|order|] == order;
    SliceTotalOrderFree(ops, RemoveAll(ops, aPlan, hot), order);
  }

  /** Once every hot partition has a total, the first tupleCount positions are the hot
      tuples: position k names a partition index, a tuple of that partition's map, and the
      tuple's access count. */
  lemma InitHotEntries(ops: PlanOps, hot: seq<HotTuples>, totals: map<int, int>, aPlan: Plan,
                       order: seq<int>, priorSliceCount: int)
    requires FirstGap(totals, hot) == |hot|
    ensures var f := AfterInit(ops, hot, totals, aPlan, order, priorSliceCount);
      forall k :: 0 <= k < f.tupleCount ==>
        && k < |f.tupleIds| && k < |f.accesses| && k < |f.locations|
        && 0 <= f.locations[k] < |hot|
        && f.tupleIds[k] in AsMap(hot[f.locations[k]])
        && AsMap(hot[f.locations[k]])[f.tupleIds[k]] == f.accesses[k]
  {
    var recs := HotRecords(hot);
    var f := AfterInit(ops, hot, totals, aPlan, order, priorSliceCount);
    InitHotPart(ops, hot, totals, aPlan, order, priorSliceCount);
    HotRecordsSound(hot);
    forall k | 0 <= k < f.tupleCount
      ensures && k < |f.tupleIds| && k < |f.accesses| && k < |f.locations|
              && 0 <= f.locations[k] < |hot|
              && f.tupleIds[k] in AsMap(hot[f.locations[k]])
              && AsMap(hot[f.locations[k]])[f.tupleIds[k]] == f.accesses[k]
    {
      HotListsAt(f.tupleIds, f.accesses, f.locations, recs, k);
    }
  }

  /** Tuple j of partition p's map sits at position TotalSize(hot[..p]) + j of tupleIds,
      accesses and locations. */
  lemma InitHotAt(ops: PlanOps, hot: seq<HotTuples>, totals: map<int, int>, aPlan: Plan,
                  order: seq<int>, priorSliceCount: int, p: int, j: int)
    requires FirstGap(totals, hot) == |hot| && 0 <= p < |hot| && 0 <= j < |hot[p]|
    ensures var f := AfterInit(ops, hot, totals, aPlan, order, priorSliceCount);
      var k := TotalSize(hot[..p]) + j;
      && k < |f.tupleIds| && k < |f.accesses| && k < |f.locations|
      && f.tupleIds[k] == hot[p][j].id && f.accesses[k] == hot[p][j].count && f.locations[k] == p
  {
    var recs := HotRecords(hot);
    var f := AfterInit(ops, hot, totals, aPlan, order, priorSliceCount);
    InitHotPart(ops, hot, totals, aPlan, order, priorSliceCount);
    HotListsHold(f.tupleIds, f.accesses, f.locations, hot, p, j);
  }

  /** Once every hot partition has a total, position k of slices is a slice cut from the
      ranges of a partition of the residual plan, sliceSizes[k] is its width, and the
      matching position of locations, after the hot tuples, names that partition. */
  lemma InitColdEntries(ops: PlanOps, hot: seq<HotTuples>, totals: map<int, int>, aPlan: Plan,
                        order: seq<int>, priorSliceCount: int)
    requires FirstGap(totals, hot) == |hot|
    requires Elements(order) == RemoveAll(ops, aPlan, hot).ranges.Keys
    ensures var f := AfterInit(ops, hot, totals, aPlan, order, priorSliceCount);
      var plan := RemoveAll(ops, aPlan, hot);
      && 0 <= f.tupleCount <= |f.locations|
      && var coldLocations := f.locations[f.tupleCount..];
         && |coldLocations| == |f.slices| == |f.sliceSizes|
         && forall k :: 0 <= k < |f.slices| ==>
              && coldLocations[k] in plan.ranges.Keys
              && f.slices[k] in Slices(ops, plan, coldLocations[k])
              && f.sliceSizes[k] == ops.rangeListWidth(f.slices[k])
  {
    var load, plan := Residual(totals, hot), RemoveAll(ops, aPlan, hot);
    var h := FirstSliceGap(ops, plan, load, order);
    var cold, sc := InitIsLaid(ops, hot, totals, aPlan, order, priorSliceCount);
    HotRecordsLength(hot);
    LaidColdFrom(ops, plan, load, order[..h], HotRecords(hot), TotalSize(hot), sc);
    assert forall q :: q in order[..h] ==> q in Elements(order);
  }

  /** The slices laid out after the hot records come from the partitions of order: slice k
      is cut from the ranges of the partition at position |recs| + k of locations, and
      sliceSizes[k] is its width. */
  lemma LaidColdFrom(ops: PlanOps, plan: Plan, load: map<int, int>, order: seq<int>,
                     recs: seq<HotRecord>, tupleCount: int, sliceCount: int)
    requires SlicesHaveLoad(ops, plan, load, order)
    ensures var f := Lay(recs, ColdEntries(ops, plan, load, order), tupleCount, sliceCount);
      && |recs| <= |f.locations|
      && var coldLocations := f.locations[|recs|..];
         && |coldLocations| == |f.slices| == |f.sliceSizes|
         && forall k :: 0 <= k < |f.slices| ==>
              && coldLocations[k] in order
              && f.slices[k] in Slices(ops, plan, coldLocations[k])
              && f.sliceSizes[k] == ops.rangeListWidth(f.slices[k])
  {
    var cold := ColdEntries(ops, plan, load, order);
    var f := Lay(recs, cold, tupleCount, sliceCount);
    assert |f.locations| == |recs| + |cold| && |f.slices| == |cold| && |f.sliceSizes| == |cold|;
    var coldLocations := f.locations[|recs|..];
    forall k | 0 <= k < |f.slices|
      ensures && coldLocations[k] in order
              && f.slices[k] in Slices(ops, plan, coldLocations[k])
              && f.sliceSizes[k] == ops.rangeListWidth(f.slices[k])
    {
      LayColdAt(recs, cold, tupleCount, sliceCount, k);
      ColdEntryAt(ops, plan, load, order, k);
    }
  }

  class GAPlacement {
    var tupleIds: seq<int>
    var accesses: seq<int>
    var locations: seq<int>
    var slices: seq<RangeList>
    var sliceSizes: seq<int>
    var tupleCount: int
    var sliceCount: int
    var totalAccesses: int

    /** The lists start out null in the source and are replaced by init before any use. */
    constructor ()
      ensures tupleIds == [] && accesses == [] && locations == [] && slices == [] && sliceSizes == []
      ensures tupleCount == 0 && sliceCount == 0 && totalAccesses == 0
    {
      tupleIds, accesses, locations, slices, sliceSizes := [], [], [], [], [];
      tupleCount, sliceCount, totalAccesses := 0, 0, 0;
    }

    function Fields(): InitFields
      reads this
    {
      InitFields(tupleIds, accesses, locations, slices, sliceSizes, tupleCount, sliceCount)
    }

    /** The inner loop of lines 81-85: the tuples of partition p's map, in iteration order. */
    method AddRecords(s: HotTuples, p: int)
      modifies this`tupleIds, this`accesses, this`locations
      ensures tupleIds == old(tupleIds) + Apply(IdOf, Records(s, p))
      ensures accesses == old(accesses) + Apply(CountOf, Records(s, p))
      ensures locations == old(locations) + Apply(PartitionOf, Records(s, p))
    {
      ghost var rs := Records(s, p);
      for e := 0 to |s|
        invariant tupleIds == old(tupleIds) + Apply(IdOf, rs[..e])
        invariant accesses == old(accesses) + Apply(CountOf, rs[..e])
        invariant locations == old(locations) + Apply(PartitionOf, rs[..e])
      {
        ApplySnoc(IdOf, rs, e);
        ApplySnoc(CountOf, rs, e);
        ApplySnoc(PartitionOf, rs, e);
        tupleIds := tupleIds + [s[e].id];
        accesses := accesses + [s[e].count];
        locations := locations + [p];
      }
      assert rs[..|s|] == rs;
    }

    /** Lines 79-87: the id, access count and partition of every hot tuple, partition by
        partition. */
    method FlattenHot(hot: seq<HotTuples>)
      modifies this`tupleIds, this`accesses, this`locations
      ensures tupleIds == old(tupleIds) + Apply(IdOf, HotRecords(hot))
      ensures accesses == old(accesses) + Apply(CountOf, HotRecords(hot))
      ensures locations == old(locations) + Apply(PartitionOf, HotRecords(hot))
    {
      for p := 0 to |hot|
        invariant tupleIds == old(tupleIds) + Apply(IdOf, HotRecords(hot[..p]))
        invariant accesses == old(accesses) + Apply(CountOf, HotRecords(hot[..p]))
        invariant locations == old(locations) + Apply(PartitionOf, HotRecords(hot[..p]))
      {
        ghost var done, more := HotRecords(hot[..p]), Records(hot[p], p);
        HotRecordsStep(hot, p);
        ApplyAfter(IdOf, old(tupleIds), done, more);
        ApplyAfter(CountOf, old(accesses), done, more);
        ApplyAfter(PartitionOf, old(locations), done, more);
        AddRecords(hot[p], p);
      }
      assert hot[..|hot|] == hot;
    }

    /** The inner loop of lines 96-103: one entry per slice of partition i, weighted by the
        partition's load per tuple (line 95). */
    method AddSlices(ops: PlanOps, plan: Plan, load: map<int, int>, i: int, partitionSlices: seq<RangeList>)
      requires i in load && partitionSlices == Slices(ops, plan, i)
      modifies this`slices, this`sliceSizes, this`accesses, this`locations
      ensures slices == old(slices) + Apply(SliceOf, ColdOf(ops, plan, load, i))
      ensures sliceSizes == old(sliceSizes) + Apply(SizeOf, ColdOf(ops, plan, load, i))
      ensures accesses == old(accesses) + Apply(WeightOf, ColdOf(ops, plan, load, i))
      ensures locations == old(locations) + Apply(ColdPartitionOf, ColdOf(ops, plan, load, i))
    {
      var partitionLoad, partitionTuples := load[i], ops.tupleCount(plan, i);
      ghost var cs := ColdOf(ops, plan, load, i);
      for j := 0 to |partitionSlices|
        invariant slices == old(slices) + Apply(SliceOf, cs[..j])
        invariant sliceSizes == old(sliceSizes) + Apply(SizeOf, cs[..j])
        invariant accesses == old(accesses) + Apply(WeightOf, cs[..j])
        invariant locations == old(locations) + Apply(ColdPartitionOf, cs[..j])
      {
        ApplySnoc(SliceOf, cs, j);
        ApplySnoc(SizeOf, cs, j);
        ApplySnoc(WeightOf, cs, j);
        ApplySnoc(ColdPartitionOf, cs, j);
        var slice := partitionSlices[j];
        var sliceSize := ops.rangeListWidth(slice);
        var newWeight := ops.sliceWeight(partitionLoad, partitionTuples, sliceSize);
        slices := slices + [slice];
        sliceSizes := sliceSizes + [sliceSize];
        accesses := accesses + [newWeight];
        locations := locations + [i];
      }
      assert cs[..|cs|] == cs;
    }

    /** Lines 90-105: the slices of the cold ranges of every partition of the plan, visited in
        the iteration order of its key set. ok is false when a partition with slices has no
        load; its slices are counted by then, but none of them is listed. */
    method ScanSlices(ops: PlanOps, plan: Plan, load: map<int, int>) returns (ok: bool, ghost order: seq<int>)
      modifies this`slices, this`sliceSizes, this`accesses, this`locations, this`sliceCount
      ensures Distinct(order) && Elements(order) == plan.ranges.Keys
      ensures var g := FirstSliceGap(ops, plan, load, order);
        && ok == (g == |order|)
        && sliceCount == SliceTotal(ops, plan, order[..if ok then g else g + 1])
        && slices == old(slices) + Apply(SliceOf, ColdEntries(ops, plan, load, order[..g]))
        && sliceSizes == old(sliceSizes) + Apply(SizeOf, ColdEntries(ops, plan, load, order[..g]))
        && accesses == old(accesses) + Apply(WeightOf, ColdEntries(ops, plan, load, order[..g]))
        && locations == old(locations) + Apply(ColdPartitionOf, ColdEntries(ops, plan, load, order[..g]))
    {
      sliceCount := 0;
      var keys := Enumerate(plan.ranges.Keys);
      order := keys;
      for k := 0 to |keys|
        invariant SlicesHaveLoad(ops, plan, load, keys[..k])
        invariant sliceCount == SliceTotal(ops, plan, keys[..k])
        invariant slices == old(slices) + Apply(SliceOf, ColdEntries(ops, plan, load, keys[..k]))
        invariant sliceSizes == old(sliceSizes) + Apply(SizeOf, ColdEntries(ops, plan, load, keys[..k]))
        invariant accesses == old(accesses) + Apply(WeightOf, ColdEntries(ops, plan, load, keys[..k]))
        invariant locations == old(locations) + Apply(ColdPartitionOf, ColdEntries(ops, plan, load, keys[..k]))
      {
        var i := keys[k];
        var partitionSlices := ops.rangeSlices(plan, i, ColdPartitionWidth);
        if |partitionSlices| > 0 {
          sliceCount := sliceCount + |partitionSlices|;
          if i !in load {
            ColdStepFails(ops, plan, load, keys, k);
            return false, keys;
          }
          ghost var done, more := ColdEntries(ops, plan, load, keys[..k]), ColdOf(ops, plan, load, i);
          ColdStep(ops, plan, load, keys, k);
          ApplyAfter(SliceOf, old(slices), done, more);
          ApplyAfter(SizeOf, old(sliceSizes), done, more);
          ApplyAfter(WeightOf, old(accesses), done, more);
          ApplyAfter(ColdPartitionOf, old(locations), done, more);
          AddSlices(ops, plan, load, i, partitionSlices);
        } else {
          ColdStep(ops, plan, load, keys, k);
        }
      }
      ok := true;
      FirstSliceGapCovers(ops, plan, load, keys);
      assert keys[..|keys|] == keys;
    }

    /** Lines 78-105, on the fresh lists: the hot tuples, then the cold slices. ok is false
        when the scan of the cold slices throws. */
    method ListAll(ops: PlanOps, hot: seq<HotTuples>, load: map<int, int>, plan: Plan)
      returns (ok: bool, ghost order: seq<int>)
      requires tupleIds == [] && accesses == [] && locations == [] && slices == [] && sliceSizes == []
      modifies this`tupleIds, this`accesses, this`locations, this`slices, this`sliceSizes, this`sliceCount
      ensures Fields() == Listed(ops, hot, load, plan, order, tupleCount)
      ensures Distinct(order) && Elements(order) == plan.ranges.Keys
      ensures ok == (FirstSliceGap(ops, plan, load, order) == |order|)
    {
      FlattenHot(hot);
      ghost var recs := HotRecords(hot);
      assert tupleIds == Apply(IdOf, recs) && accesses == Apply(CountOf, recs) && locations == Apply(PartitionOf, recs);
      ok, order := ScanSlices(ops, plan, load);
      ghost var h := FirstSliceGap(ops, plan, load, order);
      ghost var cold := ColdEntries(ops, plan, load, order[..h]);
      assert slices == Apply(SliceOf, cold) && sliceSizes == Apply(SizeOf, cold);
    }

    /** init (lines 39-106). order is the order in which the residual plan's partitions were
        visited. The copies of partitionTotals and aPlan are value copies. */
    method Init(ops: PlanOps, hot: seq<HotTuples>, totals: map<int, int>, aPlan: Plan)
      returns (c: Completion, ghost order: seq<int>)
      modifies this
      ensures totalAccesses == MapSum(totals)
      ensures FirstGap(totals, hot) < |hot| ==>
        && Fields() == InitFields([], [], [], [], [], TotalSize(hot[..FirstGap(totals, hot) + 1]), old(sliceCount))
        && c == Abrupt(NullPointerException)
      ensures FirstGap(totals, hot) == |hot| ==>
        && Fields() == Listed(ops, hot, Residual(totals, hot), RemoveAll(ops, aPlan, hot), order, TotalSize(hot))
        && Distinct(order) && Elements(order) == RemoveAll(ops, aPlan, hot).ranges.Keys
        && c == if FirstSliceGap(ops, RemoveAll(ops, aPlan, hot), Residual(totals, hot), order) == |order|
                then Normal else Abrupt(NullPointerException)
    {
      tupleIds, accesses, locations, slices, sliceSizes := [], [], [], [], [];
      totalAccesses := SumValues(totals);
      var oldLoad, oldPlan := totals, aPlan;
      var failed;
      failed, oldLoad, oldPlan, tupleCount := RemoveHot(ops, hot, oldLoad, oldPlan);
      if failed.Some? {
        FirstGapAt(totals, hot, failed.value);
        return Abrupt(NullPointerException), [];
      }
      FirstGapCovers(totals, hot);
      var ok;
      ok, order := ListAll(ops, hot, oldLoad, oldPlan);
      c := if ok then Normal else Abrupt(NullPointerException);
    }

    /** computePlan (lines 111-174) without the genetic search, whose result is only reported:
        the plan read from the file is aPlan. */
    method ComputePlan(ops: PlanOps, hot: seq<HotTuples>, totals: PartitionTotals, aPlan: Plan, partitionCount: int)
      returns (out: Outcome<Computed>, ghost order: seq<int>)
      modifies this, totals
      ensures Fields() == AfterInit(ops, hot, old(totals.entries), aPlan, order, old(sliceCount))
      ensures FirstGap(old(totals.entries), hot) == |hot| ==>
        Distinct(order) && Elements(order) == RemoveAll(ops, aPlan, hot).ranges.Keys
      ensures InitCompletion(ops, hot, old(totals.entries), aPlan, order).Abrupt? ==>
        && out == Thrown(NullPointerException)
        && totals.entries == old(totals.entries)
        && totalAccesses == MapSum(old(totals.entries))
      ensures InitCompletion(ops, hot, old(totals.entries), aPlan, order).Normal? ==>
        && totals.entries == ZeroFilled(old(totals.entries), partitionCount)
        && totalAccesses == 2 * MapSum(old(totals.entries))
        && (partitionCount == 0 ==> out == Thrown(ArithmeticException))
        && (partitionCount != 0 ==>
              && out.Returned?
              && out.value.plan == ops.removeEmptyPartitions(ops.demoteTuples(hot, aPlan))
              && out.value.placementCount == tupleCount + sliceCount
              && out.value.meanAccesses == JavaDiv(totalAccesses, partitionCount)
              && |out.value.constraints| == (if tupleCount + sliceCount < 0 then 0 else tupleCount + sliceCount)
              && forall i :: 0 <= i < |out.value.constraints| ==>
                   out.value.constraints[i] == Constraint(0, partitionCount - 1))
    {
      var c;
      c, order := Init(ops, hot, totals.entries, aPlan);
      if FirstGap(totals.entries, hot) < |hot| {
        InitStopsAtGap(ops, hot, totals.entries, aPlan, order, old(sliceCount));
      } else {
        InitListsAll(ops, hot, totals.entries, aPlan, order, old(sliceCount));
      }
      if c.Abrupt? {
        return Thrown(c.error), order;
      }
      ghost var given := totals.entries;
      totals.FillMissing(partitionCount);
      var sum := SumValues(totals.entries);
      ZeroFilledSum(given, partitionCount);
      totalAccesses := totalAccesses + sum;
      var placementCount := tupleCount + sliceCount;
      if partitionCount == 0 {
        return Thrown(ArithmeticException), order;
      }
      var meanAccesses := JavaDiv(totalAccesses, partitionCount);
      var constraints := RangeConstraints(placementCount, partitionCount);
      var plan := ops.removeEmptyPartitions(ops.demoteTuples(hot, aPlan));
      out := Returned(Computed(plan, placementCount, meanAccesses, constraints));
    }
  }
}
/**
 * internal/merkle/consistency.go: the collector builds a consistency proof from a stream of leaves it does not keep.
 */
module Collector {
  import opened Bytes
  import opened HashStack
  import opened ConsistencyProof
  import opened ProofRanges
  import opened IndexOrders

  ghost predicate SortedByFrom(order: seq<nat>, ranges: seq<Range>, n: nat)
    requires n <= |order| && forall i :: 0 <= i < |order| ==> order[i] < |ranges|
  {
    forall i, j :: 0 <= i < j < n ==> ranges[order[i]].from <= ranges[order[j]].from
  }

  /** The first i + 1 are sorted but for the one at j, which is no less than any after it. */
  ghost predicate SortedBut(order: seq<nat>, ranges: seq<Range>, i: nat, j: nat)
    requires forall p :: 0 <= p < |order| ==> order[p] < |ranges|
  {
    forall p, q :: 0 <= p < q <= i && q < |order| && q != j ==> ranges[order[p]].from <= ranges[order[q]].from
  }

  lemma SortedButSwap(order: seq<nat>, ranges: seq<Range>, i: nat, j: nat)
    requires forall p :: 0 <= p < |order| ==> order[p] < |ranges|
    requires SortedBut(order, ranges, i, j) && 0 < j <= i < |order|
    requires ranges[order[j]].from < ranges[order[j - 1]].from
    ensures SortedBut(order[j - 1 := order[j]][j := order[j - 1]], ranges, i, j - 1)
  {
  }

  lemma SortedButEnds(order: seq<nat>, ranges: seq<Range>, i: nat, j: nat)
    requires forall p :: 0 <= p < |order| ==> order[p] < |ranges|
    requires SortedBut(order, ranges, i, j) && j <= i < |order|
    requires j > 0 ==> ranges[order[j - 1]].from <= ranges[order[j]].from
    ensures SortedByFrom(order, ranges, i + 1)
  {
    forall p | 0 <= p < j
      ensures ranges[order[p]].from <= ranges[order[j]].from
    {
      assert p < j - 1 ==> ranges[order[p]].from <= ranges[order[j - 1]].from;
    }
  }

  lemma SortedButStarts(order: seq<nat>, ranges: seq<Range>, i: nat)
    requires forall p :: 0 <= p < |order| ==> order[p] < |ranges|
    requires i <= |order| && SortedByFrom(order, ranges, i)
    ensures SortedBut(order, ranges, i, i)
  {
  }

  /** The in-place insertion sort of NewCollector. */
  method InsertionSort(order: array<nat>, ranges: seq<Range>)
    requires IndexOrder(order[..], |ranges|)
    modifies order
    ensures IndexOrder(order[..], |ranges|) && SortedByFrom(order[..], ranges, |ranges|)
  {
    hide IndexOrder, SortedBut;
    OrderInRange(order[..], |ranges|);
    var i := 1;
    while i < order.Length
      invariant 1 <= i && (i <= order.Length || order.Length == 0)
      invariant IndexOrder(order[..], |ranges|) && forall p :: 0 <= p < order.Length ==> order[p] < |ranges|
      invariant i <= order.Length ==> SortedByFrom(order[..], ranges, i)
    {
      hide SortedByFrom;
      var j := i;
      SortedButStarts(order[..], ranges, i);
      while j > 0 && ranges[order[j]].from < ranges[order[j - 1]].from
        invariant 0 <= j <= i < order.Length
        invariant IndexOrder(order[..], |ranges|) && forall p :: 0 <= p < order.Length ==> order[p] < |ranges|
        invariant SortedBut(order[..], ranges, i, j)
      {
        ghost var before := order[..];
        SwapKeepsOrder(before, |ranges|, j - 1, j);
        SortedButSwap(before, ranges, i, j);
        order[j], order[j - 1] := order[j - 1], order[j];
        assert order[..] == before[j - 1 := before[j]][j := before[j - 1]];
        j := j - 1;
      }
      SortedButEnds(order[..], ranges, i, j);
      i := i + 1;
    }
  }

  function Min(a: nat, b: nat): nat
  {
    if a < b then a else b
  }

  /** The part of the stream so far that falls in a range. */
  function Slice(fed: seq<Bytes>, r: Range): seq<Bytes>
    requires r.from <= r.to
  {
    fed[Min(r.from, |fed|)..Min(r.to, |fed|)]
  }

  lemma SliceNext(fed: seq<Bytes>, leaf: Bytes, r: Range)
    requires r.from <= r.to
    ensures Slice(fed + [leaf], r) == if r.from <= |fed| < r.to then Slice(fed, r) + [leaf] else Slice(fed, r)
  {
  }

  /** The cursor's range is the only one the next index can be in. */
  lemma OnlyTheCursor(ranges: seq<Range>, order: seq<nat>, cursor: nat, index: nat, i: nat)
    requires IndexOrder(order, |ranges|) && SortedByFrom(order, ranges, |ranges|) && Disjoint(ranges)
    requires forall k :: 0 <= k < |ranges| ==> ranges[k].from < ranges[k].to
    requires cursor <= |order| && forall j :: 0 <= j < cursor ==> ranges[order[j]].to <= index
    requires cursor < |order| ==> index < ranges[order[cursor]].to
    requires i < |ranges| && ranges[i].from <= index < ranges[i].to
    ensures cursor < |order| && order[cursor] == i
  {
    assert i in order;
    var p :| 0 <= p < |order| && order[p] == i;
  }

  /** Feeding one leaf extends the cursor's slice, if its range has begun, and no other. */
  lemma FeedSlices(ranges: seq<Range>, order: seq<nat>, cursor: nat, fed: seq<Bytes>, leaf: Bytes)
    requires IndexOrder(order, |ranges|) && SortedByFrom(order, ranges, |ranges|) && Disjoint(ranges)
    requires forall k :: 0 <= k < |ranges| ==> ranges[k].from < ranges[k].to
    requires cursor <= |order| && forall j :: 0 <= j < cursor ==> ranges[order[j]].to <= |fed|
    requires cursor < |order| ==> |fed| < ranges[order[cursor]].to
    ensures forall i :: 0 <= i < |ranges| ==>
              Slice(fed + [leaf], ranges[i]) ==
                if cursor < |order| && i == order[cursor] && ranges[i].from <= |fed|
                then Slice(fed, ranges[i]) + [leaf] else Slice(fed, ranges[i])
  {
    forall i | 0 <= i < |ranges|
      ensures Slice(fed + [leaf], ranges[i]) ==
                if cursor < |order| && i == order[cursor] && ranges[i].from <= |fed|
                then Slice(fed, ranges[i]) + [leaf] else Slice(fed, ranges[i])
    {
      SliceNext(fed, leaf, ranges[i]);
      if ranges[i].from <= |fed| < ranges[i].to {
        OnlyTheCursor(ranges, order, cursor, |fed|, i);
      }
    }
  }

  method FreshStacks(n: nat) returns (stacks: seq<Stack>)
    ensures |stacks| == n && fresh(stacks)
    ensures forall i :: 0 <= i < n ==> stacks[i].Valid() && stacks[i].Leaves() == []
    ensures forall i, j :: 0 <= i < j < n ==> stacks[i] != stacks[j]
  {
    stacks := [];
    while |stacks| < n
      invariant |stacks| <= n && fresh(stacks)
      invariant forall i :: 0 <= i < |stacks| ==> stacks[i].Valid() && stacks[i].Leaves() == []
      invariant forall i, j :: 0 <= i < j < |stacks| ==> stacks[i] != stacks[j]
    {
      var stack := new Stack();
      stacks := stacks + [stack];
    }
  }

  lemma PlannedRanges(oldSize: nat, newSize: nat)
    requires 1 <= oldSize <= newSize
    ensures Disjoint(Ranges(oldSize, newSize).value) && AllWithin(Ranges(oldSize, newSize).value, 0, newSize)
  {
    RangesDisjoint(oldSize, 0, newSize, true);
  }

  class Collector {
    const oldSize: nat
    const newSize: nat
    const ranges: seq<Range>
    const order: seq<nat>
    const stacks: seq<Stack>
    var cursor: nat
    var count: nat
    ghost var fed: seq<Bytes>

    ghost predicate Valid()
      reads this, stacks
    {
      && Planned()
      && count == |fed| && cursor <= |order|
      && (forall j :: 0 <= j < cursor ==> ranges[order[j]].to <= count)
      && (forall i :: 0 <= i < |stacks| ==> stacks[i].Valid() && stacks[i].Leaves() == Slice(fed, ranges[i]))
    }

    /** What construction fixes. */
    ghost predicate Planned()
    {
      && 1 <= oldSize <= newSize && Ranges(oldSize, newSize) == Some(ranges)
      && Disjoint(ranges) && AllWithin(ranges, 0, newSize)
      && IndexOrder(order, |ranges|) && SortedByFrom(order, ranges, |ranges|)
      && |stacks| == |ranges| && (forall i, j :: 0 <= i < j < |stacks| ==> stacks[i] != stacks[j])
    }

    constructor (oldSize: nat, newSize: nat, ranges: seq<Range>, order: seq<nat>, stacks: seq<Stack>)
      requires 1 <= oldSize <= newSize && Ranges(oldSize, newSize) == Some(ranges)
      requires IndexOrder(order, |ranges|) && SortedByFrom(order, ranges, |ranges|)
      requires |stacks| == |ranges| && forall i, j :: 0 <= i < j < |stacks| ==> stacks[i] != stacks[j]
      requires forall i :: 0 <= i < |stacks| ==> stacks[i].Valid() && stacks[i].Leaves() == []
      ensures Valid() && fed == [] && this.stacks == stacks
      ensures this.oldSize == oldSize && this.newSize == newSize
    {
      this.oldSize, this.newSize, this.ranges, this.order, this.stacks := oldSize, newSize, ranges, order, stacks;
      cursor, count, fed := 0, 0, [];
      new;
      PlannedRanges(oldSize, newSize);
    }

    /** One stack takes the leaf; the others are left alone. */
    method Give(i: nat, leafData: Bytes)
      requires i < |stacks| && (forall k :: 0 <= k < |stacks| ==> stacks[k].Valid())
      requires forall j, k :: 0 <= j < k < |stacks| ==> stacks[j] != stacks[k]
      modifies stacks
      ensures forall k :: 0 <= k < |stacks| ==> stacks[k].Valid()
      ensures forall k :: 0 <= k < |stacks| ==>
                stacks[k].Leaves() == old(stacks[k].Leaves()) + if k == i then [leafData] else []
    {
      hide Concat, Summarises, Descending;
      stacks[i].Append(leafData);
    }

    /** Moves on past the ranges that end at or before the index. */
    method Advance(index: nat)
      requires cursor <= |order| && forall i :: 0 <= i < |order| ==> order[i] < |ranges|
      requires forall j :: 0 <= j < cursor ==> ranges[order[j]].to <= index
      modifies `cursor
      ensures cursor <= |order| && forall j :: 0 <= j < cursor ==> ranges[order[j]].to <= index
      ensures cursor < |order| ==> index < ranges[order[cursor]].to
    {
      while cursor < |order| && index >= ranges[order[cursor]].to
        invariant cursor <= |order| && forall j :: 0 <= j < cursor ==> ranges[order[j]].to <= index
      {
        cursor := cursor + 1;
      }
    }

    /** Feeds the next leaf in tree order; leaves beyond newSize belong to no range. */
    method Append(leafData: Bytes)
      requires Valid()
      modifies this, stacks
      ensures Valid() && fed == old(fed) + [leafData]
    {
      hide Slice, Disjoint, IndexOrder, SortedByFrom, AllWithin, Ranges, Stack.Valid, Stack.Leaves;
      OrderInRange(order, |ranges|);
      var index := count;
      count := count + 1;
      Advance(index);
      NoneEmpty(ranges, newSize);
      FeedSlices(ranges, order, cursor, fed, leafData);
      fed := fed + [leafData];
      if cursor >= |order| {
        return;
      }
      var r := ranges[order[cursor]];
      if index >= r.from && index < r.to {
        Give(order[cursor], leafData);
      }
    }

    /** None is the source's ErrIncomplete. */
    method Nodes() returns (nodes: Option<seq<Bytes>>)
      requires Valid()
      ensures nodes == if |fed| < newSize then None else Prove(fed[..newSize], oldSize)
    {
      if count < newSize {
        return None;
      }
      RangesAreProof(fed[..newSize], oldSize);
      ghost var proof := Prove(fed[..newSize], oldSize).value;
      var collected: seq<Bytes> := [];
      while |collected| < |ranges|
        invariant |collected| <= |ranges| == |proof|
        invariant collected == proof[..|collected|]
      {
        var i := |collected|;
        SliceComplete(fed, newSize, ranges[i]);
        var hash := stacks[i].Root();
        if hash.None? {
          return None;
        }
        collected := collected + [hash.value];
      }
      assert collected == proof;
      nodes := Some(collected);
    }
  }

  lemma NoneEmpty(ranges: seq<Range>, n: nat)
    requires AllWithin(ranges, 0, n)
    ensures forall i :: 0 <= i < |ranges| ==> ranges[i].from < ranges[i].to
  {
    assert forall i :: 0 <= i < |ranges| ==> Within(ranges[i], 0, n);
  }

  lemma SliceComplete(fed: seq<Bytes>, n: nat, r: Range)
    requires n <= |fed| && Within(r, 0, n)
    ensures Slice(fed, r) == fed[..n][r.from..r.to] != []
  {
  }

  /** None is the source's error: the old size is out of range. */
  method NewCollector(oldSize: int, newSize: int) returns (collector: Option<Collector>)
    ensures collector.None? <==> oldSize < 1 || oldSize > newSize
    ensures collector.Some? ==> fresh(collector.value) && fresh(collector.value.stacks)
    ensures collector.Some? ==> collector.value.Valid() && collector.value.fed == []
    ensures collector.Some? ==> collector.value.oldSize == oldSize && collector.value.newSize == newSize
  {
    var planned := Ranges(oldSize, newSize);
    if planned.None? {
      return None;
    }
    var ranges := planned.value;
    var order := Identity(|ranges|);
    InsertionSort(order, ranges);
    var stacks := FreshStacks(|ranges|);
    var c := new Collector(oldSize, newSize, ranges, order[..], stacks);
    collector := Some(c);
  }
}

/** verify/walk.go: every range has its leaves exactly when the ranges tile what streamed past, some perhaps empty. */
module RangeTiles {
  import opened Bytes
  import opened WalkTrees

  /** Each range starts where the one before it ended, wherever that is. */
  ghost predicate Chained(ranges: seq<Sealed>, start: int)
  {
    forall k :: 0 <= k < |ranges| ==> ranges[k].from == Begin(ranges, start, k)
  }

  /** Where range k is to start. */
  function Begin(ranges: seq<Sealed>, start: int, k: nat): int
    requires k <= |ranges|
  {
    if k == 0 then start else ranges[k - 1].to + 1
  }

  /** The range whose tree answers for range i: of the first k, the last that starts where it does. */
  function Heir(ranges: seq<Sealed>, i: nat, k: nat): (j: nat)
    requires i < k <= |ranges|
    ensures i <= j < k && ranges[j].from == ranges[i].from
    ensures forall l :: j < l < k ==> ranges[l].from != ranges[i].from
  {
    if k - 1 == i || ranges[k - 1].from == ranges[i].from then k - 1 else Heir(ranges, i, k - 1)
  }

  lemma {:induction false} HeirHolds(ranges: seq<Sealed>, start: int, i: nat, k: nat, leaves: seq<Bytes>)
    requires i < k <= |ranges|
    ensures ranges[i].from in GivenAll(ranges, start, k, leaves)
    ensures GivenAll(ranges, start, k, leaves)[ranges[i].from] == Given(ranges, start, Heir(ranges, i, k), leaves)
  {
    hide Given, GivenAll;
    GivenStep(ranges, start, k - 1, leaves);
    if k - 1 != i && ranges[k - 1].from != ranges[i].from {
      HeirHolds(ranges, start, i, k - 1, leaves);
    }
  }

  lemma GivenLength(ranges: seq<Sealed>, start: int, k: nat, leaves: seq<Bytes>)
    requires k < |ranges|
    ensures var lo, hi := Peak(ranges, start, k) + 1 - start, ranges[k].to + 1 - start;
            var end := if hi < |leaves| then hi else |leaves|;
            |Given(ranges, start, k, leaves)| == if lo < end then end - lo else 0
  {
    hide Peak;
  }

  /** Range k is given no fewer leaves than it covers. */
  ghost predicate Enough(ranges: seq<Sealed>, start: int, k: nat, leaves: seq<Bytes>)
    requires k < |ranges|
  {
    |Given(ranges, start, Heir(ranges, k, |ranges|), leaves)| >= ranges[k].to - ranges[k].from + 1
  }

  ghost predicate AllEnough(ranges: seq<Sealed>, start: int, leaves: seq<Bytes>)
  {
    forall k :: 0 <= k < |ranges| ==> Enough(ranges, start, k, leaves)
  }

  /** Range k starts right after all that came before it, and covers at least nothing. */
  ghost predicate InTile(ranges: seq<Sealed>, start: int, k: nat)
    requires k < |ranges|
  {
    ranges[k].from == Peak(ranges, start, k) + 1 && ranges[k].from <= ranges[k].to + 1
  }

  ghost predicate Tiled(ranges: seq<Sealed>, start: int)
  {
    forall k :: 0 <= k < |ranges| ==> InTile(ranges, start, k)
  }

  lemma {:induction false} PeakRises(ranges: seq<Sealed>, start: int, j: nat, k: nat)
    requires j <= k <= |ranges|
    ensures Peak(ranges, start, j) <= Peak(ranges, start, k)
    ensures j < k ==> ranges[j].to <= Peak(ranges, start, k)
    decreases k
  {
    hide Peak;
    if j < k {
      PeakStep(ranges, start, k - 1);
      PeakRises(ranges, start, j, k - 1);
    }
  }

  /** A chained range starts no later than right after what came before it. */
  lemma StartsWithin(ranges: seq<Sealed>, start: int, k: nat)
    requires Chained(ranges, start) && k < |ranges|
    ensures ranges[k].from <= Peak(ranges, start, k) + 1
  {
    hide Peak;
    PeakStep(ranges, start, if k > 0 then k - 1 else 0);
  }

  /** Nothing that starts where k starts can hold leaves unless k starts right after what came before it. */
  lemma HeirGiven(ranges: seq<Sealed>, start: int, k: nat, leaves: seq<Bytes>)
    requires Chained(ranges, start) && AllEnough(ranges, start, leaves) && k < |ranges|
    requires Given(ranges, start, Heir(ranges, k, |ranges|), leaves) != []
    ensures var j := Heir(ranges, k, |ranges|);
            ranges[k].from == Peak(ranges, start, j) + 1 && ranges[j].to + 1 - start <= |leaves|
  {
    hide Peak, Given, Heir;
    var j := Heir(ranges, k, |ranges|);
    assert Heir(ranges, j, |ranges|) == j;
    assert Enough(ranges, start, j, leaves);
    GivenLength(ranges, start, j, leaves);
    StartsWithin(ranges, start, j);
  }

  /** A range that reaches past all before it starts right after them and ends among the leaves. */
  lemma RecordInTile(ranges: seq<Sealed>, start: int, k: nat, leaves: seq<Bytes>)
    requires Chained(ranges, start) && AllEnough(ranges, start, leaves) && k < |ranges|
    requires ranges[k].to > Peak(ranges, start, k)
    ensures InTile(ranges, start, k) && ranges[k].to + 1 - start <= |leaves|
  {
    hide Peak, Given, Heir, Chained;
    var j := Heir(ranges, k, |ranges|);
    StartsWithin(ranges, start, k);
    assert Enough(ranges, start, k, leaves);
    HeirGiven(ranges, start, k, leaves);
    if j > k {
      PeakRises(ranges, start, k, j);
      assert false;
    }
  }

  /** A range that reaches past none before it is empty or goes back. */
  lemma OtherGoesBack(ranges: seq<Sealed>, start: int, k: nat, leaves: seq<Bytes>)
    requires Chained(ranges, start) && AllEnough(ranges, start, leaves) && k < |ranges|
    requires ranges[k].to <= Peak(ranges, start, k)
    ensures ranges[k].to < ranges[k].from
  {
    hide Peak, Given, Heir, Chained;
    var j := Heir(ranges, k, |ranges|);
    assert Enough(ranges, start, k, leaves);
    if ranges[k].to >= ranges[k].from {
      HeirGiven(ranges, start, k, leaves);
      PeakRises(ranges, start, k, j);
      assert false;
    }
  }

  /** Where the next range is to start, it lies right after all before it, or behind. */
  ghost predicate Behind(ranges: seq<Sealed>, start: int, k: nat)
    requires k <= |ranges|
  {
    Begin(ranges, start, k) <= Peak(ranges, start, k)
  }

  /** Once behind, always behind. */
  lemma {:induction false} StaysBehind(ranges: seq<Sealed>, start: int, j: nat, k: nat, leaves: seq<Bytes>)
    requires Chained(ranges, start) && AllEnough(ranges, start, leaves) && j <= k <= |ranges|
    requires Behind(ranges, start, j)
    ensures Behind(ranges, start, k)
    decreases k
  {
    hide Peak, AllEnough;
    if j < k {
      StaysBehind(ranges, start, j, k - 1, leaves);
      PeakStep(ranges, start, k - 1);
      if ranges[k - 1].to > Peak(ranges, start, k - 1) {
        RecordInTile(ranges, start, k - 1, leaves);
        assert false;
      } else {
        OtherGoesBack(ranges, start, k - 1, leaves);
      }
    }
  }

  lemma {:induction false} PeakWithin(ranges: seq<Sealed>, start: int, k: nat, leaves: seq<Bytes>)
    requires Chained(ranges, start) && AllEnough(ranges, start, leaves) && k <= |ranges|
    ensures Peak(ranges, start, k) + 1 - start <= |leaves|
  {
    hide Peak, AllEnough, Chained;
    if k == 0 {
      GivenNone(ranges, start, leaves);
    } else {
      PeakWithin(ranges, start, k - 1, leaves);
      PeakStep(ranges, start, k - 1);
      if ranges[k - 1].to > Peak(ranges, start, k - 1) {
        RecordInTile(ranges, start, k - 1, leaves);
      }
    }
  }

  /** Chained ranges that all have their leaves, and end with the leaves, tile them. */
  lemma EnoughTiles(ranges: seq<Sealed>, start: int, leaves: seq<Bytes>)
    requires Chained(ranges, start) && AllEnough(ranges, start, leaves)
    requires Begin(ranges, start, |ranges|) == start + |leaves|
    ensures Tiled(ranges, start)
  {
    hide Peak, AllEnough, Chained;
    var m := |ranges|;
    forall k | 0 <= k < m
      ensures InTile(ranges, start, k)
    {
      if Behind(ranges, start, k) || Behind(ranges, start, k + 1) {
        StaysBehind(ranges, start, if Behind(ranges, start, k) then k else k + 1, m, leaves);
        PeakWithin(ranges, start, m, leaves);
        assert false;
      }
      NotBehind(ranges, start, k);
    }
  }

  lemma NotBehind(ranges: seq<Sealed>, start: int, k: nat)
    requires Chained(ranges, start) && k < |ranges| && !Behind(ranges, start, k) && !Behind(ranges, start, k + 1)
    ensures InTile(ranges, start, k)
  {
    hide Peak;
    StartsWithin(ranges, start, k);
    PeakStep(ranges, start, k);
  }

  /** Tiling ranges reach just their own ends, all of them among the leaves. */
  lemma TileEnds(ranges: seq<Sealed>, start: int, k: nat)
    requires Tiled(ranges, start) && k < |ranges|
    ensures start <= ranges[k].from == Peak(ranges, start, k) + 1 <= ranges[k].to + 1 <= Begin(ranges, start, |ranges|)
  {
    hide Peak;
    var last := |ranges| - 1;
    assert InTile(ranges, start, k) && InTile(ranges, start, last);
    PeakStep(ranges, start, k);
    PeakStep(ranges, start, last);
    PeakRises(ranges, start, k, last + 1);
  }

  /** Only an empty range leaves another to start where it does. */
  lemma HeirOfTile(ranges: seq<Sealed>, start: int, k: nat)
    requires Tiled(ranges, start) && k < |ranges|
    ensures Heir(ranges, k, |ranges|) == k || ranges[k].to + 1 == ranges[k].from
  {
    hide Peak, Heir;
    var j := Heir(ranges, k, |ranges|);
    if j > k {
      assert InTile(ranges, start, j) && InTile(ranges, start, k);
      PeakRises(ranges, start, k, j);
    }
  }

  /** Tiling ranges have their leaves: their own sequences', or for an empty one those of its heir. */
  lemma TilesGiven(ranges: seq<Sealed>, start: int, k: nat, leaves: seq<Bytes>)
    requires Tiled(ranges, start) && k < |ranges| && Begin(ranges, start, |ranges|) == start + |leaves|
    ensures var j := Heir(ranges, k, |ranges|);
            && Given(ranges, start, j, leaves) == Part(leaves, ranges[k].from - start, ranges[j].to + 1 - start)
            && start <= ranges[k].from <= ranges[j].to + 1 <= start + |leaves|
    ensures Enough(ranges, start, k, leaves)
  {
    hide Peak, Part, Heir, Tiled;
    var j := Heir(ranges, k, |ranges|);
    TileEnds(ranges, start, k);
    TileEnds(ranges, start, j);
    HeirOfTile(ranges, start, k);
    GivenLength(ranges, start, j, leaves);
  }
}

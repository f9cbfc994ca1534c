/** internal/merkle/consistency.go: where in the tree each node of a consistency proof sits. */
module ProofRanges {
  import opened Bytes
  import opened MerkleTree
  import opened ConsistencyProof

  /** A half-open run of leaf indexes. */
  datatype Range = Range(from: nat, to: nat)

  function SubRanges(oldSize: nat, start: nat, count: nat, complete: bool): seq<Range>
    requires 1 <= oldSize <= count
    decreases count
  {
    if oldSize == count then
      if complete then [] else [Range(start, start + count)]
    else
      var k := Split(count);
      if oldSize <= k then SubRanges(oldSize, start, k, complete) + [Range(start + k, start + count)]
      else SubRanges(oldSize - k, start + k, count - k, false) + [Range(start, start + k)]
  }

  function Ranges(oldSize: int, newSize: int): Option<seq<Range>>
  {
    if oldSize < 1 || oldSize > newSize then None
    else if oldSize == newSize then Some([])
    else Some(SubRanges(oldSize, 0, newSize, true))
  }

  ghost predicate Within(r: Range, from: nat, to: nat)
  {
    from <= r.from < r.to <= to
  }

  ghost predicate Disjoint(ranges: seq<Range>)
  {
    forall i, j :: 0 <= i < j < |ranges| ==> ranges[i].to <= ranges[j].from || ranges[j].to <= ranges[i].from
  }

  ghost predicate Covers(ranges: seq<Range>, x: nat)
  {
    exists i :: 0 <= i < |ranges| && ranges[i].from <= x < ranges[i].to
  }

  ghost predicate AllWithin(ranges: seq<Range>, from: nat, to: nat)
  {
    forall i :: 0 <= i < |ranges| ==> Within(ranges[i], from, to)
  }

  lemma DisjointPush(ranges: seq<Range>, last: Range, from: nat, to: nat)
    requires Disjoint(ranges) && AllWithin(ranges, from, to)
    requires last.to <= from || to <= last.from
    ensures Disjoint(ranges + [last])
  {
  }

  lemma {:induction false} RangesDisjoint(m: nat, start: nat, count: nat, complete: bool)
    requires 1 <= m <= count
    ensures Disjoint(SubRanges(m, start, count, complete))
    ensures AllWithin(SubRanges(m, start, count, complete), start, start + count)
    decreases count
  {
    hide Disjoint, SubRanges, Split, PowerOfTwo;
    if m == count {
      SubRangesOne(m, start, complete);
      Singleton(SubRanges(m, start, count, complete));
    } else {
      var k := Split(count);
      SubRangesStep(m, start, count, complete);
      if m <= k {
        RangesDisjoint(m, start, k, complete);
        DisjointPush(SubRanges(m, start, k, complete), Range(start + k, start + count), start, start + k);
      } else {
        RangesDisjoint(m - k, start + k, count - k, false);
        DisjointPush(SubRanges(m - k, start + k, count - k, false), Range(start, start + k), start + k, start + count);
      }
    }
  }

  lemma Singleton(ranges: seq<Range>)
    requires |ranges| <= 1
    ensures Disjoint(ranges)
  {
  }

  lemma CoversPush(ranges: seq<Range>, last: Range, x: nat)
    ensures Covers(ranges + [last], x) <==> Covers(ranges, x) || last.from <= x < last.to
  {
    var all := ranges + [last];
    if Covers(ranges, x) {
      var i :| 0 <= i < |ranges| && ranges[i].from <= x < ranges[i].to;
      assert all[i] == ranges[i];
    }
    assert all[|ranges|] == last;
  }

  /** The ranges tile the tree, but for the complete old tree, which the verifier puts back itself. */
  lemma {:induction false} RangesCover(m: nat, start: nat, count: nat, complete: bool, x: nat)
    requires 1 <= m <= count && (complete && m == count ==> PowerOfTwo(m))
    ensures Covers(SubRanges(m, start, count, complete), x)
       <==> start + (if complete && PowerOfTwo(m) then m else 0) <= x < start + count
    decreases count
  {
    hide SubRanges, Split;
    if m == count {
      SubRangesOne(m, start, complete);
      assert !complete ==> SubRanges(m, start, count, complete)[0] == Range(start, start + count);
    } else {
      var k := Split(count);
      SubRangesStep(m, start, count, complete);
      if m <= k {
        RangesCover(m, start, k, complete, x);
        CoversPush(SubRanges(m, start, k, complete), Range(start + k, start + count), x);
      } else {
        if PowerOfTwo(m) {
          PowersApart(k, m);
        }
        RangesCover(m - k, start + k, count - k, false, x);
        CoversPush(SubRanges(m - k, start + k, count - k, false), Range(start, start + k), x);
      }
    }
  }

  /** A proof from m < n covers all of [0, n), or exactly [m, n) when m is a power of two. */
  lemma RangesTile(m: nat, n: nat, x: nat)
    requires 1 <= m < n
    ensures Covers(Ranges(m, n).value, x) <==> (if PowerOfTwo(m) then m else 0) <= x < n
    ensures Disjoint(Ranges(m, n).value)
    ensures forall i :: 0 <= i < |Ranges(m, n).value| ==> Ranges(m, n).value[i].from < Ranges(m, n).value[i].to <= n
  {
    hide SubRanges;
    RangesCover(m, 0, n, true, x);
    RangesDisjoint(m, 0, n, true);
  }

  /** Each range's root is the proof node at the same place. */
  ghost predicate RootsOf(ranges: seq<Range>, leaves: seq<Bytes>, nodes: seq<Bytes>)
  {
    && |ranges| == |nodes|
    && forall i :: 0 <= i < |ranges| ==>
         && Within(ranges[i], 0, |leaves|)
         && nodes[i] == Root(leaves[ranges[i].from..ranges[i].to])
  }

  lemma RootsOfPush(ranges: seq<Range>, leaves: seq<Bytes>, nodes: seq<Bytes>, last: Range, node: Bytes)
    requires RootsOf(ranges, leaves, nodes)
    requires last.from < last.to <= |leaves| && node == Root(leaves[last.from..last.to])
    ensures RootsOf(ranges + [last], leaves, nodes + [node])
  {
    hide Root;
  }

  lemma SliceSlice(leaves: seq<Bytes>, start: nat, end: nat, from: nat, to: nat)
    requires start <= end <= |leaves| && from <= to <= end - start
    ensures leaves[start..end][from..to] == leaves[start + from..start + to]
  {
    var a, b := leaves[start..end][from..to], leaves[start + from..start + to];
    assert |a| == |b| && forall i :: 0 <= i < |a| ==> a[i] == b[i];
  }

  lemma {:induction false} RangesMatchProof(m: nat, start: nat, count: nat, complete: bool, leaves: seq<Bytes>)
    requires 1 <= m <= count && start + count <= |leaves|
    ensures RootsOf(SubRanges(m, start, count, complete), leaves, SubProof(m, leaves[start..start + count], complete))
    decreases count
  {
    hide *;
    var sub := leaves[start..start + count];
    assert |sub| == count;
    if m == count {
      RootsOfOne(start, start + count, leaves, complete);
    } else {
      var k := Split(count);
      SubRangesStep(m, start, count, complete);
      SubProofStep(m, sub, complete);
      SliceSlice(leaves, start, start + count, 0, k);
      SliceSlice(leaves, start, start + count, k, count);
      assert sub[..k] == leaves[start..start + k] && sub[k..] == leaves[start + k..start + count];
      if m <= k {
        RangesMatchProof(m, start, k, complete, leaves);
        RootsOfPush(SubRanges(m, start, k, complete), leaves, SubProof(m, sub[..k], complete),
                    Range(start + k, start + count), Root(sub[k..]));
      } else {
        RangesMatchProof(m - k, start + k, count - k, false, leaves);
        RootsOfPush(SubRanges(m - k, start + k, count - k, false), leaves, SubProof(m - k, sub[k..], false),
                    Range(start, start + k), Root(sub[..k]));
      }
    }
  }

  lemma SubRangesOne(m: nat, start: nat, complete: bool)
    requires m >= 1
    ensures SubRanges(m, start, m, complete) == if complete then [] else [Range(start, start + m)]
  {
  }

  lemma SubRangesStep(m: nat, start: nat, count: nat, complete: bool)
    requires 1 <= m < count
    ensures var k := Split(count);
            SubRanges(m, start, count, complete) ==
              if m <= k then SubRanges(m, start, k, complete) + [Range(start + k, start + count)]
              else SubRanges(m - k, start + k, count - k, false) + [Range(start, start + k)]
  {
  }

  lemma RootsOfOne(from: nat, to: nat, leaves: seq<Bytes>, complete: bool)
    requires from < to <= |leaves|
    ensures RootsOf(SubRanges(to - from, from, to - from, complete), leaves,
                    SubProof(to - from, leaves[from..to], complete))
  {
  }

  /** Proof order and range order agree, node for node. */
  lemma RangesAreProof(leaves: seq<Bytes>, m: nat)
    requires 1 <= m <= |leaves|
    ensures Ranges(m, |leaves|).Some? && Prove(leaves, m).Some?
    ensures RootsOf(Ranges(m, |leaves|).value, leaves, Prove(leaves, m).value)
  {
    if m < |leaves| {
      RangesMatchProof(m, 0, |leaves|, true, leaves);
      assert leaves[0..0 + |leaves|] == leaves;
    }
  }
}

/** internal/merkle/merkle.go: the Certificate Transparency hash stack, and why it computes the recursive root. */
module HashStack {
  import opened Bytes
  import opened MerkleTree

  datatype Entry = Entry(size: nat, hash: Bytes)

  function Concat(groups: seq<seq<Bytes>>): seq<Bytes>
  {
    if groups == [] then [] else groups[0] + Concat(groups[1..])
  }

  lemma {:induction false} ConcatPush(groups: seq<seq<Bytes>>, last: seq<Bytes>)
    ensures Concat(groups + [last]) == Concat(groups) + last
  {
    if groups != [] {
      assert (groups + [last])[1..] == groups[1..] + [last];
      ConcatPush(groups[1..], last);
    }
  }

  lemma ConcatMerge(groups: seq<seq<Bytes>>, left: seq<Bytes>, right: seq<Bytes>)
    ensures Concat(groups + [left, right]) == Concat(groups + [left + right])
  {
    assert groups + [left, right] == (groups + [left]) + [right];
    ConcatPush(groups + [left], right);
    ConcatPush(groups, left);
    ConcatPush(groups, left + right);
  }

  /** Each entry is the size and root of its group of leaves. */
  ghost predicate Summarises(entries: seq<Entry>, groups: seq<seq<Bytes>>)
  {
    && |entries| == |groups|
    && forall i :: 0 <= i < |groups| ==> groups[i] != [] && entries[i] == Entry(|groups[i]|, Root(groups[i]))
  }

  /** Perfect subtrees, strictly smaller towards the top. */
  ghost predicate Descending(groups: seq<seq<Bytes>>)
  {
    && (forall i :: 0 <= i < |groups| ==> PowerOfTwo(|groups[i]|))
    && (forall i :: 0 < i < |groups| ==> |groups[i]| < |groups[i - 1]|)
  }

  lemma RootOfPerfectLeft(left: seq<Bytes>, right: seq<Bytes>)
    requires PowerOfTwo(|left|) && 0 < |right| <= |left|
    ensures Root(left + right) == NodeHash(Root(left), Root(right))
  {
    SplitUnique(|left + right|, |left|);
    assert (left + right)[..|left|] == left && (left + right)[|left|..] == right;
  }

  lemma {:induction false} DescendingSum(groups: seq<seq<Bytes>>)
    requires Descending(groups) && groups != []
    ensures |groups[0]| <= |Concat(groups)| < 2 * |groups[0]|
  {
    if |groups| > 1 {
      DescendingSum(groups[1..]);
      PowersApart(|groups[1]|, |groups[0]|);
    }
  }

  /** What holds while Append merges: descending below the top entry, and the top no larger than the next. */
  ghost predicate Merging(entries: seq<Entry>, groups: seq<seq<Bytes>>)
  {
    && entries != [] && Summarises(entries, groups)
    && Descending(groups[..|groups| - 1]) && PowerOfTwo(|groups[|groups| - 1]|)
    && (|groups| > 1 ==> |groups[|groups| - 1]| <= |groups[|groups| - 2]|)
  }

  ghost function Merged(groups: seq<seq<Bytes>>): seq<seq<Bytes>>
    requires |groups| >= 2
  {
    groups[..|groups| - 2] + [groups[|groups| - 2] + groups[|groups| - 1]]
  }

  lemma MergeStep(entries: seq<Entry>, groups: seq<seq<Bytes>>)
    requires Merging(entries, groups) && |entries| > 1
    requires entries[|entries| - 2].size == entries[|entries| - 1].size
    ensures var n, top := |entries|, entries[|entries| - 1];
            Merging(entries[..n - 2] + [Entry(top.size * 2, NodeHash(entries[n - 2].hash, top.hash))], Merged(groups))
    ensures Concat(Merged(groups)) == Concat(groups)
  {
    hide PowerOfTwo, Descending, Concat, Root, NodeHash;
    var n := |groups|;
    assert groups[..n - 1][n - 2] == groups[n - 2];
    DescendingAt(groups[..n - 1], n - 2);
    MergeKeepsLeaves(groups);
    MergedShape(groups);
    RootOfPerfectLeft(groups[n - 2], groups[n - 1]);
    assert Merged(groups)[..n - 2] == groups[..n - 2];
  }

  lemma DescendingAt(groups: seq<seq<Bytes>>, i: nat)
    requires Descending(groups) && i < |groups|
    ensures PowerOfTwo(|groups[i]|)
  {
  }

  lemma MergeKeepsLeaves(groups: seq<seq<Bytes>>)
    requires |groups| >= 2
    ensures Concat(Merged(groups)) == Concat(groups)
  {
    hide Concat;
    var n := |groups|;
    assert groups == groups[..n - 2] + [groups[n - 2], groups[n - 1]];
    ConcatMerge(groups[..n - 2], groups[n - 2], groups[n - 1]);
  }

  lemma MergedShape(groups: seq<seq<Bytes>>)
    requires |groups| >= 2 && Descending(groups[..|groups| - 1])
    requires |groups[|groups| - 2]| == |groups[|groups| - 1]| && PowerOfTwo(|groups[|groups| - 1]|)
    ensures var merged := Merged(groups);
            && Descending(merged[..|merged| - 1]) && PowerOfTwo(|merged[|merged| - 1]|)
            && (|merged| > 1 ==> |merged[|merged| - 1]| <= |merged[|merged| - 2]|)
  {
    var n, lower := |groups|, groups[..|groups| - 1];
    assert Merged(groups)[..n - 2] == lower[..n - 2];
    assert |Merged(groups)[n - 2]| == 2 * |groups[n - 1]|;
    if n > 2 {
      assert |lower[n - 2]| < |lower[n - 3]|;
      PowersApart(|lower[n - 2]|, |lower[n - 3]|);
    }
  }

  lemma MergeEnd(entries: seq<Entry>, groups: seq<seq<Bytes>>)
    requires Merging(entries, groups)
    requires |entries| > 1 ==> entries[|entries| - 2].size != entries[|entries| - 1].size
    ensures Descending(groups)
  {
    var n := |groups|;
    assert forall i :: 0 <= i < n - 1 ==> groups[..n - 1][i] == groups[i];
  }

  ghost predicate FoldsTo(groups: seq<seq<Bytes>>, i: nat, hash: Bytes)
    requires i < |groups|
  {
    Concat(groups[i..]) != [] && hash == Root(Concat(groups[i..]))
  }

  lemma FoldStep(groups: seq<seq<Bytes>>, i: nat)
    requires Descending(groups) && i < |groups| && groups[i] != []
    ensures i + 1 == |groups| ==> FoldsTo(groups, i, Root(groups[i]))
    ensures i + 1 < |groups| ==> forall hash :: FoldsTo(groups, i + 1, hash) ==>
              FoldsTo(groups, i, NodeHash(Root(groups[i]), hash))
  {
    assert groups[i..][0] == groups[i] && groups[i..][1..] == groups[i + 1..];
    assert Concat(groups[i..]) == groups[i] + Concat(groups[i + 1..]);
    if i + 1 < |groups| {
      DescendingSum(groups[i + 1..]);
      PowersApart(|groups[i + 1]|, |groups[i]|);
      RootOfPerfectLeft(groups[i], Concat(groups[i + 1..]));
    } else {
      assert Concat(groups[i..]) == groups[i];
    }
  }

  class Stack {
    var entries: seq<Entry>
    var count: nat
    ghost var groups: seq<seq<Bytes>>

    ghost predicate Valid()
      reads this
    {
      Summarises(entries, groups) && Descending(groups) && count == |Leaves()|
    }

    /** The leaves appended since the last Reset. */
    ghost function Leaves(): seq<Bytes>
      reads this
    {
      Concat(groups)
    }

    constructor ()
      ensures Valid() && Leaves() == []
    {
      entries, count, groups := [], 0, [];
    }

    method Append(leafData: Bytes)
      requires Valid()
      modifies this
      ensures Valid() && Leaves() == old(Leaves()) + [leafData]
    {
      hide Concat;
      ConcatPush(groups, [leafData]);
      entries := entries + [Entry(1, LeafHash(leafData))];
      count := count + 1;
      groups := groups + [[leafData]];
      while |entries| > 1 && entries[|entries| - 2].size == entries[|entries| - 1].size
        invariant Merging(entries, groups)
        invariant count == |Leaves()| && Leaves() == old(Leaves()) + [leafData]
        decreases |entries|
      {
        var n, top := |entries|, entries[|entries| - 1];
        MergeStep(entries, groups);
        entries := entries[..n - 2] + [Entry(top.size * 2, NodeHash(entries[n - 2].hash, top.hash))];
        groups := Merged(groups);
      }
      MergeEnd(entries, groups);
    }

    function Len(): (n: nat)
      requires Valid()
      reads this
      ensures n == |Leaves()|
    {
      count
    }

    /** Folds the subtree roots smallest first. None is the source's false, for an empty stack. */
    method Root() returns (root: Option<Bytes>)
      requires Valid()
      ensures root == if Leaves() == [] then None else Some(MerkleTree.Root(Leaves()))
    {
      if entries == [] {
        return None;
      }
      root := None;
      var i := |entries|;
      while i > 0
        invariant 0 <= i <= |entries| == |groups|
        invariant i == |entries| <==> root.None?
        invariant root.Some? ==> FoldsTo(groups, i, root.value)
      {
        i := i - 1;
        FoldStep(groups, i);
        if root.None? {
          root := Some(entries[i].hash);
        } else {
          root := Some(NodeHash(entries[i].hash, root.value));
        }
      }
      assert groups[0..] == groups;
    }

    method Reset()
      requires Valid()
      modifies this
      ensures Valid() && Leaves() == []
    {
      entries, count, groups := [], 0, [];
    }
  }

  function BitCount(n: nat): nat
  {
    if n == 0 then 0 else n % 2 + BitCount(n / 2)
  }

  lemma {:induction false} BitCountHigh(k: nat, low: nat)
    requires PowerOfTwo(k) && low < k
    ensures BitCount(k + low) == 1 + BitCount(low)
  {
    if k > 1 {
      BitCountHigh(k / 2, low / 2);
      assert (k + low) / 2 == k / 2 + low / 2 && (k + low) % 2 == low % 2;
    }
  }

  /** A stack holds one perfect subtree per set bit of the leaf count, so its memory is logarithmic. */
  lemma {:induction false} OneEntryPerSetBit(entries: seq<Entry>, groups: seq<seq<Bytes>>)
    requires Summarises(entries, groups) && Descending(groups)
    ensures |entries| == BitCount(|Concat(groups)|)
  {
    if groups != [] {
      TailSummarised(entries, groups);
      OneEntryPerSetBit(entries[1..], groups[1..]);
      BitCountHigh(|groups[0]|, |Concat(groups[1..])|);
    }
  }

  /** Below the first perfect subtree is a smaller stack, of fewer leaves than that subtree. */
  lemma TailSummarised(entries: seq<Entry>, groups: seq<seq<Bytes>>)
    requires Summarises(entries, groups) && Descending(groups) && groups != []
    ensures Summarises(entries[1..], groups[1..]) && Descending(groups[1..])
    ensures PowerOfTwo(|groups[0]|) && |Concat(groups[1..])| < |groups[0]|
    ensures |Concat(groups)| == |groups[0]| + |Concat(groups[1..])|
  {
    hide PowerOfTwo, Root;
    if |groups| > 1 {
      DescendingSum(groups[1..]);
      PowersApart(|groups[1]|, |groups[0]|);
    }
  }
}

/** internal/merkle/merkle.go: leaf and node hashes, the split point, and the recursive RFC 6962 root. */
module MerkleTree {
  import opened Bytes

  function LeafInput(data: Bytes): Bytes { [0] + data }

  function NodeInput(left: Bytes, right: Bytes): Bytes { [1] + left + right }

  function LeafHash(data: Bytes): Bytes { Sha256(LeafInput(data)) }

  function NodeHash(left: Bytes, right: Bytes): Bytes { Sha256(NodeInput(left, right)) }

  predicate PowerOfTwo(n: nat)
  {
    n == 1 || (n > 1 && n % 2 == 0 && PowerOfTwo(n / 2))
  }

  /** The largest power of two strictly below n. */
  function Split(n: nat): (k: nat)
    requires n > 1
    ensures PowerOfTwo(k) && k < n <= 2 * k
  {
    if n == 2 then 1 else 2 * Split((n + 1) / 2)
  }

  /** Powers of two at most a factor of two apart are equal, so Split is the only candidate. */
  lemma {:induction false} PowersApart(a: nat, b: nat)
    requires PowerOfTwo(a) && PowerOfTwo(b) && a < b
    ensures 2 * a <= b
  {
    if a > 1 {
      PowersApart(a / 2, b / 2);
    }
  }

  lemma SplitUnique(n: nat, k: nat)
    requires n > 1 && PowerOfTwo(k) && k < n <= 2 * k
    ensures Split(n) == k
  {
    if k < Split(n) {
      PowersApart(k, Split(n));
    } else if Split(n) < k {
      PowersApart(Split(n), k);
    }
  }

  method SplitPoint(n: nat) returns (split: nat)
    requires n > 1
    ensures PowerOfTwo(split) && split < n <= 2 * split
    ensures split == Split(n)
  {
    split := 1;
    while split * 2 < n
      invariant PowerOfTwo(split) && split < n
      decreases n - split
    {
      split := split * 2;
    }
    SplitUnique(n, split);
  }

  /**
   * The last product SplitPoint forms is 2 * Split(n). In a signed word whose largest value is 2 * limit - 1, such as
   * Go's int with limit 2^62, it fits exactly up to n == limit.
   */
  lemma SplitFits(n: nat, limit: nat)
    requires PowerOfTwo(limit) && 1 < n < 2 * limit
    ensures 2 * Split(n) < 2 * limit <==> n <= limit
  {
    if Split(n) < limit {
      PowersApart(Split(n), limit);
    }
  }

  function Root(leaves: seq<Bytes>): (root: Bytes)
    requires leaves != []
    ensures |root| == 32
  {
    if |leaves| == 1 then LeafHash(leaves[0])
    else
      var k := Split(|leaves|);
      NodeHash(Root(leaves[..k]), Root(leaves[k..]))
  }

  /** Every string hashed to compute Root(leaves). */
  ghost function RootInputs(leaves: seq<Bytes>): set<Bytes>
    requires leaves != []
  {
    if |leaves| == 1 then {LeafInput(leaves[0])}
    else
      var k := Split(|leaves|);
      {NodeInput(Root(leaves[..k]), Root(leaves[k..]))} + RootInputs(leaves[..k]) + RootInputs(leaves[k..])
  }

  lemma RootStep(leaves: seq<Bytes>)
    requires |leaves| > 1
    ensures var k := Split(|leaves|); Root(leaves) == NodeHash(Root(leaves[..k]), Root(leaves[k..]))
  {
  }

  /** Section 2.1 of RFC 6962: 0x00 before a leaf, 0x01 before two subtrees split at the last power of two below n. */
  lemma RootIsRfc6962(leaves: seq<Bytes>, k: nat)
    requires leaves != [] && (|leaves| > 1 ==> PowerOfTwo(k) && k < |leaves| <= 2 * k)
    ensures |leaves| == 1 ==> Root(leaves) == Sha256([0x00] + leaves[0])
    ensures |leaves| > 1 ==> Root(leaves) == Sha256([0x01] + Root(leaves[..k]) + Root(leaves[k..]))
  {
    if |leaves| > 1 {
      SplitUnique(|leaves|, k);
    }
  }

  lemma RootInputsSplit(leaves: seq<Bytes>)
    requires |leaves| > 1
    ensures var k := Split(|leaves|); RootInputs(leaves[..k]) + RootInputs(leaves[k..]) <= RootInputs(leaves)
  {
  }

  lemma LeafInputInjective(a: Bytes, b: Bytes)
    requires LeafInput(a) == LeafInput(b)
    ensures a == b
  {
    assert LeafInput(a)[1..] == a && LeafInput(b)[1..] == b;
  }

  /** Concatenation of two children is ambiguous unless one length is known: equal right lengths decide it. */
  lemma NodeInputSplits(l: Bytes, r: Bytes, l': Bytes, r': Bytes)
    requires NodeInput(l, r) == NodeInput(l', r')
    requires |l| == |l'| || |r| == |r'|
    ensures l == l' && r == r'
  {
    var s, t := NodeInput(l, r), NodeInput(l', r');
    assert |s| == 1 + |l| + |r| && |t| == 1 + |l'| + |r'|;
    assert s[1..][..|l|] == l && t[1..][..|l|] == l';
    assert s[1..][|l|..] == r && t[1..][|l|..] == r';
  }

  lemma DomainsDisjoint(data: Bytes, l: Bytes, r: Bytes)
    ensures LeafInput(data) != NodeInput(l, r)
  {
    assert LeafInput(data)[0] != NodeInput(l, r)[0];
  }

  /** At a fixed number of leaves the root determines them. */
  lemma {:induction false} RootInjective(a: seq<Bytes>, b: seq<Bytes>)
    requires |a| == |b| > 0 && Root(a) == Root(b)
    requires NoCollision(RootInputs(a) + RootInputs(b))
    ensures a == b
  {
    if |a| == 1 {
      LeafInputInjective(a[0], b[0]);
    } else {
      var k := Split(|a|);
      NodeInputSplits(Root(a[..k]), Root(a[k..]), Root(b[..k]), Root(b[k..]));
      RootInjective(a[..k], b[..k]);
      RootInjective(a[k..], b[k..]);
      assert a == a[..k] + a[k..] && b == b[..k] + b[k..];
    }
  }
}

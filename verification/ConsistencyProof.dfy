/** internal/merkle/consistency.go: consistency proofs, stated top down as RFC 6962 section 2.1.2 builds them. */
module ConsistencyProof {
  import opened Bytes
  import opened MerkleTree

  function SubProof(oldSize: nat, leaves: seq<Bytes>, complete: bool): seq<Bytes>
    requires 1 <= oldSize <= |leaves|
    decreases |leaves|
  {
    if oldSize == |leaves| then
      if complete then [] else [Root(leaves)]
    else
      var k := Split(|leaves|);
      if oldSize <= k then SubProof(oldSize, leaves[..k], complete) + [Root(leaves[k..])]
      else SubProof(oldSize - k, leaves[k..], false) + [Root(leaves[..k])]
  }

  /** None is the source's error: the old size is out of range. */
  function Prove(leaves: seq<Bytes>, oldSize: int): Option<seq<Bytes>>
  {
    if oldSize < 1 || oldSize > |leaves| then None
    else if oldSize == |leaves| then Some([])
    else Some(SubProof(oldSize, leaves, true))
  }

  datatype Roots = Roots(before: Bytes, after: Bytes)

  /** What a path of nodes, the seed first, says the two roots are: the last node belongs to the top split. */
  function Replay(oldSize: nat, newSize: nat, nodes: seq<Bytes>): Option<Roots>
    requires 1 <= oldSize <= newSize
    decreases newSize
  {
    if oldSize == newSize then
      if |nodes| == 1 then Some(Roots(nodes[0], nodes[0])) else None
    else if |nodes| < 2 then None
    else
      var k, node, rest := Split(newSize), nodes[|nodes| - 1], nodes[..|nodes| - 1];
      if oldSize <= k then OnRight(Replay(oldSize, k, rest), node)
      else OnLeft(Replay(oldSize - k, newSize - k, rest), node)
  }

  /** A sibling to the right is not part of the old tree. */
  function OnRight(roots: Option<Roots>, node: Bytes): Option<Roots>
  {
    if roots.None? then None else Some(Roots(roots.value.before, NodeHash(roots.value.after, node)))
  }

  function OnLeft(roots: Option<Roots>, node: Bytes): Option<Roots>
  {
    if roots.None? then None
    else Some(Roots(NodeHash(node, roots.value.before), NodeHash(node, roots.value.after)))
  }

  /** A complete old tree is itself the first node of the path. */
  function Seeded(oldSize: nat, oldRoot: Bytes, proof: seq<Bytes>): seq<Bytes>
  {
    if PowerOfTwo(oldSize) then [oldRoot] + proof else proof
  }

  predicate Accepts(oldSize: int, newSize: int, oldRoot: Bytes, newRoot: Bytes, proof: seq<Bytes>)
  {
    && 1 <= oldSize <= newSize
    && if oldSize == newSize then proof == [] && oldRoot == newRoot
       else proof != [] && Replay(oldSize, newSize, Seeded(oldSize, oldRoot, proof)) == Some(Roots(oldRoot, newRoot))
  }

  lemma PrefixSlices(leaves: seq<Bytes>, m: nat, k: nat)
    requires k <= m <= |leaves|
    ensures leaves[..m][..k] == leaves[..k] && leaves[..m][k..] == leaves[k..][..m - k]
  {
  }

  lemma PrefixSplit(leaves: seq<Bytes>, m: nat)
    requires |leaves| > 1 && Split(|leaves|) < m <= |leaves|
    ensures var k := Split(|leaves|); Root(leaves[..m]) == NodeHash(Root(leaves[..k]), Root(leaves[k..][..m - k]))
  {
    var k := Split(|leaves|);
    SplitUnique(m, k);
    PrefixSlices(leaves, m, k);
  }

  lemma SubProofStep(m: nat, leaves: seq<Bytes>, complete: bool)
    requires 1 <= m < |leaves|
    ensures var k := Split(|leaves|);
            SubProof(m, leaves, complete) ==
              if m <= k then SubProof(m, leaves[..k], complete) + [Root(leaves[k..])]
              else SubProof(m - k, leaves[k..], false) + [Root(leaves[..k])]
  {
  }

  /**
   * Without the complete-tree shortcut a subproof starts with its own seed, so it is a whole path for Replay;
   * with the shortcut the verifier puts the seed back itself.
   */
  lemma {:induction false} SeededSubProof(m: nat, leaves: seq<Bytes>)
    requires 1 <= m <= |leaves| && (m == |leaves| ==> PowerOfTwo(m))
    ensures Seeded(m, Root(leaves[..m]), SubProof(m, leaves, true)) == SubProof(m, leaves, false)
    decreases |leaves|
  {
    hide SubProof, Root;
    if m == |leaves| {
      assert leaves[..m] == leaves;
      SubProofWhole(leaves);
    } else {
      var k := Split(|leaves|);
      SubProofStep(m, leaves, true);
      SubProofStep(m, leaves, false);
      if m <= k {
        SeededSubProof(m, leaves[..k]);
        assert leaves[..k][..m] == leaves[..m];
      } else if PowerOfTwo(m) {
        PowersApart(k, m);
      }
    }
  }

  lemma SubProofWhole(leaves: seq<Bytes>)
    requires leaves != []
    ensures SubProof(|leaves|, leaves, true) == [] && SubProof(|leaves|, leaves, false) == [Root(leaves)]
  {
  }

  // ---- completeness

  lemma {:induction false} ReplayOfSubProof(m: nat, leaves: seq<Bytes>)
    requires 1 <= m <= |leaves|
    ensures Replay(m, |leaves|, SubProof(m, leaves, false)) == Some(Roots(Root(leaves[..m]), Root(leaves)))
    decreases |leaves|
  {
    hide Replay, Root;
    if m == |leaves| {
      assert leaves[..m] == leaves;
      ReplaySeed(m, [Root(leaves)]);
    } else {
      var k := Split(|leaves|);
      RootStep(leaves);
      if m <= k {
        ReplayOfSubProof(m, leaves[..k]);
        PrefixSlices(leaves, k, m);
        ReplayStep(m, |leaves|, SubProof(m, leaves[..k], false), Root(leaves[k..]));
      } else {
        ReplayOfSubProof(m - k, leaves[k..]);
        PrefixSplit(leaves, m);
        ReplayStep(m, |leaves|, SubProof(m - k, leaves[k..], false), Root(leaves[..k]));
      }
    }
  }

  lemma ReplaySeed(m: nat, nodes: seq<Bytes>)
    requires m >= 1
    ensures Replay(m, m, nodes) == if |nodes| == 1 then Some(Roots(nodes[0], nodes[0])) else None
  {
  }

  lemma ReplayStep(m: nat, n: nat, rest: seq<Bytes>, node: Bytes)
    requires 1 <= m < n && rest != []
    ensures var k := Split(n);
            Replay(m, n, rest + [node]) ==
              if m <= k then OnRight(Replay(m, k, rest), node) else OnLeft(Replay(m - k, n - k, rest), node)
  {
    assert (rest + [node])[..|rest|] == rest;
  }

  /** Whatever is proved is accepted, at every pair of sizes. */
  lemma Completeness(leaves: seq<Bytes>, m: nat)
    requires 1 <= m <= |leaves|
    ensures Prove(leaves, m).Some?
    ensures Accepts(m, |leaves|, Root(leaves[..m]), Root(leaves), Prove(leaves, m).value)
  {
    if m == |leaves| {
      assert leaves[..m] == leaves;
    } else {
      ReplayOfSubProof(m, leaves);
      SeededSubProof(m, leaves);
      var k := Split(|leaves|);
    }
  }

  // ---- soundness

  /** Every string hashed by Replay. */
  ghost function ReplayInputs(oldSize: nat, newSize: nat, nodes: seq<Bytes>): set<Bytes>
    requires 1 <= oldSize <= newSize
    decreases newSize
  {
    if oldSize == newSize || |nodes| < 2 then {}
    else
      var k, node, rest := Split(newSize), nodes[|nodes| - 1], nodes[..|nodes| - 1];
      if oldSize <= k then
        var r := Replay(oldSize, k, rest);
        ReplayInputs(oldSize, k, rest) + if r.None? then {} else {NodeInput(r.value.after, node)}
      else
        var r := Replay(oldSize - k, newSize - k, rest);
        ReplayInputs(oldSize - k, newSize - k, rest) +
        if r.None? then {} else {NodeInput(node, r.value.before), NodeInput(node, r.value.after)}
  }

  /** Above the seed every new root is a digest, whatever the lengths of the nodes. */
  lemma ReplayDigest(m: nat, n: nat, nodes: seq<Bytes>)
    requires 1 <= m < n && Replay(m, n, nodes).Some?
    ensures |Replay(m, n, nodes).value.after| == 32
  {
  }

  /** Nothing hashed on the way collides. */
  ghost predicate Apart(m: nat, n: nat, nodes: seq<Bytes>, before: seq<Bytes>, after: seq<Bytes>)
    requires 1 <= m <= n && before != [] && after != []
  {
    NoCollision(ReplayInputs(m, n, nodes) + RootInputs(before) + RootInputs(after))
  }

  lemma {:induction false} ReplaySound(m: nat, n: nat, nodes: seq<Bytes>, before: seq<Bytes>, after: seq<Bytes>)
    requires 1 <= m <= n && |before| == m && |after| == n
    requires Replay(m, n, nodes) == Some(Roots(Root(before), Root(after)))
    requires Apart(m, n, nodes, before, after)
    ensures before == after[..m] && nodes == SubProof(m, after, false)
    decreases n
  {
    hide *;
    if m == n {
      SeedSound(nodes, before, after);
    } else {
      var k := Split(n);
      if m <= k {
        RightSound(m, n, nodes, before, after);
        ReplaySound(m, k, nodes[..|nodes| - 1], before, after[..k]);
        RightPath(m, nodes, after);
      } else {
        LeftSound(m, n, nodes, before, after);
        ReplaySound(m - k, n - k, nodes[..|nodes| - 1], before[k..], after[k..]);
        LeftPath(m, nodes, before, after);
      }
    }
  }

  lemma SeedSound(nodes: seq<Bytes>, before: seq<Bytes>, after: seq<Bytes>)
    requires |before| == |after| > 0
    requires Replay(|after|, |after|, nodes) == Some(Roots(Root(before), Root(after)))
    requires Apart(|after|, |after|, nodes, before, after)
    ensures before == after[..|after|] && nodes == SubProof(|after|, after, false)
  {
    RootInjective(before, after);
    assert after[..|after|] == after;
    assert nodes == [Root(after)];
  }

  /** A right sibling accepted at the top is the root of the right half. */
  lemma RightSound(m: nat, n: nat, nodes: seq<Bytes>, before: seq<Bytes>, after: seq<Bytes>)
    requires 1 <= m < n && |before| == m && |after| == n && m <= Split(n)
    requires Replay(m, n, nodes) == Some(Roots(Root(before), Root(after)))
    requires Apart(m, n, nodes, before, after)
    ensures |nodes| > 1
    ensures var k, node, rest := Split(n), nodes[|nodes| - 1], nodes[..|nodes| - 1];
            && Replay(m, k, rest) == Some(Roots(Root(before), Root(after[..k]))) && node == Root(after[k..])
            && Apart(m, k, rest, before, after[..k])
  {
    var k, node, rest := Split(n), nodes[|nodes| - 1], nodes[..|nodes| - 1];
    var r := Replay(m, k, rest).value;
    if m < k {
      ReplayDigest(m, k, rest);
    }
    NodeInputSplits(r.after, node, Root(after[..k]), Root(after[k..]));
  }

  lemma RightPath(m: nat, nodes: seq<Bytes>, after: seq<Bytes>)
    requires 1 <= m < |after| && m <= Split(|after|) && |nodes| > 1
    requires nodes[..|nodes| - 1] == SubProof(m, after[..Split(|after|)], false)
    requires nodes[|nodes| - 1] == Root(after[Split(|after|)..])
    ensures nodes == SubProof(m, after, false)
    ensures after[..Split(|after|)][..m] == after[..m]
  {
    hide SubProof, Root, PowerOfTwo;
    SubProofStep(m, after, false);
    assert nodes == nodes[..|nodes| - 1] + [nodes[|nodes| - 1]];
  }

  /** A left sibling accepted at the top is the root of the left half of both trees. */
  lemma LeftSound(m: nat, n: nat, nodes: seq<Bytes>, before: seq<Bytes>, after: seq<Bytes>)
    requires 1 <= m < n && |before| == m && |after| == n && Split(n) < m
    requires Replay(m, n, nodes) == Some(Roots(Root(before), Root(after)))
    requires Apart(m, n, nodes, before, after)
    ensures |nodes| > 1
    ensures var k, node, rest := Split(n), nodes[|nodes| - 1], nodes[..|nodes| - 1];
            && Replay(m - k, n - k, rest) == Some(Roots(Root(before[k..]), Root(after[k..])))
            && node == Root(after[..k]) && before[..k] == after[..k]
            && Apart(m - k, n - k, rest, before[k..], after[k..])
  {
    hide Replay, Root, RootInputs, ReplayInputs, NoCollision, Split, PowerOfTwo;
    LeftNode(m, n, nodes, before, after);
    var k, rest := Split(n), nodes[..|nodes| - 1];
    SplitUnique(m, k);
    RootInputsSplit(before);
    RootInputsSplit(after);
    ReplayInputsSplit(m, n, nodes);
    var hashed := ReplayInputs(m, n, nodes) + RootInputs(before) + RootInputs(after);
    NoCollisionWithin(RootInputs(before[..k]) + RootInputs(after[..k]), hashed);
    NoCollisionWithin(ReplayInputs(m - k, n - k, rest) + RootInputs(before[k..]) + RootInputs(after[k..]), hashed);
    RootInjective(before[..k], after[..k]);
  }

  lemma RootTop(leaves: seq<Bytes>)
    requires |leaves| > 1
    ensures var k := Split(|leaves|);
            && Root(leaves) == Sha256(NodeInput(Root(leaves[..k]), Root(leaves[k..])))
            && NodeInput(Root(leaves[..k]), Root(leaves[k..])) in RootInputs(leaves)
            && |Root(leaves[..k])| == |Root(leaves[k..])| == 32
  {
  }

  lemma NodeHashIs(left: Bytes, right: Bytes)
    ensures NodeHash(left, right) == Sha256(NodeInput(left, right))
  {
  }

  /** The last node of a path that replays, where it belongs on the left. */
  lemma LeftTop(m: nat, n: nat, nodes: seq<Bytes>)
    requires 1 <= m < n && Split(n) < m && Replay(m, n, nodes).Some?
    ensures |nodes| > 1
    ensures var k, node, rest := Split(n), nodes[|nodes| - 1], nodes[..|nodes| - 1];
            && Replay(m - k, n - k, rest).Some?
            && var r := Replay(m - k, n - k, rest).value;
               && Replay(m, n, nodes) == Some(Roots(NodeHash(node, r.before), NodeHash(node, r.after)))
               && NodeInput(node, r.before) in ReplayInputs(m, n, nodes)
                 && NodeInput(node, r.after) in ReplayInputs(m, n, nodes)
  {
  }

  lemma LeftNode(m: nat, n: nat, nodes: seq<Bytes>, before: seq<Bytes>, after: seq<Bytes>)
    requires 1 <= m < n && |before| == m && |after| == n && Split(n) < m
    requires Replay(m, n, nodes) == Some(Roots(Root(before), Root(after)))
    requires Apart(m, n, nodes, before, after)
    ensures |nodes| > 1
    ensures var k, node, rest := Split(n), nodes[|nodes| - 1], nodes[..|nodes| - 1];
            && Replay(m - k, n - k, rest) == Some(Roots(Root(before[k..]), Root(after[k..])))
            && node == Root(before[..k]) == Root(after[..k])
  {
    hide Replay, ReplayInputs, RootInputs, PowerOfTwo, NodeInput, NodeHash, Root;
    LeftTop(m, n, nodes);
    var k, node, rest := Split(n), nodes[|nodes| - 1], nodes[..|nodes| - 1];
    var r := Replay(m - k, n - k, rest).value;
    ReplayDigest(m - k, n - k, rest);
    RootTop(after);
    NodeHashIs(node, r.after);
    NodeHashIs(node, r.before);
    NodeInputSplits(node, r.after, Root(after[..k]), Root(after[k..]));
    SplitUnique(m, k);
    RootTop(before);
    NodeInputSplits(node, r.before, Root(before[..k]), Root(before[k..]));
  }

  lemma ReplayInputsSplit(m: nat, n: nat, nodes: seq<Bytes>)
    requires 1 <= m < n && Split(n) < m && |nodes| > 1
    ensures ReplayInputs(m - Split(n), n - Split(n), nodes[..|nodes| - 1]) <= ReplayInputs(m, n, nodes)
  {
  }

  lemma LeftPath(m: nat, nodes: seq<Bytes>, before: seq<Bytes>, after: seq<Bytes>)
    requires |before| == m < |after| && |after| > 1 && Split(|after|) < m && |nodes| > 1
    requires var k := Split(|after|);
             && nodes[..|nodes| - 1] == SubProof(m - k, after[k..], false) && nodes[|nodes| - 1] == Root(after[..k])
             && before[..k] == after[..k] && before[k..] == after[k..][..m - k]
    ensures nodes == SubProof(m, after, false)
    ensures before == after[..m]
  {
    hide SubProof, Root, PowerOfTwo;
    var k := Split(|after|);
    SubProofStep(m, after, false);
    assert nodes == nodes[..|nodes| - 1] + [nodes[|nodes| - 1]];
    assert before == before[..k] + before[k..] && after[..m] == after[..k] + after[k..][..m - k];
  }

  /** Every string hashed when the verifier runs on these arguments. */
  ghost function VerifierInputs(oldSize: nat, newSize: nat, oldRoot: Bytes, proof: seq<Bytes>): set<Bytes>
    requires 1 <= oldSize <= newSize
  {
    ReplayInputs(oldSize, newSize, Seeded(oldSize, oldRoot, proof))
  }

  /** Acceptance means exactly that the old leaves are the first of the new ones and the proof is the one proof. */
  lemma AcceptsExactly(before: seq<Bytes>, after: seq<Bytes>, proof: seq<Bytes>)
    requires 1 <= |before| <= |after|
    requires NoCollision(VerifierInputs(|before|, |after|, Root(before), proof) + RootInputs(before) +
              RootInputs(after))
    ensures Accepts(|before|, |after|, Root(before), Root(after), proof)
       <==> before == after[..|before|] && Prove(after, |before|) == Some(proof)
  {
    hide SubProof, Root, RootInputs, ReplayInputs, NoCollision, Replay, PowerOfTwo;
    var m, n := |before|, |after|;
    if Accepts(m, n, Root(before), Root(after), proof) {
      if m == n {
        NoCollisionWithin(RootInputs(before) + RootInputs(after),
                          VerifierInputs(m, n, Root(before), proof) + RootInputs(before) + RootInputs(after));
        RootInjective(before, after);
        assert after[..m] == after;
      } else {
        ReplaySound(m, n, Seeded(m, Root(before), proof), before, after);
        SeededSubProof(m, after);
        SeededOnce(m, Root(before), proof, SubProof(m, after, true));
      }
    }
    if before == after[..m] && Prove(after, m) == Some(proof) {
      Completeness(after, m);
    }
  }

  /** Putting the seed back tells two proofs apart. */
  lemma SeededOnce(m: nat, seed: Bytes, a: seq<Bytes>, b: seq<Bytes>)
    requires Seeded(m, seed, a) == Seeded(m, seed, b)
    ensures a == b
  {
    if PowerOfTwo(m) {
      assert ([seed] + a)[1..] == a && ([seed] + b)[1..] == b;
    }
  }
}

/** internal/merkle/merkle.go: inclusion paths, folded from a leaf up to a root. */
module AuditPath {
  import opened Bytes
  import opened MerkleTree

  datatype Step = Step(sibling: Bytes, left: bool)

  function Apply(current: Bytes, step: Step): Bytes
  {
    if step.left then NodeHash(step.sibling, current) else NodeHash(current, step.sibling)
  }

  function StepInput(current: Bytes, step: Step): Bytes
  {
    if step.left then NodeInput(step.sibling, current) else NodeInput(current, step.sibling)
  }

  function Climb(entryHash: Bytes, path: seq<Step>): (hash: Bytes)
    ensures |hash| == 32
  {
    if path == [] then LeafHash(entryHash)
    else Apply(Climb(entryHash, path[..|path| - 1]), path[|path| - 1])
  }

  method Audit(entryHash: Bytes, path: seq<Step>) returns (computed: Bytes)
    ensures computed == Climb(entryHash, path)
  {
    computed := LeafHash(entryHash);
    var i := 0;
    while i < |path|
      invariant 0 <= i <= |path| && computed == Climb(entryHash, path[..i])
    {
      var step := path[i];
      assert path[..i + 1][..i] == path[..i];
      if step.left {
        computed := NodeHash(step.sibling, computed);
      } else {
        computed := NodeHash(computed, step.sibling);
      }
      i := i + 1;
    }
    assert path[..i] == path;
  }

  /** Every string hashed by the climb. */
  ghost function ClimbInputs(entryHash: Bytes, path: seq<Step>): set<Bytes>
  {
    if path == [] then {LeafInput(entryHash)}
    else
      var rest := path[..|path| - 1];
      {StepInput(Climb(entryHash, rest), path[|path| - 1])} + ClimbInputs(entryHash, rest)
  }

  /** The RFC 6962 inclusion path of leaf i. */
  function PathTo(leaves: seq<Bytes>, i: nat): seq<Step>
    requires i < |leaves|
    decreases |leaves|
  {
    if |leaves| == 1 then []
    else
      var k := Split(|leaves|);
      if i < k then PathTo(leaves[..k], i) + [Step(Root(leaves[k..]), false)]
      else PathTo(leaves[k..], i - k) + [Step(Root(leaves[..k]), true)]
  }

  lemma {:induction false} PathReachesRoot(leaves: seq<Bytes>, i: nat)
    requires i < |leaves|
    ensures Climb(leaves[i], PathTo(leaves, i)) == Root(leaves)
    decreases |leaves|
  {
    if |leaves| > 1 {
      hide PathTo, Climb, Root, StepInput, Split;
      var k := Split(|leaves|);
      PathToStep(leaves, i);
      if i < k {
        PathReachesRoot(leaves[..k], i);
        ClimbPush(leaves[i], PathTo(leaves[..k], i), Step(Root(leaves[k..]), false));
      } else {
        PathReachesRoot(leaves[k..], i - k);
        ClimbPush(leaves[i], PathTo(leaves[k..], i - k), Step(Root(leaves[..k]), true));
      }
      RootSplits(leaves);
    }
  }

  lemma ClimbPush(entryHash: Bytes, path: seq<Step>, step: Step)
    ensures Climb(entryHash, path + [step]) ==
              if step.left then NodeHash(step.sibling, Climb(entryHash, path))
              else NodeHash(Climb(entryHash, path), step.sibling)
  {
    assert (path + [step])[..|path|] == path;
  }

  lemma RootSplits(leaves: seq<Bytes>)
    requires |leaves| > 1
    ensures var k := Split(|leaves|); Root(leaves) == NodeHash(Root(leaves[..k]), Root(leaves[k..]))
  {
  }

  /**
   * A path that rebuilds the root of some leaves proves its entry hash, of any length, one of them, and is that
   * leaf's own path. Leaf and node strings differ in their first byte, and the climbing child is a digest.
   */
  lemma {:induction false} AuditSound(entryHash: Bytes, path: seq<Step>, leaves: seq<Bytes>) returns (i: nat)
    requires leaves != [] && Climb(entryHash, path) == Root(leaves)
    requires NoCollision(ClimbInputs(entryHash, path) + RootInputs(leaves))
    ensures i < |leaves| && leaves[i] == entryHash && path == PathTo(leaves, i)
    decreases |path|
  {
    hide *;
    if path == [] || |leaves| == 1 {
      i := AuditLeaf(entryHash, path, leaves);
    } else {
      var k, rest := Split(|leaves|), path[..|path| - 1];
      AuditStep(entryHash, path, leaves);
      if path[|path| - 1].left {
        var j := AuditSound(entryHash, rest, leaves[k..]);
        i := k + j;
      } else {
        i := AuditSound(entryHash, rest, leaves[..k]);
      }
      PathToStep(leaves, i);
      assert path == rest + [path[|path| - 1]];
    }
  }

  lemma PathToStep(leaves: seq<Bytes>, i: nat)
    requires i < |leaves| && |leaves| > 1
    ensures var k := Split(|leaves|);
            PathTo(leaves, i) ==
              if i < k then PathTo(leaves[..k], i) + [Step(Root(leaves[k..]), false)]
              else PathTo(leaves[k..], i - k) + [Step(Root(leaves[..k]), true)]
  {
  }

  lemma AuditLeaf(entryHash: Bytes, path: seq<Step>, leaves: seq<Bytes>) returns (i: nat)
    requires leaves != [] && Climb(entryHash, path) == Root(leaves) && (path == [] || |leaves| == 1)
    requires NoCollision(ClimbInputs(entryHash, path) + RootInputs(leaves))
    ensures i < |leaves| && leaves[i] == entryHash && path == PathTo(leaves, i)
  {
    i := 0;
    if path == [] && |leaves| > 1 {
      var k := Split(|leaves|);
      DomainsDisjoint(entryHash, Root(leaves[..k]), Root(leaves[k..]));
    } else if path != [] {
      var step, below := path[|path| - 1], Climb(entryHash, path[..|path| - 1]);
      DomainsDisjoint(leaves[0], step.sibling, below);
      DomainsDisjoint(leaves[0], below, step.sibling);
    } else {
      LeafInputInjective(entryHash, leaves[0]);
    }
  }

  lemma AuditStep(entryHash: Bytes, path: seq<Step>, leaves: seq<Bytes>)
    requires path != [] && |leaves| > 1 && Climb(entryHash, path) == Root(leaves)
    requires NoCollision(ClimbInputs(entryHash, path) + RootInputs(leaves))
    ensures var k, rest, step := Split(|leaves|), path[..|path| - 1], path[|path| - 1];
            if step.left then
              && Climb(entryHash, rest) == Root(leaves[k..]) && step.sibling == Root(leaves[..k])
              && NoCollision(ClimbInputs(entryHash, rest) + RootInputs(leaves[k..]))
            else
              && Climb(entryHash, rest) == Root(leaves[..k]) && step.sibling == Root(leaves[k..])
              && NoCollision(ClimbInputs(entryHash, rest) + RootInputs(leaves[..k]))
  {
    var k, rest, step := Split(|leaves|), path[..|path| - 1], path[|path| - 1];
    var below := Climb(entryHash, rest);
    assert StepInput(below, step) == NodeInput(Root(leaves[..k]), Root(leaves[k..]));
    if step.left {
      NodeInputSplits(step.sibling, below, Root(leaves[..k]), Root(leaves[k..]));
    } else {
      NodeInputSplits(below, step.sibling, Root(leaves[..k]), Root(leaves[k..]));
    }
  }
}

/** internal/merkle/consistency.go: the bit-shifting verifier of RFC 9162 section 2.1.4.2. */
module ConsistencyVerify {
  import opened Bytes
  import opened MerkleTree
  import opened ConsistencyProof

  /** Go's a & b, bit by bit. */
  function And(a: nat, b: nat): nat
  {
    if a == 0 || b == 0 then 0 else 2 * And(a / 2, b / 2) + if a % 2 == 1 && b % 2 == 1 then 1 else 0
  }

  lemma {:induction false} AndPredecessor(n: nat)
    requires n >= 1
    ensures And(n, n - 1) == 0 <==> PowerOfTwo(n)
  {
    if n > 1 {
      if n % 2 == 0 {
        assert (n - 1) / 2 == n / 2 - 1;
        AndPredecessor(n / 2);
      } else {
        assert (n - 1) / 2 == n / 2 > 0;
        AndSelf(n / 2);
      }
    }
  }

  lemma {:induction false} AndSelf(n: nat)
    ensures And(n, n) == n
  {
    if n > 0 {
      AndSelf(n / 2);
    }
  }

  /** On which side each node of the path sits, from the bottom: fn is the boundary leaf, sn the last one. */
  datatype Side = Left | Right

  function Sides(fn: nat, sn: nat): seq<Side>
    requires fn <= sn
    decreases sn
  {
    if sn == 0 then []
    else if fn % 2 == 1 then [Left] + Sides(fn / 2, sn / 2)
    else if fn == sn then Sides(fn / 2, sn / 2)
    else [Right] + Sides(fn / 2, sn / 2)
  }

  lemma {:induction false} SidesNonempty(fn: nat, sn: nat)
    requires fn <= sn
    ensures Sides(fn, sn) == [] <==> sn == 0
    decreases sn
  {
    if sn > 0 && fn % 2 == 0 && fn == sn {
      SidesNonempty(fn / 2, sn / 2);
    }
  }

  /** The same, once the trailing ones of fn are shifted out. */
  function SidesAbove(fn: nat, sn: nat): seq<Side>
    requires fn <= sn
    decreases fn
  {
    if fn % 2 == 1 then SidesAbove(fn / 2, sn / 2) else Sides(fn, sn)
  }

  /** The sides as the top-down recursion meets them. */
  function TopSides(m: nat, n: nat): seq<Side>
    requires 1 <= m <= n
    decreases n
  {
    if m == n then []
    else
      var k := Split(n);
      if m <= k then TopSides(m, k) + [Right] else TopSides(m - k, n - k) + [Left]
  }

  /** With the boundary in the left half, the right half is one node, met last. */
  lemma {:induction false} SidesRightHalf(fn: nat, sn: nat, k: nat)
    requires PowerOfTwo(k) && fn < k <= sn < 2 * k
    ensures Sides(fn, sn) == Sides(fn, k - 1) + [Right]
    ensures SidesAbove(fn, sn) == SidesAbove(fn, k - 1) + [Right]
    decreases k
  {
    if k > 1 {
      assert (k - 1) / 2 == k / 2 - 1 && k / 2 <= sn / 2 < k && (k - 1) % 2 == 1;
      SidesRightHalf(fn / 2, sn / 2, k / 2);
    } else {
      assert Sides(0, 0) == [] && Sides(0, 1) == [Right];
    }
  }

  /** With the boundary in the right half, the left half is one node, met last. */
  lemma {:induction false} SidesLeftHalf(fn: nat, sn: nat, k: nat)
    requires PowerOfTwo(k) && fn <= sn < k
    ensures Sides(k + fn, k + sn) == Sides(fn, sn) + [Left]
    decreases k
  {
    if k > 1 {
      assert (k + fn) / 2 == k / 2 + fn / 2 && (k + sn) / 2 == k / 2 + sn / 2 && (k + fn) % 2 == fn % 2;
      SidesLeftHalf(fn / 2, sn / 2, k / 2);
    } else {
      assert Sides(0, 0) == [];
    }
  }

  lemma {:induction false} SidesAboveLeftHalf(fn: nat, sn: nat, k: nat)
    requires PowerOfTwo(k) && fn < sn < k
    ensures SidesAbove(k + fn, k + sn) == SidesAbove(fn, sn) + [Left]
    decreases k
  {
    assert k > 1;
    assert (k + fn) / 2 == k / 2 + fn / 2 && (k + sn) / 2 == k / 2 + sn / 2 && (k + fn) % 2 == fn % 2;
    if fn % 2 == 1 {
      SidesAboveLeftHalf(fn / 2, sn / 2, k / 2);
    } else {
      SidesLeftHalf(fn, sn, k);
    }
  }

  /** Shifting the bits of m-1 and n-1 from the bottom walks the path the recursion takes from the top. */
  lemma {:induction false} SidesAgree(m: nat, n: nat)
    requires 1 <= m <= n && (m == n ==> PowerOfTwo(m))
    ensures SidesAbove(m - 1, n - 1) == TopSides(m, n)
    decreases n
  {
    hide Sides, SidesAbove, Split, PowerOfTwo;
    if m == n {
      AllOnes(m);
    } else {
      var k := Split(n);
      if m <= k {
        SidesAgree(m, k);
        SidesRightHalf(m - 1, n - 1, k);
      } else {
        SidesAgree(m - k, n - k);
        SidesAboveLeftHalf(m - k - 1, n - k - 1, k);
      }
    }
  }

  lemma {:induction false} AllOnes(k: nat)
    requires PowerOfTwo(k)
    ensures SidesAbove(k - 1, k - 1) == []
  {
    if k > 1 {
      assert (k - 1) / 2 == k / 2 - 1 && (k - 1) % 2 == 1;
      AllOnes(k / 2);
    }
  }

  /** Folding nodes onto the seed, each on its side. */
  function Fold(seed: Bytes, nodes: seq<Bytes>, sides: seq<Side>): Roots
    requires |nodes| == |sides|
  {
    if nodes == [] then Roots(seed, seed)
    else
      var n, node := |nodes| - 1, nodes[|nodes| - 1];
      var r := Fold(seed, nodes[..n], sides[..n]);
      if sides[n].Left? then Roots(NodeHash(node, r.before), NodeHash(node, r.after))
      else Roots(r.before, NodeHash(r.after, node))
  }

  lemma {:induction false} ReplayIsFold(m: nat, n: nat, nodes: seq<Bytes>)
    requires 1 <= m <= n && nodes != []
    ensures Replay(m, n, nodes) ==
              if |nodes| - 1 == |TopSides(m, n)| then Some(Fold(nodes[0], nodes[1..], TopSides(m, n))) else None
    decreases n
  {
    hide Split, Fold, PowerOfTwo;
    FoldOne(nodes);
    if m < n && |nodes| > 1 {
      var k, rest := Split(n), nodes[..|nodes| - 1];
      assert nodes[1..][..|nodes| - 2] == rest[1..];
      var sides := if m <= k then TopSides(m, k) else TopSides(m - k, n - k);
      assert TopSides(m, n)[..|sides|] == sides;
      if m <= k {
        ReplayIsFold(m, k, rest);
      } else {
        ReplayIsFold(m - k, n - k, rest);
      }
      if |nodes| - 1 == |TopSides(m, n)| {
        FoldLast(nodes[0], nodes[1..], TopSides(m, n));
      }
    }
  }

  lemma FoldOne(nodes: seq<Bytes>)
    ensures |nodes| == 1 ==> Fold(nodes[0], nodes[1..], []) == Roots(nodes[0], nodes[0])
  {
  }

  lemma FoldLast(seed: Bytes, nodes: seq<Bytes>, sides: seq<Side>)
    requires |nodes| == |sides| > 0
    ensures var n := |nodes| - 1; var r := Fold(seed, nodes[..n], sides[..n]);
            Fold(seed, nodes, sides) ==
              if sides[n].Left? then Roots(NodeHash(nodes[n], r.before), NodeHash(nodes[n], r.after))
              else Roots(r.before, NodeHash(r.after, nodes[n]))
  {
  }

  lemma FoldStep(seed: Bytes, nodes: seq<Bytes>, sides: seq<Side>, i: nat)
    requires i < |nodes| && i < |sides|
    ensures var r := Fold(seed, nodes[..i], sides[..i]);
            Fold(seed, nodes[..i + 1], sides[..i + 1]) ==
              if sides[i].Left? then Roots(NodeHash(nodes[i], r.before), NodeHash(nodes[i], r.after))
              else Roots(r.before, NodeHash(r.after, nodes[i]))
  {
    assert nodes[..i + 1][..i] == nodes[..i] && sides[..i + 1][..i] == sides[..i];
  }

  /** Between unequal sizes acceptance is one bottom-up fold that uses every node. */
  lemma AcceptsByFold(m: nat, n: nat, oldRoot: Bytes, newRoot: Bytes, proof: seq<Bytes>)
    requires 1 <= m < n && proof != []
    ensures var nodes, sides := Seeded(m, oldRoot, proof), SidesAbove(m - 1, n - 1);
            && nodes != []
            && (Accepts(m, n, oldRoot, newRoot, proof) <==>
                  |nodes| - 1 == |sides| && Fold(nodes[0], nodes[1..], sides) == Roots(oldRoot, newRoot))
  {
    SidesAgree(m, n);
    ReplayIsFold(m, n, Seeded(m, oldRoot, proof));
  }

  lemma SidesLeft(fn: nat, sn: nat)
    requires fn <= sn && sn > 0
    ensures fn % 2 == 1 ==> Sides(fn, sn) == [Left] + Sides(fn / 2, sn / 2)
    ensures fn % 2 == 0 && fn == sn ==> Sides(fn, sn) == Sides(fn / 2, sn / 2)
    ensures fn % 2 == 0 && fn < sn ==> Sides(fn, sn) == [Right] + Sides(fn / 2, sn / 2)
  {
  }

  method Verify(oldSize: int, newSize: int, oldRoot: Bytes, newRoot: Bytes, proof: seq<Bytes>) returns (ok: bool)
    ensures ok == Accepts(oldSize, newSize, oldRoot, newRoot, proof)
  {
    hide *;
    AcceptsEdges(oldSize, newSize, oldRoot, newRoot, proof);
    if oldSize < 1 || newSize < oldSize {
      return false;
    }
    if oldSize == newSize {
      return |proof| == 0 && oldRoot == newRoot;
    }
    if |proof| == 0 {
      return false;
    }

    var nodes: seq<Bytes> := [];
    AndPredecessor(oldSize);
    if And(oldSize, oldSize - 1) == 0 {
      nodes := nodes + [oldRoot];
    }
    nodes := nodes + proof;
    SeededNodes(oldSize, oldRoot, proof);
    AcceptsByFold(oldSize, newSize, oldRoot, newRoot, proof);

    var fn, sn := oldSize - 1, newSize - 1;
    ghost var sides, rest := SidesAbove(fn, sn), nodes[1..];
    while fn % 2 == 1
      invariant 0 <= fn <= sn && SidesAbove(fn, sn) == sides
      decreases fn
    {
      SidesAboveStep(fn, sn);
      fn, sn := fn / 2, sn / 2;
    }
    SidesAboveStep(fn, sn);

    var fr, sr := nodes[0], nodes[0];
    FoldNone(nodes[0]);
    var i := 1;
    while i < |nodes|
      invariant 1 <= i <= |nodes| && i - 1 <= |sides| && 0 <= fn <= sn
      invariant Sides(fn, sn) == sides[i - 1..]
      invariant Roots(fr, sr) == Fold(nodes[0], rest[..i - 1], sides[..i - 1])
    {
      var node := nodes[i];
      SidesNonempty(fn, sn);
      if sn == 0 {
        return false;
      }
      HeadAfter(sides, i - 1);
      FoldStep(nodes[0], rest, sides, i - 1);
      SidesHead(fn, sn);
      if fn % 2 == 1 || fn == sn {
        fr := NodeHash(node, fr);
        sr := NodeHash(node, sr);
        while fn != 0 && fn % 2 == 0
          invariant 0 <= fn <= sn && sn > 0 && (fn % 2 == 1 || fn == sn)
          invariant Sides(fn, sn) == sides[i - 1..]
          decreases fn
        {
          SidesLeft(fn, sn);
          fn, sn := fn / 2, sn / 2;
        }
      } else {
        sr := NodeHash(sr, node);
      }
      SidesLeft(fn, sn);
      TailAfter(sides, i - 1, if fn % 2 == 1 then Left else Right, Sides(fn / 2, sn / 2));
      fn, sn := fn / 2, sn / 2;
      i := i + 1;
    }
    SidesNonempty(fn, sn);
    assert rest[..i - 1] == rest && (sn == 0 <==> |sides| == |rest|);
    if sn == 0 {
      assert sides[..i - 1] == sides;
    }
    ok := sn == 0 && oldRoot == fr && newRoot == sr;
  }

  lemma TailAfter(sides: seq<Side>, i: nat, head: Side, tail: seq<Side>)
    requires i <= |sides| && sides[i..] == [head] + tail
    ensures i < |sides| && sides[i] == head && sides[i + 1..] == tail
  {
    assert sides[i..][0] == sides[i] && sides[i..][1..] == sides[i + 1..];
  }

  lemma HeadAfter(sides: seq<Side>, i: nat)
    requires i <= |sides| && sides[i..] != []
    ensures i < |sides| && sides[i..][0] == sides[i]
  {
  }

  /** The next node goes to the left exactly at an odd position or on the right edge. */
  lemma SidesHead(fn: nat, sn: nat)
    requires fn <= sn && sn > 0 && Sides(fn, sn) != []
    ensures Sides(fn, sn)[0].Left? <==> fn % 2 == 1 || fn == sn
  {
  }

  lemma AcceptsEdges(m: int, n: int, oldRoot: Bytes, newRoot: Bytes, proof: seq<Bytes>)
    ensures m < 1 || n < m ==> !Accepts(m, n, oldRoot, newRoot, proof)
    ensures 1 <= m == n ==> (Accepts(m, n, oldRoot, newRoot, proof) <==> proof == [] && oldRoot == newRoot)
    ensures 1 <= m < n && proof == [] ==> !Accepts(m, n, oldRoot, newRoot, proof)
  {
  }

  lemma SeededNodes(m: nat, oldRoot: Bytes, proof: seq<Bytes>)
    ensures Seeded(m, oldRoot, proof) == (if PowerOfTwo(m) then [] + [oldRoot] else []) + proof
  {
  }

  lemma SidesAboveStep(fn: nat, sn: nat)
    requires fn <= sn
    ensures SidesAbove(fn, sn) == if fn % 2 == 1 then SidesAbove(fn / 2, sn / 2) else Sides(fn, sn)
  {
  }

  lemma FoldNone(seed: Bytes)
    ensures Fold(seed, [], []) == Roots(seed, seed)
  {
  }
}

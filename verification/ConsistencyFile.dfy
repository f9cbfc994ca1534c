/** verify/consistency.go: the cumulative states a bundle's own consistency.json records. */
module ConsistencyFile {
  import opened Bytes
  import opened PhpValues
  import opened MerkleTree
  import opened ConsistencyProof
  import opened ConsistencyVerify
  import opened Run
  import opened WalkRules
  import opened WalkTrees
  import opened CheckpointRules
  import opened Walk
  import opened TamperEvidence

  function RawOf(hex: Bytes): Bytes
  {
    if HexBytes(hex).Some? then HexBytes(hex).value else []
  }

  lemma RawOfHex(raw: Bytes)
    ensures RawOf(HexEncode(raw)) == raw
  {
    hide HexEncode, HexBytes;
    HexRoundTrip(raw);
  }

  lemma InSizes(b: Bundle, wanted: set<int>, proofFrom: int, size: int)
    requires size in wanted || size == b.rangeTo || size in b.rootSizes || (size == proofFrom && proofFrom > 0)
    ensures size in Sizes(b, wanted, proofFrom)
  {
    hide AllRanges;
  }

  /** The file after its casts: a size that is no integer is None, and nodes that are no hexadecimal are dropped. */
  datatype Claim = Claim(size: Option<int>, root: Bytes)

  datatype RecordedProof = RecordedProof(from: int, to: int, nodes: seq<Bytes>)

  datatype Recorded = Recorded(root: Bytes, states: seq<Claim>, proof: Option<RecordedProof>)

  function ClaimProblems(rootAt: map<int, Bytes>, rangeTo: int, claim: Claim): seq<Finding>
  {
    if claim.size.None? || claim.size.value < 1 || claim.size.value > rangeTo then [Content(StateInvalid)]
    else if claim.size.value !in rootAt || Lower(claim.root) != rootAt[claim.size.value] then [Content(StateChanged)]
    else []
  }

  function ClaimsProblems(rootAt: map<int, Bytes>, rangeTo: int, claims: seq<Claim>, n: nat): seq<Finding>
    requires n <= |claims|
  {
    if n == 0 then []
    else ClaimsProblems(rootAt, rangeTo, claims, n - 1) + ClaimProblems(rootAt, rangeTo, claims[n - 1])
  }

  function ProofProblems(rootAt: map<int, Bytes>, rangeTo: int, proof: RecordedProof): seq<Finding>
  {
    if && proof.from >= 1 && proof.to == rangeTo && proof.from in rootAt && rangeTo in rootAt
       && Accepts(proof.from, proof.to, RawOf(rootAt[proof.from]), RawOf(rootAt[rangeTo]), proof.nodes)
    then [] else [Content(ProofInvalid)]
  }

  function FileProblems(rootAt: map<int, Bytes>, rangeTo: int, doc: Recorded): seq<Finding>
  {
    if rangeTo !in rootAt then []
    else
      (if Lower(doc.root) != rootAt[rangeTo] then [Content(StateChanged)] else []) +
      ClaimsProblems(rootAt, rangeTo, doc.states, |doc.states|) +
      if doc.proof.Some? then ProofProblems(rootAt, rangeTo, doc.proof.value) else []
  }

  method CheckProof(run: Run, rootAt: map<int, Bytes>, rangeTo: int, proof: RecordedProof)
    requires run.Valid() && rangeTo in rootAt
    modifies run
    ensures run.Valid() && run.unconfirmed == old(run.unconfirmed)
    ensures run.failures == old(run.failures) + ProofProblems(rootAt, rangeTo, proof)
  {
    hide Run.Valid, Accepts, RawOf;
    var valid := false;
    if proof.from >= 1 && proof.to == rangeTo && proof.from in rootAt {
      valid := Verify(proof.from, proof.to, RawOf(rootAt[proof.from]), RawOf(rootAt[rangeTo]), proof.nodes);
    }
    if !valid {
      run.Report(Content(ProofInvalid));
    }
  }

  method CheckClaims(run: Run, rootAt: map<int, Bytes>, rangeTo: int, claims: seq<Claim>)
    requires run.Valid()
    modifies run
    ensures run.Valid() && run.unconfirmed == old(run.unconfirmed)
    ensures run.failures == old(run.failures) + ClaimsProblems(rootAt, rangeTo, claims, |claims|)
  {
    hide Run.Valid, Lower;
    for i := 0 to |claims|
      invariant run.Valid() && run.unconfirmed == old(run.unconfirmed)
      invariant run.failures == old(run.failures) + ClaimsProblems(rootAt, rangeTo, claims, i)
    {
      var size := claims[i].size;
      if size.None? || size.value < 1 || size.value > rangeTo {
        run.Report(Content(StateInvalid));
      } else if size.value !in rootAt || Lower(claims[i].root) != rootAt[size.value] {
        run.Report(Content(StateChanged));
      }
    }
  }

  /** Called only where the range starts at 1 and the file is an object. */
  method CheckConsistencyFile(run: Run, rootAt: map<int, Bytes>, rangeTo: int, doc: Recorded)
    requires run.Valid()
    modifies run
    ensures run.Valid() && run.unconfirmed == old(run.unconfirmed)
    ensures run.failures == old(run.failures) + FileProblems(rootAt, rangeTo, doc)
  {
    hide Run.Valid, Lower, ProofProblems, ClaimsProblems;
    if rangeTo !in rootAt {
      return;
    }
    if Lower(doc.root) != rootAt[rangeTo] {
      run.Report(Content(StateChanged));
    }
    CheckClaims(run, rootAt, rangeTo, doc.states);
    if doc.proof.Some? {
      CheckProof(run, rootAt, rangeTo, doc.proof.value);
    }
  }

  /** Every state's size was asked for before the events streamed past. */
  ghost predicate Asked(sizes: set<int>, claims: seq<Claim>)
  {
    forall i :: 0 <= i < |claims| && claims[i].size.Some? ==> claims[i].size.value in sizes
  }

  /** rootAt holds the prefix roots of these leaves at the sizes asked for. */
  ghost predicate PrefixRoots(rootAt: map<int, Bytes>, sizes: set<int>, leaves: seq<Bytes>)
  {
    && (forall s :: s in rootAt <==> s in sizes && 1 <= s <= |leaves|)
    && (forall s :: s in rootAt ==> 1 <= s <= |leaves| && rootAt[s] == HexEncode(Root(leaves[..s])))
  }

  ghost predicate ClaimOk(leaves: seq<Bytes>, claim: Claim)
  {
    claim.size.Some? && 1 <= claim.size.value <= |leaves|
      && Lower(claim.root) == HexEncode(Root(leaves[..claim.size.value]))
  }

  lemma ClaimExactly(rootAt: map<int, Bytes>, sizes: set<int>, leaves: seq<Bytes>, claim: Claim)
    requires PrefixRoots(rootAt, sizes, leaves) && (claim.size.Some? ==> claim.size.value in sizes)
    ensures ClaimProblems(rootAt, |leaves|, claim) == [] <==> ClaimOk(leaves, claim)
  {
    hide Lower, Root, HexEncode;
  }

  lemma {:induction false} ClaimsExactly(rootAt: map<int, Bytes>, sizes: set<int>, leaves: seq<Bytes>,
                                         claims: seq<Claim>, n: nat)
    requires n <= |claims| && PrefixRoots(rootAt, sizes, leaves)
    requires forall i :: 0 <= i < n && claims[i].size.Some? ==> claims[i].size.value in sizes
    ensures ClaimsProblems(rootAt, |leaves|, claims, n) == [] <==> forall i :: 0 <= i < n ==> ClaimOk(leaves, claims[i])
  {
    hide PrefixRoots, ClaimOk, ClaimProblems;
    if n > 0 {
      ClaimsExactly(rootAt, sizes, leaves, claims, n - 1);
      ClaimExactly(rootAt, sizes, leaves, claims[n - 1]);
    }
  }

  /** The recorded proof starts at a size asked for and is the one proof the algorithm builds from there. */
  ghost predicate ProofOk(sizes: set<int>, leaves: seq<Bytes>, proof: RecordedProof)
  {
    && proof.from in sizes && 1 <= proof.from <= |leaves| == proof.to
    && Prove(leaves, proof.from) == Some(proof.nodes)
  }

  /** The strings hashed where the proof is checked. */
  ghost predicate ProofFree(leaves: seq<Bytes>, proof: RecordedProof)
  {
    1 <= proof.from <= |leaves| ==>
      NoCollision(VerifierInputs(proof.from, |leaves|, Root(leaves[..proof.from]), proof.nodes) +
                  RootInputs(leaves[..proof.from]) + RootInputs(leaves))
  }

  lemma ProofExactly(rootAt: map<int, Bytes>, sizes: set<int>, leaves: seq<Bytes>, proof: RecordedProof)
    requires PrefixRoots(rootAt, sizes, leaves) && leaves != [] && |leaves| in sizes && ProofFree(leaves, proof)
    ensures ProofProblems(rootAt, |leaves|, proof) == [] <==> ProofOk(sizes, leaves, proof)
  {
    hide Root, HexEncode, HexBytes, Accepts, Prove, VerifierInputs, RootInputs, NoCollision, RawOf;
    if 1 <= proof.from <= |leaves| {
      RawOfHex(Root(leaves[..proof.from]));
      RawOfHex(Root(leaves));
      assert leaves[..|leaves|] == leaves;
      AcceptsExactly(leaves[..proof.from], leaves, proof.nodes);
    }
  }

  /** The file states the tree's own roots and its one proof. */
  ghost predicate FileOk(sizes: set<int>, leaves: seq<Bytes>, doc: Recorded)
  {
    && leaves != [] && Lower(doc.root) == HexEncode(Root(leaves))
    && (forall i :: 0 <= i < |doc.states| ==> ClaimOk(leaves, doc.states[i]))
    && (doc.proof.Some? ==> ProofOk(sizes, leaves, doc.proof.value))
  }

  lemma RootsExactly(rootAt: map<int, Bytes>, sizes: set<int>, leaves: seq<Bytes>, doc: Recorded)
    requires PrefixRoots(rootAt, sizes, leaves) && leaves != [] && |leaves| in sizes && Asked(sizes, doc.states)
    requires doc.proof.Some? ==> ProofFree(leaves, doc.proof.value)
    ensures FileProblems(rootAt, |leaves|, doc) == [] <==> FileOk(sizes, leaves, doc)
  {
    hide Root, HexEncode, HexBytes, Lower, ClaimOk, ClaimsProblems, ProofProblems, ProofOk, ProofFree;
    assert leaves[..|leaves|] == leaves;
    ClaimsExactly(rootAt, sizes, leaves, doc.states, |doc.states|);
    if doc.proof.Some? {
      ProofExactly(rootAt, sizes, leaves, doc.proof.value);
    }
  }

  lemma PassedPrefixRoots(b: Bundle, wanted: set<int>, proofFrom: int)
    requires Passed(b) && b.rangeFrom == 1
    ensures |Leaves(b, |b.lines|)| == |b.lines| == b.rangeTo > 0
    ensures PrefixRoots(WalkedTo(b, wanted, proofFrom).captured, Sizes(b, wanted, proofFrom), Leaves(b, |b.lines|))
    ensures b.rangeTo in Sizes(b, wanted, proofFrom)
  {
    hide Passed, WalkedTo, Leaves, Root, HexEncode, EventsOk, Decoded, FormsOk, RootsOk, EndsAt, Captured, Sizes;
    PassedClean(b);
    LeavesPrefix(b, |b.lines|, |b.lines|);
    CapturedClean(b, Sizes(b, wanted, proofFrom), |b.lines|);
    WalkedToIs(b, wanted, proofFrom);
    InSizes(b, wanted, proofFrom, b.rangeTo);
  }

  lemma AskedSizes(b: Bundle, wanted: set<int>, proofFrom: int, claims: seq<Claim>)
    requires Asked(b.rootSizes, claims)
    ensures Asked(Sizes(b, wanted, proofFrom), claims)
  {
    hide AllRanges;
  }

  /**
   * After a passing walk consistency.json is accepted exactly when it states the tree's own roots and its one proof,
   * that proof from a size whose root was asked for: a size written as text is cast when the proof is checked, but is
   * no integer when the sizes to ask for are read, so it counts only where something else asks for it.
   */
  lemma FileExactly(b: Bundle, wanted: set<int>, proofFrom: int, doc: Recorded)
    requires Passed(b) && b.rangeFrom == 1 && Asked(b.rootSizes, doc.states)
    requires doc.proof.Some? ==> ProofFree(Leaves(b, |b.lines|), doc.proof.value)
    ensures FileProblems(WalkedTo(b, wanted, proofFrom).captured, b.rangeTo, doc) == [] <==>
              FileOk(Sizes(b, wanted, proofFrom), Leaves(b, |b.lines|), doc)
  {
    hide *;
    PassedPrefixRoots(b, wanted, proofFrom);
    AskedSizes(b, wanted, proofFrom, doc.states);
    RootsExactly(WalkedTo(b, wanted, proofFrom).captured, Sizes(b, wanted, proofFrom), Leaves(b, |b.lines|), doc);
  }

  /** The case above where nothing else asks for it: even the right proof is refused. */
  lemma UnaskedProofRefused(b: Bundle, wanted: set<int>, proofFrom: int, doc: Recorded)
    requires Passed(b) && b.rangeFrom == 1 && doc.proof.Some? && doc.proof.value.from !in Sizes(b, wanted, proofFrom)
    ensures Content(ProofInvalid) in FileProblems(WalkedTo(b, wanted, proofFrom).captured, b.rangeTo, doc)
  {
    hide Passed, WalkedTo, Leaves, Root, HexEncode, Sizes, ClaimsProblems, Lower, Accepts, RawOf;
    PassedPrefixRoots(b, wanted, proofFrom);
    var problems := FileProblems(WalkedTo(b, wanted, proofFrom).captured, b.rangeTo, doc);
    assert problems[|problems| - 1] == Content(ProofInvalid);
  }
}

/** verify/consistency.go: one export against another, and against a recorded state. */
module ConsistencyBundles {
  import opened Bytes
  import opened PhpValues
  import opened MerkleTree
  import opened ConsistencyProof
  import opened ConsistencyVerify
  import opened Run
  import opened WalkRules
  import opened WalkTrees
  import opened CheckpointRules
  import opened Walk
  import opened PassedWalk
  import opened TamperEvidence
  import opened ConsistencyFile
  import opened WholeBundle

  datatype TreeState = TreeState(size: int, root: Bytes)

  datatype Info = Info(older: TreeState, newer: TreeState, proofNodes: nat)

  function AgreeProblems(older: Bundle, newer: Bundle): seq<Finding>
  {
    (if older.stream != newer.stream then [Content(OtherStreams)] else []) +
    (if older.rangeFrom != 1 || newer.rangeFrom != 1 then [Content(NotFromStart)] else []) +
    (if older.rangeTo > newer.rangeTo then [Content(OldIsLonger)] else [])
  }

  /** The comparison itself, from what the two walks captured at sizes m and n. */
  function Compare(older: map<int, Bytes>, newer: map<int, Bytes>, proof: Option<seq<Bytes>>, m: int,
                   n: int): (Option<Info>, seq<Finding>)
  {
    if m !in older || n !in newer || m !in newer || proof.None? then (None, [Content(RootsNotCaptured)])
    else if older[m] != newer[m] then (None, [Content(Diverged)])
    else if !Accepts(m, n, RawOf(older[m]), RawOf(newer[n]), proof.value) then (None, [Content(ProofDoesNotVerify)])
    else (Some(Info(TreeState(m, older[m]), TreeState(n, newer[n]), |proof.value|)), [])
  }

  function Compared(older: Bundle, newer: Bundle): (Option<Info>, seq<Finding>)
  {
    var old_, new_ := WalkedTo(older, {}, 0), WalkedTo(newer, {older.rangeTo}, older.rangeTo);
    Compare(old_.captured, new_.captured, new_.proof, older.rangeTo, newer.rangeTo)
  }

  method CompareRoots(run: Run, older: map<int, Bytes>, newer: map<int, Bytes>, proof: Option<seq<Bytes>>, m: int,
                      n: int)
    returns (info: Option<Info>)
    requires run.Valid()
    modifies run
    ensures run.Valid() && run.unconfirmed == old(run.unconfirmed)
    ensures run.failures == old(run.failures) + Compare(older, newer, proof, m, n).1
    ensures info == Compare(older, newer, proof, m, n).0
  {
    hide Run.Valid, Accepts, HexBytes;
    info := None;
    if m !in older || n !in newer || m !in newer || proof.None? {
      run.Report(Content(RootsNotCaptured));
    } else if older[m] != newer[m] {
      run.Report(Content(Diverged));
    } else {
      var ok := Verify(m, n, RawOf(older[m]), RawOf(newer[n]), proof.value);
      if !ok {
        run.Report(Content(ProofDoesNotVerify));
      } else {
        info := Some(Info(TreeState(m, older[m]), TreeState(n, newer[n]), |proof.value|));
      }
    }
  }

  method CheckAgreement(run: Run, older: Bundle, newer: Bundle)
    requires run.Valid()
    modifies run
    ensures run.Valid() && run.failures == old(run.failures) + AgreeProblems(older, newer)
  {
    hide Run.Valid;
    if older.stream != newer.stream {
      run.Report(Content(OtherStreams));
    }
    if older.rangeFrom != 1 || newer.rangeFrom != 1 {
      run.Report(Content(NotFromStart));
    }
    if older.rangeTo > newer.rangeTo {
      run.Report(Content(OldIsLonger));
    }
  }

  /** ok is false on a hard error from either bundle. */
  method CompareBundles(run: Run, older: Bundle, oldFiles: Files, newer: Bundle, newFiles: Files)
    returns (ok: bool, info: Option<Info>)
    requires run.Valid()
    modifies run
    ensures run.Valid()
    ensures ok ==>
              var before := old(run.failures) + BundleFindings(older, oldFiles, {}, 0) +
                  BundleFindings(newer, newFiles, {older.rangeTo}, older.rangeTo) + AgreeProblems(older, newer);
              && run.failures == before + (if before == [] then Compared(older, newer).1 else [])
              && info == (if before == [] then Compared(older, newer).0 else None)
    ensures ok <==> WalkEnds(older) && WalkEnds(newer)
  {
    hide BundleFindings, WalkedTo, Run.Valid, Compare, WalkEnds, AgreeProblems, UnconfirmedUpTo;
    info := None;
    var old_ := VerifyWhole(run, older, oldFiles, {}, 0);
    if old_.None? {
      return false, None;
    }
    var new_ := VerifyWhole(run, newer, newFiles, {older.rangeTo}, older.rangeTo);
    if new_.None? {
      return false, None;
    }
    CheckAgreement(run, older, newer);
    if run.failures == [] {
      info := CompareRoots(run, old_.value.captured, new_.value.captured, new_.value.proof, older.rangeTo,
        newer.rangeTo);
    }
    ok := true;
  }

  // ---- the verdict

  /** The old entry hashes are the first of the new ones. */
  ghost predicate Extends(older: Bundle, newer: Bundle)
  {
    |older.lines| <= |newer.lines| && forall i :: 0 <= i < |older.lines| ==>
      EntryText(Event(older, i)) == EntryText(Event(newer, i))
  }

  ghost predicate Comparable(older: Bundle, newer: Bundle)
  {
    Passed(older) && Passed(newer) && AgreeProblems(older, newer) == []
  }

  lemma ComparableIs(older: Bundle, newer: Bundle)
    requires Comparable(older, newer)
    ensures Passed(older) && Passed(newer) && older.rangeFrom == 1 && newer.rangeFrom == 1
              && older.rangeTo <= newer.rangeTo
    ensures older.stream == newer.stream
  {
    hide Passed;
  }

  lemma PassedParts(b: Bundle)
    requires Passed(b)
    ensures Decoded(b) && b.lines != [] && b.checkpoints != [] && WalkProblems(b) == []
  {
    hide Decoded, WalkProblems;
  }

  /** What the comparison finds captured. */
  lemma CapturedFor(b: Bundle, wanted: set<int>, proofFrom: int, size: int)
    requires Passed(b) && b.rangeFrom == 1 && 1 <= size <= b.rangeTo
    requires size in wanted || size == b.rangeTo || size in b.rootSizes || (size == proofFrom && proofFrom > 0)
    ensures |Leaves(b, |b.lines|)| == |b.lines| == b.rangeTo
    ensures size in WalkedTo(b, wanted, proofFrom).captured
    ensures WalkedTo(b, wanted, proofFrom).captured[size] == HexEncode(Root(Leaves(b, |b.lines|)[..size]))
  {
    hide *;
    PassedParts(b);
    StreamedIsBatch(b, wanted, proofFrom);
    WalkedToIs(b, wanted, proofFrom);
    InSizes(b, wanted, proofFrom, size);
  }

  lemma ProofFor(b: Bundle, wanted: set<int>, proofFrom: int)
    requires Passed(b) && b.rangeFrom == 1 && 1 <= proofFrom <= b.rangeTo
    ensures WalkedTo(b, wanted, proofFrom).proof == Prove(Leaves(b, |b.lines|), proofFrom)
  {
    hide *;
    PassedParts(b);
    StreamedIsBatch(b, wanted, proofFrom);
    WalkedToIs(b, wanted, proofFrom);
    Wanted(b, proofFrom);
  }

  lemma Wanted(b: Bundle, proofFrom: int)
    requires b.rangeFrom == 1 && 1 <= proofFrom <= b.rangeTo
    ensures CollectorWanted(b, proofFrom)
  {
  }

  /** The two outcomes left, once every root is there and the proof is the batch proof. */
  lemma CompareBatch(older: map<int, Bytes>, newer: map<int, Bytes>, proof: Option<seq<Bytes>>, before: seq<Bytes>,
                     after: seq<Bytes>)
    requires 1 <= |before| <= |after| && proof == Prove(after, |before|)
    requires |before| in older && older[|before|] == HexEncode(Root(before))
    requires |before| in newer && newer[|before|] == HexEncode(Root(after[..|before|]))
    requires |after| in newer && newer[|after|] == HexEncode(Root(after))
    ensures Compare(older, newer, proof, |before|, |after|) ==
              if Root(before) == Root(after[..|before|])
              then (Some(Info(TreeState(|before|, HexEncode(Root(before))), TreeState(|after|, HexEncode(Root(after))),
                |proof.value|)), [])
              else (None, [Content(Diverged)])
  {
    hide Root, HexEncode, HexBytes, Accepts, Prove, RawOf;
    Completeness(after, |before|);
    RawOfHex(Root(before));
    RawOfHex(Root(after));
    if Root(before) != Root(after[..|before|]) && HexEncode(Root(before)) == HexEncode(Root(after[..|before|])) {
      HexInjective(Root(before), Root(after[..|before|]));
    }
  }

  /** The two internal errors are unreachable: what is left is whether the old root is the new prefix's. */
  lemma NoInternalError(older: Bundle, newer: Bundle)
    requires Comparable(older, newer)
    ensures 1 <= |older.lines| <= |newer.lines|
    ensures |Leaves(older, |older.lines|)| == |older.lines| && |Leaves(newer, |newer.lines|)| == |newer.lines|
    ensures var before, after := Leaves(older, |older.lines|), Leaves(newer, |newer.lines|);
            if Root(before) == Root(after[..|before|])
            then Compared(older, newer).1 == [] && Compared(older, newer).0.Some?
            else Compared(older, newer) == (None, [Content(Diverged)])
  {
    hide *;
    ComparableIs(older, newer);
    PassedClean(older);
    PassedClean(newer);
    var m, n := older.rangeTo, newer.rangeTo;
    CapturedFor(older, {}, 0, m);
    CapturedFor(newer, {m}, m, n);
    CapturedFor(newer, {m}, m, m);
    ProofFor(newer, {m}, m);
    var before, after := Leaves(older, |older.lines|), Leaves(newer, |newer.lines|);
    assert before[..m] == before && after[..n] == after;
    CompareBatch(
      WalkedTo(older, {}, 0).captured, WalkedTo(newer, {m}, m).captured, WalkedTo(newer, {m}, m).proof, before, after);
    ComparedIs(older, newer);
  }

  lemma ComparedIs(older: Bundle, newer: Bundle)
    ensures Compared(older, newer) ==
              Compare(WalkedTo(older, {}, 0).captured, WalkedTo(newer, {older.rangeTo}, older.rangeTo).captured,
                      WalkedTo(newer, {older.rangeTo}, older.rangeTo).proof, older.rangeTo, newer.rangeTo)
  {
    hide WalkedTo, Compare;
  }

  lemma LeavesExtend(older: Bundle, newer: Bundle)
    requires EventsOk(older, |older.lines|) && EventsOk(newer, |newer.lines|) && |older.lines| <= |newer.lines|
    ensures |Leaves(older, |older.lines|)| == |older.lines| && |Leaves(newer, |newer.lines|)| == |newer.lines|
    ensures Extends(older, newer) <==> Leaves(older, |older.lines|) == Leaves(newer, |newer.lines|)[..|older.lines|]
  {
    hide EventsOk, Leaves, Event, EntryText, HexEncode, IsLeaf;
    LeavesClean(older, |older.lines|);
    LeavesClean(newer, |newer.lines|);
    var before, after := Leaves(older, |older.lines|), Leaves(newer, |newer.lines|);
    forall i | 0 <= i < |before|
      ensures EntryText(Event(older, i)) == EntryText(Event(newer, i)) <==> before[i] == after[i]
    {
      LeafText(older, before, i);
      LeafText(newer, after, i);
      if HexEncode(before[i]) == HexEncode(after[i]) {
        HexInjective(before[i], after[i]);
      }
    }
    if before == after[..|before|] {
      assert forall i :: 0 <= i < |before| ==> before[i] == after[..|before|][i];
    }
  }

  lemma LeafText(b: Bundle, leaves: seq<Bytes>, i: nat)
    requires AreLeaves(b, leaves) && i < |leaves|
    ensures |leaves| <= |b.lines| && EntryText(Event(b, i)) == HexEncode(leaves[i])
  {
    hide EntryBytes, Event, EntryText, HexEncode, Sha256;
    assert IsLeaf(b, i, leaves[i]);
  }

  /**
   * When both walks pass and the bundles are comparable, consistency is reported exactly when the old entry hashes
   * are a prefix of the new ones, and otherwise the one failure is the divergence, given no collision in the two
   * trees compared.
   */
  lemma VerdictExactly(older: Bundle, newer: Bundle)
    requires Comparable(older, newer)
    requires |older.lines| <= |newer.lines| && |Leaves(older, |older.lines|)| == |older.lines| > 0
    requires |Leaves(newer, |newer.lines|)| == |newer.lines|
    requires NoCollision(RootInputs(Leaves(older, |older.lines|)) +
              RootInputs(Leaves(newer, |newer.lines|)[..|older.lines|]))
    ensures Compared(older, newer).0.Some? <==> Extends(older, newer)
    ensures Compared(older, newer).1 == if Extends(older, newer) then [] else [Content(Diverged)]
  {
    hide *;
    ComparableIs(older, newer);
    PassedClean(older);
    PassedClean(newer);
    NoInternalError(older, newer);
    LeavesExtend(older, newer);
    var before, after := Leaves(older, |older.lines|), Leaves(newer, |newer.lines|);
    if Root(before) == Root(after[..|before|]) {
      RootInjective(before, after[..|before|]);
    }
  }

  /** Where both bundles pass whole and agree, they are comparable. */
  lemma WholeComparable(older: Bundle, oldFiles: Files, newer: Bundle, newFiles: Files)
    requires WholePassed(older, oldFiles, {}, 0) && AgreeProblems(older, newer) == []
    requires WholePassed(newer, newFiles, {older.rangeTo}, older.rangeTo)
    ensures Comparable(older, newer)
  {
    hide *;
    WholePassedGives(older, oldFiles, {}, 0);
    WholePassedGives(newer, newFiles, {older.rangeTo}, older.rangeTo);
    ComparableFrom(older, newer);
  }

  lemma ComparableFrom(older: Bundle, newer: Bundle)
    requires Passed(older) && Passed(newer) && AgreeProblems(older, newer) == []
    ensures Comparable(older, newer)
  {
    hide Passed, AgreeProblems;
  }

  /** One stream, both from its start, and the old bundle no longer than the new one. */
  ghost predicate Agree(older: Bundle, newer: Bundle)
  {
    older.stream == newer.stream && older.rangeFrom == 1 && newer.rangeFrom == 1 && older.rangeTo <= newer.rangeTo
  }

  lemma AgreeExactly(older: Bundle, newer: Bundle)
    ensures AgreeProblems(older, newer) == [] <==> Agree(older, newer)
  {
  }

  /** The two trees compared hash no two strings alike. */
  ghost predicate TreesFree(older: Bundle, newer: Bundle)
  {
    var before, after := Leaves(older, |older.lines|), Leaves(newer, |newer.lines|);
    0 < |before| <= |after| ==> NoCollision(RootInputs(before) + RootInputs(after[..|before|]))
  }

  /** Read from its files, not empty, and with its recorded states ready to be compared. */
  ghost predicate Prepared(b: Bundle, f: Files)
  {
    Decoded(b) && b.lines != [] && b.checkpoints != [] && RecordedReady(b, f)
  }

  /** Every failure before the comparison. */
  function FindingsBefore(older: Bundle, oldFiles: Files, newer: Bundle, newFiles: Files): seq<Finding>
  {
    BundleFindings(older, oldFiles, {}, 0) + BundleFindings(newer, newFiles, {older.rangeTo}, older.rangeTo) +
    AgreeProblems(older, newer)
  }

  ghost predicate Consistent(older: Bundle, oldFiles: Files, newer: Bundle, newFiles: Files)
  {
    && WholeRight(older, oldFiles, {}, 0) && WholeRight(newer, newFiles, {older.rangeTo}, older.rangeTo)
    && Agree(older, newer) && Extends(older, newer)
  }

  /**
   * Two bundles are compared and found consistent exactly when both are right, they agree, and the old one's entry
   * hashes are the first of the new one's.
   */
  lemma ConsistentExactly(older: Bundle, oldFiles: Files, newer: Bundle, newFiles: Files)
    requires Prepared(older, oldFiles) && Prepared(newer, newFiles) && TreesFree(older, newer)
    ensures FindingsBefore(older, oldFiles, newer, newFiles) == [] && Compared(older, newer).1 == [] <==>
            Consistent(older, oldFiles, newer, newFiles)
    ensures FindingsBefore(older, oldFiles, newer, newFiles) == [] ==>
              (Compared(older, newer).0.Some? <==> Extends(older, newer))
  {
    hide *;
    PreparedIs(older, oldFiles);
    PreparedIs(newer, newFiles);
    WholeExactly(older, oldFiles, {}, 0);
    WholeExactly(newer, newFiles, {older.rangeTo}, older.rangeTo);
    AgreeExactly(older, newer);
    BeforeNone(older, oldFiles, newer, newFiles);
    ConsistentIs(older, oldFiles, newer, newFiles);
    if FindingsBefore(older, oldFiles, newer, newFiles) == [] {
      WholeBoth(older, oldFiles, newer, newFiles);
      NoInternalError(older, newer);
      TreesFreeIs(older, newer);
      VerdictExactly(older, newer);
    }
  }

  lemma PreparedIs(b: Bundle, f: Files)
    requires Prepared(b, f)
    ensures Decoded(b) && b.lines != [] && b.checkpoints != [] && RecordedReady(b, f)
  {
    hide Decoded, RecordedReady;
  }

  lemma BeforeNone(older: Bundle, oldFiles: Files, newer: Bundle, newFiles: Files)
    ensures FindingsBefore(older, oldFiles, newer, newFiles) == [] <==>
            && BundleFindings(older, oldFiles, {}, 0) == []
            && BundleFindings(newer, newFiles, {older.rangeTo}, older.rangeTo) == []
            && AgreeProblems(older, newer) == []
  {
    hide BundleFindings, AgreeProblems;
  }

  lemma ConsistentIs(older: Bundle, oldFiles: Files, newer: Bundle, newFiles: Files)
    ensures Consistent(older, oldFiles, newer, newFiles) <==>
            && WholeRight(older, oldFiles, {}, 0) && WholeRight(newer, newFiles, {older.rangeTo}, older.rangeTo)
            && Agree(older, newer) && Extends(older, newer)
  {
    hide WholeRight, Agree, Extends;
  }

  lemma WholeBoth(older: Bundle, oldFiles: Files, newer: Bundle, newFiles: Files)
    requires Prepared(older, oldFiles) && Prepared(newer, newFiles)
    requires FindingsBefore(older, oldFiles, newer, newFiles) == []
    ensures Comparable(older, newer)
  {
    hide *;
    BeforeNone(older, oldFiles, newer, newFiles);
    PassedWhole(older, oldFiles, {}, 0);
    PassedWhole(newer, newFiles, {older.rangeTo}, older.rangeTo);
    WholeComparable(older, oldFiles, newer, newFiles);
  }

  lemma PassedWhole(b: Bundle, f: Files, wanted: set<int>, proofFrom: int)
    requires Prepared(b, f) && BundleFindings(b, f, wanted, proofFrom) == []
    ensures WholePassed(b, f, wanted, proofFrom)
  {
    hide Decoded, BundleFindings, RecordedReady;
  }

  lemma TreesFreeIs(older: Bundle, newer: Bundle)
    requires TreesFree(older, newer) && 0 < |Leaves(older, |older.lines|)| <= |Leaves(newer, |newer.lines|)|
    ensures var before, after := Leaves(older, |older.lines|), Leaves(newer, |newer.lines|);
            NoCollision(RootInputs(before) + RootInputs(after[..|before|]))
  {
    hide Leaves, RootInputs, NoCollision;
  }

  /** An extension holds the same events, not only the same hashes. */
  lemma ExtensionKeepsEvents(older: Bundle, newer: Bundle)
    requires Comparable(older, newer) && Extends(older, newer) && HashedApart(older, newer)
    ensures forall i :: 0 <= i < |older.lines| ==> SameEvent(Event(older, i), Event(newer, i))
  {
    hide Passed, HashedApart, SameEvent, Event, EntryText, AgreeProblems, EventsOk, Decoded, FormsOk, RootsOk, EndsAt;
    PassedClean(older);
    PassedClean(newer);
    forall i | 0 <= i < |older.lines|
      ensures SameEvent(Event(older, i), Event(newer, i))
    {
      EventPins(older, newer, i, i);
    }
  }

  // ---- against a recorded state

  function RecordedProblems(b: Bundle, captured: map<int, Bytes>, size: int, root: Bytes): seq<Finding>
  {
    if b.rangeFrom != 1 then [Content(NotFromStart)]
    else if size < 1 || size > b.rangeTo then [Content(SizeInvalid)]
    else if !IsHex64(Lower(root)) then [Content(RootInvalid)]
    else if Lower(root) != (if size in captured then captured[size] else []) then [Content(Diverged)]
    else []
  }

  method CompareRecorded(run: Run, b: Bundle, f: Files, root: Bytes, size: int) returns (ok: bool)
    requires run.Valid()
    modifies run
    ensures run.Valid() && (ok <==> WalkEnds(b))
    ensures ok ==>
              run.failures == old(run.failures) + BundleFindings(b, f, {size}, 0) +
                RecordedProblems(b, WalkedTo(b, {size}, 0).captured, size, root)
  {
    hide BundleFindings, WalkedTo, Run.Valid, WalkEnds, IsHex64, Lower, UnconfirmedUpTo;
    var recordedRoot := Lower(root);
    var walked := VerifyWhole(run, b, f, {size}, 0);
    if walked.None? {
      return false;
    }
    if b.rangeFrom != 1 {
      run.Report(Content(NotFromStart));
    } else if size < 1 || size > b.rangeTo {
      run.Report(Content(SizeInvalid));
    } else if !IsHex64(recordedRoot) {
      run.Report(Content(RootInvalid));
    } else {
      var prefixRoot := if size in walked.value.captured then walked.value.captured[size] else [];
      if recordedRoot != prefixRoot {
        run.Report(Content(Diverged));
      }
    }
    ok := true;
  }

  lemma RootIsHex64(leaves: seq<Bytes>)
    requires leaves != []
    ensures IsHex64(HexEncode(Root(leaves)))
  {
    hide Root;
    HexIsHex(Root(leaves));
  }

  /**
   * A passing bundle extends a recorded state exactly when the state is the root of its first size leaves, in any case.
   */
  lemma RecordedExactly(b: Bundle, size: int, root: Bytes)
    requires Passed(b)
    ensures RecordedProblems(b, WalkedTo(b, {size}, 0).captured, size, root) == [] <==>
              && b.rangeFrom == 1 && 1 <= size <= |b.lines| && |Leaves(b, |b.lines|)| == |b.lines|
              && Lower(root) == HexEncode(Root(Leaves(b, |b.lines|)[..size]))
  {
    hide Passed, WalkedTo, Leaves, Root, HexEncode, Lower, IsHex64, EventsOk, Decoded, FormsOk, RootsOk, EndsAt;
    PassedClean(b);
    if b.rangeFrom == 1 && 1 <= size <= b.rangeTo {
      CapturedFor(b, {size}, 0, size);
      RootIsHex64(Leaves(b, |b.lines|)[..size]);
    }
  }
}

/** verify/walk.go: what a walk that reported nothing hands to the checks after it. */
module PassedWalk {
  import opened Bytes
  import opened JsonValue
  import opened PhpValues
  import opened MerkleTree
  import opened ConsistencyProof
  import opened WalkRules
  import opened WalkTrees
  import opened CheckpointRules
  import opened CleanWalk
  import opened Walk

  /** The payload at this sequence is gone. */
  ghost predicate AbsentAt(b: Bundle, s: int, n: nat)
    requires n <= |b.lines|
  {
    b.rangeFrom <= s < b.rangeFrom + n && Nullish(Field(Event(b, s - b.rangeFrom), "payload"))
  }

  /** Which ceremony the event says destroyed its payload. */
  predicate SaysErased(b: Bundle, i: nat)
    requires i < |b.lines|
  {
    StrEq(Field(Event(b, i), "absence"), "erased")
  }

  /** The absences of the first n events in ascending order. */
  ghost predicate AbsencesRight(b: Bundle, k: Kept, n: nat)
    requires n <= |b.lines|
  {
    && k.redacted == |k.absentOrder|
    && (forall s :: s in k.absentOrder <==> AbsentAt(b, s, n))
    && (forall i, j :: 0 <= i < j < |k.absentOrder| ==> k.absentOrder[i] < k.absentOrder[j])
    && (forall s :: s in k.erased <==> s in k.absentOrder)
  }

  ghost predicate KindsRight(b: Bundle, k: Kept, n: nat)
    requires n <= |b.lines|
  {
    forall s :: s in k.erased ==>
      b.rangeFrom <= s < b.rangeFrom + n && k.erased[s] == SaysErased(b, s - b.rangeFrom)
  }

  /** The entry hashes asked for. */
  ghost predicate HashesRight(b: Bundle, k: Kept, n: nat)
    requires n <= |b.lines|
  {
    && (forall s :: s in k.retained <==> s in b.retain && b.rangeFrom <= s < b.rangeFrom + n)
    && (forall s :: s in k.retained ==>
      b.rangeFrom <= s < b.rangeFrom + n && k.retained[s] == EntryText(Event(b, s - b.rangeFrom)))
  }

  /** Everything the walk is to keep of the first n events. */
  ghost predicate KeptRight(b: Bundle, k: Kept, n: nat)
    requires n <= |b.lines|
  {
    k.events == n && AbsencesRight(b, k, n) && KindsRight(b, k, n) && HashesRight(b, k, n)
  }

  lemma AbsentExactly(b: Bundle, i: nat)
    requires i < |b.lines| && EventOk(b, i)
    ensures Absent(Event(b, i)) <==> Nullish(Field(Event(b, i), "payload"))
  {
    hide Event, EntryOk, SeqOf, StrictEqual, Ascii;
  }

  lemma KeepRight(b: Bundle, k: Kept, n: nat)
    requires n < |b.lines| && KeptRight(b, k, n) && SeqOf(Event(b, n)) == Some(b.rangeFrom + n) && Event(b, n).Some?
    requires Absent(Event(b, n)) <==> Nullish(Field(Event(b, n), "payload"))
    ensures KeptRight(b, Keep(b, k, Event(b, n)), n + 1)
  {
    hide Event, SeqOf, Absent, EntryText, StrEq, Field, AbsencesRight, KindsRight, HashesRight;
    AbsencesStep(b, k, n);
    KindsStep(b, k, n);
    HashesStep(b, k, n);
  }

  lemma AbsencesStep(b: Bundle, k: Kept, n: nat)
    requires n < |b.lines| && AbsencesRight(b, k, n) && SeqOf(Event(b, n)) == Some(b.rangeFrom + n) && Event(b, n).Some?
    requires Absent(Event(b, n)) <==> Nullish(Field(Event(b, n), "payload"))
    ensures AbsencesRight(b, Keep(b, k, Event(b, n)), n + 1)
  {
    hide Event, SeqOf, Absent, EntryText, StrEq, Field;
    var s, r := b.rangeFrom + n, Keep(b, k, Event(b, n));
    assert s !in k.absentOrder;
    assert forall t ::
        AbsentAt(b, t, n + 1) <==> AbsentAt(b, t, n) || (t == s && Nullish(Field(Event(b, n), "payload")));
    assert forall t :: t in r.absentOrder <==> t in k.absentOrder || (t == s && Absent(Event(b, n)));
    assert forall i :: 0 <= i < |k.absentOrder| ==> k.absentOrder[i] in k.absentOrder;
  }

  lemma KindsStep(b: Bundle, k: Kept, n: nat)
    requires n < |b.lines| && KindsRight(b, k, n) && SeqOf(Event(b, n)) == Some(b.rangeFrom + n) && Event(b, n).Some?
    ensures KindsRight(b, Keep(b, k, Event(b, n)), n + 1)
  {
    hide Event, SeqOf, Absent, EntryText, StrEq, Field;
  }

  lemma HashesStep(b: Bundle, k: Kept, n: nat)
    requires n < |b.lines| && HashesRight(b, k, n) && SeqOf(Event(b, n)) == Some(b.rangeFrom + n) && Event(b, n).Some?
    ensures HashesRight(b, Keep(b, k, Event(b, n)), n + 1)
  {
    hide Event, SeqOf, Absent, EntryText, StrEq, Field;
  }

  lemma {:induction false} KeptClean(b: Bundle, n: nat)
    requires n <= |b.lines| && EventsOk(b, n)
    ensures KeptRight(b, KeptAt(b, n), n)
  {
    hide *;
    if n == 0 {
      KeptStart(b);
    } else {
      EventsOkLess(b, n - 1, n);
      KeptClean(b, n - 1);
      CleanEntry(b, n - 1);
      SequenceNeedsObject(Event(b, n - 1));
      AbsentExactly(b, n - 1);
      KeepRight(b, KeptAt(b, n - 1), n - 1);
      KeptStep(b, n - 1);
    }
  }

  lemma KeptStart(b: Bundle)
    ensures KeptRight(b, KeptAt(b, 0), 0)
  {
  }

  lemma KeptStep(b: Bundle, n: nat)
    requires n < |b.lines|
    ensures KeptAt(b, n + 1) == Keep(b, KeptAt(b, n), Event(b, n))
  {
    hide Keep, Event;
  }

  /** On a clean walk every captured root is a prefix's, and the streamed proof is the batch proof. */
  lemma StreamedIsBatch(b: Bundle, wanted: set<int>, proofFrom: int)
    requires Decoded(b) && b.lines != [] && b.checkpoints != [] && WalkProblems(b) == []
    ensures Clean(b) && Settled(b) && |Leaves(b, |b.lines|)| == |b.lines|
              && KeptRight(b, KeptAt(b, |b.lines|), |b.lines|)
    ensures b.rangeFrom == 1 ==> |b.lines| == b.rangeTo
    ensures b.rangeFrom == 1 ==> forall s :: s in Sizes(b, wanted, proofFrom) && 1 <= s <= b.rangeTo ==>
              && s in Captured(b, Sizes(b, wanted, proofFrom), |b.lines|)
              && Captured(b, Sizes(b, wanted, proofFrom), |b.lines|)[s] == HexEncode(Root(Leaves(b, |b.lines|)[..s]))
    ensures CollectorWanted(b, proofFrom) ==> BatchProof(b, proofFrom) == Prove(Leaves(b, |b.lines|), proofFrom)
    ensures CollectorWanted(b, proofFrom) ==> BatchProof(b, proofFrom).Some?
  {
    hide *;
    var n := |b.lines|;
    CleanExactly(b);
    CleanIs(b);
    LeavesPrefix(b, n, n);
    KeptClean(b, n);
    if b.rangeFrom == 1 {
      CapturedClean(b, Sizes(b, wanted, proofFrom), n);
      BatchProofIs(b, proofFrom);
    } else {
      NotWanted(b, proofFrom);
    }
  }

  lemma NotWanted(b: Bundle, proofFrom: int)
    requires b.rangeFrom != 1
    ensures !CollectorWanted(b, proofFrom)
  {
  }

  lemma BatchProofIs(b: Bundle, proofFrom: int)
    requires |Leaves(b, |b.lines|)| == |b.lines| == b.rangeTo
    ensures CollectorWanted(b, proofFrom) ==> BatchProof(b, proofFrom) == Prove(Leaves(b, |b.lines|), proofFrom)
    ensures CollectorWanted(b, proofFrom) ==> BatchProof(b, proofFrom).Some?
  {
    hide Leaves;
    var leaves := Leaves(b, |b.lines|);
    assert leaves[..b.rangeTo] == leaves;
  }
}

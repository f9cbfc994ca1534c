/** verify/walk.go: the walk and the sections after it, and what a bundle that passes them all is. */
module WholeBundle {
  import opened Bytes
  import opened JsonValue
  import opened PhpValues
  import opened Run
  import opened WalkRules
  import opened WalkTrees
  import opened CheckpointRules
  import opened CleanWalk
  import opened Walk
  import opened PassedWalk
  import opened TamperEvidence
  import opened ConsistencyFile
  import D = Declarations
  import opened DeclaredAbsences
  import C = Collection
  import CE = CollectionExact

  /**
   * What the sections after the checkpoints read. declarable says the format carries declarations and collects that it
   * carries collection records; aside is what anchors, certificates, signatures and connection.json gave.
   */
  datatype Files = Files(
    declarable: bool, declarations: Option<seq<Bytes>>, proofs: map<Bytes, Value>, aside: seq<Finding>,
    asideWaits: seq<Finding>, collects: bool, recorded: Option<Recorded>)

  function ContextOf(b: Bundle, f: Files, kept: Kept): D.Context
  {
    D.Context(b.stream, b.rangeFrom, b.rangeTo, kept.retained, f.proofs, b.seal)
  }

  function AbsenceFindings(b: Bundle, f: Files, kept: Kept): seq<Finding>
  {
    if kept.absentOrder == [] then []
    else D.Findings(f.declarable, f.declarations, ContextOf(b, f, kept), kept.absentOrder, kept.erased)
  }

  function RecordFindings(b: Bundle, f: Files): seq<Finding>
  {
    var entries := C.EntriesOf(b.lines, |b.lines|);
    if f.collects then C.FindingsAt(b.rangeFrom == 1, b.rangeFrom, entries, |entries|) else []
  }

  function RecordedFindings(b: Bundle, f: Files, captured: map<int, Bytes>): seq<Finding>
  {
    if b.rangeFrom == 1 && f.recorded.Some? then FileProblems(captured, b.rangeTo, f.recorded.value) else []
  }

  /** What the sections after the checkpoints report, in order. */
  function SectionFindings(b: Bundle, f: Files, w: WalkResult): seq<Finding>
  {
    AbsenceFindings(b, f, w.kept) + f.aside + RecordFindings(b, f) + RecordedFindings(b, f, w.captured)
  }

  /** Every failure of one bundle. */
  function BundleFindings(b: Bundle, f: Files, wanted: set<int>, proofFrom: int): seq<Finding>
  {
    WalkProblems(b) + SectionFindings(b, f, WalkedTo(b, wanted, proofFrom))
  }

  method CheckAbsences(run: Run, b: Bundle, f: Files, kept: Kept)
    requires run.Valid()
    modifies run
    ensures run.Valid() && run.unconfirmed == old(run.unconfirmed)
    ensures run.failures == old(run.failures) + AbsenceFindings(b, f, kept)
  {
    hide Run.Valid, D.Findings;
    if |kept.absentOrder| > 0 {
      D.CheckDeclarations(run, f.declarable, f.declarations, ContextOf(b, f, kept), kept.absentOrder, kept.erased);
    }
  }

  method CheckRecords(run: Run, b: Bundle, f: Files)
    requires run.Valid()
    modifies run
    ensures run.Valid() && run.unconfirmed == old(run.unconfirmed)
    ensures run.failures == old(run.failures) + RecordFindings(b, f)
  {
    hide Run.Valid, C.FindingsAt, C.StatesAt, C.EntriesOf, C.Tracks;
    if f.collects {
      var _ := C.CheckCollectionRecords(run, b.rangeFrom == 1, b.rangeFrom, b.lines);
    }
  }

  method CheckRecorded(run: Run, b: Bundle, f: Files, captured: map<int, Bytes>)
    requires run.Valid()
    modifies run
    ensures run.Valid() && run.unconfirmed == old(run.unconfirmed)
    ensures run.failures == old(run.failures) + RecordedFindings(b, f, captured)
  {
    hide Run.Valid, FileProblems;
    if b.rangeFrom == 1 && f.recorded.Some? {
      CheckConsistencyFile(run, captured, b.rangeTo, f.recorded.value);
    }
  }

  method CheckSections(run: Run, b: Bundle, f: Files, w: WalkResult)
    requires run.Valid()
    modifies run
    ensures run.Valid() && run.failures == old(run.failures) + SectionFindings(b, f, w)
    ensures run.unconfirmed == old(run.unconfirmed) + f.asideWaits
  {
    hide Run.Valid, AbsenceFindings, RecordFindings, RecordedFindings;
    CheckAbsences(run, b, f, w.kept);
    run.ReportAll(f.aside);
    run.MarkAll(f.asideWaits);
    CheckRecords(run, b, f);
    CheckRecorded(run, b, f, w.captured);
  }

  /** None is a hard error: no checkpoints, or no events. */
  method VerifyWhole(run: Run, b: Bundle, f: Files, wanted: set<int>,
                     proofFrom: int) returns (result: Option<WalkResult>)
    requires run.Valid()
    modifies run
    ensures run.Valid() && (result.Some? <==> WalkEnds(b))
    ensures result.Some? ==> run.failures == old(run.failures) + BundleFindings(b, f, wanted, proofFrom)
    ensures result.Some? ==>
              run.unconfirmed == old(run.unconfirmed) + (UnconfirmedUpTo(b, |b.checkpoints|) + f.asideWaits)
    ensures result.Some? ==> result.value == WalkedTo(b, wanted, proofFrom)
  {
    hide WalkProblems, WalkedTo, Run.Valid, KeptAt, UnconfirmedUpTo, SectionFindings;
    result := VerifyBundle(run, b, wanted, proofFrom);
    if result.Some? {
      CheckSections(run, b, f, result.value);
    }
  }

  predicate WalkEnds(b: Bundle)
  {
    b.checkpoints != [] && KeptAt(b, |b.lines|).events != 0
  }

  // ---- what a bundle that passes is

  ghost predicate WholePassed(b: Bundle, f: Files, wanted: set<int>, proofFrom: int)
  {
    Decoded(b) && b.lines != [] && b.checkpoints != [] && BundleFindings(b, f, wanted, proofFrom) == []
  }

  lemma WholePassedGives(b: Bundle, f: Files, wanted: set<int>, proofFrom: int)
    requires WholePassed(b, f, wanted, proofFrom)
    ensures Passed(b) && AbsenceFindings(b, f, KeptAt(b, |b.lines|)) == [] && RecordFindings(b, f) == []
    ensures RecordedFindings(b, f, WalkedTo(b, wanted, proofFrom).captured) == []
  {
    hide Decoded, WalkProblems, AbsenceFindings, RecordFindings, RecordedFindings, Captured, BatchProof;
  }

  /**
   * No payload is absent, or the file of declarations is there, every line of it is authentic and sealed, and every
   * absence is declared: an erased event by a subject's erasure, any other by a redaction.
   */
  ghost predicate AbsencesDeclared(b: Bundle, f: Files)
  {
    var c := D.Context(b.stream, b.rangeFrom, b.rangeTo, KeptAt(b, |b.lines|).retained, f.proofs, b.seal);
    || (forall i :: 0 <= i < |b.lines| ==> !Nullish(Field(Event(b, i), "payload")))
    || (&& f.declarable && f.declarations.Some?
        && (forall i :: 0 <= i < |f.declarations.value| ==> IsAuthentic(f.declarations.value[i]))
        && AllSealed(c, f.declarations.value) && EventsDeclared(b, c, f.declarations.value))
  }

  lemma AbsentsExactly(b: Bundle, f: Files)
    requires Passed(b)
    ensures AbsenceFindings(b, f, KeptAt(b, |b.lines|)) == [] <==> AbsencesDeclared(b, f)
  {
    hide Passed, KeptAt, D.Findings, Event, Field, IsAuthentic, AllSealed, EventsDeclared, EventsOk;
    var kept := KeptAt(b, |b.lines|);
    PassedDeclaredExactly(b, f.declarable, f.declarations, ContextOf(b, f, kept));
    PassedClean(b);
    KeptClean(b, |b.lines|);
    forall i | 0 <= i < |b.lines| && Nullish(Field(Event(b, i), "payload"))
      ensures kept.absentOrder != []
    {
      assert AbsentAt(b, b.rangeFrom + i, |b.lines|);
    }
    if kept.absentOrder != [] {
      assert kept.absentOrder[0] in kept.absentOrder;
    }
  }

  /** Every collection record of every stream is right among those of its stream before it. */
  ghost predicate RecordsRight(b: Bundle, f: Files)
  {
    f.collects ==> CE.StreamsRight(b.rangeFrom == 1, b.rangeFrom, C.EntriesOf(b.lines, |b.lines|))
  }

  lemma RecordsExactly(b: Bundle, f: Files)
    requires Passed(b)
    ensures RecordFindings(b, f) == [] <==> RecordsRight(b, f)
  {
    hide Passed, C.EntriesOf, C.FindingsAt, CE.StreamsRight, CE.Digests;
    CE.WalkDigests(b);
    CE.CollectionExactly(b.rangeFrom == 1, b.rangeFrom, C.EntriesOf(b.lines, |b.lines|));
  }

  /** Every recorded size was asked for, and the recorded proof is checked over strings that do not collide. */
  ghost predicate RecordedReady(b: Bundle, f: Files)
  {
    f.recorded.Some? ==>
      && Asked(b.rootSizes, f.recorded.value.states)
      && (f.recorded.value.proof.Some? ==> ProofFree(Leaves(b, |b.lines|), f.recorded.value.proof.value))
  }

  /** The recorded states are the bundle's own. */
  ghost predicate RecordedRight(b: Bundle, f: Files, sizes: set<int>)
  {
    b.rangeFrom == 1 && f.recorded.Some? ==> FileOk(sizes, Leaves(b, |b.lines|), f.recorded.value)
  }

  /** What a bundle of which nothing is reported is, section by section. */
  ghost predicate WholeRight(b: Bundle, f: Files, wanted: set<int>, proofFrom: int)
  {
    Clean(b) && AbsencesDeclared(b, f) && f.aside == [] && RecordsRight(b, f)
    && RecordedRight(b, f, Sizes(b, wanted, proofFrom))
  }

  lemma FindingsNone(b: Bundle, f: Files, wanted: set<int>, proofFrom: int)
    ensures BundleFindings(b, f, wanted, proofFrom) == [] <==>
            && WalkProblems(b) == [] && AbsenceFindings(b, f, KeptAt(b, |b.lines|)) == [] && f.aside == []
            && RecordFindings(b, f) == [] && RecordedFindings(b, f, WalkedTo(b, wanted, proofFrom).captured) == []
  {
    hide WalkProblems, AbsenceFindings, RecordFindings, RecordedFindings, Captured, BatchProof, KeptAt;
  }

  /**
   * Nothing is reported of a bundle exactly when it is clean, every absence is declared, every collection record is
   * right, every recorded state is its own tree's and nothing set aside speaks against it.
   */
  lemma WholeExactly(b: Bundle, f: Files, wanted: set<int>, proofFrom: int)
    requires Decoded(b) && b.lines != [] && b.checkpoints != [] && RecordedReady(b, f)
    ensures BundleFindings(b, f, wanted, proofFrom) == [] <==> WholeRight(b, f, wanted, proofFrom)
  {
    hide *;
    FindingsNone(b, f, wanted, proofFrom);
    CleanExactly(b);
    WholeRightIs(b, f, wanted, proofFrom);
    if WalkProblems(b) == [] {
      PassedIs(b);
      AbsentsExactly(b, f);
      RecordsExactly(b, f);
      RecordedExactly(b, f, wanted, proofFrom);
    }
  }

  lemma WholeRightIs(b: Bundle, f: Files, wanted: set<int>, proofFrom: int)
    ensures WholeRight(b, f, wanted, proofFrom) <==>
            && Clean(b) && AbsencesDeclared(b, f) && f.aside == [] && RecordsRight(b, f)
            && RecordedRight(b, f, Sizes(b, wanted, proofFrom))
  {
    hide Clean, AbsencesDeclared, RecordsRight, RecordedRight;
  }

  lemma PassedIs(b: Bundle)
    requires Decoded(b) && b.lines != [] && b.checkpoints != [] && WalkProblems(b) == []
    ensures Passed(b)
  {
    hide Decoded, WalkProblems;
  }

  lemma RecordedExactly(b: Bundle, f: Files, wanted: set<int>, proofFrom: int)
    requires Passed(b) && RecordedReady(b, f)
    ensures RecordedFindings(b, f, WalkedTo(b, wanted, proofFrom).captured) == [] <==>
            RecordedRight(b, f, Sizes(b, wanted, proofFrom))
  {
    hide Passed, Leaves, FileOk, FileProblems, Asked, ProofFree, WalkedTo, Sizes;
    if b.rangeFrom == 1 && f.recorded.Some? {
      FileExactly(b, wanted, proofFrom, f.recorded.value);
    }
  }
}

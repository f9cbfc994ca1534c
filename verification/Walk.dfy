/** verify/walk.go: verifyBundle's event loop, its checkpoint trees and its checkpoint loop. */
module Walk {
  import opened Bytes
  import opened JsonValue
  import opened Canonical
  import opened PhpValues
  import opened Preimages
  import opened HashStack
  import opened ConsistencyProof
  import opened Collector
  import opened Run
  import opened WalkRules
  import opened WalkTrees
  import opened CheckpointRules

  /** What the closures capture about one checkpoint stands for the leaves it held. */
  ghost predicate Mirrors(roots: map<int, Bytes>, counts: map<int, nat>, closed: map<int, seq<Bytes>>)
  {
    && roots.Keys == closed.Keys && counts.Keys == closed.Keys
    && forall from :: from in closed ==> roots[from] == RootText(closed[from]) && counts[from] == |closed[from]|
  }

  lemma MirrorsClose(roots: map<int, Bytes>, counts: map<int, nat>, closed: map<int, seq<Bytes>>, from: int,
                     leaves: seq<Bytes>)
    requires Mirrors(roots, counts, closed)
    ensures Mirrors(roots[from := RootText(leaves)], counts[from := |leaves|], closed[from := leaves])
  {
    hide RootText;
  }

  class CheckpointTrees {
    const ranges: seq<Sealed>
    const stack: Stack
    var index: nat
    var rebuiltRootFor: map<int, Bytes>
    var leavesFor: map<int, nat>
    var leafCount: nat
    ghost var closed: map<int, seq<Bytes>>

    ghost predicate Valid()
      reads this, stack
    {
      && index <= |ranges| && stack.Valid() && leafCount == |stack.Leaves()|
      && Mirrors(rebuiltRootFor, leavesFor, closed)
    }

    ghost function State(): Trees
      reads this, stack
    {
      Trees(index, closed, stack.Leaves())
    }

    constructor (ranges: seq<Sealed>, stack: Stack)
      requires stack.Valid() && stack.Leaves() == []
      ensures Valid() && State() == Trees(0, map[], []) && this.ranges == ranges && this.stack == stack
    {
      this.ranges, this.stack := ranges, stack;
      index, rebuiltRootFor, leavesFor, leafCount, closed := 0, map[], map[], 0, map[];
    }

    method CloseCheckpoint()
      requires Valid() && index < |ranges|
      modifies this, stack
      ensures Valid() && State() == Close(ranges, old(State()))
    {
      var from := ranges[index].from;
      var root := stack.Root();
      ghost var leaves := stack.Leaves();
      MirrorsClose(rebuiltRootFor, leavesFor, closed, from, leaves);
      rebuiltRootFor := rebuiltRootFor[from := if root.Some? then HexEncode(root.value) else []];
      leavesFor := leavesFor[from := leafCount];
      closed := closed[from := leaves];
      stack.Reset();
      leafCount := 0;
      index := index + 1;
    }

    method CloseBefore(sequence: int)
      requires Valid()
      modifies this, stack
      ensures Valid() && State() == WalkTrees.CloseBefore(ranges, old(State()), sequence)
    {
      while index < |ranges| && sequence > ranges[index].to
        invariant Valid()
        invariant WalkTrees.CloseBefore(ranges, State(), sequence) ==
            WalkTrees.CloseBefore(ranges, old(State()), sequence)
        decreases |ranges| - index
      {
        hide Close, Mirrors;
        CloseCheckpoint();
      }
    }

    method CloseAll()
      requires Valid()
      modifies this, stack
      ensures Valid() && State() == WalkTrees.CloseAll(ranges, old(State()))
    {
      while index < |ranges|
        invariant Valid()
        invariant WalkTrees.CloseAll(ranges, State()) == WalkTrees.CloseAll(ranges, old(State()))
        decreases |ranges| - index
      {
        hide Close, Mirrors;
        CloseCheckpoint();
      }
    }

    method Append(raw: Bytes)
      requires Valid()
      modifies this, stack
      ensures Valid() && State() == old(State()).(open := old(State()).open + [raw])
    {
      stack.Append(raw);
      leafCount := leafCount + 1;
    }
  }

  // ---- what one event is asked

  method CheckPayload(run: Run, ev: Option<Value>, declared: bool)
    requires run.Valid()
    modifies run
    ensures run.Valid() && run.unconfirmed == old(run.unconfirmed)
    ensures run.failures == old(run.failures) + PayloadProblems(ev, declared)
  {
    hide Canon, Ascii, Field, Lower, Sha256Hex, Text, Run.Valid;
    var state, present := PayloadState(ev), !Nullish(Field(ev, "payload"));
    if !StrEq(state, "present") && !StrEq(state, "redacted") {
      run.Report(Content(UnknownPayloadState));
    } else if StrEq(state, "redacted") || !present {
      if present {
        run.Report(Content(RedactedYetPresent));
      } else if !StrEq(state, "redacted") {
        run.Report(Content(UndeclaredAbsence));
      }
    } else {
      if declared {
        run.Report(Content(DeclaredYetPresent));
      }
      var canon := Canon(OrNull(Field(ev, "payload")));
      if canon.None? {
        run.Report(Content(PayloadNotCanonical));
      } else if Lower(Text(Field(ev, "payload_hash"))) != Sha256Hex(canon.value) {
        run.Report(Content(PayloadChanged));
      }
    }
  }

  method CheckEntry(run: Run, stream: Bytes, seq_: int, ev: Option<Value>)
    requires run.Valid()
    modifies run
    ensures run.Valid() && run.unconfirmed == old(run.unconfirmed)
    ensures run.failures == old(run.failures) + EntryProblems(stream, seq_, ev)
  {
    hide Canon, EntryPreimage, EntryText, Sha256Hex, Run.Valid;
    var preimage := Canon(EntryPreimage(String(stream), Int(seq_), ev));
    if preimage.None? {
      run.Report(Content(EntryNotCanonical));
    } else if EntryText(ev) != Sha256Hex(preimage.value) {
      run.Report(Content(EntryChanged));
    }
  }

  method CheckEvent(run: Run, b: Bundle, chain: Chain, seq_: int, ev: Option<Value>)
    requires run.Valid() && SeqOf(ev) == Some(seq_) && ev.Some?
    modifies run
    ensures run.Valid() && run.unconfirmed == old(run.unconfirmed)
    ensures run.failures == old(run.failures) + LineProblems(b, chain, ev)
  {
    hide PayloadProblems, EntryProblems, SeqOf, StrictEqual, Field, Run.Valid;
    if chain.expected != At(seq_) {
      run.Report(Content(OutOfSequence));
    }
    CheckPayload(run, ev, seq_ in b.declared);
    if chain.prevHash.Some? && !StrictEqual(Field(ev, "prev_hash"), chain.prevHash) {
      run.Report(Content(ChainBroken));
    }
    CheckEntry(run, b.stream, seq_, ev);
  }

  // ---- what one checkpoint is asked

  method CheckSeal(run: Run, seal: Seal)
    requires run.Valid()
    modifies run
    ensures run.Valid() && run.failures == old(run.failures) + SealProblems(seal)
    ensures run.unconfirmed == old(run.unconfirmed) + if seal.trusted then []
              else [Finding(KeyNotTrusted, SigningIdentity)]
  {
    hide Run.Valid, Times;
    if !seal.inManifest {
      run.Report(Content(KeyNotInManifest));
    }
    if !seal.trusted {
      run.MarkUnconfirmed(Finding(KeyNotTrusted, SigningIdentity));
      if seal.inManifest {
        run.ReportTimes(seal.windowProblems, Content(OutsideWindow));
      }
    } else {
      run.ReportTimes(seal.windowProblems, Finding(OutsideWindow, SigningIdentity));
    }
    if !seal.signatureValid {
      run.Report(Content(SignatureInvalid));
    }
  }

  method CheckHash(run: Run, stream: Bytes, r: Sealed, cp: Value)
    requires run.Valid()
    modifies run
    ensures run.Valid() && run.unconfirmed == old(run.unconfirmed)
    ensures run.failures == old(run.failures) + HashProblems(stream, r, cp)
  {
    hide Canon, SealedPreimage, CheckpointText, Sha256Hex, Run.Valid;
    var declaredHash := CheckpointText(cp);
    var preimage := Canon(SealedPreimage(stream, r, cp));
    if preimage.None? {
      run.Report(Content(CheckpointNotCanonical));
    } else if declaredHash != Sha256Hex(preimage.value) {
      run.Report(Content(CheckpointChanged));
    }
  }

  /** Go's map lookups give the zero value for a missing key. */
  method CheckTree(run: Run, trees: CheckpointTrees, r: Sealed, cp: Value)
    requires run.Valid() && trees.Valid()
    modifies run
    ensures run.Valid() && run.unconfirmed == old(run.unconfirmed)
    ensures run.failures == old(run.failures) + TreeProblems(r, cp, ClosedFor(trees.closed, r.from))
  {
    hide RootText, Field, Lower, Text, Wrap64, Run.Valid;
    assert RootText([]) == [] by { EmptyRootText(); }
    var rebuiltRoot := if r.from in trees.rebuiltRootFor then trees.rebuiltRootFor[r.from] else [];
    var received := if r.from in trees.leavesFor then trees.leavesFor[r.from] else 0;
    if received < Wrap64(r.to - r.from + 1) {
      run.Report(Content(EventsMissing));
    } else if Lower(Text(Field(Some(cp), "root"))) != rebuiltRoot {
      run.Report(Content(RootChanged));
    }
  }

  lemma EmptyRootText()
    ensures RootText([]) == []
  {
  }

  method CheckOrder(run: Run, expectedFrom: Counter, from: int)
    requires run.Valid()
    modifies run
    ensures run.Valid() && run.unconfirmed == old(run.unconfirmed)
    ensures run.failures == old(run.failures) + OrderProblems(expectedFrom, from)
  {
    if expectedFrom != At(from) {
      run.Report(Content(CheckpointOutOfOrder));
    }
  }

  method CheckChained(run: Run, prev: Option<Value>, cp: Value)
    requires run.Valid()
    modifies run
    ensures run.Valid() && run.unconfirmed == old(run.unconfirmed)
    ensures run.failures == old(run.failures) + UnchainedProblems(prev, cp)
  {
    hide StrictEqual, Field, Run.Valid;
    if prev.Some? && !StrictEqual(Field(Some(cp), "prev_checkpoint"), prev) {
      run.Report(Content(CheckpointUnchained));
    }
  }

  method CheckCheckpoint(run: Run, b: Bundle, chain: Chain, trees: CheckpointTrees, cp: Value)
    requires run.Valid() && trees.Valid()
    modifies run
    ensures run.Valid()
    ensures run.failures == old(run.failures) + CheckpointProblems(b, chain, trees.closed, cp)
    ensures run.unconfirmed == old(run.unconfirmed) + UnconfirmedSeal(cp, b.seal(cp))
  {
    hide HashProblems, OrderProblems, UnchainedProblems, SealProblems, TreeProblems, RangeOf, ClosedFor, Run.Valid,
      Mirrors;
    var range := RangeOf(cp);
    if range.None? {
      run.Report(Content(NoRange));
      return;
    }
    var r := range.value;
    CheckOrder(run, chain.expected, r.from);
    CheckHash(run, b.stream, r, cp);
    CheckChained(run, chain.prevHash, cp);
    CheckSeal(run, b.seal(cp));
    CheckTree(run, trees, r, cp);
  }

  method CheckCheckpoints(run: Run, b: Bundle, trees: CheckpointTrees)
    requires run.Valid() && trees.Valid()
    modifies run
    ensures run.Valid()
    ensures run.failures == old(run.failures) + SealProblemsUpTo(b, trees.closed, |b.checkpoints|) + CoverageProblems(b)
    ensures run.unconfirmed == old(run.unconfirmed) + UnconfirmedUpTo(b, |b.checkpoints|)
  {
    hide CheckpointProblems, UnconfirmedSeal, SealProblemsUpTo, UnconfirmedUpTo, RangeOf, SealChainAt, Start, Hash,
      Run.Valid, Mirrors;
    var chain := Start(b);
    SealsStart(b, trees.closed);
    for i := 0 to |b.checkpoints|
      invariant run.Valid() && chain == SealChainAt(b, i)
      invariant run.failures == old(run.failures) + SealProblemsUpTo(b, trees.closed, i)
      invariant run.unconfirmed == old(run.unconfirmed) + UnconfirmedUpTo(b, i)
    {
      SealStep(b, trees.closed, i);
      var cp := b.checkpoints[i];
      CheckCheckpoint(run, b, chain, trees, cp);
      if RangeOf(cp).Some? {
        chain := Chain(Next(RangeOf(cp).value.to), Hash(Some(cp), "checkpoint_hash"));
      }
    }
    if !MinusOneEquals(chain.expected, b.rangeTo) {
      run.Report(Finding(NotCovered, Scope));
    }
  }

  lemma SealsStart(b: Bundle, closed: map<int, seq<Bytes>>)
    ensures SealChainAt(b, 0) == Start(b) && SealProblemsUpTo(b, closed, 0) == [] && UnconfirmedUpTo(b, 0) == []
  {
  }

  // ---- what the walk keeps about the events

  /** absentOrder lists the absent sequences as first met; erased says of each which ceremony destroyed it. */
  datatype Kept = Kept(
    events: nat, redacted: nat, absentOrder: seq<int>, erased: map<int, bool>, retained: map<int, Bytes>)

  function Keep(b: Bundle, k: Kept, ev: Option<Value>): Kept
  {
    if ev.None? then k
    else if SeqOf(ev).None? then k.(events := k.events + 1)
    else
      var s := SeqOf(ev).value;
      var counted := k.(events := k.events + 1,
                        retained := if s in b.retain then k.retained[s := EntryText(ev)] else k.retained);
      if !Absent(ev) then counted
      else counted.(redacted := k.redacted + 1, erased := k.erased[s := StrEq(Field(ev, "absence"), "erased")],
                    absentOrder := if s in k.erased then k.absentOrder else k.absentOrder + [s])
  }

  function KeptAt(b: Bundle, n: nat): Kept
    requires n <= |b.lines|
  {
    if n == 0 then Kept(0, 0, [], map[], map[]) else Keep(b, KeptAt(b, n - 1), Event(b, n - 1))
  }

  // ---- the event loop

  ghost function Owned(c: Collector?): set<object>
  {
    if c == null then {} else {c} + set s: Stack | s in c.stacks
  }

  lemma NoRunOwned(run: Run, c: Collector?)
    ensures run !in Owned(c)
  {
  }

  ghost predicate Separate(trees: CheckpointTrees, cumulative: Stack, collector: Collector?)
  {
    trees.stack != cumulative
      && (collector != null ==> trees.stack !in collector.stacks && cumulative !in collector.stacks)
  }

  method Feed(trees: CheckpointTrees, cumulative: Stack, collector: Collector?, raw: Bytes)
    requires trees.Valid() && cumulative.Valid() && (collector != null ==> collector.Valid())
    requires Separate(trees, cumulative, collector)
    modifies trees, trees.stack, cumulative, Owned(collector)
    ensures trees.Valid() && cumulative.Valid() && (collector != null ==> collector.Valid())
    ensures trees.State() == old(trees.State()).(open := old(trees.State()).open + [raw])
    ensures cumulative.Leaves() == old(cumulative.Leaves()) + [raw]
    ensures collector != null ==> collector.fed == old(collector.fed) + [raw]
  {
    hide Mirrors, Concat, Summarises, Descending;
    cumulative.Append(raw);
    trees.Append(raw);
    if collector != null {
      collector.Append(raw);
    }
  }

  /** Every checkpoint the sequence has passed is closed before the event is counted into one. */
  method FeedEvent(trees: CheckpointTrees, cumulative: Stack, collector: Collector?, ev: Option<Value>, sequence: int)
    requires trees.Valid() && cumulative.Valid() && (collector != null ==> collector.Valid())
    requires Separate(trees, cumulative, collector)
    requires SeqOf(ev) == Some(sequence)
    modifies trees, trees.stack, cumulative, Owned(collector)
    ensures trees.Valid() && cumulative.Valid() && (collector != null ==> collector.Valid())
    ensures trees.State() == Take(trees.ranges, old(trees.State()), ev)
    ensures cumulative.Leaves() == old(cumulative.Leaves()) + LeafOf(ev)
    ensures collector != null ==> collector.fed == old(collector.fed) + LeafOf(ev)
  {
    hide Mirrors, Concat, Summarises, Descending, EntryText, HexBytes, SeqOf;
    trees.CloseBefore(sequence);
    var raw := HexBytes(EntryText(ev));
    if raw.Some? && |raw.value| == 32 {
      Feed(trees, cumulative, collector, raw.value);
    }
  }

  method CheckLine(run: Run, b: Bundle, chain: Chain, ev: Option<Value>)
    requires run.Valid()
    modifies run
    ensures run.Valid() && run.unconfirmed == old(run.unconfirmed)
    ensures run.failures == old(run.failures) + LineProblems(b, chain, ev)
  {
    hide PayloadProblems, LinkProblems, SequenceProblems, EntryProblems, SeqOf, Run.Valid;
    if ev.None? {
      run.Report(Content(BadLine));
    } else if SeqOf(ev).None? {
      run.Report(Content(NoSequence));
    } else {
      CheckEvent(run, b, chain, SeqOf(ev).value, ev);
    }
  }

  method Capture(b: Bundle, sizes: set<int>, cumulative: Stack, captured: map<int, Bytes>, n: nat)
    returns (r: map<int, Bytes>)
    requires 0 < n <= |b.lines| && SeqOf(Event(b, n - 1)).Some? && captured == Captured(b, sizes, n - 1)
    requires cumulative.Valid() && cumulative.Leaves() == Leaves(b, n)
    ensures r == Captured(b, sizes, n)
  {
    hide Concat, Summarises, Descending, Leaves, SeqOf, Event;
    var sequence := SeqOf(Event(b, n - 1)).value;
    var root := cumulative.Root();
    r := captured;
    if b.rangeFrom == 1 && root.Some? && sequence in sizes {
      r := captured[sequence := HexEncode(root.value)];
    }
  }

  lemma StreamStep(b: Bundle, sizes: set<int>, n: nat)
    requires n < |b.lines|
    ensures KeptAt(b, n + 1) == Keep(b, KeptAt(b, n), Event(b, n))
    ensures SeqOf(Event(b, n)).None? ==>
              && TreesAt(b, n + 1) == TreesAt(b, n) && Leaves(b, n + 1) == Leaves(b, n)
              && Captured(b, sizes, n + 1) == Captured(b, sizes, n) && ChainAt(b, n + 1) == ChainAt(b, n)
    ensures SeqOf(Event(b, n)).Some? ==>
              ChainAt(b, n + 1) == Chain(Next(SeqOf(Event(b, n)).value), Hash(Event(b, n), "entry_hash"))
  {
    hide Keep, Event, SeqOf, EntryText, Hash, CloseBefore, HexBytes, AllRanges;
    assert SeqOf(Event(b, n)).None? ==> LeafOf(Event(b, n)) == [];
  }

  lemma StreamNone(b: Bundle, sizes: set<int>)
    ensures KeptAt(b, 0) == Kept(0, 0, [], map[], map[]) && TreesAt(b, 0) == Trees(0, map[], []) && Leaves(b, 0) == []
    ensures Captured(b, sizes, 0) == map[] && ChainAt(b, 0) == Start(b) && ProblemsUpTo(b, 0) == []
  {
  }

  method StreamEvents(run: Run, b: Bundle, sizes: set<int>, trees: CheckpointTrees, cumulative: Stack,
                      collector: Collector?)
    returns (expected: Counter, kept: Kept, captured: map<int, Bytes>)
    requires run.Valid() && trees.Valid() && cumulative.Valid() && (collector != null ==> collector.Valid())
    requires Separate(trees, cumulative, collector)
    requires trees.State() == Trees(0, map[], []) && cumulative.Leaves() == []
              && (collector != null ==> collector.fed == [])
    requires trees.ranges == AllRanges(b)
    modifies run, trees, trees.stack, cumulative, Owned(collector)
    ensures run.Valid() && trees.Valid() && cumulative.Valid() && (collector != null ==> collector.Valid())
    ensures run.unconfirmed == old(run.unconfirmed)
    ensures run.failures == old(run.failures) + ProblemsUpTo(b, |b.lines|)
    ensures expected == ChainAt(b, |b.lines|).expected
    ensures kept == KeptAt(b, |b.lines|) && captured == Captured(b, sizes, |b.lines|)
    ensures trees.State() == TreesAt(b, |b.lines|) && cumulative.Leaves() == Leaves(b, |b.lines|)
    ensures collector != null ==> collector.fed == Leaves(b, |b.lines|)
  {
    hide *;
    NoRunOwned(run, collector);
    var chain := Start(b);
    kept, captured := Kept(0, 0, [], map[], map[]), map[];
    StreamNone(b, sizes);
    for i := 0 to |b.lines|
      invariant run.Valid() && trees.Valid() && cumulative.Valid() && (collector != null ==> collector.Valid())
      invariant run.unconfirmed == old(run.unconfirmed) && run.failures == old(run.failures) + ProblemsUpTo(b, i)
      invariant chain == ChainAt(b, i) && kept == KeptAt(b, i) && captured == Captured(b, sizes, i)
      invariant trees.State() == TreesAt(b, i) && cumulative.Leaves() == Leaves(b, i)
      invariant collector != null ==> collector.fed == Leaves(b, i)
    {
      var ev := Event(b, i);
      ChainStep(b, i);
      LeavesStep(b, i);
      StreamStep(b, sizes, i);
      kept := Keep(b, kept, ev);
      CheckLine(run, b, chain, ev);
      if SeqOf(ev).Some? {
        var sequence := SeqOf(ev).value;
        FeedEvent(trees, cumulative, collector, ev, sequence);
        captured := Capture(b, sizes, cumulative, captured, i + 1);
        chain := Chain(Next(sequence), Hash(ev, "entry_hash"));
      }
    }
    expected := chain.expected;
  }

  // ---- the whole walk

  datatype WalkResult = WalkResult(kept: Kept, checkpoints: nat, captured: map<int, Bytes>, proof: Option<seq<Bytes>>)

  /** The tree sizes whose roots are captured; wanted is what the consistency modes add. */
  function Sizes(b: Bundle, wanted: set<int>, proofFrom: int): set<int>
  {
    {b.rangeTo} + (set r | r in AllRanges(b) :: r.to) + b.rootSizes + wanted + if proofFrom > 0 then {proofFrom} else {}
  }

  predicate CollectorWanted(b: Bundle, proofFrom: int)
  {
    proofFrom > 0 && b.rangeFrom == 1 && proofFrom <= b.rangeTo
  }

  /** The proof the batch algorithm builds, once all rangeTo leaves have come. */
  function BatchProof(b: Bundle, proofFrom: int): Option<seq<Bytes>>
  {
    var leaves := Leaves(b, |b.lines|);
    if !CollectorWanted(b, proofFrom) || |leaves| < b.rangeTo then None else Prove(leaves[..b.rangeTo], proofFrom)
  }

  function WalkedTo(b: Bundle, wanted: set<int>, proofFrom: int): WalkResult
  {
    var n := |b.lines|;
    WalkResult(KeptAt(b, n), |b.checkpoints|, Captured(b, Sizes(b, wanted, proofFrom), n), BatchProof(b, proofFrom))
  }

  method CollectRanges(b: Bundle) returns (ranges: seq<Sealed>)
    ensures ranges == AllRanges(b)
  {
    ranges := [];
    for i := 0 to |b.checkpoints|
      invariant ranges == RangesOf(b.checkpoints, i)
    {
      hide RangeOf;
      if RangeOf(b.checkpoints[i]).Some? {
        ranges := ranges + [RangeOf(b.checkpoints[i]).value];
      }
    }
  }

  method PlanProof(b: Bundle, proofFrom: int) returns (collector: Collector?)
    ensures collector != null <==> CollectorWanted(b, proofFrom)
    ensures fresh(Owned(collector))
    ensures collector != null ==> fresh(collector.stacks) && collector.Valid() && collector.fed == []
    ensures collector != null ==> collector.newSize == b.rangeTo && collector.oldSize == proofFrom
  {
    collector := null;
    if CollectorWanted(b, proofFrom) {
      var planned := NewCollector(proofFrom, b.rangeTo);
      if planned.Some? {
        collector := planned.value;
      }
    }
  }

  method BuiltProof(b: Bundle, proofFrom: int, collector: Collector?) returns (proof: Option<seq<Bytes>>)
    requires collector != null <==> CollectorWanted(b, proofFrom)
    requires collector != null ==> collector.Valid() && collector.fed == Leaves(b, |b.lines|)
    requires collector != null ==> collector.newSize == b.rangeTo && collector.oldSize == proofFrom
    ensures proof == BatchProof(b, proofFrom)
  {
    hide Leaves, Prove;
    proof := None;
    if collector != null {
      proof := collector.Nodes();
    }
  }

  lemma WalkProblemsIs(b: Bundle)
    ensures WalkProblems(b) ==
              ProblemsUpTo(b, |b.lines|) + TrailingProblems(b) +
              (SealProblemsUpTo(b, CloseAll(AllRanges(b), TreesAt(b, |b.lines|)).closed, |b.checkpoints|) +
                CoverageProblems(b))
  {
    hide ProblemsUpTo, SealProblemsUpTo, CoverageProblems, AllRanges, TreesAt, TrailingProblems, CloseAll;
  }

  lemma TrailingIs(b: Bundle)
    ensures TrailingProblems(b) ==
              if MinusOneEquals(ChainAt(b, |b.lines|).expected, b.rangeTo) then [] else [Content(TrailingMissing)]
  {
    hide ChainAt, MinusOneEquals;
  }

  /** The event section: the events streamed past, the last trees closed, and the last sequence looked at. */
  method WalkEvents(run: Run, b: Bundle, wanted: set<int>, proofFrom: int)
    returns (trees: CheckpointTrees, kept: Kept, captured: map<int, Bytes>, proof: Option<seq<Bytes>>)
    requires run.Valid()
    modifies run
    ensures run.Valid() && fresh(trees) && fresh(trees.stack) && trees.Valid()
    ensures trees.closed == CloseAll(AllRanges(b), TreesAt(b, |b.lines|)).closed
    ensures kept == KeptAt(b, |b.lines|) && captured == Captured(b, Sizes(b, wanted, proofFrom), |b.lines|)
    ensures proof == BatchProof(b, proofFrom)
    ensures run.unconfirmed == old(run.unconfirmed)
    ensures run.failures == old(run.failures) + (ProblemsUpTo(b, |b.lines|) + TrailingProblems(b))
  {
    hide *;
    var ranges := CollectRanges(b);
    var cumulative := new Stack();
    var checkpointStack := new Stack();
    trees := new CheckpointTrees(ranges, checkpointStack);
    var collector := PlanProof(b, proofFrom);
    AllSeparate(trees, cumulative, collector);
    var expected;
    expected, kept, captured := StreamEvents(run, b, Sizes(b, wanted, proofFrom), trees, cumulative, collector);
    proof := BuiltProof(b, proofFrom, collector);
    trees.CloseAll();
    ClosedIs(trees);
    TrailingIs(b);
    if !MinusOneEquals(expected, b.rangeTo) {
      run.Report(Content(TrailingMissing));
    }
  }

  /** None is a hard error: no checkpoints, or no events. */
  method VerifyBundle(run: Run, b: Bundle, wanted: set<int>, proofFrom: int) returns (result: Option<WalkResult>)
    requires run.Valid()
    modifies run
    ensures run.Valid()
    ensures result.None? <==> b.checkpoints == [] || KeptAt(b, |b.lines|).events == 0
    ensures result.Some? ==> run.failures == old(run.failures) + WalkProblems(b)
    ensures result.Some? ==> run.unconfirmed == old(run.unconfirmed) + UnconfirmedUpTo(b, |b.checkpoints|)
    ensures result.Some? ==>
              result.value == WalkedTo(b, wanted, proofFrom)
  {
    hide *;
    if b.checkpoints == [] {
      return None;
    }
    var trees, kept, captured, proof := WalkEvents(run, b, wanted, proofFrom);
    if kept.events == 0 {
      return None;
    }
    CheckCheckpoints(run, b, trees);
    WalkProblemsIs(b);
    result := Some(WalkResult(kept, |b.checkpoints|, captured, proof));
    WalkedToIs(b, wanted, proofFrom);
  }

  lemma WalkedToIs(b: Bundle, wanted: set<int>, proofFrom: int)
    ensures WalkedTo(b, wanted, proofFrom) ==
              WalkResult(KeptAt(b, |b.lines|), |b.checkpoints|, Captured(b, Sizes(b, wanted, proofFrom), |b.lines|),
                BatchProof(b, proofFrom))
  {
    hide KeptAt, Captured, BatchProof, Sizes;
  }

  lemma ClosedIs(trees: CheckpointTrees)
    ensures trees.State().closed == trees.closed
  {
  }

  lemma AllSeparate(trees: CheckpointTrees, cumulative: Stack, collector: Collector?)
    requires trees.stack != cumulative
    requires collector != null ==> trees.stack !in collector.stacks && cumulative !in collector.stacks
    ensures Separate(trees, cumulative, collector)
  {
  }
}

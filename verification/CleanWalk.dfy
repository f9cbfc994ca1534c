/** verify/walk.go: a walk reports nothing exactly on a clean bundle, and then its streams hold the batch values. */
module CleanWalk {
  import opened Bytes
  import opened JsonValue
  import opened Canonical
  import opened PhpValues
  import opened WalkRules
  import opened WalkTrees
  import opened RangeTiles
  import opened CheckpointRules

  lemma FormOkRange(b: Bundle, k: nat)
    requires k < |b.checkpoints| && FormOk(b, k)
    ensures RangeOf(b.checkpoints[k]).Some? && HashOk(b.stream, RangeOf(b.checkpoints[k]).value, b.checkpoints[k])
    ensures RangeOf(b.checkpoints[k]).value.from ==
              if k == 0 then b.rangeFrom
              else if RangeOf(b.checkpoints[k - 1]).Some? then RangeOf(b.checkpoints[k - 1]).value.to + 1 else 0
  {
    hide RangeOf, HashOk, LinkOk, SealOk;
  }

  lemma FormsOkLess(b: Bundle, m: nat, n: nat)
    requires m <= n <= |b.checkpoints| && FormsOk(b, n)
    ensures FormsOk(b, m) && (m < n ==> FormOk(b, m))
  {
    hide FormOk;
  }

  lemma RangesStep(cps: seq<Value>, n: nat)
    requires n < |cps| && RangeOf(cps[n]).Some?
    ensures RangesOf(cps, n + 1) == RangesOf(cps, n) + [RangeOf(cps[n]).value]
    ensures RangesOf(cps, 0) == []
  {
    hide RangeOf;
  }

  /** Where every checkpoint has a range, the ranges are the checkpoints'. */
  lemma {:induction false} RangesEach(b: Bundle, n: nat)
    requires n <= |b.checkpoints| && FormsOk(b, n)
    ensures |RangesOf(b.checkpoints, n)| == n
    ensures forall k :: 0 <= k < n ==> RangeOf(b.checkpoints[k]) == Some(RangesOf(b.checkpoints, n)[k])
  {
    hide *;
    if n == 0 {
      RangesNone(b.checkpoints);
    } else {
      FormsOkLess(b, n - 1, n);
      RangesEach(b, n - 1);
      FormOkRange(b, n - 1);
      RangesStep(b.checkpoints, n - 1);
    }
  }

  lemma RangesNone(cps: seq<Value>)
    ensures RangesOf(cps, 0) == []
  {
  }

  lemma AllRangesIs(b: Bundle)
    ensures AllRanges(b) == RangesOf(b.checkpoints, |b.checkpoints|)
  {
  }

  lemma FormsChained(b: Bundle)
    requires FormsOk(b, |b.checkpoints|)
    ensures Chained(AllRanges(b), b.rangeFrom) && |AllRanges(b)| == |b.checkpoints|
    ensures forall k :: 0 <= k < |b.checkpoints| ==> RangeOf(b.checkpoints[k]) == Some(AllRanges(b)[k])
  {
    hide FormsOk, RangesOf, RangeOf, FormOk, HashOk, AllRanges;
    var ranges, n := AllRanges(b), |b.checkpoints|;
    AllRangesIs(b);
    RangesEach(b, n);
    forall k | 0 <= k < n
      ensures ranges[k].from == Begin(ranges, b.rangeFrom, k)
    {
      FormsOkLess(b, k, n);
      FormOkRange(b, k);
    }
  }

  /** The ranges a clean chain states cover sequences whose count is within 64 bits. */
  lemma FormExact(b: Bundle, k: nat)
    requires k < |b.checkpoints| && FormOk(b, k)
    ensures RangeOf(b.checkpoints[k]).Some?
    ensures var r := RangeOf(b.checkpoints[k]).value; Wrap64(r.to - r.from + 1) == r.to - r.from + 1
  {
    hide RangeOf, HashOk, Wrap64, FormOk;
    FormOkRange(b, k);
    var r := RangeOf(b.checkpoints[k]).value;
    EndsAreExact(b.stream, r, b.checkpoints[k]);
    Wrap64Fits(r.to - r.from + 1);
  }

  /** The checkpoint's tree was closed with the leaves of its own sequences, or of its heir's where it is empty. */
  ghost predicate SettledAt(b: Bundle, k: nat)
    requires k < |b.checkpoints|
  {
    var ranges, r := AllRanges(b), RangeOf(b.checkpoints[k]);
    && k < |ranges| && r == Some(ranges[k])
    && b.rangeFrom <= r.value.from <= r.value.to + 1 <= b.rangeFrom + |b.lines|
    && (r.value.from <= r.value.to ==> Heir(ranges, k, |ranges|) == k)
    && r.value.from in ClosedTrees(b)
    && ClosedTrees(b)[r.value.from] ==
       Part(Leaves(b, |b.lines|), r.value.from - b.rangeFrom, ranges[Heir(ranges, k, |ranges|)].to + 1 - b.rangeFrom)
  }

  ghost predicate Settled(b: Bundle)
  {
    forall k :: 0 <= k < |b.checkpoints| ==> SettledAt(b, k)
  }

  /** Whatever the checkpoints say, each tree is closed with the leaves that came while it was the open one. */
  lemma ClosedGiven(b: Bundle)
    requires EventsOk(b, |b.lines|)
    ensures ClosedTrees(b) == GivenAll(AllRanges(b), b.rangeFrom, |AllRanges(b)|, Leaves(b, |b.lines|))
    ensures |Leaves(b, |b.lines|)| == |b.lines|
  {
    hide GivenAll, Leaves, TreesAt, AllRanges, EventsOk, Ready, Peak;
    StreamIsBatch(b, |b.lines|);
    LeavesPrefix(b, |b.lines|, |b.lines|);
    CloseAllBatched(AllRanges(b), b.rangeFrom, TreesAt(b, |b.lines|), Leaves(b, |b.lines|));
  }

  /** Checkpoints in form that end with the range. */
  ghost predicate Formed(b: Bundle)
  {
    && EventsOk(b, |b.lines|) && b.rangeFrom + |b.lines| == b.rangeTo + 1
    && FormsOk(b, |b.checkpoints|) && EndsAt(b, b.rangeTo)
  }

  lemma FormedEnds(b: Bundle)
    requires Formed(b)
    ensures var ranges, leaves := AllRanges(b), Leaves(b, |b.lines|);
            && |ranges| == |b.checkpoints| && Chained(ranges, b.rangeFrom) && |leaves| == |b.lines|
            && Begin(ranges, b.rangeFrom, |ranges|) == b.rangeFrom + |leaves|
            && forall k :: 0 <= k < |ranges| ==> RangeOf(b.checkpoints[k]) == Some(ranges[k])
  {
    hide RangeOf, AllRanges, Leaves, EventsOk, FormsOk;
    FormsChained(b);
    LeavesPrefix(b, |b.lines|, |b.lines|);
  }

  /** Given the forms, a tree passes exactly when it has enough leaves and their root is the one declared. */
  lemma TreeOkExactly(b: Bundle, k: nat)
    requires EventsOk(b, |b.lines|) && k < |b.checkpoints| == |AllRanges(b)|
    requires FormOk(b, k) && RangeOf(b.checkpoints[k]) == Some(AllRanges(b)[k])
    ensures var ranges, leaves := AllRanges(b), Leaves(b, |b.lines|);
            TreeOk(b, ClosedTrees(b), k) <==>
              && Enough(ranges, b.rangeFrom, k, leaves)
              && Lower(Text(Field(Some(b.checkpoints[k]), "root"))) ==
                 RootText(Given(ranges, b.rangeFrom, Heir(ranges, k, |ranges|), leaves))
  {
    hide RangeOf, ClosedTrees, Leaves, RootText, Field, FormOk, Wrap64, AllRanges, EventsOk, Given, GivenAll, Heir;
    FormExact(b, k);
    ClosedGiven(b);
    HeirHolds(AllRanges(b), b.rangeFrom, k, |AllRanges(b)|, Leaves(b, |b.lines|));
  }

  lemma {:induction false} OnwardReaches(ranges: seq<Sealed>, start: int, k: nat)
    requires Chained(ranges, start) && k <= |ranges| && forall i :: 0 <= i < k ==> ranges[i].from <= ranges[i].to + 1
    ensures Peak(ranges, start, k) + 1 == Begin(ranges, start, k)
  {
    if k > 0 {
      OnwardReaches(ranges, start, k - 1);
    }
  }

  /** Checkpoints in form tile the range exactly when none ends further back than right before it starts. */
  lemma TiledExactly(b: Bundle)
    requires Formed(b)
    ensures Tiled(AllRanges(b), b.rangeFrom) <==> Onward(b)
  {
    hide RangeOf, AllRanges, Formed, Leaves, Peak;
    var ranges, n := AllRanges(b), |b.checkpoints|;
    FormedEnds(b);
    if Tiled(ranges, b.rangeFrom) {
      forall k | 0 <= k < n
        ensures ranges[k].from <= ranges[k].to + 1
      {
        assert InTile(ranges, b.rangeFrom, k);
      }
    }
    if Onward(b) {
      forall k | 0 <= k < n
        ensures ranges[k].from <= ranges[k].to + 1
      {
        assert RangeOf(b.checkpoints[k]) == Some(ranges[k]);
      }
      forall k | 0 <= k < n
        ensures InTile(ranges, b.rangeFrom, k)
      {
        OnwardReaches(ranges, b.rangeFrom, k);
      }
    }
  }

  /** Trees that all pass had enough leaves, so the checkpoints tile the range. */
  lemma TreesTile(b: Bundle)
    requires Formed(b) && TreesOk(b, ClosedTrees(b), |b.checkpoints|)
    ensures Tiled(AllRanges(b), b.rangeFrom)
  {
    hide AllRanges, Leaves, RangeOf, TreeOk, ClosedTrees, Enough, RootText, Given, EventsOk, Chained, FormOk, Heir;
    var ranges, leaves := AllRanges(b), Leaves(b, |b.lines|);
    FormedEnds(b);
    forall k | 0 <= k < |ranges|
      ensures Enough(ranges, b.rangeFrom, k, leaves)
    {
      FormsOkLess(b, k, |b.checkpoints|);
      TreeOkExactly(b, k);
    }
    EnoughTiles(ranges, b.rangeFrom, leaves);
  }

  lemma TiledSettles(b: Bundle, k: nat)
    requires Formed(b) && Tiled(AllRanges(b), b.rangeFrom) && k < |b.checkpoints|
    ensures SettledAt(b, k) && (TreeOk(b, ClosedTrees(b), k) <==> RootOk(b, k))
  {
    hide AllRanges, Leaves, RangeOf, TreeOk, ClosedTrees, RootText, Given, GivenAll, EventsOk, Chained, FormOk, Tiled,
      Part, Heir, Enough;
    var ranges, leaves := AllRanges(b), Leaves(b, |b.lines|);
    FormedEnds(b);
    FormsOkLess(b, k, |b.checkpoints|);
    TreeOkExactly(b, k);
    TileEnds(ranges, b.rangeFrom, k);
    TilesGiven(ranges, b.rangeFrom, k, leaves);
    HeirOfTile(ranges, b.rangeFrom, k);
    HeirHolds(ranges, b.rangeFrom, k, |ranges|, leaves);
    ClosedGiven(b);
  }

  /**
   * With events and checkpoint forms in order, every tree passes exactly where the checkpoints tile under right roots.
   */
  lemma TreesOkExactly(b: Bundle)
    requires Formed(b)
    ensures TreesOk(b, ClosedTrees(b), |b.checkpoints|) <==> Onward(b) && RootsOk(b, |b.checkpoints|)
    ensures Onward(b) ==> Settled(b)
  {
    hide AllRanges, TreeOk, RootOk, SettledAt, Formed, ClosedTrees, Tiled, Onward;
    TiledExactly(b);
    if TreesOk(b, ClosedTrees(b), |b.checkpoints|) {
      TreesTile(b);
    }
    if Onward(b) {
      forall k | 0 <= k < |b.checkpoints|
        ensures SettledAt(b, k) && (TreeOk(b, ClosedTrees(b), k) <==> RootOk(b, k))
      {
        TiledSettles(b, k);
      }
    }
  }

  lemma TrailingExactly(b: Bundle)
    requires Decoded(b) && b.lines != [] && EventsOk(b, |b.lines|)
    ensures TrailingProblems(b) == [] <==> b.rangeFrom + |b.lines| == b.rangeTo + 1
  {
    hide ChainAt, EventOk, SealChainAt;
    EventsOkExactly(b, |b.lines|);
  }

  lemma CoverageExactly(b: Bundle)
    requires Decoded(b) && b.checkpoints != [] && FormsOk(b, |b.checkpoints|)
    ensures CoverageProblems(b) == [] <==> EndsAt(b, b.rangeTo)
  {
    hide ChainAt, FormsOk, TreesOk, SealChainAt, SealProblemsUpTo, RangeOf, Decoded, Field;
    FormsOkExactly(b, map[], |b.checkpoints|);
  }

  lemma WalkProblemsNone(b: Bundle)
    ensures WalkProblems(b) == [] <==>
              && ProblemsUpTo(b, |b.lines|) == [] && TrailingProblems(b) == []
              && SealProblemsUpTo(b, ClosedTrees(b), |b.checkpoints|) == [] && CoverageProblems(b) == []
  {
    hide ProblemsUpTo, TrailingProblems, SealProblemsUpTo, CoverageProblems, ClosedTrees;
  }

  lemma CleanIs(b: Bundle)
    ensures Clean(b) <==>
              && EventsOk(b, |b.lines|) && b.rangeFrom + |b.lines| == b.rangeTo + 1
              && FormsOk(b, |b.checkpoints|) && Onward(b) && RootsOk(b, |b.checkpoints|) && EndsAt(b, b.rangeTo)
  {
    hide EventsOk, FormsOk, RootsOk, EndsAt, Onward;
  }

  /**
   * The one-pass walk, with its two stacks and its boundaries driven by sequence, reports nothing exactly when every
   * event, link, checkpoint and root is right and both cover the declared range.
   */
  lemma CleanExactly(b: Bundle)
    requires Decoded(b) && b.lines != [] && b.checkpoints != []
    ensures WalkProblems(b) == [] <==> Clean(b)
    ensures Clean(b) ==> Settled(b)
  {
    hide *;
    var n, m := |b.lines|, |b.checkpoints|;
    WalkProblemsNone(b);
    CleanIs(b);
    EventsOkExactly(b, n);
    FormsOkExactly(b, ClosedTrees(b), m);
    if EventsOk(b, n) && FormsOk(b, m) {
      TrailingExactly(b);
      CoverageExactly(b);
      if b.rangeFrom + n == b.rangeTo + 1 && EndsAt(b, b.rangeTo) {
        FormedIs(b);
        TreesOkExactly(b);
      }
    }
  }

  lemma FormedIs(b: Bundle)
    requires EventsOk(b, |b.lines|) && b.rangeFrom + |b.lines| == b.rangeTo + 1
    requires FormsOk(b, |b.checkpoints|) && EndsAt(b, b.rangeTo)
    ensures Formed(b)
  {
    hide EventsOk, FormsOk, EndsAt;
  }

  lemma CleanSequenceExact(b: Bundle, n: nat, i: nat)
    requires i < n <= |b.lines| && EventsOk(b, n)
    ensures -MAX_EXACT_INT <= b.rangeFrom + i <= MAX_EXACT_INT
  {
    hide EventOk, EntryOk, Event, SeqOf, EventsOk;
    EventsOkLess(b, i, n);
    CleanEntry(b, i);
    EntrySequenceIsExact(b.stream, b.rangeFrom + i, Event(b, i));
  }

  lemma ChainOkGives(b: Bundle, n: nat)
    requires n <= |b.lines| && ChainOk(b, n)
    ensures ChainAt(b, n).expected == At(b.rangeFrom + n)
  {
    hide ChainAt, Event, Start, Field;
  }

  /** On a clean walk the sequence counter never reaches its overflow, and every sequence is exactly representable. */
  lemma CounterNeverOverflows(b: Bundle, n: nat)
    requires n <= |b.lines| && EventsOk(b, n)
    ensures ChainAt(b, n).expected == At(b.rangeFrom + n)
    ensures n > 0 ==> -MAX_EXACT_INT <= b.rangeFrom && b.rangeFrom + n <= MAX_EXACT_INT + 1
  {
    hide *;
    EventsOkExactly(b, n);
    ChainOkGives(b, n);
    if n > 0 {
      CleanSequenceExact(b, n, n - 1);
      CleanSequenceExact(b, n, 0);
    }
  }
}

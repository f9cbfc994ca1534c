/** verify/walk.go: which leaves each checkpoint's tree is given while the events stream past. */
module WalkTrees {
  import opened Bytes
  import opened JsonValue
  import opened PhpValues
  import opened Preimages
  import opened Canonical
  import opened MerkleTree
  import opened WalkRules

  datatype Sealed = Sealed(from: int, to: int)

  /** None where an end is not an integer. */
  function RangeOf(cp: Value): Option<Sealed>
  {
    var from, to := Field(Some(cp), "from"), Field(Some(cp), "to");
    if IsInt(from) && IsInt(to) then Some(Sealed(from.value.n, to.value.n)) else None
  }

  function RangesOf(cps: seq<Value>, n: nat): seq<Sealed>
    requires n <= |cps|
  {
    if n == 0 then []
    else RangesOf(cps, n - 1) + if RangeOf(cps[n - 1]).Some? then [RangeOf(cps[n - 1]).value] else []
  }

  function AllRanges(b: Bundle): seq<Sealed>
  {
    RangesOf(b.checkpoints, |b.checkpoints|)
  }

  /** closed maps a checkpoint's first sequence to the leaves its tree held when it was closed. */
  datatype Trees = Trees(index: nat, closed: map<int, seq<Bytes>>, open: seq<Bytes>)

  function Close(ranges: seq<Sealed>, t: Trees): Trees
    requires t.index < |ranges|
  {
    Trees(t.index + 1, t.closed[ranges[t.index].from := t.open], [])
  }

  function CloseBefore(ranges: seq<Sealed>, t: Trees, sequence: int): (r: Trees)
    requires t.index <= |ranges|
    ensures t.index <= r.index <= |ranges|
    decreases |ranges| - t.index
  {
    if t.index < |ranges| && sequence > ranges[t.index].to then CloseBefore(ranges, Close(ranges, t), sequence) else t
  }

  function CloseAll(ranges: seq<Sealed>, t: Trees): (r: Trees)
    requires t.index <= |ranges|
    ensures r.index == |ranges|
    decreases |ranges| - t.index
  {
    if t.index < |ranges| then CloseAll(ranges, Close(ranges, t)) else t
  }

  /** An entry hash that is not 32 bytes of hexadecimal is no leaf. */
  function LeafOf(ev: Option<Value>): (leaf: seq<Bytes>)
    ensures |leaf| <= 1
  {
    var raw := HexBytes(EntryText(ev));
    if SeqOf(ev).Some? && raw.Some? && |raw.value| == 32 then [raw.value] else []
  }

  function Take(ranges: seq<Sealed>, t: Trees, ev: Option<Value>): (r: Trees)
    requires t.index <= |ranges|
    ensures r.index <= |ranges|
  {
    if SeqOf(ev).None? then t
    else
      var c := CloseBefore(ranges, t, SeqOf(ev).value);
      c.(open := c.open + LeafOf(ev))
  }

  function TreesAt(b: Bundle, n: nat): (t: Trees)
    requires n <= |b.lines|
    ensures t.index <= |AllRanges(b)|
  {
    if n == 0 then Trees(0, map[], []) else Take(AllRanges(b), TreesAt(b, n - 1), Event(b, n - 1))
  }

  function Leaves(b: Bundle, n: nat): (leaves: seq<Bytes>)
    requires n <= |b.lines|
    ensures |leaves| <= n
  {
    if n == 0 then [] else Leaves(b, n - 1) + LeafOf(Event(b, n - 1))
  }

  /** The hexadecimal root; an empty tree's is the empty string. */
  function RootText(leaves: seq<Bytes>): Bytes
  {
    if leaves == [] then [] else HexEncode(Root(leaves))
  }

  /** The cumulative roots kept, at the sizes asked for. */
  function Captured(b: Bundle, sizes: set<int>, n: nat): map<int, Bytes>
    requires n <= |b.lines|
  {
    if n == 0 then map[]
    else
      var ev, leaves := Event(b, n - 1), Leaves(b, n);
      if b.rangeFrom == 1 && SeqOf(ev).Some? && SeqOf(ev).value in sizes && leaves != []
      then Captured(b, sizes, n - 1)[SeqOf(ev).value := RootText(leaves)]
      else Captured(b, sizes, n - 1)
  }

  // ---- on a clean walk the streams are the batch

  lemma LeafOfClean(stream: Bytes, seq_: int, ev: Option<Value>)
    requires EntryOk(stream, seq_, ev) && SeqOf(ev).Some?
    ensures |LeafOf(ev)| == 1 && |LeafOf(ev)[0]| == 32
    ensures LeafOf(ev)[0] == Sha256(Canon(EntryPreimage(String(stream), Int(seq_), ev)).value)
    ensures HexEncode(LeafOf(ev)[0]) == EntryText(ev)
  {
    hide EntryPreimage, Canon, EntryText, SeqOf, HexEncode, HexBytes, Sha256;
    HexRoundTrip(Sha256(Canon(EntryPreimage(String(stream), Int(seq_), ev)).value));
    HexIsSha256(Canon(EntryPreimage(String(stream), Int(seq_), ev)).value);
  }

  lemma HexIsSha256(data: Bytes)
    ensures Sha256Hex(data) == HexEncode(Sha256(data)) && |Sha256(data)| == 32
  {
  }

  lemma LeavesStep(b: Bundle, n: nat)
    requires n < |b.lines|
    ensures Leaves(b, n + 1) == Leaves(b, n) + LeafOf(Event(b, n))
    ensures TreesAt(b, n + 1) == Take(AllRanges(b), TreesAt(b, n), Event(b, n))
  {
    hide LeafOf, Event, Take, AllRanges;
  }

  /** The canonical bytes an entry hash is taken over. */
  function EntryBytes(b: Bundle, i: nat): Option<Bytes>
    requires i < |b.lines|
  {
    Canon(EntryPreimage(String(b.stream), Int(b.rangeFrom + i), Event(b, i)))
  }

  /** The leaf an event's entry hash stands for, recomputed. */
  ghost predicate IsLeaf(b: Bundle, i: nat, leaf: Bytes)
    requires i < |b.lines|
  {
    |leaf| == 32 && HexEncode(leaf) == EntryText(Event(b, i)) && EntryBytes(b, i).Some?
      && leaf == Sha256(EntryBytes(b, i).value)
  }

  ghost predicate AreLeaves(b: Bundle, leaves: seq<Bytes>)
  {
    |leaves| <= |b.lines| && forall i :: 0 <= i < |leaves| ==> IsLeaf(b, i, leaves[i])
  }

  lemma {:induction false} LeavesClean(b: Bundle, n: nat)
    requires n <= |b.lines| && EventsOk(b, n)
    ensures |Leaves(b, n)| == n && AreLeaves(b, Leaves(b, n))
  {
    hide EventOk, Leaves, LeafOf, Event, IsLeaf, SeqOf, EntryOk;
    if n == 0 {
      LeavesNone(b);
    } else {
      LeavesClean(b, n - 1);
      LeavesStep(b, n - 1);
      CleanLeaf(b, n - 1);
    }
  }

  lemma CleanLeaf(b: Bundle, i: nat)
    requires i < |b.lines| && EventOk(b, i)
    ensures |LeafOf(Event(b, i))| == 1 && IsLeaf(b, i, LeafOf(Event(b, i))[0])
  {
    hide EventOk, LeafOf, Event, SeqOf, Canon, EntryPreimage, HexEncode, EntryText, Sha256;
    CleanEntry(b, i);
    LeafOfClean(b.stream, b.rangeFrom + i, Event(b, i));
    EntryOkPrints(b.stream, b.rangeFrom + i, Event(b, i));
  }

  lemma EntryOkPrints(stream: Bytes, seq_: int, ev: Option<Value>)
    requires EntryOk(stream, seq_, ev)
    ensures Canon(EntryPreimage(String(stream), Int(seq_), ev)).Some?
  {
    hide Canon, EntryPreimage;
  }

  lemma EventsOkLess(b: Bundle, m: nat, n: nat)
    requires m <= n <= |b.lines| && EventsOk(b, n)
    ensures EventsOk(b, m) && (m < n ==> EventOk(b, m))
  {
    hide EventOk;
  }

  lemma LeavesNone(b: Bundle)
    ensures Leaves(b, 0) == [] && TreesAt(b, 0) == Trees(0, map[], [])
  {
    hide Event, LeafOf, Take, AllRanges;
  }

  lemma CleanEntry(b: Bundle, i: nat)
    requires i < |b.lines| && EventOk(b, i)
    ensures SeqOf(Event(b, i)) == Some(b.rangeFrom + i) && EntryOk(b.stream, b.rangeFrom + i, Event(b, i))
  {
    hide EntryOk, PayloadOk, Decode, SeqOf, StrictEqual, Field;
  }

  lemma {:induction false} LeavesPrefix(b: Bundle, m: nat, n: nat)
    requires m <= n <= |b.lines| && EventsOk(b, n)
    ensures |Leaves(b, n)| == n && Leaves(b, m) == Leaves(b, n)[..m]
  {
    hide EventOk, Leaves, LeafOf, Event, IsLeaf;
    LeavesClean(b, n);
    if m < n {
      LeavesPrefix(b, m, n - 1);
      LeavesStep(b, n - 1);
    }
  }

  /** The last sequence the first k ranges reach, or the one before start. */
  function Peak(ranges: seq<Sealed>, start: int, k: nat): (peak: int)
    requires k <= |ranges|
    ensures start - 1 <= peak
  {
    if k == 0 then start - 1
    else if ranges[k - 1].to > Peak(ranges, start, k - 1) then ranges[k - 1].to
    else Peak(ranges, start, k - 1)
  }

  lemma PeakStep(ranges: seq<Sealed>, start: int, k: nat)
    requires k < |ranges|
    ensures Peak(ranges, start, 0) == start - 1
    ensures Peak(ranges, start, k + 1) ==
              if ranges[k].to > Peak(ranges, start, k) then ranges[k].to else Peak(ranges, start, k)
  {
  }

  /** A part of the leaves by offset. */
  function Part(leaves: seq<Bytes>, lo: int, hi: int): (part: seq<Bytes>)
    ensures 0 <= lo <= hi <= |leaves| ==> |part| == hi - lo
    ensures lo >= hi ==> part == []
  {
    if 0 <= lo <= hi <= |leaves| then leaves[lo..hi] else []
  }

  /** What range k's tree is given: the leaves past all the ranges before it reach, up to its own end. */
  function Given(ranges: seq<Sealed>, start: int, k: nat, leaves: seq<Bytes>): seq<Bytes>
    requires k < |ranges|
  {
    var lo, hi := Peak(ranges, start, k) + 1 - start, ranges[k].to + 1 - start;
    Part(leaves, lo, if hi < |leaves| then hi else |leaves|)
  }

  /** The trees of the first k ranges by first sequence, a later one replacing an earlier one from the same sequence. */
  function GivenAll(ranges: seq<Sealed>, start: int, k: nat, leaves: seq<Bytes>): map<int, seq<Bytes>>
    requires k <= |ranges|
  {
    if k == 0 then map[]
    else GivenAll(ranges, start, k - 1, leaves)[ranges[k - 1].from := Given(ranges, start, k - 1, leaves)]
  }

  lemma GivenStep(ranges: seq<Sealed>, start: int, k: nat, leaves: seq<Bytes>)
    requires k < |ranges|
    ensures GivenAll(ranges, start, k + 1, leaves) ==
              GivenAll(ranges, start, k, leaves)[ranges[k].from := Given(ranges, start, k, leaves)]
    ensures GivenAll(ranges, start, 0, leaves) == map[]
  {
    hide Given;
  }

  /** leaves is what has streamed past; every closed tree holds what it was given, and the open one the rest. */
  ghost predicate Batched(ranges: seq<Sealed>, start: int, t: Trees, leaves: seq<Bytes>)
  {
    && t.index <= |ranges|
    && t.open == Part(leaves, Peak(ranges, start, t.index) + 1 - start, |leaves|)
    && t.closed == GivenAll(ranges, start, t.index, leaves)
  }

  /** No leaf beyond the first n belongs to a closed tree. */
  ghost predicate Ready(ranges: seq<Sealed>, start: int, t: Trees, n: int)
  {
    t.index <= |ranges| && Peak(ranges, start, t.index) + 1 - start <= n
  }

  /** Nothing is left open, or all that is left belongs to the next range. */
  ghost predicate Closable(ranges: seq<Sealed>, start: int, t: Trees, n: int)
  {
    && t.index <= |ranges|
    && (t.index < |ranges| ==>
          n <= Peak(ranges, start, t.index) + 1 - start || n <= ranges[t.index].to + 1 - start)
  }

  lemma CloseBatched(ranges: seq<Sealed>, start: int, t: Trees, leaves: seq<Bytes>)
    requires t.index < |ranges| && Batched(ranges, start, t, leaves) && Closable(ranges, start, t, |leaves|)
    ensures Batched(ranges, start, Close(ranges, t), leaves) && Closable(ranges, start, Close(ranges, t), |leaves|)
    ensures ranges[t.index].to + 1 - start <= |leaves| && Ready(ranges, start, t, |leaves|) ==>
              Ready(ranges, start, Close(ranges, t), |leaves|)
  {
    hide Peak, Part, GivenAll;
    PeakStep(ranges, start, t.index);
    GivenStep(ranges, start, t.index, leaves);
    assert Given(ranges, start, t.index, leaves) == t.open;
  }

  lemma {:induction false} CloseBeforeBatched(ranges: seq<Sealed>, start: int, t: Trees, leaves: seq<Bytes>)
    requires Batched(ranges, start, t, leaves) && Closable(ranges, start, t, |leaves|)
    requires Ready(ranges, start, t, |leaves|)
    ensures var r := CloseBefore(ranges, t, start + |leaves|);
            && Batched(ranges, start, r, leaves) && Ready(ranges, start, r, |leaves|)
            && (r.index < |ranges| ==> |leaves| <= ranges[r.index].to - start)
    decreases |ranges| - t.index
  {
    hide Batched, Ready, Closable, Close;
    BatchedIndex(ranges, start, t, leaves);
    if t.index < |ranges| && start + |leaves| > ranges[t.index].to {
      CloseBatched(ranges, start, t, leaves);
      BatchedIndex(ranges, start, Close(ranges, t), leaves);
      CloseIndex(ranges, t);
      CloseBeforeBatched(ranges, start, Close(ranges, t), leaves);
    }
  }

  lemma BatchedIndex(ranges: seq<Sealed>, start: int, t: Trees, leaves: seq<Bytes>)
    requires Batched(ranges, start, t, leaves)
    ensures t.index <= |ranges|
  {
  }

  lemma CloseIndex(ranges: seq<Sealed>, t: Trees)
    requires t.index < |ranges|
    ensures Close(ranges, t).index == t.index + 1
  {
  }

  /** What closed trees were given does not change as more leaves come. */
  lemma {:induction false} GivenGrows(ranges: seq<Sealed>, start: int, k: nat, leaves: seq<Bytes>, leaf: Bytes)
    requires k <= |ranges| && Peak(ranges, start, k) + 1 - start <= |leaves|
    ensures GivenAll(ranges, start, k, leaves + [leaf]) == GivenAll(ranges, start, k, leaves)
  {
    hide GivenAll, Peak;
    if k == 0 {
      GivenNone(ranges, start, leaves);
      GivenNone(ranges, start, leaves + [leaf]);
    } else {
      PeakStep(ranges, start, k - 1);
      GivenGrows(ranges, start, k - 1, leaves, leaf);
      GivenStep(ranges, start, k - 1, leaves);
      GivenStep(ranges, start, k - 1, leaves + [leaf]);
      assert Given(ranges, start, k - 1, leaves + [leaf]) == Given(ranges, start, k - 1, leaves);
    }
  }

  lemma GivenNone(ranges: seq<Sealed>, start: int, leaves: seq<Bytes>)
    ensures GivenAll(ranges, start, 0, leaves) == map[] && Peak(ranges, start, 0) == start - 1
  {
  }

  lemma PartTail(leaves: seq<Bytes>, leaf: Bytes, lo: int)
    requires 0 <= lo <= |leaves|
    ensures Part(leaves + [leaf], lo, |leaves + [leaf]|) == Part(leaves, lo, |leaves|) + [leaf]
  {
  }

  lemma PushBatched(ranges: seq<Sealed>, start: int, t: Trees, leaves: seq<Bytes>, leaf: Bytes)
    requires Batched(ranges, start, t, leaves) && Ready(ranges, start, t, |leaves|)
    ensures var r := t.(open := t.open + [leaf]);
            Batched(ranges, start, r, leaves + [leaf]) && Ready(ranges, start, r, |leaves| + 1)
  {
    hide Part, GivenAll, Peak;
    GivenGrows(ranges, start, t.index, leaves, leaf);
    PartTail(leaves, leaf, Peak(ranges, start, t.index) + 1 - start);
  }

  /** The state between two events. */
  ghost predicate Streamed(ranges: seq<Sealed>, start: int, t: Trees, leaves: seq<Bytes>)
  {
    Batched(ranges, start, t, leaves) && Ready(ranges, start, t, |leaves|) && Closable(ranges, start, t, |leaves|)
  }

  lemma TakeStreamed(ranges: seq<Sealed>, start: int, t: Trees, leaves: seq<Bytes>, ev: Option<Value>)
    requires Streamed(ranges, start, t, leaves)
    requires SeqOf(ev) == Some(start + |leaves|) && |LeafOf(ev)| == 1
    ensures t.index <= |ranges| && Streamed(ranges, start, Take(ranges, t, ev), leaves + LeafOf(ev))
  {
    hide LeafOf, SeqOf, Batched, Ready, CloseBefore;
    var c := CloseBefore(ranges, t, start + |leaves|);
    BatchedIndex(ranges, start, t, leaves);
    CloseBeforeBatched(ranges, start, t, leaves);
    PushBatched(ranges, start, c, leaves, LeafOf(ev)[0]);
    assert LeafOf(ev) == [LeafOf(ev)[0]];
  }

  lemma StreamStarts(ranges: seq<Sealed>, start: int)
    ensures Streamed(ranges, start, Trees(0, map[], []), [])
  {
    hide Part, GivenAll, Peak;
    GivenNone(ranges, start, []);
  }

  /** After n clean events, whatever the ranges, every closed tree holds the leaves it was given. */
  lemma {:induction false} StreamIsBatch(b: Bundle, n: nat)
    requires n <= |b.lines| && EventsOk(b, n)
    ensures Streamed(AllRanges(b), b.rangeFrom, TreesAt(b, n), Leaves(b, n))
  {
    hide *;
    if n == 0 {
      LeavesNone(b);
      StreamStarts(AllRanges(b), b.rangeFrom);
    } else {
      EventsOkLess(b, n - 1, n);
      StreamIsBatch(b, n - 1);
      LeavesPrefix(b, n - 1, n - 1);
      LeavesStep(b, n - 1);
      CleanEntry(b, n - 1);
      CleanLeaf(b, n - 1);
      TakeStreamed(AllRanges(b), b.rangeFrom, TreesAt(b, n - 1), Leaves(b, n - 1), Event(b, n - 1));
    }
  }

  /** Closing what is left gives every range what is its own. */
  lemma {:induction false} CloseAllBatched(ranges: seq<Sealed>, start: int, t: Trees, leaves: seq<Bytes>)
    requires Batched(ranges, start, t, leaves) && Closable(ranges, start, t, |leaves|)
    ensures t.index <= |ranges| && Batched(ranges, start, CloseAll(ranges, t), leaves)
    decreases |ranges| - t.index
  {
    hide Batched, Closable, Close;
    BatchedIndex(ranges, start, t, leaves);
    if t.index < |ranges| {
      CloseBatched(ranges, start, t, leaves);
      CloseIndex(ranges, t);
      CloseAllBatched(ranges, start, Close(ranges, t), leaves);
    }
  }

  /** The roots captured from clean events are the roots of the prefixes, at exactly the sizes asked for. */
  lemma {:induction false} CapturedClean(b: Bundle, sizes: set<int>, n: nat)
    requires n <= |b.lines| && EventsOk(b, n) && b.rangeFrom == 1
    ensures forall s :: s in Captured(b, sizes, n) <==> s in sizes && 1 <= s <= n
    ensures forall s :: s in Captured(b, sizes, n) ==>
              1 <= s <= n && |Leaves(b, n)| == n && Captured(b, sizes, n)[s] == HexEncode(Root(Leaves(b, n)[..s]))
  {
    hide *;
    if n == 0 {
      CapturedStart(b, sizes);
    } else {
      EventsOkLess(b, n - 1, n);
      CapturedClean(b, sizes, n - 1);
      LeavesPrefix(b, n - 1, n);
      LeavesPrefix(b, n - 1, n - 1);
      CleanEntry(b, n - 1);
      CapturedStep(b, sizes, n);
      RootTextOf(Leaves(b, n));
      forall s | 1 <= s <= n
        ensures s <= n - 1 ==> Leaves(b, n)[..n - 1][..s] == Leaves(b, n)[..s]
        ensures s == n ==> Leaves(b, n)[..s] == Leaves(b, n)
      {
      }
    }
  }

  lemma RootTextOf(leaves: seq<Bytes>)
    requires leaves != []
    ensures RootText(leaves) == HexEncode(Root(leaves))
  {
  }

  lemma CapturedStart(b: Bundle, sizes: set<int>)
    ensures Captured(b, sizes, 0) == map[]
  {
  }

  lemma CapturedStep(b: Bundle, sizes: set<int>, n: nat)
    requires 0 < n <= |b.lines| && b.rangeFrom == 1 && SeqOf(Event(b, n - 1)).Some? && Leaves(b, n) != []
    ensures var s := SeqOf(Event(b, n - 1)).value;
            Captured(b, sizes, n) ==
              if s in sizes then Captured(b, sizes, n - 1)[s := RootText(Leaves(b, n))] else Captured(b, sizes, n - 1)
  {
    hide Leaves, SeqOf, Event, RootText;
  }
}

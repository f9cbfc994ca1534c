/** verify/walk.go: two walks that report nothing and share the last checkpoint hash saw the same events. */
module TamperEvidence {
  import opened Bytes
  import opened JsonValue
  import opened Canonical
  import opened JsonEquality
  import opened JsonDecoded
  import opened PhpValues
  import opened Preimages
  import opened MerkleTree
  import opened WalkRules
  import opened WalkTrees
  import opened RangeTiles
  import opened CheckpointRules
  import opened CleanWalk

  /** The walk ran to its end and reported nothing. */
  ghost predicate Passed(b: Bundle)
  {
    Decoded(b) && b.lines != [] && b.checkpoints != [] && WalkProblems(b) == []
  }

  /** No checkpoint is empty. */
  ghost predicate Forward(b: Bundle)
  {
    forall k :: 0 <= k < |b.checkpoints| && RangeOf(b.checkpoints[k]).Some? ==>
      RangeOf(b.checkpoints[k]).value.from <= RangeOf(b.checkpoints[k]).value.to
  }

  // ---- the strings one walk hashes

  function SealBytes(b: Bundle, k: nat): Option<Bytes>
    requires k < |b.checkpoints|
  {
    var r := RangeOf(b.checkpoints[k]);
    if r.None? then None else Canon(SealedPreimage(b.stream, r.value, b.checkpoints[k]))
  }

  function PayloadBytes(b: Bundle, i: nat): Option<Bytes>
    requires i < |b.lines|
  {
    var payload := Field(Event(b, i), "payload");
    if Nullish(payload) then None else Canon(payload.value)
  }

  /** The entry hashes from..to of checkpoint k. */
  function Segment(b: Bundle, k: nat): seq<Bytes>
    requires k < |b.checkpoints|
  {
    var r := RangeOf(b.checkpoints[k]);
    if r.None? then [] else Part(Leaves(b, |b.lines|), r.value.from - b.rangeFrom, r.value.to + 1 - b.rangeFrom)
  }

  ghost function TreeInputs(b: Bundle, n: nat): set<Bytes>
    requires n <= |b.checkpoints|
  {
    if n == 0 then {}
    else TreeInputs(b, n - 1) + if Segment(b, n - 1) == [] then {} else RootInputs(Segment(b, n - 1))
  }

  ghost function EntryInputs(b: Bundle): set<Bytes>
  {
    set i | 0 <= i < |b.lines| && EntryBytes(b, i).Some? :: EntryBytes(b, i).value
  }

  ghost function PayloadInputs(b: Bundle): set<Bytes>
  {
    set i | 0 <= i < |b.lines| && PayloadBytes(b, i).Some? :: PayloadBytes(b, i).value
  }

  ghost function SealInputs(b: Bundle): set<Bytes>
  {
    set k | 0 <= k < |b.checkpoints| && SealBytes(b, k).Some? :: SealBytes(b, k).value
  }

  ghost function Hashed(b: Bundle): set<Bytes>
  {
    EntryInputs(b) + PayloadInputs(b) + SealInputs(b) + TreeInputs(b, |b.checkpoints|)
  }

  lemma HashedParts(b: Bundle)
    ensures EntryInputs(b) <= Hashed(b) && PayloadInputs(b) <= Hashed(b) && SealInputs(b) <= Hashed(b)
    ensures TreeInputs(b, |b.checkpoints|) <= Hashed(b)
  {
    hide EntryInputs, PayloadInputs, SealInputs, TreeInputs;
  }

  lemma EntryHashed(b: Bundle, i: nat)
    requires i < |b.lines| && EntryBytes(b, i).Some?
    ensures EntryBytes(b, i).value in Hashed(b)
  {
    hide EntryBytes, Hashed;
    HashedParts(b);
  }

  lemma PayloadHashed(b: Bundle, i: nat)
    requires i < |b.lines| && PayloadBytes(b, i).Some?
    ensures PayloadBytes(b, i).value in Hashed(b)
  {
    hide PayloadBytes, Hashed;
    HashedParts(b);
  }

  lemma SealHashed(b: Bundle, k: nat)
    requires k < |b.checkpoints| && SealBytes(b, k).Some?
    ensures SealBytes(b, k).value in Hashed(b)
  {
    hide SealBytes, Hashed;
    HashedParts(b);
  }

  lemma {:induction false} TreeInputsGrow(b: Bundle, k: nat, n: nat)
    requires k < n <= |b.checkpoints| && Segment(b, k) != []
    ensures RootInputs(Segment(b, k)) <= TreeInputs(b, n)
  {
    hide Segment, RootInputs;
    if k < n - 1 {
      TreeInputsGrow(b, k, n - 1);
    }
  }

  lemma TreeHashed(b: Bundle, k: nat)
    requires k < |b.checkpoints| && Segment(b, k) != []
    ensures RootInputs(Segment(b, k)) <= Hashed(b)
  {
    hide Segment, RootInputs, Hashed;
    HashedParts(b);
    TreeInputsGrow(b, k, |b.checkpoints|);
  }

  ghost predicate HashedApart(a: Bundle, b: Bundle)
  {
    NoCollision(Hashed(a) + Hashed(b))
  }

  lemma ApartPins(a: Bundle, b: Bundle, x: Bytes, y: Bytes)
    requires HashedApart(a, b) && x in Hashed(a) && y in Hashed(b) && Sha256Hex(x) == Sha256Hex(y)
    ensures x == y
  {
    hide Hashed, HexEncode, Sha256;
    HexIsSha256(x);
    HexIsSha256(y);
    HexInjective(Sha256(x), Sha256(y));
  }

  // ---- what a clean walk says of one checkpoint

  lemma PassedClean(b: Bundle)
    requires Passed(b)
    ensures EventsOk(b, |b.lines|) && b.rangeFrom + |b.lines| == b.rangeTo + 1
    ensures FormsOk(b, |b.checkpoints|) && RootsOk(b, |b.checkpoints|) && EndsAt(b, b.rangeTo)
    ensures Decoded(b) && Onward(b) && Settled(b) && b.lines != [] && b.checkpoints != []
  {
    hide Decoded, Onward, WalkProblems, Clean, Settled;
    CleanExactly(b);
    CleanIs(b);
  }

  lemma DecodedCheckpoint(b: Bundle, k: nat)
    requires Decoded(b) && k < |b.checkpoints|
    ensures WellFormed(b.checkpoints[k]) && WellFormed(String(b.stream))
  {
    hide WellFormed;
  }

  lemma ExactWellFormed(n: int)
    requires -MAX_EXACT_INT <= n <= MAX_EXACT_INT
    ensures WellFormed(Int(n))
  {
  }

  lemma SealedWellFormed(stream: Bytes, r: Sealed, cp: Value)
    requires WellFormed(String(stream)) && WellFormed(cp) && HashOk(stream, r, cp)
    ensures WellFormed(SealedPreimage(stream, r, cp))
  {
    hide WellFormed, CheckpointPreimage, Field, HashOk;
    EndsAreExact(stream, r, cp);
    ExactWellFormed(r.from);
    ExactWellFormed(r.to);
    ExactWellFormed(1);
    FieldWellFormed(Some(cp), "root");
    FieldWellFormed(Some(cp), "prev_checkpoint");
    FieldWellFormed(Some(cp), "created_at");
    CheckpointPreimageWellFormed(
      Int(1), String(stream), Int(r.from), Int(r.to), OrNull(Field(Some(cp), "root")),
      OrNull(Field(Some(cp), "prev_checkpoint")), OrNull(Field(Some(cp), "created_at")));
  }

  lemma HashOkIs(stream: Bytes, r: Sealed, cp: Value)
    requires HashOk(stream, r, cp)
    ensures Canon(SealedPreimage(stream, r, cp)).Some?
    ensures CheckpointText(cp) == Sha256Hex(Canon(SealedPreimage(stream, r, cp)).value)
  {
    hide Canon, SealedPreimage, CheckpointText, Sha256Hex;
  }

  lemma SealBytesIs(b: Bundle, k: nat)
    requires k < |b.checkpoints| && RangeOf(b.checkpoints[k]).Some?
    ensures SealBytes(b, k) == Canon(SealedPreimage(b.stream, RangeOf(b.checkpoints[k]).value, b.checkpoints[k]))
  {
    hide RangeOf, Canon, SealedPreimage;
  }

  /** What agreeing on one checkpoint means. */
  ghost predicate SealsAgree(a: Bundle, b: Bundle, j: nat, k: nat)
    requires j < |a.checkpoints| && k < |b.checkpoints|
  {
    var c, d := a.checkpoints[j], b.checkpoints[k];
    && a.stream == b.stream && RangeOf(c).Some? && RangeOf(c) == RangeOf(d)
    && Same(OrNull(Field(Some(c), "root")), OrNull(Field(Some(d), "root")))
    && Same(OrNull(Field(Some(c), "prev_checkpoint")), OrNull(Field(Some(d), "prev_checkpoint")))
    && Same(OrNull(Field(Some(c), "created_at")), OrNull(Field(Some(d), "created_at")))
  }

  lemma SamePreimages(s: Bytes, r: Sealed, c: Value, s': Bytes, r': Sealed, d: Value)
    requires Same(SealedPreimage(s, r, c), SealedPreimage(s', r', d))
    ensures s == s' && r == r'
    ensures Same(OrNull(Field(Some(c), "root")), OrNull(Field(Some(d), "root")))
    ensures Same(OrNull(Field(Some(c), "prev_checkpoint")), OrNull(Field(Some(d), "prev_checkpoint")))
    ensures Same(OrNull(Field(Some(c), "created_at")), OrNull(Field(Some(d), "created_at")))
  {
    hide CheckpointPreimage, Field;
    CheckpointPreimageSame(
      Int(1), String(s), Int(r.from), Int(r.to), OrNull(Field(Some(c), "root")),
      OrNull(Field(Some(c), "prev_checkpoint")), OrNull(Field(Some(c), "created_at")),
      Int(1), String(s'), Int(r'.from), Int(r'.to), OrNull(Field(Some(d), "root")),
      OrNull(Field(Some(d), "prev_checkpoint")), OrNull(Field(Some(d), "created_at")));
  }

  /** Equal checkpoint hashes are over the same fields. */
  lemma SealPins(a: Bundle, b: Bundle, j: nat, k: nat)
    requires Passed(a) && Passed(b) && HashedApart(a, b) && j < |a.checkpoints| && k < |b.checkpoints|
    requires CheckpointText(a.checkpoints[j]) == CheckpointText(b.checkpoints[k])
    ensures SealsAgree(a, b, j, k)
  {
    hide *;
    var c, d := a.checkpoints[j], b.checkpoints[k];
    SealReady(a, j);
    SealReady(b, k);
    var r, r' := RangeOf(c).value, RangeOf(d).value;
    SealHashed(a, j);
    SealHashed(b, k);
    ApartPins(a, b, SealBytes(a, j).value, SealBytes(b, k).value);
    CanonInjective(SealedPreimage(a.stream, r, c), SealedPreimage(b.stream, r', d));
    SamePreimages(a.stream, r, c, b.stream, r', d);
    SealsAgreeIs(a, b, j, k);
  }

  lemma SealReady(b: Bundle, k: nat)
    requires Passed(b) && k < |b.checkpoints|
    ensures RangeOf(b.checkpoints[k]).Some?
    ensures WellFormed(SealedPreimage(b.stream, RangeOf(b.checkpoints[k]).value, b.checkpoints[k]))
    ensures SealBytes(b, k) == Canon(SealedPreimage(b.stream, RangeOf(b.checkpoints[k]).value, b.checkpoints[k]))
    ensures SealBytes(b, k).Some? && CheckpointText(b.checkpoints[k]) == Sha256Hex(SealBytes(b, k).value)
  {
    hide *;
    PassedClean(b);
    FormsOkLess(b, k, |b.checkpoints|);
    FormOkRange(b, k);
    DecodedCheckpoint(b, k);
    SealedWellFormed(b.stream, RangeOf(b.checkpoints[k]).value, b.checkpoints[k]);
    HashOkIs(b.stream, RangeOf(b.checkpoints[k]).value, b.checkpoints[k]);
    SealBytesIs(b, k);
  }

  lemma SealsAgreeIs(a: Bundle, b: Bundle, j: nat, k: nat)
    requires j < |a.checkpoints| && k < |b.checkpoints|
    requires a.stream == b.stream && RangeOf(a.checkpoints[j]).Some?
              && RangeOf(a.checkpoints[j]) == RangeOf(b.checkpoints[k])
    requires Same(OrNull(Field(Some(a.checkpoints[j]), "root")), OrNull(Field(Some(b.checkpoints[k]), "root")))
    requires Same(OrNull(Field(Some(a.checkpoints[j]), "prev_checkpoint")),
                  OrNull(Field(Some(b.checkpoints[k]), "prev_checkpoint")))
    requires Same(OrNull(Field(Some(a.checkpoints[j]), "created_at")),
                  OrNull(Field(Some(b.checkpoints[k]), "created_at")))
    ensures SealsAgree(a, b, j, k)
  {
    hide RangeOf, Same, Field;
  }

  // ---- backwards along the checkpoints

  /** A string is only the same as itself. */
  lemma SameAsString(v: Option<Value>, w: Option<Value>)
    requires Same(OrNull(v), OrNull(w)) && v.Some? && v.value.String?
    ensures v == w
  {
  }

  /** The previous hash stated is the string the previous checkpoint carries. */
  lemma LinkIs(b: Bundle, k: nat)
    requires Passed(b) && 0 < k < |b.checkpoints|
    ensures var prev := Field(Some(b.checkpoints[k]), "prev_checkpoint");
            prev == Field(Some(b.checkpoints[k - 1]), "checkpoint_hash") && prev.Some? && prev.value.String?
  {
    hide *;
    PassedClean(b);
    FormsOkLess(b, k, |b.checkpoints|);
    FormsOkLess(b, k - 1, |b.checkpoints|);
    FormOkRange(b, k - 1);
    DecodedCheckpoint(b, k - 1);
    CheckpointHashIsString(b.stream, RangeOf(b.checkpoints[k - 1]).value, b.checkpoints[k - 1]);
    FormOkLink(b, k);
    StrictEqualString(
      Field(Some(b.checkpoints[k]), "prev_checkpoint"), Field(Some(b.checkpoints[k - 1]), "checkpoint_hash"));
  }

  lemma FormOkLink(b: Bundle, k: nat)
    requires 0 < k < |b.checkpoints| && FormOk(b, k)
    ensures StrictEqual(Field(Some(b.checkpoints[k]), "prev_checkpoint"),
                        Field(Some(b.checkpoints[k - 1]), "checkpoint_hash"))
  {
    hide RangeOf, HashOk, SealOk, StrictEqual, Field;
  }

  lemma StrictEqualString(v: Option<Value>, w: Option<Value>)
    requires StrictEqual(v, w) && w.Some? && w.value.String?
    ensures v == w
  {
  }

  /** Every range begins no earlier than the first, and past it where no checkpoint is empty. */
  lemma FirstRange(b: Bundle, k: nat)
    requires Passed(b) && k < |b.checkpoints|
    ensures RangeOf(b.checkpoints[k]).Some? && RangeOf(b.checkpoints[k]).value.from >= b.rangeFrom
    ensures k == 0 ==> RangeOf(b.checkpoints[k]).value.from == b.rangeFrom
    ensures k > 0 && Forward(b) ==> RangeOf(b.checkpoints[k]).value.from > b.rangeFrom
  {
    hide *;
    PassedClean(b);
    PassedFormed(b);
    FormOkRangeAt(b, k);
    FormOkRangeAt(b, 0);
    FormedEnds(b);
    TiledExactly(b);
    TileEnds(AllRanges(b), b.rangeFrom, k);
    TileEnds(AllRanges(b), b.rangeFrom, 0);
    PeakRises(AllRanges(b), b.rangeFrom, 0, k);
    if Forward(b) {
      ForwardEach(b, 0);
    }
  }

  lemma PassedFormed(b: Bundle)
    requires Passed(b)
    ensures Formed(b)
  {
    hide *;
    PassedClean(b);
    FormedIs(b);
  }

  lemma ForwardEach(b: Bundle, k: nat)
    requires Forward(b) && k < |b.checkpoints| && RangeOf(b.checkpoints[k]).Some?
    ensures RangeOf(b.checkpoints[k]).value.from <= RangeOf(b.checkpoints[k]).value.to
  {
    hide RangeOf;
  }

  lemma FormOkRangeAt(b: Bundle, k: nat)
    requires k < |b.checkpoints| && FormsOk(b, |b.checkpoints|)
    ensures RangeOf(b.checkpoints[k]).Some? && (k == 0 ==> RangeOf(b.checkpoints[k]).value.from == b.rangeFrom)
  {
    hide *;
    FormsOkLess(b, k, |b.checkpoints|);
    FormOkRange(b, k);
  }

  lemma SealsAgreeGives(a: Bundle, b: Bundle, j: nat, k: nat)
    requires j < |a.checkpoints| && k < |b.checkpoints| && SealsAgree(a, b, j, k)
    ensures a.stream == b.stream && RangeOf(a.checkpoints[j]).Some?
              && RangeOf(a.checkpoints[j]) == RangeOf(b.checkpoints[k])
    ensures Same(OrNull(Field(Some(a.checkpoints[j]), "root")), OrNull(Field(Some(b.checkpoints[k]), "root")))
    ensures Same(OrNull(Field(Some(a.checkpoints[j]), "prev_checkpoint")),
                 OrNull(Field(Some(b.checkpoints[k]), "prev_checkpoint")))
  {
    hide RangeOf, Same, Field;
  }

  lemma PreviousAgree(a: Bundle, b: Bundle, j: nat, k: nat)
    requires Passed(a) && Passed(b) && 0 < j < |a.checkpoints| && 0 < k < |b.checkpoints| && SealsAgree(a, b, j, k)
    ensures CheckpointText(a.checkpoints[j - 1]) == CheckpointText(b.checkpoints[k - 1])
  {
    hide *;
    SealsAgreeGives(a, b, j, k);
    LinkIs(a, j);
    LinkIs(b, k);
    SameAsString(Field(Some(a.checkpoints[j]), "prev_checkpoint"), Field(Some(b.checkpoints[k]), "prev_checkpoint"));
    SameText(a.checkpoints[j - 1], b.checkpoints[k - 1]);
  }

  lemma SameText(c: Value, d: Value)
    requires Field(Some(c), "checkpoint_hash") == Field(Some(d), "checkpoint_hash")
    ensures CheckpointText(c) == CheckpointText(d)
  {
    hide Field, Text, Lower;
  }

  /** Checkpoint m here agrees with the one o places on there. */
  ghost predicate AgreeAt(a: Bundle, b: Bundle, m: int, o: int)
  {
    0 <= m < |a.checkpoints| && 0 <= m + o < |b.checkpoints| && SealsAgree(a, b, m, m + o)
  }

  ghost predicate AgreeUpTo(a: Bundle, b: Bundle, j: nat, o: int)
  {
    forall m :: 0 <= m <= j && 0 <= m + o ==> AgreeAt(a, b, m, o)
  }

  /** Counting back from checkpoint j here and k there, the checkpoints agree as far as both have any. */
  ghost predicate AgreeBack(a: Bundle, b: Bundle, j: nat, k: nat)
    requires j < |a.checkpoints| && k < |b.checkpoints|
  {
    AgreeUpTo(a, b, j, k - j)
  }

  /** One shared checkpoint hash makes the checkpoints before it agree; without empty ones they are as many. */
  lemma {:induction false} ChainPins(a: Bundle, b: Bundle, j: nat, k: nat)
    requires Passed(a) && Passed(b) && HashedApart(a, b) && a.rangeFrom == b.rangeFrom
    requires j < |a.checkpoints| && k < |b.checkpoints|
    requires CheckpointText(a.checkpoints[j]) == CheckpointText(b.checkpoints[k])
    ensures AgreeBack(a, b, j, k) && (Forward(a) && Forward(b) ==> j == k)
  {
    hide *;
    SealPins(a, b, j, k);
    SealsAgreeGives(a, b, j, k);
    FirstRange(a, j);
    FirstRange(b, k);
    if j > 0 && k > 0 {
      PreviousAgree(a, b, j, k);
      ChainPins(a, b, j - 1, k - 1);
    }
    AgreeBackStep(a, b, j, k);
  }

  lemma AgreeBackStep(a: Bundle, b: Bundle, j: nat, k: nat)
    requires j < |a.checkpoints| && k < |b.checkpoints| && SealsAgree(a, b, j, k)
    requires j > 0 && k > 0 ==> AgreeBack(a, b, j - 1, k - 1)
    ensures AgreeBack(a, b, j, k)
  {
    hide SealsAgree;
    assert AgreeAt(a, b, j, k - j);
  }

  // ---- from the roots to the leaves

  lemma PassedSettled(b: Bundle, k: nat)
    requires Passed(b) && k < |b.checkpoints|
    ensures SettledAt(b, k) && RootOk(b, k) && |Leaves(b, |b.lines|)| == |b.lines|
  {
    hide *;
    PassedClean(b);
    SettledEach(b, k);
    LeavesPrefix(b, |b.lines|, |b.lines|);
  }

  lemma SettledEach(b: Bundle, k: nat)
    requires Settled(b) && RootsOk(b, |b.checkpoints|) && k < |b.checkpoints|
    ensures SettledAt(b, k) && RootOk(b, k)
  {
    hide SettledAt, RootOk, AllRanges;
  }

  lemma SegmentIs(b: Bundle, k: nat)
    requires k < |b.checkpoints| && SettledAt(b, k) && RootOk(b, k) && |Leaves(b, |b.lines|)| == |b.lines|
    ensures RangeOf(b.checkpoints[k]).Some?
    ensures var r := RangeOf(b.checkpoints[k]).value;
            && b.rangeFrom <= r.from <= r.to + 1 <= b.rangeFrom + |b.lines|
            && Segment(b, k) == Leaves(b, |b.lines|)[r.from - b.rangeFrom..r.to + 1 - b.rangeFrom]
            && (Segment(b, k) != [] ==>
                  Lower(Text(Field(Some(b.checkpoints[k]), "root"))) == HexEncode(Root(Segment(b, k))))
  {
    hide RangeOf, Leaves, ClosedTrees, Field, Root, HexEncode, Lower, Text, AllRanges, Heir;
  }

  lemma HexRootLength(leaves: seq<Bytes>)
    requires leaves != []
    ensures |HexEncode(Root(leaves))| == 64 && |Root(leaves)| == 32
  {
    hide Root;
  }

  lemma LowerLength(s: Bytes)
    ensures |Lower(s)| == |s|
  {
  }

  /** Text of 64 characters is a string's, so two such fields that are the same are equal. */
  lemma SameLongTexts(v: Option<Value>, w: Option<Value>)
    requires (v.Some? ==> WellFormed(v.value)) && |Lower(Text(v))| == 64 && Same(OrNull(v), OrNull(w))
    ensures Text(v) == Text(w)
  {
    hide Text, Same, WellFormed;
    LowerLength(Text(v));
    LongTextIsString(v);
    SameAsString(v, w);
  }

  lemma RootPins(a: Bundle, b: Bundle, j: nat, k: nat)
    requires Passed(a) && Passed(b) && HashedApart(a, b) && a.rangeFrom == b.rangeFrom && a.rangeTo == b.rangeTo
    requires j < |a.checkpoints| && k < |b.checkpoints| && SealsAgree(a, b, j, k)
    ensures Segment(a, j) == Segment(b, k)
  {
    hide *;
    PassedClean(a);
    PassedClean(b);
    PassedSettled(a, j);
    PassedSettled(b, k);
    SegmentIs(a, j);
    SegmentIs(b, k);
    SealsAgreeGives(a, b, j, k);
    if Segment(a, j) != [] {
      DecodedCheckpoint(a, j);
      FieldWellFormed(Some(a.checkpoints[j]), "root");
      HexRootLength(Segment(a, j));
      SameLongTexts(Field(Some(a.checkpoints[j]), "root"), Field(Some(b.checkpoints[k]), "root"));
      HexInjective(Root(Segment(a, j)), Root(Segment(b, k)));
      TreeHashed(a, j);
      TreeHashed(b, k);
      ApartTrees(a, b, Segment(a, j), Segment(b, k));
      RootInjective(Segment(a, j), Segment(b, k));
    }
  }

  lemma ApartTrees(a: Bundle, b: Bundle, s: seq<Bytes>, t: seq<Bytes>)
    requires HashedApart(a, b) && s != [] && t != [] && RootInputs(s) <= Hashed(a) && RootInputs(t) <= Hashed(b)
    ensures NoCollision(RootInputs(s) + RootInputs(t))
  {
    hide RootInputs, Hashed, NoCollision;
    NoCollisionWithin(RootInputs(s) + RootInputs(t), Hashed(a) + Hashed(b));
  }

  /** The first n checkpoints here are those there from o on. */
  ghost predicate AgreeFrom(a: Bundle, b: Bundle, n: nat, o: nat)
    requires n <= |a.checkpoints| && n + o <= |b.checkpoints|
  {
    forall i :: 0 <= i < n ==> AgreeAt(a, b, i, o)
  }

  lemma AgreeFromLess(a: Bundle, b: Bundle, n: nat, o: nat)
    requires 0 < n <= |a.checkpoints| && n + o <= |b.checkpoints| && AgreeFrom(a, b, n, o)
    ensures AgreeFrom(a, b, n - 1, o) && SealsAgree(a, b, n - 1, n - 1 + o)
  {
    hide SealsAgree;
    assert AgreeAt(a, b, n - 1, o);
  }

  lemma AgreeFromBack(a: Bundle, b: Bundle)
    requires 0 < |a.checkpoints| <= |b.checkpoints| && AgreeBack(a, b, |a.checkpoints| - 1, |b.checkpoints| - 1)
    ensures AgreeFrom(a, b, |a.checkpoints|, |b.checkpoints| - |a.checkpoints|)
  {
    hide AgreeAt;
    assert (|b.checkpoints| - 1) - (|a.checkpoints| - 1) == |b.checkpoints| - |a.checkpoints|;
  }

  /** The last sequence the first n checkpoints cover. */
  function CoveredTo(b: Bundle, n: nat): int
    requires n <= |b.checkpoints|
  {
    if n == 0 then b.rangeFrom - 1
    else if RangeOf(b.checkpoints[n - 1]).Some? then RangeOf(b.checkpoints[n - 1]).value.to else 0
  }

  /** The leaves agree up to where checkpoint n begins. */
  lemma {:induction false} LeavesPinned(a: Bundle, b: Bundle, n: nat, o: nat)
    requires Passed(a) && Passed(b) && HashedApart(a, b) && a.rangeFrom == b.rangeFrom && a.rangeTo == b.rangeTo
    requires n <= |a.checkpoints| && n + o <= |b.checkpoints| && AgreeFrom(a, b, n, o)
    ensures var hi := CoveredTo(a, n) + 1 - a.rangeFrom;
            && 0 <= hi <= |Leaves(a, |a.lines|)| == |Leaves(b, |b.lines|)|
            && Leaves(a, |a.lines|)[..hi] == Leaves(b, |b.lines|)[..hi]
  {
    hide *;
    PassedClean(a);
    PassedClean(b);
    PassedSettled(a, 0);
    PassedSettled(b, 0);
    CoveredStep(a, n);
    if n > 0 {
      AgreeFromLess(a, b, n, o);
      LeavesPinned(a, b, n - 1, o);
      SegmentsPinned(a, b, n - 1, n - 1 + o);
      CoveredStep(a, n - 1);
      CoveredNext(a, n - 1);
      var r := RangeOf(a.checkpoints[n - 1]).value;
      PrefixesGrow(Leaves(a, |a.lines|), Leaves(b, |b.lines|), r.from - a.rangeFrom, r.to + 1 - a.rangeFrom);
    }
  }

  /** Where two checkpoints agree, so do the leaves they cover. */
  lemma SegmentsPinned(a: Bundle, b: Bundle, j: nat, k: nat)
    requires Passed(a) && Passed(b) && HashedApart(a, b) && a.rangeFrom == b.rangeFrom && a.rangeTo == b.rangeTo
    requires j < |a.checkpoints| && k < |b.checkpoints| && SealsAgree(a, b, j, k)
    ensures RangeOf(a.checkpoints[j]).Some?
    ensures var lo, hi := RangeOf(a.checkpoints[j]).value.from - a.rangeFrom, RangeOf(a.checkpoints[j]).value.to +
              1 - a.rangeFrom;
            && 0 <= lo <= hi <= |Leaves(a, |a.lines|)| && hi <= |Leaves(b, |b.lines|)|
            && Leaves(a, |a.lines|)[lo..hi] == Leaves(b, |b.lines|)[lo..hi]
  {
    hide *;
    RootPins(a, b, j, k);
    PassedSettled(a, j);
    PassedSettled(b, k);
    SegmentIs(a, j);
    SegmentIs(b, k);
    SealsAgreeGives(a, b, j, k);
  }

  lemma CoveredNext(b: Bundle, n: nat)
    requires Passed(b) && n < |b.checkpoints|
    ensures RangeOf(b.checkpoints[n]).Some? && RangeOf(b.checkpoints[n]).value.from == CoveredTo(b, n) + 1
  {
    hide *;
    PassedClean(b);
    FormsOkLess(b, n, |b.checkpoints|);
    FormOkRange(b, n);
    CoveredStep(b, n);
    if n > 0 {
      SealReady(b, n - 1);
    }
  }

  lemma CoveredStep(b: Bundle, n: nat)
    requires n <= |b.checkpoints|
    ensures n == 0 ==> CoveredTo(b, n) == b.rangeFrom - 1
    ensures n > 0 && RangeOf(b.checkpoints[n - 1]).Some? ==> CoveredTo(b, n) == RangeOf(b.checkpoints[n - 1]).value.to
  {
    hide RangeOf;
  }

  lemma PrefixesGrow(s: seq<Bytes>, t: seq<Bytes>, lo: nat, hi: nat)
    requires lo <= hi <= |s| == |t| && s[..lo] == t[..lo] && s[lo..hi] == t[lo..hi]
    ensures s[..hi] == t[..hi]
  {
    assert s[..hi] == s[..lo] + s[lo..hi];
    assert t[..hi] == t[..lo] + t[lo..hi];
  }

  lemma EndsAtIs(b: Bundle)
    requires EndsAt(b, b.rangeTo)
    ensures |b.checkpoints| > 0 && CoveredTo(b, |b.checkpoints|) == b.rangeTo
  {
    hide RangeOf;
  }

  lemma LeavesFromShorter(a: Bundle, b: Bundle)
    requires Passed(a) && Passed(b) && HashedApart(a, b) && a.rangeFrom == b.rangeFrom && a.rangeTo == b.rangeTo
    requires 0 < |a.checkpoints| <= |b.checkpoints|
    requires CheckpointText(a.checkpoints[|a.checkpoints| - 1]) == CheckpointText(b.checkpoints[|b.checkpoints| - 1])
    ensures Leaves(a, |a.lines|) == Leaves(b, |b.lines|)
  {
    hide *;
    PassedClean(a);
    ChainPins(a, b, |a.checkpoints| - 1, |b.checkpoints| - 1);
    AgreeFromBack(a, b);
    LeavesPinned(a, b, |a.checkpoints|, |b.checkpoints| - |a.checkpoints|);
    EndsAtIs(a);
    PassedSettled(a, 0);
    PassedSettled(b, 0);
    PrefixesAll(Leaves(a, |a.lines|), Leaves(b, |b.lines|));
  }

  lemma PrefixesAll(s: seq<Bytes>, t: seq<Bytes>)
    requires |s| == |t| && s[..|s|] == t[..|s|]
    ensures s == t
  {
    assert s[..|s|] == s && t[..|t|] == t;
  }

  lemma ApartEither(a: Bundle, b: Bundle)
    requires HashedApart(a, b)
    ensures HashedApart(b, a)
  {
    hide Hashed;
    assert Hashed(a) + Hashed(b) == Hashed(b) + Hashed(a);
  }

  /** Sharing the last checkpoint hash, they share every leaf, however many empty checkpoints either has. */
  lemma LeavesEqual(a: Bundle, b: Bundle)
    requires Passed(a) && Passed(b) && HashedApart(a, b) && a.rangeFrom == b.rangeFrom && a.rangeTo == b.rangeTo
    requires CheckpointText(a.checkpoints[|a.checkpoints| - 1]) == CheckpointText(b.checkpoints[|b.checkpoints| - 1])
    ensures Leaves(a, |a.lines|) == Leaves(b, |b.lines|) && |Leaves(a, |a.lines|)| == |a.lines| == |b.lines|
  {
    hide *;
    PassedClean(a);
    PassedClean(b);
    PassedSettled(a, 0);
    PassedSettled(b, 0);
    if |a.checkpoints| <= |b.checkpoints| {
      LeavesFromShorter(a, b);
    } else {
      ApartEither(a, b);
      LeavesFromShorter(b, a);
    }
  }

  // ---- from the leaves to the events

  /** Events that agree field for field, up to the order of members, and in their payloads where both are there. */
  ghost predicate SameEvent(a: Option<Value>, b: Option<Value>)
  {
    && SameEntryFields(a, b) && EntryText(a) == EntryText(b)
    && (!Nullish(Field(a, "payload")) && !Nullish(Field(b, "payload")) ==>
          Same(OrNull(Field(a, "payload")), OrNull(Field(b, "payload"))))
  }

  lemma SequenceWellFormed(b: Bundle, i: nat)
    requires EventsOk(b, |b.lines|) && i < |b.lines|
    ensures WellFormed(Int(b.rangeFrom + i))
  {
    hide EventsOk, WellFormed;
    CleanSequenceExact(b, |b.lines|, i);
    ExactWellFormed(b.rangeFrom + i);
  }

  lemma DecodedStream(b: Bundle)
    requires Decoded(b)
    ensures WellFormed(String(b.stream))
  {
    hide WellFormed;
  }

  lemma EntryReady(b: Bundle, i: nat)
    requires Decoded(b) && EventsOk(b, |b.lines|) && i < |b.lines|
    ensures |Leaves(b, |b.lines|)| == |b.lines| && EventOk(b, i)
    ensures EntryBytes(b, i).Some? && Leaves(b, |b.lines|)[i] == Sha256(EntryBytes(b, i).value)
    ensures EntryText(Event(b, i)) == Sha256Hex(EntryBytes(b, i).value)
    ensures WellFormed(EntryPreimage(String(b.stream), Int(b.rangeFrom + i), Event(b, i)))
    ensures EntryBytes(b, i) == Canon(EntryPreimage(String(b.stream), Int(b.rangeFrom + i), Event(b, i)))
    ensures EntryBytes(b, i).value in Hashed(b)
  {
    hide *;
    LeavesClean(b, |b.lines|);
    EventsOkLess(b, i, |b.lines|);
    LeafIs(b, Leaves(b, |b.lines|), i);
    HexIsSha256(EntryBytes(b, i).value);
    SequenceWellFormed(b, i);
    DecodedStream(b);
    EventWellFormed(b, i);
    EntryPreimageWellFormed(String(b.stream), Int(b.rangeFrom + i), Event(b, i));
    EntryHashed(b, i);
    EntryBytesIs(b, i);
  }

  lemma EntryBytesIs(b: Bundle, i: nat)
    requires i < |b.lines|
    ensures EntryBytes(b, i) == Canon(EntryPreimage(String(b.stream), Int(b.rangeFrom + i), Event(b, i)))
  {
    hide Canon, EntryPreimage, Event;
  }

  lemma LeafIs(b: Bundle, leaves: seq<Bytes>, i: nat)
    requires AreLeaves(b, leaves) && i < |leaves|
    ensures |leaves| <= |b.lines|
    ensures EntryBytes(b, i).Some? && leaves[i] == Sha256(EntryBytes(b, i).value)
              && EntryText(Event(b, i)) == HexEncode(leaves[i])
  {
    hide EntryBytes, Sha256, EntryText, Event, HexEncode;
    assert IsLeaf(b, i, leaves[i]);
  }

  lemma EventWellFormed(b: Bundle, i: nat)
    requires i < |b.lines|
    ensures Event(b, i).Some? ==> WellFormed(Event(b, i).value)
  {
    hide WellFormed, Decode;
    DecodeWellFormed(b.lines[i]);
  }

  /** Equal entry hashes are over the same fields of the same sequence of the same stream. */
  lemma EntryPins(a: Bundle, b: Bundle, i: nat, j: nat)
    requires Decoded(a) && EventsOk(a, |a.lines|) && Decoded(b) && EventsOk(b, |b.lines|) && HashedApart(a, b)
    requires i < |a.lines| && j < |b.lines| && EntryText(Event(a, i)) == EntryText(Event(b, j))
    ensures a.stream == b.stream && a.rangeFrom + i == b.rangeFrom + j
    ensures SameEntryFields(Event(a, i), Event(b, j))
  {
    hide *;
    EntryReady(a, i);
    EntryReady(b, j);
    ApartPins(a, b, EntryBytes(a, i).value, EntryBytes(b, j).value);
    var v := EntryPreimage(String(a.stream), Int(a.rangeFrom + i), Event(a, i));
    var w := EntryPreimage(String(b.stream), Int(b.rangeFrom + j), Event(b, j));
    CanonInjective(v, w);
    EntryPreimageSame(
      String(a.stream), Int(a.rangeFrom + i), Event(a, i), String(b.stream), Int(b.rangeFrom + j), Event(b, j));
    SameScalars(a.stream, b.stream, a.rangeFrom + i, b.rangeFrom + j);
  }

  lemma SameScalars(s: Bytes, t: Bytes, m: int, n: int)
    requires Same(String(s), String(t)) && Same(Int(m), Int(n))
    ensures s == t && m == n
  {
  }

  lemma SameFieldsGive(a: Option<Value>, b: Option<Value>)
    requires SameEntryFields(a, b)
    ensures Same(OrNull(Field(a, "payload_hash")), OrNull(Field(b, "payload_hash")))
    ensures Same(OrNull(Field(a, "prev_hash")), OrNull(Field(b, "prev_hash")))
  {
    hide Same, Field;
  }

  lemma PayloadReady(b: Bundle, i: nat)
    requires i < |b.lines| && EventOk(b, i) && !Nullish(Field(Event(b, i), "payload"))
    ensures PayloadBytes(b, i).Some? && PayloadBytes(b, i) == Canon(OrNull(Field(Event(b, i), "payload")))
    ensures Lower(Text(Field(Event(b, i), "payload_hash"))) == Sha256Hex(PayloadBytes(b, i).value)
    ensures PayloadBytes(b, i).value in Hashed(b)
    ensures WellFormed(OrNull(Field(Event(b, i), "payload")))
    ensures Field(Event(b, i), "payload_hash").Some? ==> WellFormed(Field(Event(b, i), "payload_hash").value)
  {
    hide *;
    PayloadBytesIs(b, i);
    EventWellFormed(b, i);
    FieldWellFormed(Event(b, i), "payload");
    FieldWellFormed(Event(b, i), "payload_hash");
    PayloadHashed(b, i);
  }

  lemma PayloadBytesIs(b: Bundle, i: nat)
    requires i < |b.lines| && EventOk(b, i) && !Nullish(Field(Event(b, i), "payload"))
    ensures PayloadBytes(b, i).Some? && PayloadBytes(b, i) == Canon(OrNull(Field(Event(b, i), "payload")))
    ensures Lower(Text(Field(Event(b, i), "payload_hash"))) == Sha256Hex(PayloadBytes(b, i).value)
  {
    hide Event, Field, Canon, SeqOf, EntryOk, StrictEqual, Sha256Hex, Text, Lower, PayloadState, StrEq;
  }

  /** Payloads under the same payload hash are the same value. */
  lemma PayloadPins(a: Bundle, b: Bundle, i: nat, j: nat)
    requires HashedApart(a, b) && i < |a.lines| && j < |b.lines| && EventOk(a, i) && EventOk(b, j)
    requires SameEntryFields(Event(a, i), Event(b, j))
    requires !Nullish(Field(Event(a, i), "payload")) && !Nullish(Field(Event(b, j), "payload"))
    ensures Same(OrNull(Field(Event(a, i), "payload")), OrNull(Field(Event(b, j), "payload")))
  {
    hide *;
    PayloadReady(a, i);
    PayloadReady(b, j);
    SameFieldsGive(Event(a, i), Event(b, j));
    HexIsSha256(PayloadBytes(a, i).value);
    SameLongTexts(Field(Event(a, i), "payload_hash"), Field(Event(b, j), "payload_hash"));
    ApartPins(a, b, PayloadBytes(a, i).value, PayloadBytes(b, j).value);
    CanonInjective(OrNull(Field(Event(a, i), "payload")), OrNull(Field(Event(b, j), "payload")));
  }

  lemma SameEventIs(a: Option<Value>, b: Option<Value>)
    requires SameEntryFields(a, b) && EntryText(a) == EntryText(b)
    requires !Nullish(Field(a, "payload")) && !Nullish(Field(b, "payload")) ==>
               Same(OrNull(Field(a, "payload")), OrNull(Field(b, "payload")))
    ensures SameEvent(a, b)
  {
    hide Same, Field, EntryText, SameEntryFields;
  }

  /** One shared entry hash pins the event it is of. */
  lemma EventPins(a: Bundle, b: Bundle, i: nat, j: nat)
    requires Decoded(a) && EventsOk(a, |a.lines|) && Decoded(b) && EventsOk(b, |b.lines|) && HashedApart(a, b)
    requires i < |a.lines| && j < |b.lines| && EntryText(Event(a, i)) == EntryText(Event(b, j))
    ensures a.stream == b.stream && a.rangeFrom + i == b.rangeFrom + j && SameEvent(Event(a, i), Event(b, j))
  {
    hide *;
    EntryPins(a, b, i, j);
    EntryReady(a, i);
    EntryReady(b, j);
    if !Nullish(Field(Event(a, i), "payload")) && !Nullish(Field(Event(b, j), "payload")) {
      PayloadPins(a, b, i, j);
    }
    SameEventIs(Event(a, i), Event(b, j));
  }

  ghost predicate SameEvents(a: Bundle, b: Bundle)
    requires |a.lines| == |b.lines|
  {
    forall i :: 0 <= i < |a.lines| ==> SameEvent(Event(a, i), Event(b, i))
  }

  lemma EventAt(a: Bundle, b: Bundle, i: nat)
    requires Decoded(a) && EventsOk(a, |a.lines|) && Decoded(b) && EventsOk(b, |b.lines|) && HashedApart(a, b)
    requires i < |a.lines| == |b.lines| && Leaves(a, |a.lines|) == Leaves(b, |b.lines|)
    ensures SameEvent(Event(a, i), Event(b, i))
  {
    hide *;
    EntryReady(a, i);
    EntryReady(b, i);
    HexIsSha256(EntryBytes(a, i).value);
    HexIsSha256(EntryBytes(b, i).value);
    EventPins(a, b, i, i);
  }

  /**
   * Two bundles over one range that both walk with nothing reported and share the last checkpoint hash are of one
   * stream and hold the same events, payloads included where both are present. Their checkpoints agree counted back
   * from the last, and where none is empty they are the same in the same places.
   */
  lemma TamperEvident(a: Bundle, b: Bundle)
    requires Passed(a) && Passed(b) && HashedApart(a, b) && a.rangeFrom == b.rangeFrom && a.rangeTo == b.rangeTo
    requires CheckpointText(a.checkpoints[|a.checkpoints| - 1]) == CheckpointText(b.checkpoints[|b.checkpoints| - 1])
    ensures a.stream == b.stream && AgreeBack(a, b, |a.checkpoints| - 1, |b.checkpoints| - 1)
    ensures Forward(a) && Forward(b) ==> |a.checkpoints| == |b.checkpoints|
    ensures |a.lines| == |b.lines| && SameEvents(a, b)
  {
    hide *;
    LeavesEqual(a, b);
    PassedClean(a);
    PassedClean(b);
    ChainPins(a, b, |a.checkpoints| - 1, |b.checkpoints| - 1);
    SealPins(a, b, |a.checkpoints| - 1, |b.checkpoints| - 1);
    SealsAgreeGives(a, b, |a.checkpoints| - 1, |b.checkpoints| - 1);
    SameEventsFrom(a, b);
  }

  lemma SameEventsFrom(a: Bundle, b: Bundle)
    requires Decoded(a) && EventsOk(a, |a.lines|) && Decoded(b) && EventsOk(b, |b.lines|) && HashedApart(a, b)
    requires |a.lines| == |b.lines| && Leaves(a, |a.lines|) == Leaves(b, |b.lines|)
    ensures SameEvents(a, b)
  {
    hide SameEvent, Leaves, HashedApart, Event, EventsOk, Decoded;
    forall i | 0 <= i < |a.lines|
      ensures SameEvent(Event(a, i), Event(b, i))
    {
      EventAt(a, b, i);
    }
  }

  // ---- along the entry chain alone

  lemma EntryLinkIs(b: Bundle, i: nat)
    requires Decoded(b) && EventsOk(b, |b.lines|) && 0 < i < |b.lines|
    ensures var prev := Field(Event(b, i), "prev_hash");
            prev == Field(Event(b, i - 1), "entry_hash") && prev.Some? && prev.value.String?
  {
    hide *;
    EventsOkLess(b, i, |b.lines|);
    EventsOkLess(b, i - 1, |b.lines|);
    CleanEntry(b, i - 1);
    EventWellFormed(b, i - 1);
    EntryHashIsString(b.stream, b.rangeFrom + i - 1, Event(b, i - 1));
    EventLink(b, i);
    StrictEqualString(Field(Event(b, i), "prev_hash"), Field(Event(b, i - 1), "entry_hash"));
  }

  lemma EventLink(b: Bundle, i: nat)
    requires 0 < i < |b.lines| && EventOk(b, i)
    ensures StrictEqual(Field(Event(b, i), "prev_hash"), Field(Event(b, i - 1), "entry_hash"))
  {
    hide Event, EntryOk, PayloadOk, StrictEqual, Field, SeqOf;
  }

  lemma SameEntryText(a: Option<Value>, b: Option<Value>)
    requires Field(a, "entry_hash") == Field(b, "entry_hash")
    ensures EntryText(a) == EntryText(b)
  {
    hide Field, Text, Lower;
  }

  ghost predicate SameBack(a: Bundle, b: Bundle, i: nat, j: nat)
    requires i < |a.lines| && j < |b.lines|
  {
    forall m :: 0 <= m <= i && i <= m + j ==> SameEvent(Event(a, m), Event(b, m + j - i))
  }

  /**
   * Even without checkpoints: exports of clean events that share one entry hash agree on every earlier sequence both
   * hold, wherever each starts.
   */
  lemma {:induction false} EntryChainPins(a: Bundle, b: Bundle, i: nat, j: nat)
    requires Decoded(a) && EventsOk(a, |a.lines|) && Decoded(b) && EventsOk(b, |b.lines|) && HashedApart(a, b)
    requires i < |a.lines| && j < |b.lines| && EntryText(Event(a, i)) == EntryText(Event(b, j))
    ensures a.stream == b.stream && a.rangeFrom + i == b.rangeFrom + j && SameBack(a, b, i, j)
  {
    hide *;
    EventPins(a, b, i, j);
    if i > 0 && j > 0 {
      EntryPins(a, b, i, j);
      EntryLinkIs(a, i);
      EntryLinkIs(b, j);
      SameFieldsGive(Event(a, i), Event(b, j));
      SameAsString(Field(Event(a, i), "prev_hash"), Field(Event(b, j), "prev_hash"));
      SameEntryText(Event(a, i - 1), Event(b, j - 1));
      EntryChainPins(a, b, i - 1, j - 1);
    }
    SameBackStep(a, b, i, j);
  }

  lemma SameBackStep(a: Bundle, b: Bundle, i: nat, j: nat)
    requires i < |a.lines| && j < |b.lines| && SameEvent(Event(a, i), Event(b, j))
    requires i > 0 && j > 0 ==> SameBack(a, b, i - 1, j - 1)
    ensures SameBack(a, b, i, j)
  {
    hide SameEvent, Event;
    forall m | 0 <= m <= i && i <= m + j
      ensures SameEvent(Event(a, m), Event(b, m + j - i))
    {
      if m < i {
        assert SameEvent(Event(a, m), Event(b, m + (j - 1) - (i - 1)));
      }
    }
  }
}

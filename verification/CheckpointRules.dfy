/** verify/walk.go: what is asked of each checkpoint, and what a clean bundle is. */
module CheckpointRules {
  import opened Bytes
  import opened JsonValue
  import opened Canonical
  import opened PhpValues
  import opened Preimages
  import opened Run
  import opened WalkRules
  import opened WalkTrees
  import opened RangeTiles

  /** Go's int64 arithmetic on values within four times its range. */
  function Wrap64(n: int): int
  {
    (n - MIN_INT64) % 0x1_0000_0000_0000_0000 + MIN_INT64
  }

  /** The one 64-bit integer that differs from n by a multiple of 2^64. */
  lemma Wrap64Exactly(n: int)
    ensures MIN_INT64 <= Wrap64(n) <= MAX_INT64 && exists k :: n == Wrap64(n) + k * 0x1_0000_0000_0000_0000
  {
    var k := (n - MIN_INT64) / 0x1_0000_0000_0000_0000;
    assert n == Wrap64(n) + k * 0x1_0000_0000_0000_0000;
  }

  lemma Wrap64Fits(n: int)
    requires MIN_INT64 <= n <= MAX_INT64
    ensures Wrap64(n) == n
  {
  }

  function CheckpointText(cp: Value): Bytes
  {
    Lower(Text(Field(Some(cp), "checkpoint_hash")))
  }

  /** v is the literal 1, and the stream the manifest's. */
  function SealedPreimage(stream: Bytes, r: Sealed, cp: Value): Value
  {
    CheckpointPreimage(Int(1), String(stream), Int(r.from), Int(r.to), OrNull(Field(Some(cp), "root")),
                       OrNull(Field(Some(cp), "prev_checkpoint")), OrNull(Field(Some(cp), "created_at")))
  }

  /** v is 1 and the stream the manifest's, whatever the checkpoint itself says of either. */
  lemma SealedFields(stream: Bytes, r: Sealed, cp: Value)
    ensures var p := SealedPreimage(stream, r, cp);
            && HasField(p, "v", Int(1)) && HasField(p, "stream", String(stream))
            && HasField(p, "from", Int(r.from)) && HasField(p, "to", Int(r.to))
            && HasField(p, "root", OrNull(Field(Some(cp), "root")))
            && HasField(p, "prev_checkpoint", OrNull(Field(Some(cp), "prev_checkpoint")))
            && HasField(p, "created_at", OrNull(Field(Some(cp), "created_at")))
  {
    hide CheckpointPreimage, HasField, Field;
    CheckpointPreimageFields(
      Int(1), String(stream), Int(r.from), Int(r.to), OrNull(Field(Some(cp), "root")),
      OrNull(Field(Some(cp), "prev_checkpoint")), OrNull(Field(Some(cp), "created_at")));
  }

  function OrderProblems(expectedFrom: Counter, from: int): seq<Finding>
  {
    if expectedFrom == At(from) then [] else [Content(CheckpointOutOfOrder)]
  }

  function HashProblems(stream: Bytes, r: Sealed, cp: Value): seq<Finding>
  {
    var canon := Canon(SealedPreimage(stream, r, cp));
    if canon.None? then [Content(CheckpointNotCanonical)]
    else if CheckpointText(cp) != Sha256Hex(canon.value) then [Content(CheckpointChanged)]
    else []
  }

  function UnchainedProblems(prev: Option<Value>, cp: Value): seq<Finding>
  {
    if prev.Some? && !StrictEqual(Field(Some(cp), "prev_checkpoint"), prev) then [Content(CheckpointUnchained)] else []
  }

  /** The trusted set's window wins; the manifest's is a fallback whose contradictions are content failures. */
  function SealProblems(seal: Seal): seq<Finding>
  {
    (if seal.inManifest then [] else [Content(KeyNotInManifest)]) +
    (if seal.trusted then Times(seal.windowProblems, Finding(OutsideWindow, SigningIdentity))
     else if seal.inManifest then Times(seal.windowProblems, Content(OutsideWindow)) else []) +
    (if seal.signatureValid then [] else [Content(SignatureInvalid)])
  }

  function TreeProblems(r: Sealed, cp: Value, leaves: seq<Bytes>): seq<Finding>
  {
    if |leaves| < Wrap64(r.to - r.from + 1) then [Content(EventsMissing)]
    else if Lower(Text(Field(Some(cp), "root"))) != RootText(leaves) then [Content(RootChanged)]
    else []
  }

  function UnconfirmedSeal(cp: Value, seal: Seal): seq<Finding>
  {
    if RangeOf(cp).None? || seal.trusted then [] else [Finding(KeyNotTrusted, SigningIdentity)]
  }

  /** A checkpoint no tree was closed for has no leaves. */
  function ClosedFor(closed: map<int, seq<Bytes>>, from: int): seq<Bytes>
  {
    if from in closed then closed[from] else []
  }

  function CheckpointProblems(b: Bundle, chain: Chain, closed: map<int, seq<Bytes>>, cp: Value): seq<Finding>
  {
    if RangeOf(cp).None? then [Content(NoRange)]
    else
      var r := RangeOf(cp).value;
      OrderProblems(chain.expected, r.from) + HashProblems(b.stream, r, cp) + UnchainedProblems(chain.prevHash, cp) +
      SealProblems(b.seal(cp)) + TreeProblems(r, cp, ClosedFor(closed, r.from))
  }

  function AfterCheckpoint(chain: Chain, cp: Value): Chain
  {
    if RangeOf(cp).None? then chain else Chain(Next(RangeOf(cp).value.to), Hash(Some(cp), "checkpoint_hash"))
  }

  function SealChainAt(b: Bundle, n: nat): Chain
    requires n <= |b.checkpoints|
  {
    if n == 0 then Start(b) else AfterCheckpoint(SealChainAt(b, n - 1), b.checkpoints[n - 1])
  }

  /** Every failure the first n checkpoints give, the trees having been closed with these leaves. */
  function SealProblemsUpTo(b: Bundle, closed: map<int, seq<Bytes>>, n: nat): seq<Finding>
    requires n <= |b.checkpoints|
  {
    if n == 0 then []
    else SealProblemsUpTo(b, closed, n - 1) + CheckpointProblems(b, SealChainAt(b, n - 1), closed, b.checkpoints[n - 1])
  }

  function UnconfirmedUpTo(b: Bundle, n: nat): seq<Finding>
    requires n <= |b.checkpoints|
  {
    if n == 0 then []
    else UnconfirmedUpTo(b, n - 1) + UnconfirmedSeal(b.checkpoints[n - 1], b.seal(b.checkpoints[n - 1]))
  }

  function TrailingProblems(b: Bundle): seq<Finding>
  {
    if MinusOneEquals(ChainAt(b, |b.lines|).expected, b.rangeTo) then [] else [Content(TrailingMissing)]
  }

  function CoverageProblems(b: Bundle): seq<Finding>
  {
    if MinusOneEquals(SealChainAt(b, |b.checkpoints|).expected, b.rangeTo) then [] else [Finding(NotCovered, Scope)]
  }

  function ClosedTrees(b: Bundle): map<int, seq<Bytes>>
  {
    CloseAll(AllRanges(b), TreesAt(b, |b.lines|)).closed
  }

  /** Every failure one walk reports, in order. */
  function WalkProblems(b: Bundle): seq<Finding>
  {
    ProblemsUpTo(b, |b.lines|) + TrailingProblems(b) +
    SealProblemsUpTo(b, ClosedTrees(b), |b.checkpoints|) + CoverageProblems(b)
  }

  // ---- what a clean bundle is, without the loops

  ghost predicate HashOk(stream: Bytes, r: Sealed, cp: Value)
  {
    var canon := Canon(SealedPreimage(stream, r, cp));
    canon.Some? && CheckpointText(cp) == Sha256Hex(canon.value)
  }

  ghost predicate SealOk(seal: Seal)
  {
    seal.inManifest && seal.windowProblems == 0 && seal.signatureValid
  }

  ghost predicate LinkOk(b: Bundle, k: nat)
    requires k < |b.checkpoints|
  {
    var prev := Field(Some(b.checkpoints[k]), "prev_checkpoint");
    if k > 0 then StrictEqual(prev, Field(Some(b.checkpoints[k - 1]), "checkpoint_hash"))
    else b.rangeFrom == 1 ==> StrEq(prev, ZERO_HASH)
  }

  /** Everything about a checkpoint but its root. */
  ghost predicate FormOk(b: Bundle, k: nat)
    requires k < |b.checkpoints|
  {
    var cp, r := b.checkpoints[k], RangeOf(b.checkpoints[k]);
    && r.Some? && HashOk(b.stream, r.value, cp) && LinkOk(b, k) && SealOk(b.seal(cp))
    && if k == 0 then r.value.from == b.rangeFrom
       else RangeOf(b.checkpoints[k - 1]).Some? && r.value.from == RangeOf(b.checkpoints[k - 1]).value.to + 1
  }

  ghost predicate FormsOk(b: Bundle, n: nat)
    requires n <= |b.checkpoints|
  {
    forall k :: 0 <= k < n ==> FormOk(b, k)
  }

  /**
   * The declared root is the RFC 6962 root of the entry hashes from..to. An empty checkpoint states the root of the
   * last checkpoint that starts where it does.
   */
  ghost predicate RootOk(b: Bundle, k: nat)
    requires k < |b.checkpoints|
  {
    var ranges := AllRanges(b);
    && k < |ranges|
    && Lower(Text(Field(Some(b.checkpoints[k]), "root"))) ==
       RootText(Part(Leaves(b, |b.lines|), ranges[k].from - b.rangeFrom,
                     ranges[Heir(ranges, k, |ranges|)].to + 1 - b.rangeFrom))
  }

  ghost predicate RootsOk(b: Bundle, n: nat)
    requires n <= |b.checkpoints|
  {
    forall k :: 0 <= k < n ==> RootOk(b, k)
  }

  ghost predicate EndsAt(b: Bundle, to: int)
  {
    var n := |b.checkpoints|;
    n > 0 && RangeOf(b.checkpoints[n - 1]).Some? && RangeOf(b.checkpoints[n - 1]).value.to == to
  }

  /** The checkpoints tile the range: FormOk makes each start where the last one ended. */
  ghost predicate Clean(b: Bundle)
  {
    && EventsOk(b, |b.lines|) && b.rangeFrom + |b.lines| == b.rangeTo + 1
    && FormsOk(b, |b.checkpoints|) && Onward(b) && RootsOk(b, |b.checkpoints|) && EndsAt(b, b.rangeTo)
  }

  /** The source never compares a checkpoint's two ends, but none can lie further back than an empty one's. */
  ghost predicate Onward(b: Bundle)
  {
    forall k :: 0 <= k < |b.checkpoints| && RangeOf(b.checkpoints[k]).Some? ==>
      RangeOf(b.checkpoints[k]).value.from <= RangeOf(b.checkpoints[k]).value.to + 1
  }

  // ---- the loop over checkpoints

  lemma HashOkExactly(stream: Bytes, r: Sealed, cp: Value)
    ensures HashProblems(stream, r, cp) == [] <==> HashOk(stream, r, cp)
  {
    hide Canon, SealedPreimage;
  }

  lemma SealOkExactly(seal: Seal)
    ensures SealProblems(seal) == [] <==> SealOk(seal)
  {
  }

  /** A recomputed checkpoint hash comes from a checkpoint_hash that is a string of 64 characters. */
  lemma CheckpointHashIsString(stream: Bytes, r: Sealed, cp: Value)
    requires HashOk(stream, r, cp) && WellFormed(cp)
    ensures Field(Some(cp), "checkpoint_hash").Some? && Field(Some(cp), "checkpoint_hash").value.String?
    ensures Hash(Some(cp), "checkpoint_hash") == Field(Some(cp), "checkpoint_hash")
  {
    FieldWellFormed(Some(cp), "checkpoint_hash");
    hide Canon, WellFormed, SealedPreimage;
    LongTextIsString(Field(Some(cp), "checkpoint_hash"));
  }

  /** A recomputed checkpoint hash covers both ends, so they are exactly representable. */
  lemma EndsAreExact(stream: Bytes, r: Sealed, cp: Value)
    requires HashOk(stream, r, cp)
    ensures -MAX_EXACT_INT <= r.from <= MAX_EXACT_INT && -MAX_EXACT_INT <= r.to <= MAX_EXACT_INT
  {
    var preimage := SealedPreimage(stream, r, cp);
    assert preimage.members[2].val == Int(r.from) && preimage.members[3].val == Int(r.to);
    hide SealedPreimage, Canon, Text, Sha256Hex;
    CanonField(preimage, 2);
    CanonField(preimage, 3);
    ExactInt(r.from);
    ExactInt(r.to);
  }

  /** On a clean prefix the chain stands where the last checkpoint ended. */
  ghost predicate SealChainOk(b: Bundle, n: nat)
    requires n <= |b.checkpoints|
  {
    var chain := SealChainAt(b, n);
    if n == 0 then chain == Start(b)
    else
      && RangeOf(b.checkpoints[n - 1]).Some? && chain.expected == At(RangeOf(b.checkpoints[n - 1]).value.to + 1)
      && RangeOf(b.checkpoints[n - 1]).value.to >= -MAX_EXACT_INT
      && chain.prevHash == Field(Some(b.checkpoints[n - 1]), "checkpoint_hash")
      && chain.prevHash.Some? && chain.prevHash.value.String?
  }

  lemma SealStep(b: Bundle, closed: map<int, seq<Bytes>>, n: nat)
    requires n < |b.checkpoints|
    ensures SealChainAt(b, n + 1) == AfterCheckpoint(SealChainAt(b, n), b.checkpoints[n])
    ensures SealProblemsUpTo(b, closed, n + 1) ==
              SealProblemsUpTo(b, closed, n) + CheckpointProblems(b, SealChainAt(b, n), closed, b.checkpoints[n])
    ensures UnconfirmedUpTo(b, n + 1) == UnconfirmedUpTo(b, n) +
              UnconfirmedSeal(b.checkpoints[n], b.seal(b.checkpoints[n]))
  {
    hide AfterCheckpoint, CheckpointProblems, UnconfirmedSeal;
  }

  lemma CheckpointProblemsNone(b: Bundle, chain: Chain, closed: map<int, seq<Bytes>>, cp: Value)
    ensures CheckpointProblems(b, chain, closed, cp) == [] <==>
              && RangeOf(cp).Some? && chain.expected == At(RangeOf(cp).value.from)
              && HashProblems(b.stream, RangeOf(cp).value, cp) == [] && UnchainedProblems(chain.prevHash, cp) == []
              && SealProblems(b.seal(cp)) == []
                && TreeProblems(RangeOf(cp).value, cp, ClosedFor(closed, RangeOf(cp).value.from)) == []
  {
    hide HashProblems, UnchainedProblems, SealProblems, TreeProblems, RangeOf, ClosedFor;
  }

  lemma LinkOkExactly(b: Bundle, k: nat)
    requires k < |b.checkpoints| && SealChainOk(b, k)
    ensures UnchainedProblems(SealChainAt(b, k).prevHash, b.checkpoints[k]) == [] <==> LinkOk(b, k)
  {
    hide RangeOf, Field, Ascii, SealChainAt;
  }

  ghost predicate TreeOk(b: Bundle, closed: map<int, seq<Bytes>>, k: nat)
    requires k < |b.checkpoints|
  {
    var cp, r := b.checkpoints[k], RangeOf(b.checkpoints[k]);
    r.Some? && TreeProblems(r.value, cp, ClosedFor(closed, r.value.from)) == []
  }

  ghost predicate TreesOk(b: Bundle, closed: map<int, seq<Bytes>>, n: nat)
    requires n <= |b.checkpoints|
  {
    forall k :: 0 <= k < n ==> TreeOk(b, closed, k)
  }

  lemma FormOkExactly(b: Bundle, closed: map<int, seq<Bytes>>, k: nat)
    requires Decoded(b) && k < |b.checkpoints| && SealChainOk(b, k)
    ensures CheckpointProblems(b, SealChainAt(b, k), closed, b.checkpoints[k]) == [] <==>
              FormOk(b, k) && TreeOk(b, closed, k)
    ensures FormOk(b, k) ==> SealChainOk(b, k + 1)
  {
    hide SealChainAt, CheckpointProblems, HashProblems, HashOk, UnchainedProblems, LinkOk, SealProblems, SealOk,
      TreeProblems, ClosedFor, RangeOf, Field, Ascii, WellFormed, Hash, SealProblemsUpTo, UnconfirmedUpTo;
    var cp := b.checkpoints[k];
    CheckpointProblemsNone(b, SealChainAt(b, k), closed, cp);
    SealStep(b, closed, k);
    SealOkExactly(b.seal(cp));
    LinkOkExactly(b, k);
    if RangeOf(cp).Some? {
      HashOkExactly(b.stream, RangeOf(cp).value, cp);
      if HashOk(b.stream, RangeOf(cp).value, cp) {
        EndsAreExact(b.stream, RangeOf(cp).value, cp);
        CheckpointHashIsString(b.stream, RangeOf(cp).value, cp);
      }
    }
  }

  lemma {:induction false} FormsOkExactly(b: Bundle, closed: map<int, seq<Bytes>>, n: nat)
    requires Decoded(b) && n <= |b.checkpoints|
    ensures SealProblemsUpTo(b, closed, n) == [] <==> FormsOk(b, n) && TreesOk(b, closed, n)
    ensures FormsOk(b, n) ==> SealChainOk(b, n)
  {
    hide CheckpointProblems, FormOk, TreeOk, SealChainOk, Decoded, SealProblemsUpTo, FormsOk, TreesOk, SealChainAt,
      UnconfirmedUpTo;
    if n == 0 {
      SealChainStarts(b, closed);
    } else {
      FormsOkExactly(b, closed, n - 1);
      SealStep(b, closed, n - 1);
      FormsOkStep(b, closed, n - 1);
      if FormsOk(b, n - 1) {
        FormOkExactly(b, closed, n - 1);
      }
    }
  }

  lemma FormsOkStep(b: Bundle, closed: map<int, seq<Bytes>>, n: nat)
    requires n < |b.checkpoints|
    ensures FormsOk(b, n + 1) <==> FormsOk(b, n) && FormOk(b, n)
    ensures TreesOk(b, closed, n + 1) <==> TreesOk(b, closed, n) && TreeOk(b, closed, n)
  {
    hide FormOk, TreeOk;
  }

  lemma SealChainStarts(b: Bundle, closed: map<int, seq<Bytes>>)
    ensures SealChainOk(b, 0) && SealProblemsUpTo(b, closed, 0) == [] && FormsOk(b, 0) && TreesOk(b, closed, 0)
  {
  }
}

/** verify/verify.go: the verdict on one bundle, and exactly when it is PASS. */
module Verdict {
  import opened Bytes
  import opened JsonValue
  import opened Canonical
  import opened PhpValues
  import opened MerkleTree
  import opened Run
  import opened WalkRules
  import opened WalkTrees
  import opened CheckpointRules
  import opened Walk
  import opened PassedWalk
  import opened WholeBundle
  import opened ConsistencyFile
  import opened Preimages

  // ---- what is left unconfirmed

  /** Every checkpoint that has a range is signed by a key of the trusted set. */
  ghost predicate KeysTrusted(b: Bundle, n: nat)
    requires n <= |b.checkpoints|
  {
    forall k :: 0 <= k < n && RangeOf(b.checkpoints[k]).Some? ==> b.seal(b.checkpoints[k]).trusted
  }

  /** Something is left unconfirmed exactly when some checkpoint's key is not trusted: the signing identity, always. */
  lemma {:induction false} UnconfirmedExactly(b: Bundle, n: nat)
    requires n <= |b.checkpoints|
    ensures UnconfirmedUpTo(b, n) == [] <==> KeysTrusted(b, n)
    ensures forall f :: f in UnconfirmedUpTo(b, n) ==> f.area == SigningIdentity
  {
    hide RangeOf, UnconfirmedSeal;
    if n > 0 {
      var cp := b.checkpoints[n - 1];
      UnconfirmedExactly(b, n - 1);
      SealConfirmed(cp, b.seal(cp));
    }
  }

  lemma SealConfirmed(cp: Value, seal: Seal)
    ensures UnconfirmedSeal(cp, seal) == [] <==> RangeOf(cp).Some? ==> seal.trusted
    ensures forall f :: f in UnconfirmedSeal(cp, seal) ==> f.area == SigningIdentity
  {
  }

  // ---- which result a failure of the walk falls on

  ghost predicate AllContent(fs: seq<Finding>)
  {
    forall f :: f in fs ==> f.area == ContentIntegrity
  }

  lemma LineAreas(b: Bundle, chain: Chain, ev: Option<Value>)
    ensures AllContent(LineProblems(b, chain, ev))
  {
    hide Canon, Field, PayloadState, EntryPreimage, StrictEqual, Lower, Text, Sha256Hex;
  }

  lemma {:induction false} EventAreas(b: Bundle, n: nat)
    requires n <= |b.lines|
    ensures AllContent(ProblemsUpTo(b, n))
  {
    hide LineProblems, ChainAt, Event;
    if n > 0 {
      EventAreas(b, n - 1);
      LineAreas(b, ChainAt(b, n - 1), Event(b, n - 1));
    }
  }

  /** A trusted key, outside its window. */
  ghost predicate OutOfWindow(b: Bundle, k: nat)
    requires k < |b.checkpoints|
  {
    var seal := b.seal(b.checkpoints[k]);
    RangeOf(b.checkpoints[k]).Some? && seal.trusted && seal.windowProblems > 0
  }

  ghost predicate SomeOutOfWindow(b: Bundle, n: nat)
    requires n <= |b.checkpoints|
  {
    exists k :: 0 <= k < n && OutOfWindow(b, k)
  }

  /** These failures fall on content integrity, or on the signing identity, and there exactly when told so. */
  ghost predicate IdentityWhen(fs: seq<Finding>, when: bool)
  {
    && (forall f :: f in fs ==> f.area == ContentIntegrity || f.area == SigningIdentity)
    && (when <==> exists f :: f in fs && f.area == SigningIdentity)
  }

  lemma IdentityJoin(fs: seq<Finding>, gs: seq<Finding>, p: bool, q: bool)
    requires IdentityWhen(fs, p) && IdentityWhen(gs, q)
    ensures IdentityWhen(fs + gs, p || q)
  {
    if p {
      var f :| f in fs && f.area == SigningIdentity;
      assert f in fs + gs;
    }
    if q {
      var g :| g in gs && g.area == SigningIdentity;
      assert g in fs + gs;
    }
  }

  lemma ContentIdentity(fs: seq<Finding>)
    requires AllContent(fs)
    ensures IdentityWhen(fs, false)
  {
  }

  lemma SealAreas(seal: Seal)
    ensures IdentityWhen(SealProblems(seal), seal.trusted && seal.windowProblems > 0)
  {
    var key := if seal.inManifest then [] else [Content(KeyNotInManifest)];
    var window := if seal.trusted then Times(seal.windowProblems, Finding(OutsideWindow, SigningIdentity))
      else if seal.inManifest then Times(seal.windowProblems, Content(OutsideWindow)) else [];
    var signature := if seal.signatureValid then [] else [Content(SignatureInvalid)];
    if seal.trusted && seal.windowProblems > 0 {
      assert window[0].area == SigningIdentity && window[0] in window;
    }
    ContentIdentity(key);
    ContentIdentity(signature);
    IdentityJoin(key, window, false, seal.trusted && seal.windowProblems > 0);
    IdentityJoin(key + window, signature, seal.trusted && seal.windowProblems > 0, false);
  }

  lemma CheckpointAreas(b: Bundle, chain: Chain, closed: map<int, seq<Bytes>>, k: nat)
    requires k < |b.checkpoints|
    ensures IdentityWhen(CheckpointProblems(b, chain, closed, b.checkpoints[k]), OutOfWindow(b, k))
  {
    hide RangeOf, Canon, SealedPreimage, CheckpointText, Sha256Hex, SealProblems, StrictEqual, Field, Lower, Text,
      RootText, Wrap64, ClosedFor, IdentityWhen;
    var cp := b.checkpoints[k];
    if RangeOf(cp).None? {
      ContentIdentity([Content(NoRange)]);
    } else {
      var r, out := RangeOf(cp).value, OutOfWindow(b, k);
      var before :=
        OrderProblems(chain.expected, r.from) + HashProblems(b.stream, r, cp) + UnchainedProblems(chain.prevHash, cp);
      var after := TreeProblems(r, cp, ClosedFor(closed, r.from));
      ContentIdentity(before);
      ContentIdentity(after);
      SealAreas(b.seal(cp));
      IdentityJoin(before, SealProblems(b.seal(cp)), false, out);
      IdentityJoin(before + SealProblems(b.seal(cp)), after, out, false);
    }
  }

  lemma {:induction false} CheckpointsAreas(b: Bundle, closed: map<int, seq<Bytes>>, n: nat)
    requires n <= |b.checkpoints|
    ensures IdentityWhen(SealProblemsUpTo(b, closed, n), SomeOutOfWindow(b, n))
  {
    hide CheckpointProblems, SealChainAt, OutOfWindow, IdentityWhen;
    if n == 0 {
      ContentIdentity([]);
    } else {
      CheckpointsAreas(b, closed, n - 1);
      CheckpointAreas(b, SealChainAt(b, n - 1), closed, n - 1);
      IdentityJoin(
        SealProblemsUpTo(b, closed, n - 1), CheckpointProblems(b, SealChainAt(b, n - 1), closed, b.checkpoints[n - 1]),
        SomeOutOfWindow(b, n - 1), OutOfWindow(b, n - 1));
    }
  }

  /** Where the last checkpoint with a range ends. */
  function LastEnd(b: Bundle, n: nat): Option<int>
    requires n <= |b.checkpoints|
  {
    if n == 0 then None
    else if RangeOf(b.checkpoints[n - 1]).Some? then Some(RangeOf(b.checkpoints[n - 1]).value.to)
    else LastEnd(b, n - 1)
  }

  lemma {:induction false} ExpectedAfter(b: Bundle, n: nat)
    requires n <= |b.checkpoints|
    ensures SealChainAt(b, n).expected ==
            if LastEnd(b, n).Some? then Next(LastEnd(b, n).value) else At(b.rangeFrom)
  {
    hide RangeOf, Field;
    if n > 0 {
      ExpectedAfter(b, n - 1);
    }
  }

  /** The last checkpoint ends where the range does; no sequence follows the largest integer. */
  ghost predicate Covered(b: Bundle)
  {
    var end := LastEnd(b, |b.checkpoints|);
    if end.Some? then end.value == b.rangeTo != MAX_INT64
    else b.rangeTo == if b.rangeFrom == MIN_INT64 then MAX_INT64 else b.rangeFrom - 1
  }

  lemma EndFits(b: Bundle, n: nat)
    requires Decoded(b) && n <= |b.checkpoints| && LastEnd(b, n).Some?
    ensures MIN_INT64 <= LastEnd(b, n).value <= MAX_INT64
  {
    hide WellFormed, Ascii, Lookup;
    var cp := b.checkpoints[n - 1];
    if RangeOf(cp).Some? {
      assert WellFormed(cp);
      FieldWellFormed(Some(cp), "to");
      IntFits(Field(Some(cp), "to").value);
    } else {
      EndFits(b, n - 1);
    }
  }

  lemma IntFits(v: Value)
    requires WellFormed(v) && v.Int?
    ensures MIN_INT64 <= v.n <= MAX_INT64
  {
  }

  lemma CoverageAreas(b: Bundle)
    requires Decoded(b)
    ensures CoverageProblems(b) == if Covered(b) then [] else [Finding(NotCovered, Scope)]
  {
    hide RangeOf, Decoded, SealChainAt, LastEnd;
    ExpectedAfter(b, |b.checkpoints|);
    if LastEnd(b, |b.checkpoints|).Some? {
      EndFits(b, |b.checkpoints|);
    }
  }

  /**
   * The walk puts a failure on the signing identity exactly where a trusted key signed outside its window, on the scope
   * exactly where the checkpoints stop elsewhere than the range, and every other one on content integrity.
   */
  lemma WalkAreas(b: Bundle)
    requires Decoded(b)
    ensures Touches(WalkProblems(b), SigningIdentity) <==> SomeOutOfWindow(b, |b.checkpoints|)
    ensures Touches(WalkProblems(b), Scope) <==> !Covered(b)
    ensures !Touches(WalkProblems(b), Timestamps) && !Touches(WalkProblems(b), Redactions)
  {
    hide ProblemsUpTo, SealProblemsUpTo, CoverageProblems, ClosedTrees, MinusOneEquals, ChainAt, Decoded, Covered,
      SomeOutOfWindow;
    EventAreas(b, |b.lines|);
    CheckpointsAreas(b, ClosedTrees(b), |b.checkpoints|);
    CoverageAreas(b);
    var content := ProblemsUpTo(b, |b.lines|) + TrailingProblems(b);
    var seals := SealProblemsUpTo(b, ClosedTrees(b), |b.checkpoints|);
    var all := content + seals;
    ContentIdentity(content);
    IdentityJoin(content, seals, false, SomeOutOfWindow(b, |b.checkpoints|));
    AreasOf(all, CoverageProblems(b), SomeOutOfWindow(b, |b.checkpoints|));
  }

  lemma AreasOf(fs: seq<Finding>, gs: seq<Finding>, out: bool)
    requires IdentityWhen(fs, out) && (forall g :: g in gs ==> g.area == Scope)
    ensures Touches(fs + gs, SigningIdentity) <==> out
    ensures Touches(fs + gs, Scope) <==> gs != []
    ensures !Touches(fs + gs, Timestamps) && !Touches(fs + gs, Redactions)
  {
    var all := fs + gs;
    forall f
      ensures f in all <==> f in fs || f in gs
    {
    }
    if out {
      var f :| f in fs && f.area == SigningIdentity;
      var i :| 0 <= i < |all| && all[i] == f;
    }
    if gs != [] {
      assert all[|fs|] == gs[0] && gs[0] in gs;
    }
  }

  // ---- the verdict

  /** The exit code, and the root of the consistency state where one is reported. */
  datatype Verdict = Verdict(code: int, root: Option<Bytes>)

  ghost predicate AllTrusted(b: Bundle)
  {
    KeysTrusted(b, |b.checkpoints|)
  }

  /** What PASS means of a bundle. */
  ghost predicate Passes(b: Bundle, f: Files)
  {
    WholeRight(b, f, {}, 0) && AllTrusted(b) && f.asideWaits == []
  }

  /** Read from its files, and not empty. */
  ghost predicate Loaded(b: Bundle)
  {
    Decoded(b) && b.lines != [] && b.checkpoints != []
  }

  function AllFindings(b: Bundle, f: Files): seq<Finding>
  {
    BundleFindings(b, f, {}, 0)
  }

  /** From sequence 1, the root of the tree over every event; otherwise none. */
  ghost predicate RootIs(b: Bundle, root: Option<Bytes>)
  {
    var leaves := Leaves(b, |b.lines|);
    if b.rangeFrom == 1 then leaves != [] && root == Some(HexEncode(Root(leaves))) else root.None?
  }

  /** The root captured at the end of the range. */
  function StateRoot(b: Bundle, code: int, captured: map<int, Bytes>): Option<Bytes>
  {
    if code != EXIT_FAIL && b.rangeFrom == 1 && b.rangeTo in captured then Some(captured[b.rangeTo]) else None
  }

  /** None is a hard error. */
  method VerifyOne(b: Bundle, f: Files) returns (v: Option<Verdict>)
    ensures v.Some? <==> WalkEnds(b)
    ensures v.Some? ==>
              && (v.value.code == 0 <==> AllFindings(b, f) == [] && AllTrusted(b) && f.asideWaits == [])
              && (v.value.code == 1 <==> AllFindings(b, f) != [])
              && v.value.code in {0, 1, 3}
    ensures v.Some? && Loaded(b) && RecordedReady(b, f) ==> (v.value.code == 0 <==> Passes(b, f))
    ensures v.Some? && Loaded(b) && v.value.code != 1 ==> RootIs(b, v.value.root)
  {
    hide *;
    VerdictWords();
    AllFindingsIs(b, f);
    var run := new Run();
    var result := VerifyWhole(run, b, f, {}, 0);
    if result.None? {
      return None;
    }
    var code := run.ExitCode();
    v := Some(Verdict(code, StateRoot(b, code, result.value.captured)));
    UnconfirmedExactly(b, |b.checkpoints|);
    AllTrustedIs(b);
    if Loaded(b) {
      if RecordedReady(b, f) {
        PassesExactly(b, f);
      }
      if code != EXIT_FAIL {
        RootReported(b, f, code);
      }
    }
  }

  lemma VerdictWords()
    ensures EXIT_PASS == 0 && EXIT_FAIL == 1 && EXIT_UNCONFIRMED == 3
  {
  }

  lemma AllFindingsIs(b: Bundle, f: Files)
    ensures AllFindings(b, f) == BundleFindings(b, f, {}, 0)
  {
    hide BundleFindings;
  }

  lemma AllTrustedIs(b: Bundle)
    ensures AllTrusted(b) <==> KeysTrusted(b, |b.checkpoints|)
  {
    hide KeysTrusted;
  }

  lemma LoadedIs(b: Bundle)
    ensures Loaded(b) <==> Decoded(b) && b.lines != [] && b.checkpoints != []
  {
    hide Decoded;
  }

  /**
   * The verdict is PASS exactly when the bundle is clean, every absence declared, every record right, every
   * checkpoint's key trusted, and nothing set aside fails or waits.
   */
  lemma PassesExactly(b: Bundle, f: Files)
    requires Loaded(b) && RecordedReady(b, f)
    ensures Passes(b, f) <==> AllFindings(b, f) == [] && AllTrusted(b) && f.asideWaits == []
  {
    hide *;
    LoadedIs(b);
    AllFindingsIs(b, f);
    WholeExactly(b, f, {}, 0);
    PassesIs(b, f);
  }

  lemma PassesIs(b: Bundle, f: Files)
    ensures Passes(b, f) <==> WholeRight(b, f, {}, 0) && AllTrusted(b) && f.asideWaits == []
  {
    hide WholeRight, AllTrusted;
  }

  lemma RootReported(b: Bundle, f: Files, code: int)
    requires Loaded(b) && AllFindings(b, f) == [] && code != EXIT_FAIL
    ensures RootIs(b, StateRoot(b, code, WalkedTo(b, {}, 0).captured))
  {
    hide *;
    LoadedIs(b);
    AllFindingsIs(b, f);
    FindingsNone(b, f, {}, 0);
    StreamedIsBatch(b, {}, 0);
    InSizes(b, {}, 0, b.rangeTo);
    var captured := Captured(b, Sizes(b, {}, 0), |b.lines|);
    var leaves := Leaves(b, |b.lines|);
    assert leaves[..|b.lines|] == leaves;
    StateRootIs(b, code, captured);
    RootIsIs(b, StateRoot(b, code, captured));
    WalkedToIs(b, {}, 0);
  }

  lemma StateRootIs(b: Bundle, code: int, captured: map<int, Bytes>)
    requires code != EXIT_FAIL
    ensures StateRoot(b, code, captured) ==
            if b.rangeFrom == 1 && b.rangeTo in captured then Some(captured[b.rangeTo]) else None
  {
  }

  lemma RootIsIs(b: Bundle, root: Option<Bytes>)
    ensures RootIs(b, root) <==>
            if b.rangeFrom == 1 then
              Leaves(b, |b.lines|) != [] && root == Some(HexEncode(Root(Leaves(b, |b.lines|))))
            else root.None?
  {
    hide Leaves, HexEncode, Root;
  }
}

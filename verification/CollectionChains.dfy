/** verify/collection.go: interleaved streams checked as if alone, and what silence says of each over the whole run. */
module CollectionChains {
  import opened Bytes
  import opened JsonValue
  import opened PhpValues
  import opened Run
  import opened WalkRules
  import opened Collection

  // ---- one stream alone

  function Alone(anchored: bool, es: seq<Entry>): StreamState
  {
    if es == [] then FRESH else AfterEntry(anchored, Alone(anchored, es[..|es| - 1]), es[|es| - 1])
  }

  function AloneFindings(anchored: bool, rangeFrom: int, es: seq<Entry>): seq<Finding>
  {
    if es == [] then []
    else
      AloneFindings(anchored, rangeFrom, es[..|es| - 1]) +
      EntryFindings(anchored, rangeFrom, Alone(anchored, es[..|es| - 1]), es[|es| - 1])
  }

  /** The first n records of one resource. */
  function Own(entries: seq<Entry>, n: nat, resource: Bytes): seq<Entry>
    requires n <= |entries|
  {
    if n == 0 then []
    else Own(entries, n - 1, resource) + if entries[n - 1].resource == resource then [entries[n - 1]] else []
  }

  lemma AlonePush(anchored: bool, rangeFrom: int, es: seq<Entry>, e: Entry)
    ensures Alone(anchored, es + [e]) == AfterEntry(anchored, Alone(anchored, es), e)
    ensures AloneFindings(anchored, rangeFrom, es + [e]) ==
              AloneFindings(anchored, rangeFrom, es) + EntryFindings(anchored, rangeFrom, Alone(anchored, es), e)
  {
    hide AfterEntry, EntryFindings;
    assert (es + [e])[..|es|] == es;
  }

  lemma OwnPush(entries: seq<Entry>, n: nat, resource: Bytes)
    requires 0 < n <= |entries|
    ensures Own(entries, n, resource) ==
              if entries[n - 1].resource == resource then Own(entries, n - 1, resource) + [entries[n - 1]]
                else Own(entries, n - 1, resource)
  {
  }

  /** Each stream's state is what its own records alone give. */
  lemma {:induction false} StateIsOwn(anchored: bool, entries: seq<Entry>, n: nat, resource: Bytes)
    requires n <= |entries|
    ensures StreamOf(StatesAt(anchored, entries, n), resource) == Alone(anchored, Own(entries, n, resource))
  {
    hide AfterEntry, Alone, Own, StatesAt, EntryFindings, FindingsAt;
    if n == 0 {
      FreshState(anchored, entries, resource);
    } else {
      StateIsOwn(anchored, entries, n - 1, resource);
      StatesStep(anchored, 0, entries, n - 1);
      OwnPush(entries, n, resource);
      AlonePush(anchored, 0, Own(entries, n - 1, resource), entries[n - 1]);
    }
  }

  lemma FreshState(anchored: bool, entries: seq<Entry>, resource: Bytes)
    ensures StreamOf(StatesAt(anchored, entries, 0), resource) == Alone(anchored, Own(entries, 0, resource))
  {
  }

  ghost predicate OwnSilent(anchored: bool, rangeFrom: int, entries: seq<Entry>, n: nat, resource: Bytes)
    requires n <= |entries|
  {
    AloneFindings(anchored, rangeFrom, Own(entries, n, resource)) == []
  }

  lemma OwnSilentStep(anchored: bool, rangeFrom: int, entries: seq<Entry>, n: nat, resource: Bytes)
    requires 0 < n <= |entries|
    ensures OwnSilent(anchored, rangeFrom, entries, n, resource) <==>
              && OwnSilent(anchored, rangeFrom, entries, n - 1, resource)
              && (entries[n - 1].resource == resource ==>
                    EntryFindings(anchored, rangeFrom, StreamOf(StatesAt(anchored, entries, n - 1), resource),
                      entries[n - 1]) == [])
  {
    hide AfterEntry, Alone, Own, StatesAt, EntryFindings, AloneFindings, StreamOf;
    StateIsOwn(anchored, entries, n - 1, resource);
    OwnPush(entries, n, resource);
    AlonePush(anchored, rangeFrom, Own(entries, n - 1, resource), entries[n - 1]);
  }

  /** Interleaving streams changes nothing: the pass is silent exactly when every resource's records alone are. */
  lemma {:induction false} InterleavedIsAlone(anchored: bool, rangeFrom: int, entries: seq<Entry>, n: nat)
    requires n <= |entries|
    ensures FindingsAt(anchored, rangeFrom, entries, n) == [] <==>
              forall r :: OwnSilent(anchored, rangeFrom, entries, n, r)
  {
    hide EntryFindings, OwnSilent, AfterEntry, StatesAt, FindingsAt, StreamOf;
    if n == 0 {
      NoFindings(anchored, rangeFrom, entries);
    } else {
      var before, e := n - 1, entries[n - 1];
      InterleavedIsAlone(anchored, rangeFrom, entries, n - 1);
      StatesStep(anchored, rangeFrom, entries, n - 1);
      OwnSilentStep(anchored, rangeFrom, entries, n, e.resource);
      if forall r :: OwnSilent(anchored, rangeFrom, entries, n, r) {
        forall r
          ensures OwnSilent(anchored, rangeFrom, entries, before, r)
        {
          assert OwnSilent(anchored, rangeFrom, entries, n, r);
          OwnSilentStep(anchored, rangeFrom, entries, n, r);
        }
      }
      if FindingsAt(anchored, rangeFrom, entries, n) == [] {
        forall r
          ensures OwnSilent(anchored, rangeFrom, entries, n, r)
        {
          assert OwnSilent(anchored, rangeFrom, entries, n - 1, r);
          OwnSilentStep(anchored, rangeFrom, entries, n, r);
        }
      }
    }
  }

  lemma NoFindings(anchored: bool, rangeFrom: int, entries: seq<Entry>)
    ensures FindingsAt(anchored, rangeFrom, entries, 0) == []
    ensures forall r :: OwnSilent(anchored, rangeFrom, entries, 0, r)
  {
  }

  // ---- silence, record by record

  lemma {:induction false} SilentAt(anchored: bool, rangeFrom: int, es: seq<Entry>, n: nat)
    requires AloneFindings(anchored, rangeFrom, es) == [] && n <= |es|
    ensures AloneFindings(anchored, rangeFrom, es[..n]) == []
    ensures n < |es| ==> EntryFindings(anchored, rangeFrom, Alone(anchored, es[..n]), es[n]) == []
    decreases |es|
  {
    hide EntryFindings, Alone;
    if n == |es| {
      assert es[..n] == es;
    } else {
      var init := es[..|es| - 1];
      SilentAt(anchored, rangeFrom, init, n);
      assert init[..n] == es[..n];
    }
  }

  ghost predicate Readable(e: Entry)
  {
    !IsRedacted(e) && IsObject(Payload(e))
  }

  lemma SilentReadable(anchored: bool, rangeFrom: int, st: StreamState, e: Entry)
    requires EntryFindings(anchored, rangeFrom, st, e) == [] && !IsRedacted(e)
    ensures Readable(e) && KindFindings(anchored, rangeFrom, st, e.kind, Payload(e)) == []
    ensures AfterEntry(anchored, st, e) == AfterKind(anchored, st, e, Payload(e))
  {
    hide Field, KindFindings, AfterKind, Ascii, IsRedacted;
  }

  // ---- receipts

  function Receipts(es: seq<Entry>): nat
  {
    if es == [] then 0 else Receipts(es[..|es| - 1]) + if es[|es| - 1].kind == ReceiptKind then 1 else 0
  }

  function LastReceipt(es: seq<Entry>): (m: Option<nat>)
    ensures m.Some? ==> m.value < |es| && es[m.value].kind == ReceiptKind
  {
    if es == [] then None
    else if es[|es| - 1].kind == ReceiptKind then Some(|es| - 1)
    else LastReceipt(es[..|es| - 1])
  }

  /** No receipt is redacted and every receipt's entry hash is a digest, as a passing walk makes sure. */
  ghost predicate Whole(es: seq<Entry>)
  {
    forall i :: 0 <= i < |es| && es[i].kind == ReceiptKind ==> !IsRedacted(es[i]) && EntryHash(es[i]) != []
  }

  /** The state is at the head of the chain of receipts so far. */
  ghost predicate AtHead(st: StreamState, es: seq<Entry>)
  {
    && st.receipts == Receipts(es)
    && (Receipts(es) == 0 <==> LastReceipt(es).None?)
    && (LastReceipt(es).None? ==> st.lastHash == [] && st.lastCursor.None?)
    && (LastReceipt(es).Some? ==>
          var r := es[LastReceipt(es).value];
          && st.lastHash == EntryHash(r) != [] && st.indexKnown && st.lastIndex == Receipts(es)
          && st.lastCursor == Field(Payload(r), "cursor_after"))
  }

  /** The receipt is the next of its chain. */
  ghost predicate NextReceipt(es: seq<Entry>, e: Entry)
  {
    var p := Payload(e);
    && Index(p) == Some(Receipts(es) + 1)
    && Digest64(Field(p, "prev_receipt_hash")) ==
         (if LastReceipt(es).None? then Ascii(ZERO_HASH) else EntryHash(es[LastReceipt(es).value]))
    && (LastReceipt(es).Some? ==>
          var cursor := Field(Payload(es[LastReceipt(es).value]), "cursor_after");
          cursor.Some? ==> CanonSame(OrNull(Field(p, "cursor_before")), cursor.value))
  }

  lemma ShapeGives(p: Option<Value>)
    requires ShapeFindings(p) == []
    ensures Index(p).Some? && Digest64(Field(p, "prev_receipt_hash")) != []
  {
    hide Field, Digest64, RecordsFindings, Ascii;
  }

  /** At the head of a chain, the rule on links is silent exactly when the receipt follows. */
  lemma LinkExactly(es: seq<Entry>, st: StreamState, e: Entry)
    requires AtHead(st, es) && ShapeFindings(Payload(e)) == []
    ensures LinkFindings(true, st, Payload(e)) == [] <==> NextReceipt(es, e)
  {
    hide Field, Digest64, ShapeFindings, Ascii, Index, EntryHash, CanonSame, Payload, Receipts, LastReceipt;
    ShapeGives(Payload(e));
  }

  lemma ReceiptsStep(es: seq<Entry>, e: Entry)
    ensures Receipts(es + [e]) == Receipts(es) + if e.kind == ReceiptKind then 1 else 0
    ensures LastReceipt(es + [e]) == if e.kind == ReceiptKind then Some(|es|) else LastReceipt(es)
  {
    assert (es + [e])[..|es|] == es;
  }

  lemma HeadStep(es: seq<Entry>, st: StreamState, e: Entry, rangeFrom: int)
    requires AtHead(st, es) && EntryFindings(true, rangeFrom, st, e) == []
    requires e.kind == ReceiptKind ==> !IsRedacted(e) && EntryHash(e) != []
    ensures AtHead(AfterEntry(true, st, e), es + [e])
    ensures e.kind == ReceiptKind ==> NextReceipt(es, e)
  {
    hide EntryFindings, AfterEntry, NextReceipt, EntryHash, Field, ShapeFindings, LinkFindings, Index, Payload,
      IsRedacted, Receipts, LastReceipt;
    ReceiptsStep(es, e);
    if e.kind == ReceiptKind {
      SilentReadable(true, rangeFrom, st, e);
      LinkExactly(es, st, e);
      NextReceiptIndex(es, e);
    } else {
      OtherKinds(st, e);
    }
  }

  lemma NextReceiptIndex(es: seq<Entry>, e: Entry)
    requires NextReceipt(es, e)
    ensures Index(Payload(e)) == Some(Receipts(es) + 1)
  {
    hide Field, Digest64, Ascii, Index, EntryHash, CanonSame, Payload, Receipts, LastReceipt;
  }

  /** Only receipts move the head. */
  lemma OtherKinds(st: StreamState, e: Entry)
    requires e.kind != ReceiptKind
    ensures var st' := AfterEntry(true, st, e);
            && st'.receipts == st.receipts && st'.lastHash == st.lastHash && st'.lastIndex == st.lastIndex
            && st'.indexKnown == st.indexKnown && st'.lastCursor == st.lastCursor
  {
    hide Field, IsRedacted, Payload, GapId, DayOf, Supplement, EntryHash, Declared;
  }

  lemma {:induction false} HeadOfChain(es: seq<Entry>, rangeFrom: int)
    requires AloneFindings(true, rangeFrom, es) == [] && Whole(es)
    ensures AtHead(Alone(true, es), es)
  {
    hide EntryFindings, AfterEntry, AtHead, IsRedacted, EntryHash, Alone;
    if es == [] {
      HeadStart();
    } else {
      var init, e := es[..|es| - 1], es[|es| - 1];
      SilentAt(true, rangeFrom, es, |es| - 1);
      HeadOfChain(init, rangeFrom);
      HeadStep(init, Alone(true, init), e, rangeFrom);
      assert init + [e] == es;
      AlonePush(true, rangeFrom, init, e);
    }
  }

  lemma HeadStart()
    ensures AtHead(Alone(true, []), [])
  {
  }

  /**
   * Receipts are numbered 1..k in the order they come, each names the entry hash of the one before it, the first the
   * zero hash, and each goes on from the cursor the one before it left, where that one left any.
   */
  lemma ReceiptsChain(es: seq<Entry>, rangeFrom: int, n: nat)
    requires AloneFindings(true, rangeFrom, es) == [] && Whole(es) && n < |es| && es[n].kind == ReceiptKind
    ensures NextReceipt(es[..n], es[n])
  {
    hide AloneFindings, EntryFindings, Alone, AfterEntry, AtHead, NextReceipt, IsRedacted, EntryHash;
    SilentAt(true, rangeFrom, es, n);
    HeadOfChain(es[..n], rangeFrom);
    HeadStep(es[..n], Alone(true, es[..n]), es[n], rangeFrom);
  }

  ghost predicate CountsReceipts(es: seq<Entry>, e: Entry)
  {
    var receipts := Field(Payload(e), "receipts");
    && Field(receipts, "count") == Some(Int(Receipts(es)))
    && if LastReceipt(es).None? then Nullish(Field(receipts, "last_receipt_hash"))
       else Digest64(Field(receipts, "last_receipt_hash")) == EntryHash(es[LastReceipt(es).value])
  }

  /** A settlement names the latest receipt before it and counts them exactly. */
  lemma SettlementCounts(es: seq<Entry>, rangeFrom: int, n: nat)
    requires AloneFindings(true, rangeFrom, es) == [] && Whole(es) && n < |es| && es[n].kind == Settle
              && !IsRedacted(es[n])
    ensures CountsReceipts(es[..n], es[n])
  {
    hide *;
    SilentAt(true, rangeFrom, es, n);
    WholeLess(es, n);
    HeadOfChain(es[..n], rangeFrom);
    var st, p := Alone(true, es[..n]), Payload(es[n]);
    SilentReadable(true, rangeFrom, st, es[n]);
    SettleHead(rangeFrom, st, p);
    HeadGives(es[..n], st, es[n]);
  }

  lemma WholeLess(es: seq<Entry>, n: nat)
    requires Whole(es) && n <= |es|
    ensures Whole(es[..n])
  {
    hide IsRedacted, EntryHash;
  }

  lemma SettleHead(rangeFrom: int, st: StreamState, p: Option<Value>)
    requires KindFindings(true, rangeFrom, st, Settle, p) == []
    ensures HeadFindings(true, st, Field(p, "receipts")) == []
    ensures ItemsFindings(true, st, IterValues(Field(p, "gaps")), |IterValues(Field(p, "gaps"))|) == []
    ensures DayOf(p) != [] && Supplement(p).Some?
              && SupplementFindings(rangeFrom, st, p, DayOf(p), Supplement(p).value) == []
  {
    hide Field, HeadFindings, ItemsFindings, SupplementFindings, DayOf, Supplement, IterValues, Unhealed, Ascii;
  }

  lemma HeadGives(es: seq<Entry>, st: StreamState, e: Entry)
    requires AtHead(st, es) && HeadFindings(true, st, Field(Payload(e), "receipts")) == []
    ensures CountsReceipts(es, e)
  {
    hide Field, Digest64, EntryHash, Receipts, LastReceipt, Payload;
  }
}

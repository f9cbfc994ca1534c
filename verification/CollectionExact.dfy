/** verify/collection.go: exactly which collection records a stream may go on with, over whole runs and any range. */
module CollectionExact {
  import opened Bytes
  import opened JsonValue
  import opened PhpValues
  import opened RegistryTime
  import opened WalkRules
  import opened CheckpointRules
  import opened TamperEvidence
  import opened Collection
  import opened CollectionChains
  import opened CollectionLedger

  // ---- what a record must say, read off the records of its stream before it

  ghost predicate IsWord(v: Option<Value>)
  {
    exists s: Bytes :: v == Some(String(s)) && s != []
  }

  ghost predicate IsNat(v: Option<Value>)
  {
    exists n: nat :: v == Some(Int(n))
  }

  ghost predicate IsDigest(v: Option<Value>)
  {
    Digest64(v) != []
  }

  ghost predicate Configures(e: Entry)
  {
    e.kind == Config && !IsRedacted(e) && IsObject(Payload(e))
  }

  ghost predicate SomeConfig(es: seq<Entry>)
  {
    exists i :: 0 <= i < |es| && Configures(es[i])
  }

  /** Every configuration of a stream names one records stream. */
  ghost predicate ConfigRight(es: seq<Entry>, p: Option<Value>)
  {
    && Field(p, "config_version") == Some(Int(1)) && IsWord(Field(p, "records_stream"))
    && forall i :: 0 <= i < |es| && Configures(es[i]) ==>
         Field(Payload(es[i]), "records_stream") == Field(p, "records_stream")
  }

  /** No records, or a range of records no shorter than their count. */
  ghost predicate CountFits(records: Option<Value>, count: int)
  {
    if Nullish(records) then count == 0
    else
      && IsInt(Field(records, "from_sequence")) && IsInt(Field(records, "to_sequence"))
      && var (from, to) := (Field(records, "from_sequence").value.n, Field(records, "to_sequence").value.n);
         from <= to && count <= Wrap64(to - from + 1)
  }

  ghost predicate ReceiptForm(p: Option<Value>)
  {
    && Field(p, "receipt_version") == Some(Int(1))
    && IsNat(Field(p, "receipt_index")) && Field(p, "receipt_index") != Some(Int(0))
    && IsDigest(Field(p, "prev_receipt_hash")) && IsDigest(Field(p, "page_hash"))
    && IsNat(Field(p, "record_count")) && CountFits(Field(p, "records"), Field(p, "record_count").value.n)
    && IsNat(Field(p, "duplicates_seen")) && IsWord(Field(p, "method"))
    && (StrEq(Field(p, "collected_by"), "tenant") || StrEq(Field(p, "collected_by"), "sigilbase"))
  }

  /**
   * The receipt names the entry hash of the one before it, and where that one is not redacted takes the next number and
   * goes on from its cursor. A stream's first receipt is number 1 and names the zero hash, or its chain began before
   * the range.
   */
  ghost predicate FollowsReceipt(anchored: bool, es: seq<Entry>, p: Option<Value>)
  {
    var index, prev := Field(p, "receipt_index"), Digest64(Field(p, "prev_receipt_hash"));
    if LastReceipt(es).None? then if index == Some(Int(1)) then prev == Ascii(ZERO_HASH) else !anchored
    else
      var last := es[LastReceipt(es).value];
      && prev == EntryHash(last)
      && (!IsRedacted(last) ==>
            && IsInt(index) && Field(Payload(last), "receipt_index") == Some(Int(index.value.n - 1))
            && (Field(Payload(last), "cursor_after").Some? ==>
                  CanonSame(OrNull(Field(p, "cursor_before")), Field(Payload(last), "cursor_after").value)))
  }

  ghost predicate DeclaredIn(es: seq<Entry>, id: Bytes)
  {
    exists i :: 0 <= i < |es| && DeclaresGap(es[i], id)
  }

  ghost predicate HealedIn(es: seq<Entry>, id: Bytes)
  {
    exists i :: 0 <= i < |es| && HealsGap(es[i], id)
  }

  /** A gap spans time, stands after the receipt it names, and is declared once and not after it was healed. */
  ghost predicate GapRight(anchored: bool, es: seq<Entry>, p: Option<Value>)
  {
    var (from, to) := (ParseTime(Field(p, "from")), ParseTime(Field(p, "to")));
    var after := Digest64(Field(p, "declared_after_receipt_hash"));
    && Field(p, "gap_version") == Some(Int(1)) && IsWord(Field(p, "gap_id")) && IsWord(Field(p, "reason"))
    && from.Some? && to.Some? && Before(from.value, to.value) && after != []
    && (if LastReceipt(es).Some? then after == EntryHash(es[LastReceipt(es).value])
        else anchored ==> after == Ascii(ZERO_HASH))
    && !DeclaredIn(es, Field(p, "gap_id").value.s) && !HealedIn(es, Field(p, "gap_id").value.s)
  }

  ghost predicate HealRight(anchored: bool, es: seq<Entry>, p: Option<Value>)
  {
    && IsWord(Field(p, "gap_id"))
    && (anchored ==> DeclaredIn(es, Field(p, "gap_id").value.s) || HealedIn(es, Field(p, "gap_id").value.s))
  }

  /** The receipts so far, by their last one's entry hash and their number. */
  ghost predicate NamesReceipts(anchored: bool, es: seq<Entry>, receipts: Option<Value>)
  {
    var head, count := Field(receipts, "last_receipt_hash"), Field(receipts, "count");
    && (if LastReceipt(es).Some? then Digest64(head) == EntryHash(es[LastReceipt(es).value])
        else anchored ==> Nullish(head))
    && IsInt(count) && count.value.n >= Receipts(es) && (anchored ==> count.value.n == Receipts(es))
  }

  /** A listed gap says what its declaration said, and that it is healed exactly if it was. */
  ghost predicate ItemRight(anchored: bool, es: seq<Entry>, item: Value)
  {
    var id, healed := Field(Some(item), "gap_id"), Field(Some(item), "healed");
    && IsWord(id) && healed.Some? && healed.value.Bool?
    && if !DeclaredIn(es, id.value.s) && !HealedIn(es, id.value.s) then !anchored
       else (healed.value.b <==> HealedIn(es, id.value.s)) && AsDeclared(es, id.value.s, item)
  }

  ghost predicate AsDeclared(es: seq<Entry>, id: Bytes, item: Value)
  {
    forall m :: 0 <= m < |es| && DeclaresGap(es[m], id) ==> SaysSame(item, Payload(es[m]))
  }

  ghost predicate SaysSame(item: Value, p: Option<Value>)
  {
    && Text(Field(Some(item), "from")) == Text(Field(p, "from"))
    && Text(Field(Some(item), "to")) == Text(Field(p, "to"))
    && Text(Field(Some(item), "reason")) == Text(Field(p, "reason"))
  }

  /** A settlement is gapped exactly when it lists a gap that is not healed. */
  ghost predicate StateRight(p: Option<Value>)
  {
    var items := IterValues(Field(p, "gaps"));
    if exists j :: 0 <= j < |items| && Field(Some(items[j]), "healed") != Some(Bool(true))
    then StrEq(Field(p, "state"), "gapped")
    else StrEq(Field(p, "state"), "settled")
  }

  ghost predicate SettleRight(anchored: bool, rangeFrom: int, es: seq<Entry>, e: Entry)
  {
    var p := Payload(e);
    var items := IterValues(Field(p, "gaps"));
    && Field(p, "settlement_version") == Some(Int(1)) && IsString(Field(p, "day")) && DayForm(Field(p, "day").value.s)
    && NamesReceipts(anchored, es, Field(p, "receipts"))
    && (forall j :: 0 <= j < |items| ==> ItemRight(anchored, es, items[j]))
    && StateRight(p) && Supplement(p).Some? && NextSupplement(es, e, rangeFrom)
  }

  ghost predicate KindRight(anchored: bool, rangeFrom: int, es: seq<Entry>, e: Entry)
  {
    var p := Payload(e);
    match e.kind
    case Config => ConfigRight(es, p)
    case ReceiptKind => ReceiptForm(p) && FollowsReceipt(anchored, es, p)
    case GapKind => GapRight(anchored, es, p)
    case Heal => HealRight(anchored, es, p)
    case Settle => SettleRight(anchored, rangeFrom, es, e)
  }

  /** A redacted record says nothing; any other is an object, comes after a configuration, and is right for its kind. */
  ghost predicate RecordRight(anchored: bool, rangeFrom: int, es: seq<Entry>, e: Entry)
  {
    || IsRedacted(e)
    || (&& IsObject(Payload(e)) && (anchored && e.kind != Config ==> SomeConfig(es))
        && KindRight(anchored, rangeFrom, es, e))
  }

  ghost predicate AllRight(anchored: bool, rangeFrom: int, es: seq<Entry>)
  {
    forall n :: 0 <= n < |es| ==> RecordRight(anchored, rangeFrom, es[..n], es[n])
  }

  // ---- what the state holds of the records so far

  ghost predicate ConfigsHeld(es: seq<Entry>, st: StreamState)
  {
    && (st.configs > 0 <==> SomeConfig(es)) && (!SomeConfig(es) ==> st.recordsStream == [])
    && forall i :: 0 <= i < |es| && Configures(es[i]) ==>
         st.recordsStream != [] && Field(Payload(es[i]), "records_stream") == Some(String(st.recordsStream))
  }

  ghost predicate HeadHeld(es: seq<Entry>, st: StreamState)
  {
    && st.receipts == Receipts(es)
    && if LastReceipt(es).None? then st.lastHash == [] && st.lastCursor.None?
       else
         var last := es[LastReceipt(es).value];
         && st.lastHash == EntryHash(last) != []
         && if IsRedacted(last) then !st.indexKnown && st.lastCursor.None?
            else
              && st.indexKnown && Field(Payload(last), "receipt_index") == Some(Int(st.lastIndex))
              && st.lastCursor == Field(Payload(last), "cursor_after")
  }

  ghost predicate GapHeld(es: seq<Entry>, gaps: map<Bytes, Gap>, id: Bytes)
  {
    && (id in gaps <==> DeclaredIn(es, id) || HealedIn(es, id))
    && (id in gaps ==>
          && (gaps[id].healed <==> HealedIn(es, id)) && (gaps[id].known <==> DeclaredIn(es, id))
          && forall m :: 0 <= m < |es| && DeclaresGap(es[m], id) ==>
               gaps[id] == Declared(Payload(es[m])).(healed := gaps[id].healed))
  }

  ghost predicate Held(es: seq<Entry>, st: StreamState)
  {
    && ConfigsHeld(es, st) && HeadHeld(es, st) && (forall id :: GapHeld(es, st.gaps, id))
    && forall day :: DayHeld(es, st.days, day)
  }

  // ---- each rule is silent exactly when the record is right

  lemma WordExactly(v: Option<Value>)
    ensures IsWord(v) <==> NonEmpty(v)
    ensures IsNat(v) <==> NonNegative(v)
  {
    if NonNegative(v) {
      assert v == Some(Int(v.value.n));
    }
  }

  lemma ConfigExactly(es: seq<Entry>, st: StreamState, p: Option<Value>)
    requires ConfigsHeld(es, st)
    ensures ConfigFindings(st, p) == [] <==> ConfigRight(es, p)
  {
    hide Field, IsRedacted, Payload;
    WordExactly(Field(p, "records_stream"));
    if SomeConfig(es) {
      var i :| 0 <= i < |es| && Configures(es[i]);
    }
  }

  lemma RecordsExactly(p: Option<Value>)
    requires NonNegative(Field(p, "record_count"))
    ensures RecordsFindings(p) == [] <==> CountFits(Field(p, "records"), Field(p, "record_count").value.n)
  {
    hide Lookup, Wrap64, Ascii;
  }

  lemma ShapeExactly(p: Option<Value>)
    ensures ShapeFindings(p) == [] <==> ReceiptForm(p)
  {
    hide Field, Digest64, RecordsFindings, CountFits, Ascii, IsNat, IsWord;
    WordExactly(Field(p, "receipt_index"));
    WordExactly(Field(p, "record_count"));
    WordExactly(Field(p, "duplicates_seen"));
    WordExactly(Field(p, "method"));
    if NonNegative(Field(p, "record_count")) {
      RecordsExactly(p);
    }
  }

  lemma FollowsExactly(anchored: bool, es: seq<Entry>, st: StreamState, p: Option<Value>)
    requires HeadHeld(es, st) && ReceiptForm(p)
    ensures LinkFindings(anchored, st, p) == [] <==> FollowsReceipt(anchored, es, p)
  {
    hide Field, Digest64, Ascii, EntryHash, CanonSame, Payload, Receipts, LastReceipt, IsRedacted, CountFits, IsWord;
    WordExactly(Field(p, "receipt_index"));
  }

  lemma GapExactly(anchored: bool, es: seq<Entry>, st: StreamState, p: Option<Value>)
    requires HeadHeld(es, st) && forall id :: GapHeld(es, st.gaps, id)
    ensures GapFindings(anchored, st, p) == [] <==> GapRight(anchored, es, p)
  {
    hide Field, Digest64, Ascii, EntryHash, Payload, Receipts, LastReceipt, IsRedacted, IsWord, ParseTime, Before,
      DeclaredIn, HealedIn, DeclaresGap;
    WordExactly(Field(p, "gap_id"));
    WordExactly(Field(p, "reason"));
    assert GapHeld(es, st.gaps, GapId(p));
  }

  lemma HealExactly(anchored: bool, es: seq<Entry>, st: StreamState, p: Option<Value>)
    requires forall id :: GapHeld(es, st.gaps, id)
    ensures HealFindings(anchored, st, p) == [] <==> HealRight(anchored, es, p)
  {
    hide Field, IsWord, DeclaredIn, HealedIn, DeclaresGap;
    WordExactly(Field(p, "gap_id"));
    assert GapHeld(es, st.gaps, GapId(p));
  }

  lemma HeadExactly(anchored: bool, es: seq<Entry>, st: StreamState, receipts: Option<Value>)
    requires HeadHeld(es, st)
    ensures HeadFindings(anchored, st, receipts) == [] <==> NamesReceipts(anchored, es, receipts)
  {
    hide Lookup, Digest64, Ascii, EntryHash, Payload, Receipts, LastReceipt, IsRedacted;
  }

  lemma ItemExactly(anchored: bool, es: seq<Entry>, st: StreamState, item: Value)
    requires forall id :: GapHeld(es, st.gaps, id)
    ensures ItemFindings(anchored, st, item) == [] <==> ItemRight(anchored, es, item)
  {
    hide Field, IsWord, DeclaredIn, HealedIn, DeclaresGap, Text, Payload;
    var id := ItemId(item);
    WordExactly(Field(Some(item), "gap_id"));
    assert GapHeld(es, st.gaps, id);
    if id in st.gaps && st.gaps[id].known {
      KnownDeclared(es, st.gaps, id, item);
    }
  }

  lemma KnownDeclared(es: seq<Entry>, gaps: map<Bytes, Gap>, id: Bytes, item: Value)
    requires GapHeld(es, gaps, id) && id in gaps && gaps[id].known
    ensures AsDeclared(es, id, item) <==>
            && Text(Field(Some(item), "from")) == gaps[id].from && Text(Field(Some(item), "to")) == gaps[id].to
            && Text(Field(Some(item), "reason")) == gaps[id].reason
  {
    hide Field, Text, DeclaresGap, HealsGap, Payload;
    var m :| 0 <= m < |es| && DeclaresGap(es[m], id);
  }

  lemma {:induction false} ItemsExactly(anchored: bool, es: seq<Entry>, st: StreamState, items: seq<Value>, n: nat)
    requires n <= |items| && forall id :: GapHeld(es, st.gaps, id)
    ensures ItemsFindings(anchored, st, items, n) == [] <==>
            forall j :: 0 <= j < n ==> ItemRight(anchored, es, items[j])
  {
    hide ItemFindings, ItemRight, GapHeld;
    if n > 0 {
      ItemsExactly(anchored, es, st, items, n - 1);
      ItemExactly(anchored, es, st, items[n - 1]);
    }
  }

  lemma {:induction false} UnhealedExactly(items: seq<Value>, n: nat)
    requires n <= |items|
    ensures Unhealed(items, n) <==> exists j :: 0 <= j < n && ItemId(items[j]) != [] && !ItemHealed(items[j])
  {
    hide ItemId, ItemHealed;
    if n > 0 {
      UnhealedExactly(items, n - 1);
    }
  }

  lemma StateExactly(anchored: bool, es: seq<Entry>, p: Option<Value>)
    requires var items := IterValues(Field(p, "gaps"));
             forall j :: 0 <= j < |items| ==> ItemRight(anchored, es, items[j])
    ensures var items := IterValues(Field(p, "gaps"));
            StateRight(p) <==>
            (Gapped(p) || StrEq(Field(p, "state"), "settled")) && (Gapped(p) <==> Unhealed(items, |items|))
  {
    hide Field, IterValues, DeclaredIn, HealedIn, AsDeclared, Ascii;
    var items := IterValues(Field(p, "gaps"));
    UnhealedExactly(items, |items|);
    forall j | 0 <= j < |items|
      ensures ItemId(items[j]) != []
    {
      assert ItemRight(anchored, es, items[j]);
    }
    GappedNotSettled();
  }

  lemma GappedNotSettled()
    ensures Ascii("gapped") != Ascii("settled")
  {
    assert |Ascii("gapped")| == 6 && |Ascii("settled")| == 7;
  }

  lemma DayExactly(p: Option<Value>)
    ensures DayOf(p) != [] <==> IsString(Field(p, "day")) && DayForm(Field(p, "day").value.s)
  {
    hide Field;
  }

  lemma FormExactly(anchored: bool, es: seq<Entry>, st: StreamState, p: Option<Value>)
    requires HeadHeld(es, st)
    ensures FormFindings(anchored, st, p) == [] <==>
            && Field(p, "settlement_version") == Some(Int(1)) && DayOf(p) != []
            && (Gapped(p) || StrEq(Field(p, "state"), "settled")) && Supplement(p).Some?
            && NamesReceipts(anchored, es, Field(p, "receipts"))
  {
    hide Field, HeadFindings, NamesReceipts, DayOf, Supplement, Ascii, HeadHeld;
    HeadExactly(anchored, es, st, Field(p, "receipts"));
  }

  lemma SettleExactly(anchored: bool, rangeFrom: int, es: seq<Entry>, st: StreamState, e: Entry)
    requires Held(es, st)
    ensures SettleFindings(anchored, rangeFrom, st, Payload(e)) == [] <==> SettleRight(anchored, rangeFrom, es, e)
  {
    var p := Payload(e);
    var items := IterValues(Field(p, "gaps"));
    hide Field, IterValues, ItemRight, NamesReceipts, FormFindings, ItemsFindings, SupplementFindings, StateRight,
      DayOf, Supplement, NextSupplement, Unhealed, Gapped, StrEq, DayForm, Payload, HeadHeld, GapHeld, DayHeld,
      ConfigsHeld;
    FormExactly(anchored, es, st, p);
    ItemsExactly(anchored, es, st, items, |items|);
    DayExactly(p);
    if DayOf(p) != [] && Supplement(p).Some? {
      SupplementExactly(es, st, e, rangeFrom);
    }
    if forall j :: 0 <= j < |items| ==> ItemRight(anchored, es, items[j]) {
      StateExactly(anchored, es, p);
    }
  }

  lemma KindExactly(anchored: bool, rangeFrom: int, es: seq<Entry>, st: StreamState, e: Entry)
    requires Held(es, st)
    ensures KindFindings(anchored, rangeFrom, st, e.kind, Payload(e)) == [] <==> KindRight(anchored, rangeFrom, es, e)
  {
    var p := Payload(e);
    hide ConfigFindings, ConfigRight, ShapeFindings, ReceiptForm, LinkFindings, FollowsReceipt, GapFindings, GapRight,
      HealFindings, HealRight, SettleFindings, SettleRight, Payload, ConfigsHeld, HeadHeld, GapHeld, DayHeld;
    match e.kind {
      case Config => ConfigExactly(es, st, p);
      case ReceiptKind =>
        ShapeExactly(p);
        if ReceiptForm(p) {
          FollowsExactly(anchored, es, st, p);
        }
      case GapKind => GapExactly(anchored, es, st, p);
      case Heal => HealExactly(anchored, es, st, p);
      case Settle => SettleExactly(anchored, rangeFrom, es, st, e);
    }
  }

  /** One record is silent exactly when it is right. */
  lemma RecordExactly(anchored: bool, rangeFrom: int, es: seq<Entry>, st: StreamState, e: Entry)
    requires Held(es, st)
    ensures EntryFindings(anchored, rangeFrom, st, e) == [] <==> RecordRight(anchored, rangeFrom, es, e)
  {
    hide KindFindings, KindRight, Payload, IsRedacted, HeadHeld, GapHeld, DayHeld;
    KindExactly(anchored, rangeFrom, es, st, e);
  }

  // ---- a right record leaves the state holding it

  lemma SomePush(es: seq<Entry>, e: Entry, id: Bytes)
    ensures SomeConfig(es + [e]) <==> SomeConfig(es) || Configures(e)
    ensures DeclaredIn(es + [e], id) <==> DeclaredIn(es, id) || DeclaresGap(e, id)
    ensures HealedIn(es + [e], id) <==> HealedIn(es, id) || HealsGap(e, id)
  {
    hide Configures, DeclaresGap, HealsGap;
    var more := es + [e];
    assert more[|es|] == e && forall i :: 0 <= i < |es| ==> more[i] == es[i];
    if i :| 0 <= i < |more| && Configures(more[i]) {
      assert i < |es| ==> Configures(es[i]);
    }
    if i :| 0 <= i < |more| && DeclaresGap(more[i], id) {
      assert i < |es| ==> DeclaresGap(es[i], id);
    }
    if i :| 0 <= i < |more| && HealsGap(more[i], id) {
      assert i < |es| ==> HealsGap(es[i], id);
    }
  }

  /** Which part of the state each kind of record moves. */
  lemma AfterParts(anchored: bool, st: StreamState, e: Entry)
    ensures var after := AfterEntry(anchored, st, e);
            && (!Configures(e) ==> after.configs == st.configs && after.recordsStream == st.recordsStream)
            && (e.kind != ReceiptKind ==>
                  && after.receipts == st.receipts && after.lastHash == st.lastHash && after.lastCursor == st.lastCursor
                  && after.indexKnown == st.indexKnown && after.lastIndex == st.lastIndex)
            && ((e.kind != GapKind && e.kind != Heal) || IsRedacted(e) || !IsObject(Payload(e)) ==>
                  after.gaps == st.gaps)
            && (e.kind != Settle || IsRedacted(e) || !IsObject(Payload(e)) ==> after.days == st.days)
  {
    hide Field, IsRedacted, Payload, GapId, DayOf, Supplement, EntryHash, Declared, NonEmpty, Index;
  }

  lemma ConfigsStep(anchored: bool, rangeFrom: int, es: seq<Entry>, st: StreamState, e: Entry)
    requires ConfigsHeld(es, st) && RecordRight(anchored, rangeFrom, es, e)
    ensures ConfigsHeld(es + [e], AfterEntry(anchored, st, e))
  {
    SomePush(es, e, []);
    AfterParts(anchored, st, e);
    hide Field, IsRedacted, Payload, AfterEntry, SomeConfig, KindRight, Configures;
    if Configures(e) {
      ConfigStep(anchored, rangeFrom, es, st, e);
    }
    var more := es + [e];
    forall i | 0 <= i < |more| && Configures(more[i])
      ensures var st' := AfterEntry(anchored, st, e);
              st'.recordsStream != [] && Field(Payload(more[i]), "records_stream") == Some(String(st'.recordsStream))
    {
      assert i < |es| ==> more[i] == es[i];
    }
  }

  lemma ConfigStep(anchored: bool, rangeFrom: int, es: seq<Entry>, st: StreamState, e: Entry)
    requires ConfigsHeld(es, st) && RecordRight(anchored, rangeFrom, es, e) && Configures(e)
    ensures var st' := AfterEntry(anchored, st, e);
            && st'.configs > 0 && st'.recordsStream != []
            && Field(Payload(e), "records_stream") == Some(String(st'.recordsStream))
            && (SomeConfig(es) ==> st'.recordsStream == st.recordsStream)
  {
    hide Field, IsRedacted, Payload;
    if SomeConfig(es) {
      var i :| 0 <= i < |es| && Configures(es[i]);
    }
  }

  lemma ReceiptStep(anchored: bool, rangeFrom: int, es: seq<Entry>, st: StreamState, e: Entry)
    requires HeadHeld(es, st) && RecordRight(anchored, rangeFrom, es, e) && e.kind == ReceiptKind && EntryHash(e) != []
    ensures var st' := AfterEntry(anchored, st, e);
            && st'.receipts == st.receipts + 1 && st'.lastHash == EntryHash(e)
            && if IsRedacted(e) then !st'.indexKnown && st'.lastCursor.None?
               else
                 && st'.indexKnown && Field(Payload(e), "receipt_index") == Some(Int(st'.lastIndex))
                 && st'.lastCursor == Field(Payload(e), "cursor_after")
  {
    hide Field, IsRedacted, Payload, EntryHash, FollowsReceipt, HeadHeld, CountFits, IsDigest, IsWord, StrEq;
  }

  lemma HeadPush(anchored: bool, rangeFrom: int, es: seq<Entry>, st: StreamState, e: Entry)
    requires HeadHeld(es, st) && RecordRight(anchored, rangeFrom, es, e)
    requires e.kind == ReceiptKind ==> EntryHash(e) != []
    ensures HeadHeld(es + [e], AfterEntry(anchored, st, e))
  {
    hide Field, IsRedacted, Payload, EntryHash, AfterEntry, RecordRight, Receipts, LastReceipt;
    ReceiptsStep(es, e);
    AfterParts(anchored, st, e);
    if e.kind == ReceiptKind {
      ReceiptStep(anchored, rangeFrom, es, st, e);
    }
  }

  lemma GapStep(anchored: bool, rangeFrom: int, es: seq<Entry>, st: StreamState, e: Entry, id: Bytes)
    requires (forall g :: GapHeld(es, st.gaps, g)) && RecordRight(anchored, rangeFrom, es, e)
    ensures GapHeld(es + [e], AfterEntry(anchored, st, e).gaps, id)
  {
    var more, gaps' := es + [e], AfterEntry(anchored, st, e).gaps;
    SomePush(es, e, id);
    assert GapHeld(es, st.gaps, id);
    GapsMoved(anchored, rangeFrom, es, st, e, id);
    hide Field, IsRedacted, Payload, AfterEntry, RecordRight, DeclaredIn, HealedIn, DeclaresGap, HealsGap, Declared;
    forall m | 0 <= m < |more| && DeclaresGap(more[m], id)
      ensures id in gaps' && gaps'[id] == Declared(Payload(more[m])).(healed := gaps'[id].healed)
    {
      if m < |es| {
        assert more[m] == es[m];
        DeclaredHere(es, m, id);
      }
    }
  }

  lemma DeclaredHere(es: seq<Entry>, m: nat, id: Bytes)
    requires m < |es| && DeclaresGap(es[m], id)
    ensures DeclaredIn(es, id)
  {
    hide DeclaresGap;
  }

  /** A gap declared is new; one healed keeps what was declared of it. */
  lemma GapsMoved(anchored: bool, rangeFrom: int, es: seq<Entry>, st: StreamState, e: Entry, id: Bytes)
    requires (forall g :: GapHeld(es, st.gaps, g)) && RecordRight(anchored, rangeFrom, es, e)
    ensures var gaps' := AfterEntry(anchored, st, e).gaps;
            if DeclaresGap(e, id) then
              id in gaps' && gaps'[id] == Declared(Payload(e)) && !DeclaredIn(es, id) && !HealedIn(es, id)
                && !HealsGap(e, id)
            else if HealsGap(e, id) then
              && id in gaps' && gaps'[id].healed && (id in st.gaps ==> gaps'[id] == st.gaps[id].(healed := true))
              && (id !in st.gaps ==> !gaps'[id].known)
            else (id in gaps' <==> id in st.gaps) && (id in gaps' ==> gaps'[id] == st.gaps[id])
  {
    hide *;
    assert GapHeld(es, st.gaps, id);
    GapsHeldHere(es, st.gaps, id);
    if DeclaresGap(e, id) {
      DeclaredNew(anchored, rangeFrom, es, e, id);
    }
    if HealsGap(e, id) {
      HealedKnown(anchored, rangeFrom, es, e, id);
    }
    GapMoved(anchored, st, e, id);
  }

  lemma GapsHeldHere(es: seq<Entry>, gaps: map<Bytes, Gap>, id: Bytes)
    requires GapHeld(es, gaps, id)
    ensures id in gaps <==> DeclaredIn(es, id) || HealedIn(es, id)
  {
    hide DeclaredIn, HealedIn, DeclaresGap, Declared;
  }

  lemma GapMoved(anchored: bool, st: StreamState, e: Entry, id: Bytes)
    requires HealsGap(e, id) && anchored ==> id in st.gaps
    ensures var gaps' := AfterEntry(anchored, st, e).gaps;
            if DeclaresGap(e, id) then id in gaps' && gaps'[id] == Declared(Payload(e)) && !HealsGap(e, id)
            else if HealsGap(e, id) then
              && id in gaps' && gaps'[id].healed && (id in st.gaps ==> gaps'[id] == st.gaps[id].(healed := true))
              && (id !in st.gaps ==> !gaps'[id].known)
            else (id in gaps' <==> id in st.gaps) && (id in gaps' ==> gaps'[id] == st.gaps[id])
  {
    hide Field, IsRedacted, Payload, EntryHash, Digest64, DayOf, Supplement, Index, Ascii, GapId, Declared,
      AfterReceipt, AfterSettle, AfterConfig;
    AfterParts(anchored, st, e);
  }

  /** In a bundle from sequence 1 a record that is right heals only a gap it knows. */
  lemma HealedKnown(anchored: bool, rangeFrom: int, es: seq<Entry>, e: Entry, id: Bytes)
    requires RecordRight(anchored, rangeFrom, es, e) && HealsGap(e, id)
    ensures anchored ==> DeclaredIn(es, id) || HealedIn(es, id)
  {
    hide IsRedacted, Payload, DeclaredIn, HealedIn, SomeConfig, Ascii, Lookup;
    WordExactly(Field(Payload(e), "gap_id"));
  }

  /** A record that is right declares no gap an earlier one declared or healed. */
  lemma DeclaredNew(anchored: bool, rangeFrom: int, es: seq<Entry>, e: Entry, id: Bytes)
    requires RecordRight(anchored, rangeFrom, es, e) && DeclaresGap(e, id)
    ensures !DeclaredIn(es, id) && !HealedIn(es, id)
  {
    hide IsRedacted, Payload, DeclaredIn, HealedIn, ParseTime, Before, EntryHash, LastReceipt, Digest64, SomeConfig,
      Ascii, Lookup;
    WordExactly(Field(Payload(e), "gap_id"));
  }

  lemma DayStep(anchored: bool, rangeFrom: int, es: seq<Entry>, st: StreamState, e: Entry, day: Bytes)
    requires DayHeld(es, st.days, day)
    ensures DayHeld(es + [e], AfterEntry(anchored, st, e).days, day)
  {
    DayMoved(anchored, st, e, day);
    hide AfterEntry, SettlesDay, DayAt;
    LastPush(es, e, day);
  }

  lemma LastPush(es: seq<Entry>, e: Entry, day: Bytes)
    ensures LastSettling(es + [e], day) == if SettlesDay(e, day) then Some(|es|) else LastSettling(es, day)
  {
    hide SettlesDay;
    assert (es + [e])[..|es|] == es;
  }

  lemma DayMoved(anchored: bool, st: StreamState, e: Entry, day: Bytes)
    ensures var days' := AfterEntry(anchored, st, e).days;
            if SettlesDay(e, day) then day in days' && days'[day] == DayAt(e)
            else (day in days' <==> day in st.days) && (day in days' ==> days'[day] == st.days[day])
  {
    AfterParts(anchored, st, e);
    hide Field, IsRedacted, Payload, EntryHash, DayOf, Supplement, GapId, NonEmpty, Index, Declared;
  }

  lemma HeldStep(anchored: bool, rangeFrom: int, es: seq<Entry>, st: StreamState, e: Entry)
    requires Held(es, st) && RecordRight(anchored, rangeFrom, es, e)
    requires e.kind == ReceiptKind ==> EntryHash(e) != []
    ensures Held(es + [e], AfterEntry(anchored, st, e))
  {
    hide AfterEntry, RecordRight, ConfigsHeld, HeadHeld, GapHeld, DayHeld, EntryHash;
    ConfigsStep(anchored, rangeFrom, es, st, e);
    HeadPush(anchored, rangeFrom, es, st, e);
    forall id
      ensures GapHeld(es + [e], AfterEntry(anchored, st, e).gaps, id)
    {
      GapStep(anchored, rangeFrom, es, st, e, id);
    }
    forall day
      ensures DayHeld(es + [e], AfterEntry(anchored, st, e).days, day)
    {
      DayStep(anchored, rangeFrom, es, st, e, day);
    }
  }

  lemma NothingHeld(anchored: bool)
    ensures Held([], Alone(anchored, []))
  {
  }

  // ---- whole runs

  /** Every receipt's entry hash is a digest, as a passing walk makes sure. */
  ghost predicate Digests(es: seq<Entry>)
  {
    forall i :: 0 <= i < |es| && es[i].kind == ReceiptKind ==> EntryHash(es[i]) != []
  }

  lemma AllRightPush(anchored: bool, rangeFrom: int, es: seq<Entry>, e: Entry)
    ensures AllRight(anchored, rangeFrom, es + [e]) <==>
            AllRight(anchored, rangeFrom, es) && RecordRight(anchored, rangeFrom, es, e)
  {
    hide RecordRight;
    var more := es + [e];
    assert more[..|es|] == es && more[|es|] == e;
    assert forall n :: 0 <= n < |es| ==> more[..n] == es[..n] && more[n] == es[n];
  }

  /**
   * A stream's records are silent exactly when each is right among those before it, from sequence 1 or later, redacted
   * or not.
   */
  lemma {:induction false} StreamExactly(anchored: bool, rangeFrom: int, es: seq<Entry>)
    requires Digests(es)
    ensures AloneFindings(anchored, rangeFrom, es) == [] <==> AllRight(anchored, rangeFrom, es)
    ensures AllRight(anchored, rangeFrom, es) ==> Held(es, Alone(anchored, es))
  {
    hide *;
    if es == [] {
      NothingHeld(anchored);
      NothingWrong(anchored, rangeFrom);
    } else {
      var init, e := es[..|es| - 1], es[|es| - 1];
      assert init + [e] == es;
      DigestsLess(init, e);
      StreamExactly(anchored, rangeFrom, init);
      AlonePush(anchored, rangeFrom, init, e);
      AllRightPush(anchored, rangeFrom, init, e);
      if AllRight(anchored, rangeFrom, init) {
        RecordExactly(anchored, rangeFrom, init, Alone(anchored, init), e);
        if RecordRight(anchored, rangeFrom, init, e) {
          HeldStep(anchored, rangeFrom, init, Alone(anchored, init), e);
        }
      }
    }
  }

  lemma DigestsLess(es: seq<Entry>, e: Entry)
    requires Digests(es + [e])
    ensures Digests(es) && (e.kind == ReceiptKind ==> EntryHash(e) != [])
  {
    hide EntryHash;
    var more := es + [e];
    assert more[|es|] == e && forall i :: 0 <= i < |es| ==> more[i] == es[i];
  }

  lemma NothingWrong(anchored: bool, rangeFrom: int)
    ensures AloneFindings(anchored, rangeFrom, []) == [] && AllRight(anchored, rangeFrom, [])
  {
  }

  /** Every record of the resource is right among those of the resource before it. */
  ghost predicate OwnRight(anchored: bool, rangeFrom: int, entries: seq<Entry>, resource: Bytes)
  {
    AllRight(anchored, rangeFrom, Own(entries, |entries|, resource))
  }

  ghost predicate StreamsRight(anchored: bool, rangeFrom: int, entries: seq<Entry>)
  {
    forall r :: OwnRight(anchored, rangeFrom, entries, r)
  }

  lemma OwnExactly(anchored: bool, rangeFrom: int, entries: seq<Entry>, resource: Bytes)
    requires Digests(entries)
    ensures OwnSilent(anchored, rangeFrom, entries, |entries|, resource) <==>
            OwnRight(anchored, rangeFrom, entries, resource)
  {
    hide AllRight, Own, AloneFindings, Digests;
    OwnDigests(entries, resource);
    StreamExactly(anchored, rangeFrom, Own(entries, |entries|, resource));
  }

  /** However the streams are interleaved: the whole check is silent exactly when every stream's records are right. */
  lemma CollectionExactly(anchored: bool, rangeFrom: int, entries: seq<Entry>)
    requires Digests(entries)
    ensures FindingsAt(anchored, rangeFrom, entries, |entries|) == [] <==>
            StreamsRight(anchored, rangeFrom, entries)
  {
    hide FindingsAt, OwnSilent, OwnRight, Digests;
    InterleavedIsAlone(anchored, rangeFrom, entries, |entries|);
    forall r
      ensures OwnSilent(anchored, rangeFrom, entries, |entries|, r) <==> OwnRight(anchored, rangeFrom, entries, r)
    {
      OwnExactly(anchored, rangeFrom, entries, r);
    }
  }

  lemma OwnDigests(entries: seq<Entry>, r: Bytes)
    requires Digests(entries)
    ensures Digests(Own(entries, |entries|, r))
  {
    hide Own, EntryHash;
    var es := Own(entries, |entries|, r);
    forall j | 0 <= j < |es| && es[j].kind == ReceiptKind
      ensures EntryHash(es[j]) != []
    {
      var i := OwnIsThere(entries, |entries|, r, j);
    }
  }

  lemma WalkDigests(b: Bundle)
    requires Passed(b)
    ensures Digests(EntriesOf(b.lines, |b.lines|))
  {
    hide Passed, EntriesOf, EntryOf, Decode, EntryHash;
    var entries := EntriesOf(b.lines, |b.lines|);
    forall i | 0 <= i < |entries| && entries[i].kind == ReceiptKind
      ensures EntryHash(entries[i]) != []
    {
      var k := EntryHasLine(b.lines, |b.lines|, i);
      WalkHashes(b, k);
    }
  }
}

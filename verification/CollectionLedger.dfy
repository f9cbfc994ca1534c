/** verify/collection.go: what silence says of the gaps a stream lists and the days it settles. */
module CollectionLedger {
  import opened Bytes
  import opened JsonValue
  import opened PhpValues
  import opened WalkRules
  import opened WalkTrees
  import opened TamperEvidence
  import opened Collection
  import opened CollectionChains

  // ---- gaps

  ghost predicate DeclaresGap(e: Entry, id: Bytes)
  {
    e.kind == GapKind && !IsRedacted(e) && IsObject(Payload(e)) && id != [] && GapId(Payload(e)) == id
  }

  ghost predicate HealsGap(e: Entry, id: Bytes)
  {
    e.kind == Heal && !IsRedacted(e) && IsObject(Payload(e)) && id != [] && GapId(Payload(e)) == id
  }

  ghost predicate HealedAfter(es: seq<Entry>, m: nat, id: Bytes)
  {
    exists p :: m < p < |es| && HealsGap(es[p], id)
  }

  /** The gap is what record m declared, healed exactly when a record after it heals it. */
  ghost predicate GapAt(es: seq<Entry>, m: nat, id: Bytes, g: Gap)
  {
    && m < |es| && DeclaresGap(es[m], id) && g == Declared(Payload(es[m])).(healed := g.healed)
    && (g.healed <==> HealedAfter(es, m, id))
  }

  ghost predicate GapsHeld(es: seq<Entry>, gaps: map<Bytes, Gap>)
  {
    forall id :: id in gaps ==> exists m :: GapAt(es, m, id, gaps[id])
  }

  lemma HealedStep(es: seq<Entry>, e: Entry, m: nat, id: Bytes)
    requires m < |es|
    ensures HealedAfter(es + [e], m, id) <==> HealedAfter(es, m, id) || HealsGap(e, id)
  {
    hide HealsGap;
    var more := es + [e];
    if HealedAfter(es, m, id) {
      var p :| m < p < |es| && HealsGap(es[p], id);
      assert HealsGap(more[p], id);
    }
    if HealsGap(e, id) {
      assert HealsGap(more[|es|], id);
    }
    if HealedAfter(more, m, id) {
      var p :| m < p < |more| && HealsGap(more[p], id);
      assert p < |es| ==> HealsGap(es[p], id);
    }
  }

  lemma GapKept(es: seq<Entry>, e: Entry, m: nat, id: Bytes, g: Gap)
    requires GapAt(es, m, id, g)
    ensures GapAt(es + [e], m, id, if HealsGap(e, id) then g.(healed := true) else g)
  {
    hide DeclaresGap, HealsGap, HealedAfter, Payload, Declared;
    HealedStep(es, e, m, id);
    assert (es + [e])[m] == es[m];
  }

  lemma GapNew(es: seq<Entry>, e: Entry, id: Bytes)
    requires DeclaresGap(e, id)
    ensures GapAt(es + [e], |es|, id, Declared(Payload(e)))
  {
    hide DeclaresGap, HealsGap, Payload;
  }

  lemma GapsStep(es: seq<Entry>, st: StreamState, e: Entry, rangeFrom: int)
    requires GapsHeld(es, st.gaps) && EntryFindings(true, rangeFrom, st, e) == []
    ensures GapsHeld(es + [e], AfterEntry(true, st, e).gaps)
  {
    hide EntryFindings, AfterEntry, GapAt, DeclaresGap, HealsGap, Declared, Payload, IsRedacted;
    var gaps' := AfterEntry(true, st, e).gaps;
    GapsAfter(st, e, rangeFrom);
    forall id | id in gaps'
      ensures exists m :: GapAt(es + [e], m, id, gaps'[id])
    {
      if DeclaresGap(e, id) {
        GapNew(es, e, id);
      } else {
        var m :| GapAt(es, m, id, st.gaps[id]);
        GapKept(es, e, m, id, st.gaps[id]);
      }
    }
  }

  /** In a bundle from sequence 1, silence means gaps come only from declarations, and a heal finds its gap. */
  lemma GapsAfter(st: StreamState, e: Entry, rangeFrom: int)
    requires EntryFindings(true, rangeFrom, st, e) == []
    ensures var gaps' := AfterEntry(true, st, e).gaps;
            forall id :: id in gaps' ==>
              if DeclaresGap(e, id) then gaps'[id] == Declared(Payload(e))
              else id in st.gaps && gaps'[id] == if HealsGap(e, id) then st.gaps[id].(healed := true) else st.gaps[id]
  {
    hide Field, Declared, Payload, IsRedacted, EntryFindings, KindFindings, EntryHash, DayOf, Supplement, Index,
      GapId, NonEmpty;
    if !IsRedacted(e) {
      SilentReadable(true, rangeFrom, st, e);
      if e.kind == Heal {
        HealGives(rangeFrom, st, Payload(e));
      }
    }
  }

  lemma HealGives(rangeFrom: int, st: StreamState, p: Option<Value>)
    requires KindFindings(true, rangeFrom, st, Heal, p) == []
    ensures GapId(p) != [] && GapId(p) in st.gaps
  {
    hide Field, GapId;
  }

  lemma {:induction false} GapsOfChain(es: seq<Entry>, rangeFrom: int)
    requires AloneFindings(true, rangeFrom, es) == []
    ensures GapsHeld(es, Alone(true, es).gaps)
  {
    hide EntryFindings, AfterEntry, GapsHeld, Alone;
    if es == [] {
      NoGaps();
    } else {
      var init, e := es[..|es| - 1], es[|es| - 1];
      SilentAt(true, rangeFrom, es, |es| - 1);
      GapsOfChain(init, rangeFrom);
      GapsStep(init, Alone(true, init), e, rangeFrom);
      assert init + [e] == es;
      AlonePush(true, rangeFrom, init, e);
    }
  }

  lemma NoGaps()
    ensures GapsHeld([], Alone(true, []).gaps)
  {
  }

  /** The item says what the declaration said, and healed exactly if it was healed by then. */
  ghost predicate ListsGap(es: seq<Entry>, item: Value, m: nat)
  {
    && m < |es| && DeclaresGap(es[m], ItemId(item))
    && Text(Field(Some(item), "from")) == Text(Field(Payload(es[m]), "from"))
    && Text(Field(Some(item), "to")) == Text(Field(Payload(es[m]), "to"))
    && Text(Field(Some(item), "reason")) == Text(Field(Payload(es[m]), "reason"))
    && (ItemHealed(item) <==> HealedAfter(es, m, ItemId(item)))
  }

  lemma {:induction false} EachItem(st: StreamState, items: seq<Value>, n: nat, j: nat)
    requires j < n <= |items| && ItemsFindings(true, st, items, n) == []
    ensures ItemFindings(true, st, items[j]) == []
  {
    hide ItemFindings;
    if j < n - 1 {
      EachItem(st, items, n - 1, j);
    }
  }

  lemma ItemGives(st: StreamState, item: Value)
    requires ItemFindings(true, st, item) == []
    ensures ItemId(item) in st.gaps
    ensures var g := st.gaps[ItemId(item)];
            && g.healed == ItemHealed(item)
            && (g.known ==>
                  && Text(Field(Some(item), "from")) == g.from && Text(Field(Some(item), "to")) == g.to
                  && Text(Field(Some(item), "reason")) == g.reason)
  {
    hide Field, Text, ItemId, ItemHealed;
  }

  /** Every gap a settlement lists was declared earlier, with those bounds, that reason and that healed flag. */
  lemma ListedGaps(es: seq<Entry>, rangeFrom: int, n: nat, j: nat) returns (m: nat)
    requires AloneFindings(true, rangeFrom, es) == [] && n < |es| && es[n].kind == Settle && !IsRedacted(es[n])
    requires j < |IterValues(Field(Payload(es[n]), "gaps"))|
    ensures ListsGap(es[..n], IterValues(Field(Payload(es[n]), "gaps"))[j], m)
  {
    hide AloneFindings, EntryFindings, Alone, IsRedacted, Payload, GapAt, ItemFindings, ItemsFindings, IterValues,
      Field, ListsGap, KindFindings, AfterEntry;
    SilentAt(true, rangeFrom, es, n);
    GapsOfChain(es[..n], rangeFrom);
    var st, p := Alone(true, es[..n]), Payload(es[n]);
    SilentReadable(true, rangeFrom, st, es[n]);
    SettleHead(rangeFrom, st, p);
    var items := IterValues(Field(p, "gaps"));
    EachItem(st, items, |items|, j);
    ItemGives(st, items[j]);
    m :| GapAt(es[..n], m, ItemId(items[j]), st.gaps[ItemId(items[j])]);
    GapListed(es[..n], items[j], m, st.gaps[ItemId(items[j])]);
  }

  lemma GapListed(es: seq<Entry>, item: Value, m: nat, g: Gap)
    requires GapAt(es, m, ItemId(item), g) && g.healed == ItemHealed(item)
    requires g.known ==>
               && Text(Field(Some(item), "from")) == g.from && Text(Field(Some(item), "to")) == g.to
               && Text(Field(Some(item), "reason")) == g.reason
    ensures ListsGap(es, item, m)
  {
    hide Field, Text, ItemId, ItemHealed, HealedAfter, DeclaresGap, Payload;
  }

  // ---- days

  ghost predicate SettlesDay(e: Entry, day: Bytes)
  {
    e.kind == Settle && !IsRedacted(e) && IsObject(Payload(e)) && day != [] && DayOf(Payload(e)) == day
      && Supplement(Payload(e)).Some?
  }

  function DayAt(e: Entry): Day
    requires Supplement(Payload(e)).Some?
  {
    Day(Supplement(Payload(e)).value, e.sequence, EntryHash(e))
  }

  /** The last record to settle a day, if any does. */
  ghost function LastSettling(es: seq<Entry>, day: Bytes): (m: Option<nat>)
    ensures m.Some? ==> m.value < |es| && SettlesDay(es[m.value], day)
    ensures m.None? ==> forall i :: 0 <= i < |es| ==> !SettlesDay(es[i], day)
    ensures m.Some? ==> forall i :: m.value < i < |es| ==> !SettlesDay(es[i], day)
  {
    if es == [] then None
    else if SettlesDay(es[|es| - 1], day) then Some(|es| - 1)
    else LastSettling(es[..|es| - 1], day)
  }

  ghost predicate DayHeld(es: seq<Entry>, days: map<Bytes, Day>, day: Bytes)
  {
    var m := LastSettling(es, day);
    (day in days <==> m.Some?) && (m.Some? ==> days[day] == DayAt(es[m.value]))
  }

  lemma DaysAfter(st: StreamState, e: Entry, rangeFrom: int, day: Bytes)
    requires EntryFindings(true, rangeFrom, st, e) == []
    ensures var days' := AfterEntry(true, st, e).days;
            if SettlesDay(e, day) then day in days' && days'[day] == DayAt(e)
            else (day in days' <==> day in st.days) && (day in days' ==> days'[day] == st.days[day])
  {
    hide Field, Declared, Payload, IsRedacted, EntryFindings, KindFindings, EntryHash, DayOf, Supplement, Index,
      GapId, NonEmpty;
    if !IsRedacted(e) {
      SilentReadable(true, rangeFrom, st, e);
    }
  }

  lemma {:induction false} DaysOfChain(es: seq<Entry>, rangeFrom: int, day: Bytes)
    requires AloneFindings(true, rangeFrom, es) == []
    ensures DayHeld(es, Alone(true, es).days, day)
  {
    hide EntryFindings, AfterEntry, SettlesDay, DayAt, Alone;
    if es == [] {
      NoDays(day);
    } else {
      var init, e := es[..|es| - 1], es[|es| - 1];
      SilentAt(true, rangeFrom, es, |es| - 1);
      DaysOfChain(init, rangeFrom, day);
      DaysAfter(Alone(true, init), e, rangeFrom, day);
      assert init + [e] == es;
      AlonePush(true, rangeFrom, init, e);
    }
  }

  lemma NoDays(day: Bytes)
    ensures DayHeld([], Alone(true, []).days, day)
  {
  }

  /**
   * The settlement is the day's first and numbered 0, or the next supplement to the last one of that day, or the first
   * the bundle holds and named after a settlement before the range.
   */
  ghost predicate NextSupplement(es: seq<Entry>, e: Entry, rangeFrom: int)
    requires Supplement(Payload(e)).Some?
  {
    var p := Payload(e);
    var previous, supplement, m := Field(p, "previous_settlement"), Supplement(p).value, LastSettling(es, DayOf(p));
    if m.Some? then
      var prior := DayAt(es[m.value]);
      && supplement == prior.supplement + 1 && Field(previous, "sequence") == Some(Int(prior.sequence))
      && Digest64(Field(previous, "entry_hash")) == prior.hash != []
    else if supplement == 0 then Nullish(previous)
    else
      && IsInt(Field(previous, "sequence")) && Field(previous, "sequence").value.n < rangeFrom
      && Digest64(Field(previous, "entry_hash")) != []
  }

  /** With the days held, the rule on supplements is silent exactly when the settlement is the next one of its day. */
  lemma SupplementExactly(es: seq<Entry>, st: StreamState, e: Entry, rangeFrom: int)
    requires DayOf(Payload(e)) != [] && Supplement(Payload(e)).Some? && DayHeld(es, st.days, DayOf(Payload(e)))
    ensures SupplementFindings(rangeFrom, st, Payload(e), DayOf(Payload(e)), Supplement(Payload(e)).value) == [] <==>
              NextSupplement(es, e, rangeFrom)
  {
    hide Digest64, DayOf, Supplement, Payload, LastSettling, EntryHash, Lookup, Ascii;
    PriorIsNonNegative(es, DayOf(Payload(e)));
    SupplementIsNonNegative(Payload(e));
  }

  lemma SupplementIsNonNegative(p: Option<Value>)
    ensures Supplement(p).Some? ==> Supplement(p).value >= 0
  {
    hide Field;
  }

  lemma PriorIsNonNegative(es: seq<Entry>, day: Bytes)
    ensures var m := LastSettling(es, day);
            m.Some? ==> Supplement(Payload(es[m.value])).Some? && Supplement(Payload(es[m.value])).value >= 0
  {
    hide Field, DayOf, Payload, IsRedacted;
  }

  /**
   * A day's supplements rise by one, each naming the settlement before it by sequence and entry hash. A settlement is
   * numbered 0 exactly when it names none, which a day's later settlements never do: the first one the bundle holds may
   * be numbered higher, and then names one that lies before the range.
   */
  lemma SupplementsRise(es: seq<Entry>, rangeFrom: int, n: nat)
    requires AloneFindings(true, rangeFrom, es) == [] && n < |es| && es[n].kind == Settle && !IsRedacted(es[n])
    ensures Supplement(Payload(es[n])).Some? && DayOf(Payload(es[n])) != [] && NextSupplement(es[..n], es[n], rangeFrom)
    ensures Supplement(Payload(es[n])).value == 0 <==> Nullish(Field(Payload(es[n]), "previous_settlement"))
  {
    hide AloneFindings, EntryFindings, Alone, IsRedacted, Payload, SupplementFindings, DayOf, Supplement, Field,
      NextSupplement, DayHeld, KindFindings, AfterEntry;
    SilentAt(true, rangeFrom, es, n);
    var st, p := Alone(true, es[..n]), Payload(es[n]);
    SilentReadable(true, rangeFrom, st, es[n]);
    SettleHead(rangeFrom, st, p);
    DaysOfChain(es[..n], rangeFrom, DayOf(p));
    SupplementExactly(es[..n], st, es[n], rangeFrom);
    ZeroNamesNone(es[..n], es[n], rangeFrom);
  }

  lemma ZeroNamesNone(es: seq<Entry>, e: Entry, rangeFrom: int)
    requires Supplement(Payload(e)).Some? && NextSupplement(es, e, rangeFrom)
    ensures Supplement(Payload(e)).value == 0 <==> Nullish(Field(Payload(e), "previous_settlement"))
  {
    hide Digest64, DayOf, Supplement, Payload, LastSettling, EntryHash, Lookup, Ascii;
    PriorIsNonNegative(es, DayOf(Payload(e)));
  }

  // ---- the walk's part

  /** On a passing walk every event's entry hash is a digest, so no receipt drops out of its chain. */
  lemma WalkHashes(b: Bundle, i: nat)
    requires Passed(b) && i < |b.lines| && EntryOf(Event(b, i)).Some?
    ensures EntryHash(EntryOf(Event(b, i)).value) == EntryText(Event(b, i)) != []
  {
    hide *;
    PassedClean(b);
    EntryReady(b, i);
    HexIsSha256(EntryBytes(b, i).value);
    ShaIsHex(EntryBytes(b, i).value);
    EntryHashOf(Event(b, i));
  }

  lemma ShaIsHex(data: Bytes)
    ensures IsHex64(Sha256Hex(data))
  {
    hide Sha256;
    HexIsHex(Sha256(data));
  }

  lemma EntryHashOf(ev: Option<Value>)
    requires EntryOf(ev).Some? && IsHex64(EntryText(ev))
    ensures EntryHash(EntryOf(ev).value) == EntryText(ev) != []
  {
    hide Field, Text, Lower, Ascii, KindOf, SeqOf;
  }

  // ---- a whole bundle

  /** What one record says of the records of its stream before it. */
  ghost predicate InPlace(es: seq<Entry>, e: Entry)
  {
    && (e.kind == ReceiptKind ==> NextReceipt(es, e))
    && (e.kind == Settle && !IsRedacted(e) ==>
          && CountsReceipts(es, e) && ListsGaps(es, e)
          && Supplement(Payload(e)).Some? && DayOf(Payload(e)) != [] && NextSupplement(es, e, 1))
  }

  ghost predicate ListsGaps(es: seq<Entry>, e: Entry)
  {
    var items := IterValues(Field(Payload(e), "gaps"));
    forall j :: 0 <= j < |items| ==> Lists(es, items[j])
  }

  ghost predicate Lists(es: seq<Entry>, item: Value)
  {
    exists m :: ListsGap(es, item, m)
  }

  ghost predicate NoReceiptRedacted(entries: seq<Entry>)
  {
    forall i :: 0 <= i < |entries| && entries[i].kind == ReceiptKind ==> !IsRedacted(entries[i])
  }

  lemma {:induction false} EntryHasLine(lines: seq<Bytes>, n: nat, j: nat) returns (i: nat)
    requires n <= |lines| && j < |EntriesOf(lines, n)|
    ensures i < n && EntryOf(Decode(lines[i])) == Some(EntriesOf(lines, n)[j])
  {
    hide EntryOf, Decode, EntriesOf;
    if n == 0 {
      NoLines(lines);
    } else {
      EntriesStep(lines, n - 1);
      if j < |EntriesOf(lines, n - 1)| {
        i := EntryHasLine(lines, n - 1, j);
      } else {
        i := n - 1;
      }
    }
  }

  lemma NoLines(lines: seq<Bytes>)
    ensures EntriesOf(lines, 0) == []
  {
  }

  lemma {:induction false} OwnIsThere(entries: seq<Entry>, n: nat, resource: Bytes, j: nat) returns (i: nat)
    requires n <= |entries| && j < |Own(entries, n, resource)|
    ensures i < n && Own(entries, n, resource)[j] == entries[i]
  {
    if n > 0 {
      if j < |Own(entries, n - 1, resource)| {
        i := OwnIsThere(entries, n - 1, resource, j);
      } else {
        i := n - 1;
      }
    }
  }

  /** On a passing walk no receipt's entry hash is missing. */
  lemma OwnIsWhole(b: Bundle, entries: seq<Entry>, resource: Bytes)
    requires Passed(b) && entries == EntriesOf(b.lines, |b.lines|) && NoReceiptRedacted(entries)
    ensures Whole(Own(entries, |entries|, resource))
  {
    hide Passed, EntriesOf, Own, EntryOf, Decode, IsRedacted, EntryHash;
    var es := Own(entries, |entries|, resource);
    forall j | 0 <= j < |es| && es[j].kind == ReceiptKind
      ensures !IsRedacted(es[j]) && EntryHash(es[j]) != []
    {
      var i := OwnIsThere(entries, |entries|, resource, j);
      var k := EntryHasLine(b.lines, |b.lines|, i);
      WalkHashes(b, k);
    }
  }

  lemma SettleListsGaps(es: seq<Entry>, n: nat)
    requires AloneFindings(true, 1, es) == [] && n < |es| && es[n].kind == Settle && !IsRedacted(es[n])
    ensures ListsGaps(es[..n], es[n])
  {
    hide AloneFindings, ListsGap, IsRedacted, Payload, IterValues, Field;
    var items := IterValues(Field(Payload(es[n]), "gaps"));
    forall j | 0 <= j < |items|
      ensures Lists(es[..n], items[j])
    {
      var m := ListedGaps(es, 1, n, j);
    }
  }

  lemma SilentInPlace(es: seq<Entry>, n: nat)
    requires AloneFindings(true, 1, es) == [] && Whole(es) && n < |es|
    ensures InPlace(es[..n], es[n])
  {
    hide AloneFindings, Whole, NextReceipt, CountsReceipts, NextSupplement, ListsGaps, IsRedacted, Payload, DayOf,
      Supplement;
    if es[n].kind == ReceiptKind {
      ReceiptsChain(es, 1, n);
    } else if es[n].kind == Settle && !IsRedacted(es[n]) {
      SettlementCounts(es, 1, n);
      SupplementsRise(es, 1, n);
      SettleListsGaps(es, n);
    }
  }

  /**
   * In a bundle from sequence 1 whose walk passes, with no receipt redacted, a silent check leaves every resource's
   * receipts numbered, linked and continuous, and every settlement's receipts, gaps and supplement exact, however the
   * streams are interleaved.
   */
  lemma PassedStreams(b: Bundle, entries: seq<Entry>)
    requires Passed(b) && b.rangeFrom == 1 && entries == EntriesOf(b.lines, |b.lines|)
    requires FindingsAt(true, 1, entries, |entries|) == [] && NoReceiptRedacted(entries)
    ensures forall r :: var es := Own(entries, |entries|, r); forall n :: 0 <= n < |es| ==> InPlace(es[..n], es[n])
  {
    hide Passed, EntriesOf, FindingsAt, NoReceiptRedacted, Own, InPlace, Whole, AloneFindings;
    InterleavedIsAlone(true, 1, entries, |entries|);
    forall r, n | 0 <= n < |Own(entries, |entries|, r)|
      ensures InPlace(Own(entries, |entries|, r)[..n], Own(entries, |entries|, r)[n])
    {
      assert OwnSilent(true, 1, entries, |entries|, r);
      OwnIsWhole(b, entries, r);
      SilentInPlace(Own(entries, |entries|, r), n);
    }
  }
}

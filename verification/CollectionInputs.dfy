/** verify/collection.go: two chains the check passes although a link in them is not resolved. */
module CollectionInputs {
  import opened Bytes
  import opened JsonValue
  import opened PhpValues
  import opened WalkRules
  import opened Collection
  import opened CollectionChains

  // ---- objects written out

  datatype Pair = Pair(name: string, val: Value)

  function Members(pairs: seq<Pair>): seq<Member>
  {
    seq(|pairs|, i requires 0 <= i < |pairs| => Member(Ascii(pairs[i].name), pairs[i].val))
  }

  function Obj(pairs: seq<Pair>): Value
  {
    Object(Members(pairs))
  }

  ghost predicate Narrow(s: string)
  {
    forall i :: 0 <= i < |s| ==> s[i] as int < 0x100
  }

  ghost predicate AllNarrow(pairs: seq<Pair>)
  {
    forall i :: 0 <= i < |pairs| ==> Narrow(pairs[i].name)
  }

  /** An object's field is the first pair of that name. */
  lemma {:induction false} FieldAt(pairs: seq<Pair>, j: nat)
    requires AllNarrow(pairs) && j < |pairs| && forall i :: 0 <= i < j ==> pairs[i].name != pairs[j].name
    ensures Field(Some(Obj(pairs)), pairs[j].name) == Some(pairs[j].val)
  {
    if j > 0 {
      FieldAt(pairs[1..], j - 1);
      assert Members(pairs)[1..] == Members(pairs[1..]);
      if Ascii(pairs[0].name) == Ascii(pairs[j].name) {
        AsciiInjective(pairs[0].name, pairs[j].name);
      }
    }
  }

  lemma {:induction false} FieldNowhere(pairs: seq<Pair>, name: string)
    requires AllNarrow(pairs) && Narrow(name) && forall i :: 0 <= i < |pairs| ==> pairs[i].name != name
    ensures Field(Some(Obj(pairs)), name) == None
  {
    if pairs != [] {
      FieldNowhere(pairs[1..], name);
      assert Members(pairs)[1..] == Members(pairs[1..]);
      if Ascii(pairs[0].name) == Ascii(name) {
        AsciiInjective(pairs[0].name, name);
      }
    }
  }

  ghost predicate AllZeros(s: string)
  {
    forall i :: 0 <= i < |s| ==> s[i] == '0'
  }

  lemma ZerosConcat(s: string, t: string)
    requires AllZeros(s) && AllZeros(t)
    ensures AllZeros(s + t)
  {
  }

  lemma ZeroBytes()
    ensures AllZeros(ZERO_BYTES) && |ZERO_BYTES| == 16
  {
  }

  lemma ZeroHashIs()
    ensures ZERO_HASH == ZERO_BYTES + ZERO_BYTES + ZERO_BYTES + ZERO_BYTES
  {
  }

  lemma ZerosAreDigest(s: string)
    requires AllZeros(s) && |s| == 64
    ensures Digest64(Some(String(Ascii(s)))) == Ascii(s) != []
  {
    var zero := Ascii(s);
    forall i | 0 <= i < 64
      ensures zero[i] == 0x30
    {
    }
    assert Lower(zero) == zero;
  }

  lemma ZeroIsDigest()
    ensures Digest64(Some(String(Ascii(ZERO_HASH)))) == Ascii(ZERO_HASH) != []
  {
    hide *;
    var z := ZERO_BYTES;
    ZeroBytes();
    ZeroHashIs();
    ZerosConcat(z, z);
    ZerosConcat(z + z, z);
    ZerosConcat(z + z + z, z);
    ZerosAreDigest(ZERO_HASH);
  }

  // ---- records written out

  function ActionOf(kind: Kind): string
  {
    match kind
    case Config => "stream.config"
    case ReceiptKind => "collection.receipt"
    case GapKind => "stream.gap"
    case Heal => "stream.gap_healed"
    case Settle => "stream.settled"
  }

  function Fields(kind: Kind, sequence: int, payload: seq<Pair>): seq<Pair>
  {
    [Pair("action", String(Ascii(ActionOf(kind)))), Pair("resource", String(Ascii(PREFIX + "a"))),
      Pair("seq", Int(sequence)),
     Pair("entry_hash", String(Ascii(ZERO_HASH))), Pair("payload", Obj(payload))]
  }

  function Told(kind: Kind, sequence: int, payload: seq<Pair>): Entry
  {
    Entry(kind, Ascii(PREFIX + "a"), sequence, Obj(Fields(kind, sequence, payload)))
  }

  lemma KindOfAction(kind: Kind)
    ensures KindOf(Some(String(Ascii(ActionOf(kind))))) == Some(kind)
  {
    assert |Ascii(ActionOf(kind))| == |ActionOf(kind)|;
  }

  lemma NameOfResource()
    ensures HasPrefix(Ascii(PREFIX + "a"), Ascii(PREFIX))
  {
  }

  lemma FieldNames(kind: Kind, sequence: int, payload: seq<Pair>)
    ensures AllNarrow(Fields(kind, sequence, payload))
  {
    hide Ascii, ActionOf;
  }

  lemma ToldFields(kind: Kind, sequence: int, payload: seq<Pair>)
    ensures var ev := Some(Obj(Fields(kind, sequence, payload)));
            && Field(ev, "action") == Some(String(Ascii(ActionOf(kind))))
            && Field(ev, "resource") == Some(String(Ascii(PREFIX + "a"))) && Field(ev, "seq") == Some(Int(sequence))
            && Field(ev, "entry_hash") == Some(String(Ascii(ZERO_HASH))) && Field(ev, "payload") == Some(Obj(payload))
            && Field(ev, "payload_state") == None
  {
    hide Obj, Field, Ascii, ActionOf, AllNarrow;
    var fields := Fields(kind, sequence, payload);
    FieldNames(kind, sequence, payload);
    FieldAt(fields, 0);
    FieldAt(fields, 1);
    FieldAt(fields, 2);
    FieldAt(fields, 3);
    FieldAt(fields, 4);
    FieldNowhere(fields, "payload_state");
  }

  /** The record is one the check takes up, and its payload is there to be checked. */
  lemma ToldIs(kind: Kind, sequence: int, payload: seq<Pair>)
    ensures var e := Told(kind, sequence, payload);
            && e.kind == kind && EntryOf(Some(e.event)) == Some(e) && !IsRedacted(e)
            && Payload(e) == Some(Obj(payload)) && IsObject(Payload(e))
            && EntryHash(e) == Ascii(ZERO_HASH) != []
  {
    hide KindOf, HasPrefix, Ascii, Digest64, Field, Fields, Members;
    KindOfAction(kind);
    NameOfResource();
    ZeroIsDigest();
    ToldFields(kind, sequence, payload);
  }

  // ---- a first settlement that names one before the range

  function ConfigPairs(): seq<Pair>
  {
    [Pair("config_version", Int(1)), Pair("records_stream", String(Ascii("records")))]
  }

  lemma ConfigFields()
    ensures var p := Some(Obj(ConfigPairs()));
            && IntIs(Field(p, "config_version"), 1) && Field(p, "records_stream") == Some(String(Ascii("records")))
            && NonEmpty(Field(p, "records_stream"))
  {
    hide Obj, Field;
    FieldAt(ConfigPairs(), 0);
    FieldAt(ConfigPairs(), 1);
    assert |Ascii("records")| == |"records"|;
  }

  lemma ConfigTaken()
    ensures var e := Told(Config, 1, ConfigPairs());
            && EntryFindings(true, 1, FRESH, e) == []
            && AfterEntry(true, FRESH, e) == FRESH.(configs := 1, recordsStream := Ascii("records"))
  {
    hide Obj, Field, Ascii, EntryHash, Told, ConfigPairs, IsRedacted, Payload, NonEmpty;
    ToldIs(Config, 1, ConfigPairs());
    ConfigFields();
  }

  /** A settled day without gaps: its number, and the settlement it says came before. */
  function SettledPairs(supplement: int, previous: Value): seq<Pair>
  {
    [Pair("settlement_version", Int(1)), Pair("day", String(Ascii("2024-01-31"))),
     Pair("state", String(Ascii("settled"))), Pair("supplement", Int(supplement)),
     Pair("receipts", Obj([Pair("count", Int(0))])), Pair("previous_settlement", previous)]
  }

  function PreviousPairs(sequence: int): seq<Pair>
  {
    [Pair("sequence", Int(sequence)), Pair("entry_hash", String(Ascii(ZERO_HASH)))]
  }

  lemma DayIsForm()
    ensures DayForm(Ascii("2024-01-31")) && Ascii("2024-01-31") != []
  {
    var day := "2024-01-31";
    assert Ascii(day)[4] == 0x2D && Ascii(day)[7] == 0x2D;
  }

  lemma SettledNames(supplement: int, previous: Value)
    ensures AllNarrow(SettledPairs(supplement, previous))
  {
    hide Ascii;
  }

  lemma SettledFields(supplement: int, previous: Value)
    ensures var p := Some(Obj(SettledPairs(supplement, previous)));
            && IntIs(Field(p, "settlement_version"), 1) && DayOf(p) == Ascii("2024-01-31") != []
            && StrEq(Field(p, "state"), "settled") && Field(p, "supplement") == Some(Int(supplement))
            && Field(p, "receipts") == Some(Obj([Pair("count", Int(0))])) && Field(p, "gaps") == None
            && Field(p, "previous_settlement") == Some(previous)
  {
    hide Obj, Field, DayForm, Ascii, AllNarrow;
    var pairs := SettledPairs(supplement, previous);
    SettledNames(supplement, previous);
    DayIsForm();
    FieldAt(pairs, 0);
    FieldAt(pairs, 1);
    FieldAt(pairs, 2);
    FieldAt(pairs, 3);
    FieldAt(pairs, 4);
    FieldAt(pairs, 5);
    FieldNowhere(pairs, "gaps");
  }

  lemma SettledTaken(st: StreamState, supplement: int)
    requires st.configs > 0 && st.lastHash == [] && st.receipts == 0 && st.days == map[] && supplement > 0
    ensures var e := Told(Settle, 2, SettledPairs(supplement, Obj(PreviousPairs(0))));
            EntryFindings(true, 1, st, e) == []
  {
    hide Field, Ascii, DayOf, EntryHash, IsRedacted, Payload, Told, SettledPairs, PreviousPairs, Members, Digest64,
      IsArray;
    var pairs := SettledPairs(supplement, Obj(PreviousPairs(0)));
    ToldIs(Settle, 2, pairs);
    SettledFields(supplement, Obj(PreviousPairs(0)));
    CountField();
    PreviousFields(0);
    StatesApart();
    var p := Some(Obj(pairs));
    assert HeadFindings(true, st, Field(p, "receipts")) == [];
    assert IterValues(Field(p, "gaps")) == [];
    assert ItemsFindings(true, st, [], 0) == [];
    assert FormFindings(true, st, p) == [];
    assert DayFindings(1, st, p) == [];
    assert SettleFindings(true, 1, st, p) == [];
  }

  lemma StatesApart()
    ensures !StrEq(Some(String(Ascii("settled"))), "gapped")
  {
    assert |Ascii("settled")| == |"settled"| && |Ascii("gapped")| == |"gapped"|;
  }

  lemma CountField()
    ensures var receipts := Some(Obj([Pair("count", Int(0))]));
            Field(receipts, "count") == Some(Int(0)) && Field(receipts, "last_receipt_hash") == None
  {
    var pairs := [Pair("count", Int(0))];
    FieldAt(pairs, 0);
    FieldNowhere(pairs, "last_receipt_hash");
  }

  lemma PreviousFields(sequence: int)
    ensures var previous := Some(Obj(PreviousPairs(sequence)));
            Field(previous, "sequence") == Some(Int(sequence)) && Digest64(Field(previous, "entry_hash")) != []
  {
    hide Obj, Field, Digest64, Ascii;
    FieldAt(PreviousPairs(sequence), 0);
    FieldAt(PreviousPairs(sequence), 1);
    ZeroIsDigest();
  }

  /**
   * A bundle from sequence 1 passes with a day's first settlement numbered 3, or any number above 0, after a settlement
   * at a sequence 0 that no bundle holds.
   */
  lemma UnresolvedSettlement(supplement: int) returns (es: seq<Entry>)
    requires supplement > 0
    ensures |es| == 2 && forall i :: 0 <= i < |es| ==> EntryOf(Some(es[i].event)) == Some(es[i])
    ensures es[1].kind == Settle && !IsRedacted(es[1]) && Supplement(Payload(es[1])) == Some(supplement)
    ensures Field(Field(Payload(es[1]), "previous_settlement"), "sequence") == Some(Int(0))
    ensures AloneFindings(true, 1, es) == []
  {
    hide Field, Ascii, EntryFindings, AfterEntry, EntryOf, Told, IsRedacted, Payload, Members, SettledPairs,
      AloneFindings, Alone, ConfigPairs;
    var e0, previous := Told(Config, 1, ConfigPairs()), Obj(PreviousPairs(0));
    var e1 := Told(Settle, 2, SettledPairs(supplement, previous));
    es := [e0, e1];
    ToldIs(Config, 1, ConfigPairs());
    ToldIs(Settle, 2, SettledPairs(supplement, previous));
    SettledFields(supplement, previous);
    PreviousFields(0);
    ConfigTaken();
    SettledTaken(AfterEntry(true, FRESH, e0), supplement);
    AloneStart();
    assert [] + [e0] == [e0] && [e0] + [e1] == es;
    AlonePush(true, 1, [], e0);
    AlonePush(true, 1, [e0], e1);
  }

  lemma AloneStart()
    ensures Alone(true, []) == FRESH && AloneFindings(true, 1, []) == []
  {
  }

  // ---- a receipt that leaves no cursor

  /** A page without records, and no cursor left for the next receipt. */
  function ReceiptPairs(index: int, cursorBefore: Value): seq<Pair>
  {
    [Pair("receipt_version", Int(1)), Pair("receipt_index", Int(index)),
     Pair("prev_receipt_hash", String(Ascii(ZERO_HASH))), Pair("page_hash", String(Ascii(ZERO_HASH))),
     Pair("record_count", Int(0)), Pair("duplicates_seen", Int(0)), Pair("collected_by", String(Ascii("tenant"))),
     Pair("method", String(Ascii("pull"))), Pair("cursor_before", cursorBefore)]
  }

  lemma NarrowConcat(s: seq<Pair>, t: seq<Pair>)
    requires AllNarrow(s) && AllNarrow(t)
    ensures AllNarrow(s + t)
  {
    hide Narrow;
  }

  lemma ReceiptNames(index: int, cursorBefore: Value)
    ensures AllNarrow(ReceiptPairs(index, cursorBefore))
  {
    hide Ascii, AllNarrow;
    var pairs := ReceiptPairs(index, cursorBefore);
    FirstNames(pairs);
    LastNames(pairs);
    NarrowConcat(pairs[..4], pairs[4..]);
    assert pairs == pairs[..4] + pairs[4..];
  }

  lemma FirstNames(pairs: seq<Pair>)
    requires |pairs| >= 4 && pairs[0].name == "receipt_version" && pairs[1].name == "receipt_index"
    requires pairs[2].name == "prev_receipt_hash" && pairs[3].name == "page_hash"
    ensures AllNarrow(pairs[..4])
  {
  }

  lemma LastNames(pairs: seq<Pair>)
    requires |pairs| == 9 && pairs[4].name == "record_count" && pairs[5].name == "duplicates_seen"
    requires pairs[6].name == "collected_by" && pairs[7].name == "method" && pairs[8].name == "cursor_before"
    ensures AllNarrow(pairs[4..])
  {
  }

  lemma ReceiptNumbers(index: int, cursorBefore: Value)
    ensures var p := Some(Obj(ReceiptPairs(index, cursorBefore)));
            && Field(p, "receipt_version") == Some(Int(1)) && Field(p, "receipt_index") == Some(Int(index))
            && Field(p, "record_count") == Field(p, "duplicates_seen") == Some(Int(0))
  {
    hide Obj, Field, Ascii, AllNarrow;
    var pairs := ReceiptPairs(index, cursorBefore);
    ReceiptNames(index, cursorBefore);
    FieldAt(pairs, 0);
    FieldAt(pairs, 1);
    FieldAt(pairs, 4);
    FieldAt(pairs, 5);
  }

  lemma ReceiptTexts(index: int, cursorBefore: Value)
    ensures var p, zero := Some(Obj(ReceiptPairs(index, cursorBefore))), Some(String(Ascii(ZERO_HASH)));
            && Field(p, "prev_receipt_hash") == Field(p, "page_hash") == zero
            && StrEq(Field(p, "collected_by"), "tenant") && Field(p, "method") == Some(String(Ascii("pull")))
            && Field(p, "cursor_before") == Some(cursorBefore)
  {
    hide Obj, Field, Ascii, AllNarrow;
    var pairs := ReceiptPairs(index, cursorBefore);
    ReceiptNames(index, cursorBefore);
    FieldAt(pairs, 2);
    FieldAt(pairs, 3);
    FieldAt(pairs, 6);
    FieldAt(pairs, 7);
    FieldAt(pairs, 8);
  }

  lemma ReceiptLacks(index: int, cursorBefore: Value)
    ensures var p := Some(Obj(ReceiptPairs(index, cursorBefore)));
            Field(p, "records") == None && Field(p, "cursor_after") == None
  {
    hide Obj, Field, Ascii, AllNarrow;
    ReceiptNames(index, cursorBefore);
    FieldNowhere(ReceiptPairs(index, cursorBefore), "records");
    FieldNowhere(ReceiptPairs(index, cursorBefore), "cursor_after");
  }

  lemma ReceiptFields(index: int, cursorBefore: Value)
    requires index > 0
    ensures var p := Some(Obj(ReceiptPairs(index, cursorBefore)));
            && Index(p) == Some(index) && Digest64(Field(p, "prev_receipt_hash")) == Ascii(ZERO_HASH)
            && ShapeFindings(p) == [] && Field(p, "cursor_after") == None
              && Field(p, "cursor_before") == Some(cursorBefore)
  {
    hide Obj, Field, Ascii, Digest64, ReceiptPairs;
    ReceiptNumbers(index, cursorBefore);
    ReceiptTexts(index, cursorBefore);
    ReceiptLacks(index, cursorBefore);
    ZeroIsDigest();
    MethodIsNamed();
  }

  lemma MethodIsNamed()
    ensures Ascii("pull") != []
  {
    assert |Ascii("pull")| == |"pull"|;
  }

  /** The receipt is taken, whatever cursor it goes on from. */
  lemma ReceiptTaken(st: StreamState, index: int, cursorBefore: Value)
    requires st.configs > 0 && index == st.receipts + 1 && st.lastCursor == None
    requires if st.receipts == 0 then st.lastHash == []
             else st.lastHash == Ascii(ZERO_HASH) && st.indexKnown && st.lastIndex == st.receipts
    ensures var e := Told(ReceiptKind, index +
              1, ReceiptPairs(index, cursorBefore)); var st' := AfterEntry(true, st, e);
            && EntryFindings(true, 1, st, e) == [] && st'.lastHash == Ascii(ZERO_HASH) && st'.indexKnown
            && st'.configs == st.configs && st'.lastIndex == index == st'.receipts && st'.lastCursor == None
  {
    hide Field, Ascii, ShapeFindings, Index, EntryHash, IsRedacted, Payload, Told, ReceiptPairs, Obj, Digest64;
    ToldIs(ReceiptKind, index + 1, ReceiptPairs(index, cursorBefore));
    ReceiptFields(index, cursorBefore);
  }

  /** Two receipts follow each other although the second goes on from any cursor whatever: the first left none. */
  lemma UncheckedCursor(cursor: Value) returns (es: seq<Entry>)
    ensures |es| == 3 && forall i :: 0 <= i < |es| ==> EntryOf(Some(es[i].event)) == Some(es[i])
    ensures es[1].kind == es[2].kind == ReceiptKind && Field(Payload(es[1]), "cursor_after") == None
    ensures Field(Payload(es[2]), "cursor_before") == Some(cursor)
    ensures AloneFindings(true, 1, es) == []
  {
    hide Field, Ascii, EntryFindings, AfterEntry, EntryOf, Told, IsRedacted, Payload, Members, ReceiptPairs,
      AloneFindings, Alone, ConfigPairs;
    var e0 := Told(Config, 1, ConfigPairs());
    var e1, e2 := Told(ReceiptKind, 2, ReceiptPairs(1, Null)), Told(ReceiptKind, 3, ReceiptPairs(2, cursor));
    es := [e0, e1, e2];
    ToldIs(Config, 1, ConfigPairs());
    ToldIs(ReceiptKind, 2, ReceiptPairs(1, Null));
    ToldIs(ReceiptKind, 3, ReceiptPairs(2, cursor));
    ReceiptFields(1, Null);
    ReceiptFields(2, cursor);
    ConfigTaken();
    var st1 := AfterEntry(true, FRESH, e0);
    ReceiptTaken(st1, 1, Null);
    ReceiptTaken(AfterEntry(true, st1, e1), 2, cursor);
    AloneStart();
    assert [] + [e0] == [e0] && [e0] + [e1] == [e0, e1] && [e0, e1] + [e2] == es;
    AlonePush(true, 1, [], e0);
    AlonePush(true, 1, [e0], e1);
    AlonePush(true, 1, [e0, e1], e2);
  }
}

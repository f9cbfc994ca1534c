/** verify/collection.go: the receipts, gaps and settlements of each connection stream, checked in one pass. */
module Collection {
  import opened Bytes
  import opened JsonValue
  import opened Canonical
  import opened PhpValues
  import opened Run
  import opened RegistryTime
  import opened WalkRules
  import opened CheckpointRules

  datatype Kind = Config | ReceiptKind | GapKind | Heal | Settle

  /** A collection record: its kind, the resource that keys its stream, its sequence, and the event itself. */
  datatype Entry = Entry(kind: Kind, resource: Bytes, sequence: int, event: Value)

  const PREFIX := "connection-stream:"

  function KindOf(action: Option<Value>): Option<Kind>
  {
    if StrEq(action, "stream.config") then Some(Config)
    else if StrEq(action, "collection.receipt") then Some(ReceiptKind)
    else if StrEq(action, "stream.gap") then Some(GapKind)
    else if StrEq(action, "stream.gap_healed") then Some(Heal)
    else if StrEq(action, "stream.settled") then Some(Settle)
    else None
  }

  /** None for events the collection check passes over. */
  function EntryOf(ev: Option<Value>): Option<Entry>
  {
    var kind, resource := KindOf(Field(ev, "action")), Field(ev, "resource");
    if ev.None? || kind.None? || !IsString(resource) || !HasPrefix(resource.value.s, Ascii(PREFIX)) || SeqOf(ev).None?
      then None
    else Some(Entry(kind.value, resource.value.s, SeqOf(ev).value, ev.value))
  }

  /** A value as a 64-character lowercase digest, or nothing. */
  function Digest64(v: Option<Value>): Bytes
  {
    if IsHex64(Lower(Text(v))) then Lower(Text(v)) else []
  }

  /** A value that cannot be printed equals nothing. */
  predicate CanonSame(a: Value, b: Value)
  {
    Canon(a).Some? && Canon(a) == Canon(b)
  }

  datatype Gap = Gap(from: Bytes, to: Bytes, reason: Bytes, known: bool, healed: bool)

  datatype Day = Day(supplement: int, sequence: int, hash: Bytes)

  /** The head of one resource's receipt chain, the gaps it declared and the days it settled. */
  datatype StreamState = StreamState(
    configs: nat, recordsStream: Bytes, receipts: nat, lastHash: Bytes, lastIndex: int, indexKnown: bool,
    lastCursor: Option<Value>, gaps: map<Bytes, Gap>, days: map<Bytes, Day>)

  const FRESH := StreamState(0, [], 0, [], 0, false, None, map[], map[])

  function When(condition: bool, check: Check): seq<Finding>
  {
    if condition then [Finding(check, ContentIntegrity)] else []
  }

  function Payload(e: Entry): Option<Value>
  {
    Field(Some(e.event), "payload")
  }

  function EntryHash(e: Entry): Bytes
  {
    Digest64(Field(Some(e.event), "entry_hash"))
  }

  predicate IsRedacted(e: Entry)
  {
    StrEq(Field(Some(e.event), "payload_state"), "redacted") || Nullish(Payload(e))
  }

  predicate NonNegative(v: Option<Value>)
  {
    IsInt(v) && v.value.n >= 0
  }

  predicate NonEmpty(v: Option<Value>)
  {
    IsString(v) && v.value.s != []
  }

  // ---- configurations

  function ConfigFindings(st: StreamState, p: Option<Value>): seq<Finding>
  {
    var named := Field(p, "records_stream");
    When(!IntIs(Field(p, "config_version"), 1), BadCollection) +
    When(!NonEmpty(named) || (st.recordsStream != [] && st.recordsStream != named.value.s), BadCollection)
  }

  function AfterConfig(st: StreamState, p: Option<Value>): StreamState
  {
    var named := Field(p, "records_stream");
    st.(configs := st.configs + 1,
        recordsStream := if !NonEmpty(named) || (st.recordsStream != [] && st.recordsStream != named.value.s)
          then st.recordsStream else named.value.s)
  }

  // ---- receipts

  function Index(p: Option<Value>): Option<int>
  {
    var v := Field(p, "receipt_index");
    if IsInt(v) && v.value.n >= 1 then Some(v.value.n) else None
  }

  /** The range of records a page covers, against its count. */
  function RecordsFindings(p: Option<Value>): seq<Finding>
  {
    var count, records := Field(p, "record_count"), Field(p, "records");
    var (from, to) := (Field(records, "from_sequence"), Field(records, "to_sequence"));
    if Nullish(records) then When(NonNegative(count) && count.value.n != 0, BadCollection)
    else if !IsObject(records) || !IsInt(from) || !IsInt(to) || from.value.n > to.value.n then When(true, BadCollection)
    else When(NonNegative(count) && count.value.n > Wrap64(to.value.n - from.value.n + 1), BadCollection)
  }

  function ShapeFindings(p: Option<Value>): seq<Finding>
  {
    When(!IntIs(Field(p, "receipt_version"), 1), BadCollection) + When(Index(p).None?, BadCollection) +
    When(Digest64(Field(p, "prev_receipt_hash")) == [], BadCollection) +
      When(Digest64(Field(p, "page_hash")) == [], BadCollection) +
    When(!NonNegative(Field(p, "record_count")), BadCollection) + RecordsFindings(p) +
    When(!NonNegative(Field(p, "duplicates_seen")), BadCollection) +
    When(!StrEq(Field(p, "collected_by"), "tenant") && !StrEq(Field(p, "collected_by"), "sigilbase"), BadCollection) +
    When(!NonEmpty(Field(p, "method")), BadCollection)
  }

  /** The link to the receipt before. */
  function LinkFindings(anchored: bool, st: StreamState, p: Option<Value>): seq<Finding>
  {
    var index, prev := Index(p), Digest64(Field(p, "prev_receipt_hash"));
    if st.lastHash != [] then
      When(prev != [] && prev != st.lastHash, ReceiptChain) +
      When(index.Some? && st.indexKnown && index.value != st.lastIndex + 1, ReceiptChain) +
      When(st.lastCursor.Some? && !CanonSame(OrNull(Field(p, "cursor_before")), st.lastCursor.value), ReceiptChain)
    else if index == Some(1) then When(prev != [] && prev != Ascii(ZERO_HASH), ReceiptChain)
    else When(index.Some? && anchored, ReceiptChain)
  }

  function AfterReceipt(st: StreamState, e: Entry, p: Option<Value>): StreamState
  {
    st.(receipts := st.receipts + 1, lastHash := EntryHash(e), lastIndex := if Index(p).Some? then Index(p).value
      else 0,
        indexKnown := Index(p).Some?, lastCursor := Field(p, "cursor_after"))
  }

  /** A redacted receipt keeps its place: later receipts chain from its entry hash. */
  function AfterRedacted(st: StreamState, e: Entry): StreamState
  {
    if e.kind != ReceiptKind then st
    else st.(receipts := st.receipts + 1, lastHash := EntryHash(e), indexKnown := false, lastCursor := None)
  }

  // ---- gaps

  function GapId(p: Option<Value>): Bytes
  {
    if NonEmpty(Field(p, "gap_id")) then Field(p, "gap_id").value.s else []
  }

  function GapFindings(anchored: bool, st: StreamState, p: Option<Value>): seq<Finding>
  {
    var (from, to) := (ParseTime(Field(p, "from")), ParseTime(Field(p, "to")));
    var after := Digest64(Field(p, "declared_after_receipt_hash"));
    When(!IntIs(Field(p, "gap_version"), 1), GapRule) + When(GapId(p) == [], GapRule) +
    When(from.None? || to.None? || !Before(from.value, to.value), GapRule) +
      When(!NonEmpty(Field(p, "reason")), GapRule) +
    When(if after == [] then true else if st.lastHash != [] then after != st.lastHash
      else anchored && after != Ascii(ZERO_HASH), GapRule) +
    When(GapId(p) != [] && GapId(p) in st.gaps, GapRule)
  }

  function Declared(p: Option<Value>): Gap
  {
    Gap(Text(Field(p, "from")), Text(Field(p, "to")), Text(Field(p, "reason")), true, false)
  }

  function AfterGap(st: StreamState, p: Option<Value>): StreamState
  {
    if GapId(p) == [] then st else st.(gaps := st.gaps[GapId(p) := Declared(p)])
  }

  function HealFindings(anchored: bool, st: StreamState, p: Option<Value>): seq<Finding>
  {
    When(GapId(p) == [] || (GapId(p) !in st.gaps && anchored), GapRule)
  }

  function AfterHeal(anchored: bool, st: StreamState, p: Option<Value>): StreamState
  {
    var id := GapId(p);
    if id == [] then st
    else if id in st.gaps then st.(gaps := st.gaps[id := st.gaps[id].(healed := true)])
    else if anchored then st
    else st.(gaps := st.gaps[id := Gap([], [], [], false, true)])
  }

  // ---- settlements

  predicate IsDigit(b: byte)
  {
    0x30 <= b <= 0x39
  }

  /** YYYY-MM-DD. */
  predicate DayForm(s: Bytes)
  {
    |s| == 10 && s[4] == 0x2D && s[7] == 0x2D && forall i :: 0 <= i < 10 && i != 4 && i != 7 ==> IsDigit(s[i])
  }

  function DayOf(p: Option<Value>): Bytes
  {
    var day := Field(p, "day");
    if IsString(day) && DayForm(day.value.s) then day.value.s else []
  }

  function HeadFindings(anchored: bool, st: StreamState, receipts: Option<Value>): seq<Finding>
  {
    if !IsObject(receipts) then When(true, SettlementRule)
    else
      var head, count := Field(receipts, "last_receipt_hash"), Field(receipts, "count");
      When(if st.lastHash != [] then Digest64(head) != st.lastHash else anchored && !Nullish(head), SettlementRule) +
      When(!NonNegative(count)
        || (if anchored then count.value.n != st.receipts else count.value.n < st.receipts), SettlementRule)
  }

  function ItemId(item: Value): Bytes
  {
    GapId(Some(item))
  }

  predicate ItemHealed(item: Value)
  {
    Field(Some(item), "healed") == Some(Bool(true))
  }

  function ItemFindings(anchored: bool, st: StreamState, item: Value): seq<Finding>
  {
    if ItemId(item) == [] then When(true, SettlementRule)
    else
      var healed := Field(Some(item), "healed");
      When(healed.None? || !healed.value.Bool?, SettlementRule) +
      if ItemId(item) !in st.gaps then When(anchored, SettlementRule)
      else
        var known := st.gaps[ItemId(item)];
        When(known.known && (Text(Field(Some(item), "from")) != known.from
          || Text(Field(Some(item), "to")) != known.to ||
                             Text(Field(Some(item), "reason")) != known.reason), SettlementRule) +
        When(known.healed != ItemHealed(item), SettlementRule)
  }

  function ItemsFindings(anchored: bool, st: StreamState, items: seq<Value>, n: nat): seq<Finding>
    requires n <= |items|
  {
    if n == 0 then [] else ItemsFindings(anchored, st, items, n - 1) + ItemFindings(anchored, st, items[n - 1])
  }

  predicate Unhealed(items: seq<Value>, n: nat)
    requires n <= |items|
  {
    n > 0 && (Unhealed(items, n - 1) || (ItemId(items[n - 1]) != [] && !ItemHealed(items[n - 1])))
  }

  function Supplement(p: Option<Value>): Option<int>
  {
    var v := Field(p, "supplement");
    if NonNegative(v) then Some(v.value.n) else None
  }

  /** A supplement chains to the settlement it adds to. */
  function SupplementFindings(rangeFrom: int, st: StreamState, p: Option<Value>, day: Bytes,
                              supplement: int): seq<Finding>
  {
    var previous := Field(p, "previous_settlement");
    var (sequence, hash) := (Field(previous, "sequence"), Digest64(Field(previous, "entry_hash")));
    if supplement == 0 then When(!Nullish(previous), SettlementRule) + When(day in st.days, SettlementRule)
    else if !IsObject(previous) || !IsInt(sequence) || hash == [] then When(true, SettlementRule)
    else if day in st.days then
      When(sequence.value.n != st.days[day].sequence || hash != st.days[day].hash
        || supplement != st.days[day].supplement + 1, SettlementRule)
    else When(sequence.value.n >= rangeFrom, SettlementRule)
  }

  predicate Gapped(p: Option<Value>)
  {
    StrEq(Field(p, "state"), "gapped")
  }

  function FormFindings(anchored: bool, st: StreamState, p: Option<Value>): seq<Finding>
  {
    When(!IntIs(Field(p, "settlement_version"), 1), SettlementRule) + When(DayOf(p) == [], SettlementRule) +
    When(!Gapped(p) && !StrEq(Field(p, "state"), "settled"), SettlementRule) +
      When(Supplement(p).None?, SettlementRule) +
    HeadFindings(anchored, st, Field(p, "receipts"))
  }

  function DayFindings(rangeFrom: int, st: StreamState, p: Option<Value>): seq<Finding>
  {
    if DayOf(p) != [] && Supplement(p).Some? then SupplementFindings(rangeFrom, st, p, DayOf(p), Supplement(p).value)
      else []
  }

  function SettleFindings(anchored: bool, rangeFrom: int, st: StreamState, p: Option<Value>): seq<Finding>
  {
    var items := IterValues(Field(p, "gaps"));
    FormFindings(anchored, st, p) + ItemsFindings(anchored, st, items, |items|) +
    When((Gapped(p) || StrEq(Field(p, "state"), "settled")) && Gapped(p) != Unhealed(items, |items|), SettlementRule) +
    DayFindings(rangeFrom, st, p)
  }

  function AfterSettle(st: StreamState, e: Entry, p: Option<Value>): StreamState
  {
    if DayOf(p) == [] || Supplement(p).None? then st
    else st.(days := st.days[DayOf(p) := Day(Supplement(p).value, e.sequence, EntryHash(e))])
  }

  // ---- one record

  function KindFindings(anchored: bool, rangeFrom: int, st: StreamState, kind: Kind, p: Option<Value>): seq<Finding>
  {
    match kind
    case Config => ConfigFindings(st, p)
    case ReceiptKind => ShapeFindings(p) + LinkFindings(anchored, st, p)
    case GapKind => GapFindings(anchored, st, p)
    case Heal => HealFindings(anchored, st, p)
    case Settle => SettleFindings(anchored, rangeFrom, st, p)
  }

  function EntryFindings(anchored: bool, rangeFrom: int, st: StreamState, e: Entry): seq<Finding>
  {
    if IsRedacted(e) then []
    else if !IsObject(Payload(e)) then When(true, BadCollection)
    else
      When(anchored && e.kind != Config && st.configs == 0, BadCollection) +
      KindFindings(anchored, rangeFrom, st, e.kind, Payload(e))
  }

  function AfterKind(anchored: bool, st: StreamState, e: Entry, p: Option<Value>): StreamState
  {
    match e.kind
    case Config => AfterConfig(st, p)
    case ReceiptKind => AfterReceipt(st, e, p)
    case GapKind => AfterGap(st, p)
    case Heal => AfterHeal(anchored, st, p)
    case Settle => AfterSettle(st, e, p)
  }

  function AfterEntry(anchored: bool, st: StreamState, e: Entry): StreamState
  {
    if IsRedacted(e) then AfterRedacted(st, e)
    else if !IsObject(Payload(e)) then st
    else AfterKind(anchored, st, e, Payload(e))
  }

  // ---- every record, in the order they come

  function StreamOf(states: map<Bytes, StreamState>, resource: Bytes): StreamState
  {
    if resource in states then states[resource] else FRESH
  }

  function StatesAt(anchored: bool, entries: seq<Entry>, n: nat): map<Bytes, StreamState>
    requires n <= |entries|
  {
    if n == 0 then map[]
    else
      var before, e := StatesAt(anchored, entries, n - 1), entries[n - 1];
      before[e.resource := AfterEntry(anchored, StreamOf(before, e.resource), e)]
  }

  function FindingsAt(anchored: bool, rangeFrom: int, entries: seq<Entry>, n: nat): seq<Finding>
    requires n <= |entries|
  {
    if n == 0 then []
    else
      FindingsAt(anchored, rangeFrom, entries, n - 1) +
      EntryFindings(anchored, rangeFrom, StreamOf(StatesAt(anchored, entries, n - 1), entries[n - 1].resource),
        entries[n - 1])
  }

  /** The collection records among a bundle's lines. */
  function EntriesOf(lines: seq<Bytes>, n: nat): seq<Entry>
    requires n <= |lines|
  {
    if n == 0 then []
    else EntriesOf(lines, n - 1) + if EntryOf(Decode(lines[n - 1])).Some? then [EntryOf(Decode(lines[n - 1])).value]
      else []
  }

  // ---- the loop

  method Check1(run: Run, condition: bool, check: Check)
    requires run.Valid()
    modifies run
    ensures run.Valid() && run.unconfirmed == old(run.unconfirmed)
    ensures run.failures == old(run.failures) + When(condition, check)
  {
    if condition {
      run.Report(Finding(check, ContentIntegrity));
    }
  }

  class CollectionStream {
    var configs: nat
    var recordsStream: Bytes
    var receipts: nat
    var lastHash: Bytes
    var lastIndex: int
    var indexKnown: bool
    var lastCursor: Option<Value>
    var gaps: map<Bytes, Gap>
    var days: map<Bytes, Day>

    function Now(): StreamState
      reads this
    {
      StreamState(configs, recordsStream, receipts, lastHash, lastIndex, indexKnown, lastCursor, gaps, days)
    }

    constructor ()
      ensures Now() == FRESH
    {
      configs, recordsStream, receipts, lastHash, lastIndex, indexKnown := 0, [], 0, [], 0, false;
      lastCursor, gaps, days := None, map[], map[];
    }

    method Configure(run: Run, p: Option<Value>)
      requires run.Valid()
      modifies run, this
      ensures run.Valid() && run.unconfirmed == old(run.unconfirmed)
      ensures run.failures == old(run.failures) + ConfigFindings(old(Now()), p) && Now() == AfterConfig(old(Now()), p)
    {
      hide Field, Run.Valid;
      var named := Field(p, "records_stream");
      Check1(run, !IntIs(Field(p, "config_version"), 1), BadCollection);
      if !NonEmpty(named) || (recordsStream != [] && recordsStream != named.value.s) {
        run.Report(Finding(BadCollection, ContentIntegrity));
      } else {
        recordsStream := named.value.s;
      }
      configs := configs + 1;
    }

    method Chain(run: Run, anchored: bool, e: Entry, p: Option<Value>)
      requires run.Valid()
      modifies run, this
      ensures run.Valid() && run.unconfirmed == old(run.unconfirmed)
      ensures run.failures == old(run.failures) + LinkFindings(anchored, old(Now()), p)
                && Now() == AfterReceipt(old(Now()), e, p)
    {
      hide Field, Run.Valid, Index, LinkFindings;
      var index := Index(p);
      run.ReportAll(LinkFindings(anchored, Now(), p));
      receipts := receipts + 1;
      lastHash := EntryHash(e);
      lastIndex := if index.Some? then index.value else 0;
      indexKnown := index.Some?;
      lastCursor := Field(p, "cursor_after");
    }

    method Gaps(run: Run, anchored: bool, p: Option<Value>)
      requires run.Valid()
      modifies run, this
      ensures run.Valid() && run.unconfirmed == old(run.unconfirmed)
      ensures run.failures == old(run.failures) + GapFindings(anchored, old(Now()), p)
                && Now() == AfterGap(old(Now()), p)
    {
      hide Field, Run.Valid, GapId, Declared, GapFindings;
      var id := GapId(p);
      run.ReportAll(GapFindings(anchored, Now(), p));
      if id != [] {
        gaps := gaps[id := Declared(p)];
      }
    }

    method Heals(run: Run, anchored: bool, p: Option<Value>)
      requires run.Valid()
      modifies run, this
      ensures run.Valid() && run.unconfirmed == old(run.unconfirmed)
      ensures run.failures == old(run.failures) + HealFindings(anchored, old(Now()), p)
                && Now() == AfterHeal(anchored, old(Now()), p)
    {
      hide Field, Run.Valid, GapId;
      var id := GapId(p);
      if id == [] {
        run.Report(Finding(GapRule, ContentIntegrity));
      } else if id in gaps {
        gaps := gaps[id := gaps[id].(healed := true)];
      } else if anchored {
        run.Report(Finding(GapRule, ContentIntegrity));
      } else {
        gaps := gaps[id := Gap([], [], [], false, true)];
      }
    }

    method Items(run: Run, anchored: bool, items: seq<Value>) returns (unhealed: bool)
      requires run.Valid()
      modifies run
      ensures run.Valid() && run.unconfirmed == old(run.unconfirmed)
      ensures run.failures == old(run.failures) + ItemsFindings(anchored, Now(), items, |items|)
      ensures unhealed <==> Unhealed(items, |items|)
    {
      hide Run.Valid, ItemFindings, ItemHealed, ItemId;
      unhealed := false;
      for i := 0 to |items|
        invariant run.Valid() && run.unconfirmed == old(run.unconfirmed)
        invariant run.failures == old(run.failures) + ItemsFindings(anchored, Now(), items, i)
        invariant unhealed <==> Unhealed(items, i)
      {
        run.ReportAll(ItemFindings(anchored, Now(), items[i]));
        if ItemId(items[i]) != [] && !ItemHealed(items[i]) {
          unhealed := true;
        }
      }
    }

    method Settles(run: Run, anchored: bool, rangeFrom: int, e: Entry, p: Option<Value>)
      requires run.Valid()
      modifies run, this
      ensures run.Valid() && run.unconfirmed == old(run.unconfirmed)
      ensures run.failures == old(run.failures) + SettleFindings(anchored, rangeFrom, old(Now()), p)
                && Now() == AfterSettle(old(Now()), e, p)
    {
      hide Field, Run.Valid, FormFindings, ItemsFindings, DayFindings, Unhealed, DayOf, Supplement, IterValues,
        EntryHash, Gapped, StrEq;
      var items, day, supplement := IterValues(Field(p, "gaps")), DayOf(p), Supplement(p);
      run.ReportAll(FormFindings(anchored, Now(), p));
      var unhealed := Items(run, anchored, items);
      Check1(run, (Gapped(p) || StrEq(Field(p, "state"), "settled")) && Gapped(p) != unhealed, SettlementRule);
      run.ReportAll(DayFindings(rangeFrom, Now(), p));
      if day != [] && supplement.Some? {
        days := days[day := Day(supplement.value, e.sequence, EntryHash(e))];
      }
    }

    /** A redacted receipt keeps its place; nothing else of a redacted record is taken. */
    method TakeRedacted(e: Entry)
      modifies this
      ensures Now() == AfterRedacted(old(Now()), e)
    {
      hide EntryHash;
      if e.kind == ReceiptKind {
        receipts, lastHash, indexKnown, lastCursor := receipts + 1, EntryHash(e), false, None;
      }
    }

    method Take(run: Run, anchored: bool, rangeFrom: int, e: Entry)
      requires run.Valid()
      modifies run, this
      ensures run.Valid() && run.unconfirmed == old(run.unconfirmed)
      ensures run.failures == old(run.failures) + EntryFindings(anchored, rangeFrom, old(Now()), e)
      ensures Now() == AfterEntry(anchored, old(Now()), e)
    {
      hide Field, Run.Valid, When, ConfigFindings, ShapeFindings, LinkFindings, GapFindings, HealFindings,
        SettleFindings, AfterConfig, AfterReceipt, AfterGap, AfterHeal, AfterSettle, AfterRedacted, EntryHash, Ascii;
      var payload := Payload(e);
      if IsRedacted(e) {
        TakeRedacted(e);
        return;
      }
      if !IsObject(payload) {
        Check1(run, true, BadCollection);
        return;
      }
      Check1(run, anchored && e.kind != Config && configs == 0, BadCollection);
      match e.kind {
        case Config => Configure(run, payload);
        case ReceiptKind =>
          run.ReportAll(ShapeFindings(payload));
          Chain(run, anchored, e, payload);
        case GapKind => Gaps(run, anchored, payload);
        case Heal => Heals(run, anchored, payload);
        case Settle => Settles(run, anchored, rangeFrom, e, payload);
      }
    }
  }

  ghost predicate Apart(streams: map<Bytes, CollectionStream>)
  {
    forall r, q :: r in streams && q in streams && r != q ==> streams[r] != streams[q]
  }

  ghost predicate Tracks(streams: map<Bytes, CollectionStream>, states: map<Bytes, StreamState>)
    reads set r | r in streams :: streams[r]
  {
    streams.Keys == states.Keys && forall r :: r in streams ==> streams[r].Now() == states[r]
  }

  lemma StatesStep(anchored: bool, rangeFrom: int, entries: seq<Entry>, n: nat)
    requires n < |entries|
    ensures var e, before := entries[n], StatesAt(anchored, entries, n);
            && StatesAt(anchored, entries, n + 1) ==
              before[e.resource := AfterEntry(anchored, StreamOf(before, e.resource), e)]
            && FindingsAt(anchored, rangeFrom, entries, n + 1) ==
               FindingsAt(anchored, rangeFrom, entries, n) +
                 EntryFindings(anchored, rangeFrom, StreamOf(before, e.resource), e)
  {
    hide AfterEntry, EntryFindings;
  }

  /** The stream a resource already has, or a fresh one. */
  method Opened(streams: map<Bytes, CollectionStream>, resource: Bytes,
                ghost states: map<Bytes, StreamState>)
    returns (r: map<Bytes, CollectionStream>)
    requires Apart(streams) && Tracks(streams, states)
    ensures resource in r && Apart(r) && Tracks(r, states[resource := StreamOf(states, resource)])
    ensures forall k :: k in r ==> fresh(r[k]) || (k in streams && r[k] == streams[k])
  {
    r := streams;
    if resource !in streams {
      var stream := new CollectionStream();
      r := streams[resource := stream];
    }
  }

  /** One stream takes the record; the others are left alone. */
  method TakeFor(run: Run, anchored: bool, rangeFrom: int, e: Entry, streams: map<Bytes, CollectionStream>,
                 ghost states: map<Bytes, StreamState>)
    requires run.Valid() && Apart(streams) && Tracks(streams, states) && e.resource in streams
    modifies run, streams[e.resource]
    ensures run.Valid() && run.unconfirmed == old(run.unconfirmed)
    ensures run.failures == old(run.failures) + EntryFindings(anchored, rangeFrom, states[e.resource], e)
    ensures Tracks(streams, states[e.resource := AfterEntry(anchored, states[e.resource], e)])
  {
    hide Run.Valid, EntryFindings, AfterEntry;
    streams[e.resource].Take(run, anchored, rangeFrom, e);
  }

  lemma {:induction false} EarlierSame(anchored: bool, rangeFrom: int, entries: seq<Entry>, e: Entry, n: nat)
    requires n <= |entries|
    ensures StatesAt(anchored, entries + [e], n) == StatesAt(anchored, entries, n)
    ensures FindingsAt(anchored, rangeFrom, entries + [e], n) == FindingsAt(anchored, rangeFrom, entries, n)
  {
    hide AfterEntry, EntryFindings, StatesAt, FindingsAt;
    if n == 0 {
      NoneTracked(anchored, rangeFrom, entries);
      NoneTracked(anchored, rangeFrom, entries + [e]);
    } else {
      EarlierSame(anchored, rangeFrom, entries, e, n - 1);
      StatesStep(anchored, rangeFrom, entries, n - 1);
      StatesStep(anchored, rangeFrom, entries + [e], n - 1);
    }
  }

  lemma StatesPush(anchored: bool, rangeFrom: int, entries: seq<Entry>, e: Entry)
    ensures var before, n := StatesAt(anchored, entries, |entries|), |entries|;
            && StatesAt(anchored, entries + [e], n + 1) ==
              before[e.resource := AfterEntry(anchored, StreamOf(before, e.resource), e)]
            && FindingsAt(anchored, rangeFrom, entries + [e], n + 1) ==
               FindingsAt(anchored, rangeFrom, entries, n) +
                 EntryFindings(anchored, rangeFrom, StreamOf(before, e.resource), e)
  {
    hide AfterEntry, EntryFindings, StatesAt, FindingsAt;
    EarlierSame(anchored, rangeFrom, entries, e, |entries|);
    StatesStep(anchored, rangeFrom, entries + [e], |entries|);
  }

  lemma EntriesStep(lines: seq<Bytes>, n: nat)
    requires n < |lines|
    ensures EntriesOf(lines, n + 1) ==
              if EntryOf(Decode(lines[n])).None? then EntriesOf(lines, n)
                else EntriesOf(lines, n) + [EntryOf(Decode(lines[n])).value]
  {
    hide EntryOf, Decode;
  }

  /** Lines that are no collection record are passed over. */
  method CheckCollectionRecords(run: Run, anchored: bool, rangeFrom: int, lines: seq<Bytes>)
    returns (streams: map<Bytes, CollectionStream>)
    requires run.Valid()
    modifies run
    ensures run.Valid() && run.unconfirmed == old(run.unconfirmed)
    ensures var entries := EntriesOf(lines, |lines|);
            && run.failures == old(run.failures) + FindingsAt(anchored, rangeFrom, entries, |entries|)
            && Tracks(streams, StatesAt(anchored, entries, |entries|))
  {
    hide Run.Valid, EntryFindings, AfterEntry, StatesAt, FindingsAt, Apart, Tracks, EntryOf, Decode;
    streams := map[];
    NoneTracked(anchored, rangeFrom, []);
    for i := 0 to |lines|
      invariant run.Valid() && run.unconfirmed == old(run.unconfirmed)
      invariant run.failures == old(run.failures) +
          FindingsAt(anchored, rangeFrom, EntriesOf(lines, i), |EntriesOf(lines, i)|)
      invariant forall k :: k in streams ==> fresh(streams[k])
      invariant Apart(streams) && Tracks(streams, StatesAt(anchored, EntriesOf(lines, i), |EntriesOf(lines, i)|))
    {
      var entry := EntryOf(Decode(lines[i]));
      EntriesStep(lines, i);
      if entry.None? {
        continue;
      }
      var e := entry.value;
      ghost var entries := EntriesOf(lines, i);
      ghost var states := StatesAt(anchored, entries, |entries|);
      StatesPush(anchored, rangeFrom, entries, e);
      streams := Opened(streams, e.resource, states);
      TakeFor(run, anchored, rangeFrom, e, streams, states[e.resource := StreamOf(states, e.resource)]);
      Overwritten(states, e.resource, StreamOf(states, e.resource),
        AfterEntry(anchored, StreamOf(states, e.resource), e));
    }
  }

  lemma Overwritten(states: map<Bytes, StreamState>, resource: Bytes, st: StreamState, st': StreamState)
    ensures states[resource := st][resource := st'] == states[resource := st']
  {
  }

  lemma NoneTracked(anchored: bool, rangeFrom: int, entries: seq<Entry>)
    ensures StatesAt(anchored, entries, 0) == map[] && FindingsAt(anchored, rangeFrom, entries, 0) == []
    ensures Apart(map[]) && Tracks(map[], map[])
  {
  }
}

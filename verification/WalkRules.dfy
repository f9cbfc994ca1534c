/** verify/walk.go: what is asked of each event and each checkpoint, and what a clean bundle is. */
module WalkRules {
  import opened Bytes
  import opened JsonValue
  import opened Canonical
  import opened PhpValues
  import opened Preimages
  import opened JsonSyntax
  import opened JsonDecoded
  import opened Run

  /** What the key, window and signature checks found about one checkpoint. */
  datatype Seal = Seal(inManifest: bool, trusted: bool, windowProblems: nat, signatureValid: bool)

  /**
   * A bundle already read from its files. declared holds the sequences redactions.json names in range, retain the
   * sequences whose entry hashes are kept, and rootSizes the extra tree sizes something asked about.
   */
  datatype Bundle = Bundle(
    stream: Bytes, rangeFrom: int, rangeTo: int, lines: seq<Bytes>, checkpoints: seq<Value>,
    declared: set<int>, retain: set<int>, rootSizes: set<int>, seal: Value -> Seal)

  /** The manifest's strings and the checkpoints were decoded, and integers there are 64-bit. */
  ghost predicate Decoded(b: Bundle)
  {
    && WellFormed(String(b.stream)) && WellFormed(Int(b.rangeFrom)) && WellFormed(Int(b.rangeTo))
    && forall k :: 0 <= k < |b.checkpoints| ==> WellFormed(b.checkpoints[k])
  }

  const ZERO_BYTES := "00000000" + "00000000"
  const ZERO_HASH := ZERO_BYTES + ZERO_BYTES + ZERO_BYTES + ZERO_BYTES

  // ---- sequence expectations

  /** PHP turns the successor of the largest integer into a float, which equals no integer. */
  datatype Counter = At(value: int) | Overflowed

  function Next(v: int): Counter
  {
    if v == MAX_INT64 then Overflowed else At(v + 1)
  }

  /** Go's value - 1 wraps at the smallest integer. */
  predicate MinusOneEquals(c: Counter, v: int)
  {
    c.At? && v == if c.value == MIN_INT64 then MAX_INT64 else c.value - 1
  }

  // ---- events

  /** None where the line is not a JSON object. */
  function Decode(line: Bytes): Option<Value>
  {
    var r := Document(false, line);
    if r.Ok? && r.value.Object? then Some(r.value) else None
  }

  function Content(check: Check): Finding { Finding(check, ContentIntegrity) }

  function SequenceProblems(expected: Counter, seq_: int): seq<Finding>
  {
    if expected == At(seq_) then [] else [Content(OutOfSequence)]
  }

  function PayloadState(ev: Option<Value>): Option<Value>
  {
    if Nullish(Field(ev, "payload_state")) then Some(String(Ascii("present"))) else Field(ev, "payload_state")
  }

  predicate Absent(ev: Option<Value>)
  {
    StrEq(PayloadState(ev), "redacted") && Nullish(Field(ev, "payload"))
  }

  function PayloadProblems(ev: Option<Value>, declared: bool): seq<Finding>
  {
    var state, present := PayloadState(ev), !Nullish(Field(ev, "payload"));
    if !StrEq(state, "present") && !StrEq(state, "redacted") then [Content(UnknownPayloadState)]
    else if StrEq(state, "redacted") || !present then
      if present then [Content(RedactedYetPresent)]
      else if !StrEq(state, "redacted") then [Content(UndeclaredAbsence)]
      else []
    else
      var canon := Canon(OrNull(Field(ev, "payload")));
      (if declared then [Content(DeclaredYetPresent)] else []) +
      if canon.None? then [Content(PayloadNotCanonical)]
      else if Lower(Text(Field(ev, "payload_hash"))) != Sha256Hex(canon.value) then [Content(PayloadChanged)]
      else []
  }

  function LinkProblems(prevHash: Option<Value>, ev: Option<Value>): seq<Finding>
  {
    if prevHash.Some? && !StrictEqual(Field(ev, "prev_hash"), prevHash) then [Content(ChainBroken)] else []
  }

  function EntryText(ev: Option<Value>): Bytes
  {
    Lower(Text(Field(ev, "entry_hash")))
  }

  function EntryProblems(stream: Bytes, seq_: int, ev: Option<Value>): seq<Finding>
  {
    var canon := Canon(EntryPreimage(String(stream), Int(seq_), ev));
    if canon.None? then [Content(EntryNotCanonical)]
    else if EntryText(ev) != Sha256Hex(canon.value) then [Content(EntryChanged)]
    else []
  }

  /** Where the chain stands between two events. */
  datatype Chain = Chain(expected: Counter, prevHash: Option<Value>)

  function Start(b: Bundle): Chain
  {
    Chain(At(b.rangeFrom), if b.rangeFrom == 1 then Some(String(Ascii(ZERO_HASH))) else None)
  }

  function Event(b: Bundle, i: nat): Option<Value>
    requires i < |b.lines|
  {
    Decode(b.lines[i])
  }

  function SeqOf(ev: Option<Value>): Option<int>
  {
    if IsInt(Field(ev, "seq")) then Some(Field(ev, "seq").value.n) else None
  }

  function Hash(v: Option<Value>, name: string): Option<Value>
  {
    if Nullish(Field(v, name)) then None else Field(v, name)
  }

  function LineProblems(b: Bundle, chain: Chain, ev: Option<Value>): seq<Finding>
  {
    if ev.None? then [Content(BadLine)]
    else if SeqOf(ev).None? then [Content(NoSequence)]
    else
      var s := SeqOf(ev).value;
      SequenceProblems(chain.expected, s) + PayloadProblems(ev, s in b.declared) + LinkProblems(chain.prevHash, ev) +
      EntryProblems(b.stream, s, ev)
  }

  function After(chain: Chain, ev: Option<Value>): Chain
  {
    if SeqOf(ev).None? then chain else Chain(Next(SeqOf(ev).value), Hash(ev, "entry_hash"))
  }

  function ChainAt(b: Bundle, n: nat): Chain
    requires n <= |b.lines|
  {
    if n == 0 then Start(b) else After(ChainAt(b, n - 1), Event(b, n - 1))
  }

  /** Every failure the first n lines give. */
  function ProblemsUpTo(b: Bundle, n: nat): seq<Finding>
    requires n <= |b.lines|
  {
    if n == 0 then [] else ProblemsUpTo(b, n - 1) + LineProblems(b, ChainAt(b, n - 1), Event(b, n - 1))
  }

  // ---- what a clean event is, without the loop

  ghost predicate PayloadOk(ev: Option<Value>, declared: bool)
  {
    var payload, state := Field(ev, "payload"), Field(ev, "payload_state");
    if Nullish(payload) then StrEq(state, "redacted")
    else
      && (Nullish(state) || StrEq(state, "present")) && !declared && Canon(payload.value).Some?
      && Lower(Text(Field(ev, "payload_hash"))) == Sha256Hex(Canon(payload.value).value)
  }

  ghost predicate EntryOk(stream: Bytes, seq_: int, ev: Option<Value>)
  {
    var canon := Canon(EntryPreimage(String(stream), Int(seq_), ev));
    canon.Some? && EntryText(ev) == Sha256Hex(canon.value)
  }

  ghost predicate EventOk(b: Bundle, i: nat)
    requires i < |b.lines|
  {
    var ev := Event(b, i);
    && SeqOf(ev) == Some(b.rangeFrom + i)
    && PayloadOk(ev, b.rangeFrom + i in b.declared)
    && EntryOk(b.stream, b.rangeFrom + i, ev)
    && (if i > 0 then StrictEqual(Field(ev, "prev_hash"), Field(Event(b, i - 1), "entry_hash"))
        else b.rangeFrom == 1 ==> StrEq(Field(ev, "prev_hash"), ZERO_HASH))
  }

  ghost predicate EventsOk(b: Bundle, n: nat)
    requires n <= |b.lines|
  {
    forall i :: 0 <= i < n ==> EventOk(b, i)
  }

  lemma PayloadOkExactly(ev: Option<Value>, declared: bool)
    ensures PayloadProblems(ev, declared) == [] <==> PayloadOk(ev, declared)
  {
    hide Canon;
    assert Ascii("present") != Ascii("redacted") by {
      if Ascii("present") == Ascii("redacted") {
        AsciiInjective("present", "redacted");
      }
    }
  }

  lemma EntryOkExactly(stream: Bytes, seq_: int, ev: Option<Value>)
    ensures EntryProblems(stream, seq_, ev) == [] <==> EntryOk(stream, seq_, ev)
  {
    hide Canon;
  }

  /** A recomputed entry hash comes from an entry_hash that is a string of 64 characters. */
  lemma EntryHashIsString(stream: Bytes, seq_: int, ev: Option<Value>)
    requires EntryOk(stream, seq_, ev) && (ev.Some? ==> WellFormed(ev.value))
    ensures Field(ev, "entry_hash").Some? && Field(ev, "entry_hash").value.String?
              && |Field(ev, "entry_hash").value.s| == 64
    ensures Hash(ev, "entry_hash") == Field(ev, "entry_hash")
  {
    FieldWellFormed(ev, "entry_hash");
    hide Canon, WellFormed;
    LongTextIsString(Field(ev, "entry_hash"));
  }

  lemma PreimageSequence(stream: Bytes, seq_: int, ev: Option<Value>)
    ensures var preimage := EntryPreimage(String(stream), Int(seq_), ev);
            preimage.Object? && |preimage.members| > 2 && preimage.members[2].val == Int(seq_)
  {
    hide Field, Ascii;
  }

  /** An entry hash that recomputes covers its own sequence, so the sequence is exactly representable. */
  lemma EntrySequenceIsExact(stream: Bytes, seq_: int, ev: Option<Value>)
    requires EntryOk(stream, seq_, ev)
    ensures -MAX_EXACT_INT <= seq_ <= MAX_EXACT_INT
  {
    hide EntryPreimage, Canon, Text, Sha256Hex, Lower;
    var preimage := EntryPreimage(String(stream), Int(seq_), ev);
    PreimageSequence(stream, seq_, ev);
    CanonField(preimage, 2);
    ExactInt(seq_);
  }

  lemma ExactInt(n: int)
    requires Canon(Int(n)).Some?
    ensures -MAX_EXACT_INT <= n <= MAX_EXACT_INT
  {
  }

  /** Whatever prints has printable members. */
  lemma CanonField(v: Value, i: nat)
    requires v.Object? && i < |v.members| && Canon(v).Some?
    ensures Canon(v.members[i].val).Some?
  {
    hide Sort;
    SortSameMembers(v.members);
    assert v.members[i] in Sort(v.members);
    CanonMembersEach(Sort(v.members), v.members[i]);
  }

  lemma {:induction false} CanonMembersEach(ms: seq<Member>, m: Member)
    requires CanonMembers(ms).Some? && m in ms
    ensures Canon(m.val).Some?
  {
    if ms[0] != m {
      CanonMembersEach(ms[1..], m);
    }
  }

  lemma DecodeWellFormed(line: Bytes)
    ensures Decode(line).Some? ==> WellFormed(Decode(line).value)
  {
    hide Document;
    if Document(false, line).Ok? {
      DecodedIsReadable(false, line);
    }
  }

  lemma ChainStep(b: Bundle, n: nat)
    requires n < |b.lines|
    ensures ChainAt(b, n + 1) == After(ChainAt(b, n), Event(b, n))
    ensures ProblemsUpTo(b, n + 1) == ProblemsUpTo(b, n) + LineProblems(b, ChainAt(b, n), Event(b, n))
  {
    hide LineProblems, After, Decode;
  }

  /** On a clean prefix the chain stands where the count says. */
  ghost predicate ChainOk(b: Bundle, n: nat)
    requires n <= |b.lines|
  {
    && ChainAt(b, n).expected == At(b.rangeFrom + n)
    && (n == 0 ==> ChainAt(b, n) == Start(b))
    && (n > 0 ==> ChainAt(b, n).prevHash == Field(Event(b, n - 1), "entry_hash") && ChainAt(b, n).prevHash.Some?
                  && ChainAt(b, n).prevHash.value.String?)
  }

  /** One clean event moves a clean chain on by one; an unclean one leaves a failure. */
  lemma EventOkExactly(b: Bundle, n: nat)
    requires n < |b.lines| && ChainOk(b, n)
    ensures LineProblems(b, ChainAt(b, n), Event(b, n)) == [] <==> EventOk(b, n)
    ensures EventOk(b, n) ==> ChainOk(b, n + 1)
  {
    hide Decode, ChainAt, PayloadProblems, PayloadOk, EntryProblems, EntryOk, LinkProblems, LineProblems, WellFormed,
      ProblemsUpTo, Field, StrictEqual, Ascii, SeqOf, StrEq, Hash;
    var ev := Event(b, n);
    DecodeWellFormed(b.lines[n]);
    ChainStep(b, n);
    LineProblemsNone(b, ChainAt(b, n), ev);
    if SeqOf(ev).Some? {
      var s := SeqOf(ev).value;
      PayloadOkExactly(ev, s in b.declared);
      EntryOkExactly(b.stream, s, ev);
      LinkExactly(b, n);
      if EventOk(b, n) {
        EntryHashIsString(b.stream, s, ev);
        EntrySequenceIsExact(b.stream, s, ev);
      }
    }
    SequenceNeedsObject(ev);
  }

  lemma SequenceNeedsObject(ev: Option<Value>)
    ensures SeqOf(ev).Some? ==> ev.Some?
  {
  }

  lemma LineProblemsNone(b: Bundle, chain: Chain, ev: Option<Value>)
    ensures LineProblems(b, chain, ev) == [] <==>
              && ev.Some? && SeqOf(ev).Some?
              && chain.expected == At(SeqOf(ev).value)
              && PayloadProblems(ev, SeqOf(ev).value in b.declared) == [] && LinkProblems(chain.prevHash, ev) == []
              && EntryProblems(b.stream, SeqOf(ev).value, ev) == []
  {
    hide PayloadProblems, LinkProblems, EntryProblems, SeqOf;
  }

  lemma LinkExactly(b: Bundle, n: nat)
    requires n < |b.lines| && ChainOk(b, n)
    ensures LinkProblems(ChainAt(b, n).prevHash, Event(b, n)) == [] <==>
      if n > 0 then StrictEqual(Field(Event(b, n), "prev_hash"), Field(Event(b, n - 1), "entry_hash"))
      else b.rangeFrom == 1 ==> StrEq(Field(Event(b, n), "prev_hash"), ZERO_HASH)
  {
    hide Decode, Field, Ascii;
    if n == 0 {
      assert ChainAt(b, 0) == Start(b);
    }
  }

  /** The loop over lines reports nothing exactly on clean events. */
  lemma {:induction false} EventsOkExactly(b: Bundle, n: nat)
    requires n <= |b.lines|
    ensures ProblemsUpTo(b, n) == [] <==> EventsOk(b, n)
    ensures EventsOk(b, n) ==> ChainOk(b, n)
  {
    hide LineProblems, EventOk, ChainOk, ProblemsUpTo, EventsOk, ChainAt, Event;
    if n == 0 {
      ChainOkAtStart(b);
    } else {
      EventsOkExactly(b, n - 1);
      ChainStep(b, n - 1);
      EventsOkStep(b, n - 1);
      if EventsOk(b, n - 1) {
        EventOkExactly(b, n - 1);
      }
    }
  }

  lemma EventsOkStep(b: Bundle, n: nat)
    requires n < |b.lines|
    ensures EventsOk(b, n + 1) <==> EventsOk(b, n) && EventOk(b, n)
  {
    hide EventOk;
  }

  lemma ChainOkAtStart(b: Bundle)
    ensures ChainOk(b, 0) && ProblemsUpTo(b, 0) == [] && EventsOk(b, 0)
  {
  }
}

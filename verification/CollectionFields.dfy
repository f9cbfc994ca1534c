/** verify/collection.go: which events are collection records, and what of a record is read. */
module CollectionFields {
  import opened Bytes
  import opened JsonValue
  import opened Canonical
  import opened JsonEquality
  import opened JsonDecoded
  import opened JsonLimits
  import opened PhpValues
  import opened WalkRules
  import opened Collection
  import opened CollectionInputs

  /** An event with one of the five actions, on the resource of a connection stream, with an integer sequence. */
  ghost predicate IsRecord(ev: Value, e: Entry)
  {
    && e.event == ev && Field(Some(ev), "action") == Some(String(Ascii(ActionOf(e.kind))))
    && Field(Some(ev), "resource") == Some(String(e.resource)) && Ascii("connection-stream:") <= e.resource
    && Field(Some(ev), "seq") == Some(Int(e.sequence))
  }

  lemma EntryExactly(ev: Value, e: Entry)
    ensures EntryOf(Some(ev)) == Some(e) <==> IsRecord(ev, e)
  {
    hide KindOf, Lookup, Ascii, ActionOf;
    KindOfAction(e.kind);
    KindIsItsAction(Field(Some(ev), "action"), e.kind);
  }

  lemma KindIsItsAction(action: Option<Value>, kind: Kind)
    ensures KindOf(action) == Some(kind) ==> action == Some(String(Ascii(ActionOf(kind))))
  {
    hide Ascii;
  }

  /** The record's payload is gone: redacted, or none. */
  ghost predicate Withheld(e: Entry)
  {
    || Field(Some(e.event), "payload_state") == Some(String(Ascii("redacted")))
    || Field(Some(e.event), "payload") == None || Field(Some(e.event), "payload") == Some(Null)
  }

  lemma WithheldExactly(e: Entry)
    ensures IsRedacted(e) <==> Withheld(e)
    ensures !Withheld(e) ==> Payload(e) == Field(Some(e.event), "payload") && Payload(e) != Some(Null)
  {
    hide Lookup, Ascii;
  }

  /** What is read of a payload is there, in the one form it is read in. */
  lemma FieldsExactly(p: Option<Value>, s: Bytes, n: int)
    requires s != []
    ensures GapId(p) == s <==> Field(p, "gap_id") == Some(String(s))
    ensures DayOf(p) == s <==> Field(p, "day") == Some(String(s)) && DayForm(s)
    ensures Supplement(p) == Some(n) <==> Field(p, "supplement") == Some(Int(n)) && n >= 0
    ensures Index(p) == Some(n) <==> Field(p, "receipt_index") == Some(Int(n)) && n >= 1
  {
    hide Lookup, Ascii, DayForm;
  }

  /** Two cursors go on from one another exactly when both print and they are the same up to member order. */
  lemma CursorsExactly(a: Value, b: Value)
    requires WellFormed(a) && WellFormed(b)
    ensures CanonSame(a, b) <==> Printable(a) && Printable(b) && Same(a, b)
  {
    hide Canon, Same, Printable, WellFormed;
    PrintsExactly(a);
    PrintsExactly(b);
    if Canon(a).Some? && Canon(b).Some? {
      CanonInjective(a, b);
    }
  }

  /** The line at i is the record e, and j records stand on the lines before it. */
  ghost predicate StandsAt(lines: seq<Bytes>, i: nat, e: Entry, j: nat)
    requires i < |lines|
  {
    Decode(lines[i]).Some? && IsRecord(Decode(lines[i]).value, e) && |EntriesOf(lines, i)| == j
  }

  /** The records are those of the lines, in order. */
  lemma {:induction false} EntriesExactly(lines: seq<Bytes>, n: nat, j: nat, e: Entry)
    requires n <= |lines|
    ensures j < |EntriesOf(lines, n)| && EntriesOf(lines, n)[j] == e <==>
            exists i :: 0 <= i < n && StandsAt(lines, i, e, j)
  {
    hide *;
    if n == 0 {
      NoEntries(lines);
    } else {
      var m := n - 1;
      EntriesExactly(lines, m, j, e);
      EntriesStep(lines, m);
      LineExactly(lines, m, e);
      var more := EntriesOf(lines, n);
      if j == |EntriesOf(lines, m)| < |more| && more[j] == e {
        assert StandsAt(lines, m, e, j);
      }
    }
  }

  lemma NoEntries(lines: seq<Bytes>)
    ensures EntriesOf(lines, 0) == []
  {
  }

  lemma LineExactly(lines: seq<Bytes>, m: nat, e: Entry)
    requires m < |lines|
    ensures forall j: nat ::
              StandsAt(lines, m, e, j) <==> EntryOf(Decode(lines[m])) == Some(e) && j == |EntriesOf(lines, m)|
  {
    hide Decode, EntryOf, IsRecord, EntriesOf;
    NothingIsEntry();
    if Decode(lines[m]).Some? {
      EntryExactly(Decode(lines[m]).value, e);
    }
  }

  lemma NothingIsEntry()
    ensures EntryOf(None).None?
  {
  }
}

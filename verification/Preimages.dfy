/** verify/walk.go: the objects whose canonical bytes are hashed, and what equal hashes say about their fields. */
module Preimages {
  import opened Bytes
  import opened KeyOrder
  import opened JsonValue
  import opened Canonical
  import opened JsonEquality
  import opened JsonDecoded
  import opened PhpValues

  function Named(name: string, v: Value): Member
  {
    Member(Ascii(name), v)
  }

  /** An absent field is hashed as null. */
  function EntryPreimage(stream: Value, seq_: Value, ev: Option<Value>): Value
  {
    Object([
      Named("v", Int(1)), Named("stream", stream), Named("seq", seq_),
      Named("occurred_at", OrNull(Field(ev, "occurred_at"))), Named("received_at", OrNull(Field(ev, "received_at"))),
      Named("actor", OrNull(Field(ev, "actor"))), Named("action", OrNull(Field(ev, "action"))),
      Named("resource", OrNull(Field(ev, "resource"))), Named("payload_hash", OrNull(Field(ev, "payload_hash"))),
      Named("prev", OrNull(Field(ev, "prev_hash")))])
  }

  function CheckpointPreimage(v: Value, stream: Value, from: Value, to: Value, root: Value, prev: Value,
                              createdAt: Value): Value
  {
    Object([
      Named("v", v), Named("stream", stream), Named("from", from), Named("to", to),
      Named("root", root), Named("prev_checkpoint", prev), Named("created_at", createdAt)])
  }

  // ---- well-formedness

  lemma {:induction false} LookupWellFormed(ms: seq<Member>, key: Bytes)
    requires forall i :: 0 <= i < |ms| ==> WellFormed(ms[i].val)
    ensures Lookup(ms, key).Some? ==> WellFormed(Lookup(ms, key).value)
  {
    if ms != [] {
      LookupWellFormed(ms[1..], key);
    }
  }

  lemma FieldWellFormed(v: Option<Value>, name: string)
    requires v.Some? ==> WellFormed(v.value)
    ensures Field(v, name).Some? ==> WellFormed(Field(v, name).value)
    ensures WellFormed(OrNull(Field(v, name)))
  {
    if v.Some? && v.value.Object? {
      LookupWellFormed(v.value.members, Ascii(name));
    }
  }

  lemma {:induction false} AsciiIsUtf8(s: Bytes)
    requires forall i :: 0 <= i < |s| ==> s[i] < 0x80
    ensures ValidUtf8(s)
  {
    if s != [] {
      AsciiIsUtf8(s[1..]);
    }
  }

  ghost predicate AsciiName(name: string)
  {
    forall i :: 0 <= i < |name| ==> name[i] as int < 0x80
  }

  lemma NameIsUtf8(name: string)
    requires AsciiName(name)
    ensures ValidUtf8(Ascii(name))
  {
    assert forall i :: 0 <= i < |name| ==> Ascii(name)[i] as int == name[i] as int;
    AsciiIsUtf8(Ascii(name));
  }

  const ENTRY_NAMES: seq<string> :=
    ["v", "stream", "seq", "occurred_at", "received_at", "actor", "action", "resource", "payload_hash", "prev"]

  const CHECKPOINT_NAMES: seq<string> := ["v", "stream", "from", "to", "root", "prev_checkpoint", "created_at"]

  ghost predicate GoodNames(names: seq<string>)
  {
    && (forall i :: 0 <= i < |names| ==> AsciiName(names[i]))
    && (forall i, j :: 0 <= i < j < |names| ==> names[i] != names[j])
  }

  ghost predicate NamedBy(ms: seq<Member>, names: seq<string>)
  {
    |ms| == |names| && forall i :: 0 <= i < |ms| ==> ms[i].key == Ascii(names[i])
  }

  /** Told apart by length and first letter. */
  lemma NamesApart(names: seq<string>)
    requires forall i, j :: 0 <= i < j < |names| ==>
              |names[i]| != |names[j]| || (names[i] != "" && names[j] != "" && names[i][0] != names[j][0])
    requires forall i :: 0 <= i < |names| ==> AsciiName(names[i])
    ensures GoodNames(names)
  {
    hide AsciiName;
  }

  lemma EntryNamesAscii()
    ensures forall i :: 0 <= i < |ENTRY_NAMES| ==> AsciiName(ENTRY_NAMES[i])
  {
  }

  lemma EntryNamesGood()
    ensures GoodNames(ENTRY_NAMES)
  {
    hide GoodNames, AsciiName;
    EntryNamesAscii();
    NamesApart(ENTRY_NAMES);
  }

  lemma CheckpointNamesGood()
    ensures GoodNames(CHECKPOINT_NAMES)
  {
    hide GoodNames;
    NamesApart(CHECKPOINT_NAMES);
  }

  lemma NamedDistinct(ms: seq<Member>, names: seq<string>)
    requires GoodNames(names) && NamedBy(ms, names)
    ensures Distinct(ms) && ValidKeys(ms)
  {
    hide ValidUtf8;
    forall i, j | 0 <= i < j < |ms|
      ensures ms[i].key != ms[j].key
    {
      if ms[i].key == ms[j].key {
        AsciiInjective(names[i], names[j]);
      }
    }
    forall i | 0 <= i < |ms|
      ensures ValidUtf8(ms[i].key)
    {
      NameIsUtf8(names[i]);
    }
  }

  lemma NamedWellFormed(ms: seq<Member>, names: seq<string>)
    requires GoodNames(names) && NamedBy(ms, names)
    requires forall i :: 0 <= i < |ms| ==> WellFormed(ms[i].val)
    ensures WellFormed(Object(ms))
  {
    hide ValidUtf8;
    NamedDistinct(ms, names);
  }

  /** Objects with the same keys in the same places are the same exactly field by field. */
  lemma NamedSame(ms: seq<Member>, ns: seq<Member>, names: seq<string>)
    requires GoodNames(names) && NamedBy(ms, names) && NamedBy(ns, names)
    ensures Same(Object(ms), Object(ns)) <==> forall i :: 0 <= i < |ms| ==> Same(ms[i].val, ns[i].val)
  {
    NamedDistinct(ns, names);
    NamedDistinct(ms, names);
    SameObject(Object(ms), Object(ns));
    hide Same, ValidUtf8;
    forall i | 0 <= i < |ms|
      ensures MatchedBy(ms[i], ns) <==> Same(ms[i].val, ns[i].val)
      ensures MatchedIn(ms, ns[i]) <==> Same(ms[i].val, ns[i].val)
    {
      if j :| 0 <= j < |ns| && Matches(ms[i], ns[j]) {
        assert j == i || j < i || i < j;
      }
      if j :| 0 <= j < |ms| && Matches(ms[j], ns[i]) {
        assert j == i || j < i || i < j;
      }
      if Same(ms[i].val, ns[i].val) {
        assert Matches(ms[i], ns[i]);
      }
    }
  }

  // ---- the strings hashed

  lemma EntryPreimageShape(stream: Value, seq_: Value, ev: Option<Value>)
    ensures NamedBy(EntryPreimage(stream, seq_, ev).members, ENTRY_NAMES)
  {
  }

  lemma EntryPreimageWellFormed(stream: Value, seq_: Value, ev: Option<Value>)
    requires WellFormed(stream) && WellFormed(seq_) && (ev.Some? ==> WellFormed(ev.value))
    ensures WellFormed(EntryPreimage(stream, seq_, ev))
  {
    EntryPreimageShape(stream, seq_, ev);
    EntryNamesGood();
    FieldWellFormed(ev, "occurred_at");
    FieldWellFormed(ev, "received_at");
    FieldWellFormed(ev, "actor");
    FieldWellFormed(ev, "action");
    FieldWellFormed(ev, "resource");
    FieldWellFormed(ev, "payload_hash");
    FieldWellFormed(ev, "prev_hash");
    assert WellFormed(Int(1));
    hide WellFormed, Field, NamedBy, GoodNames, Ascii;
    NamedWellFormed(EntryPreimage(stream, seq_, ev).members, ENTRY_NAMES);
  }

  lemma CheckpointPreimageShape(v: Value, stream: Value, from: Value, to: Value, root: Value, prev: Value,
                                createdAt: Value)
    ensures NamedBy(CheckpointPreimage(v, stream, from, to, root, prev, createdAt).members, CHECKPOINT_NAMES)
  {
    hide Ascii;
  }

  lemma CheckpointPreimageWellFormed(v: Value, stream: Value, from: Value, to: Value, root: Value, prev: Value,
                                     createdAt: Value)
    requires WellFormed(v) && WellFormed(stream) && WellFormed(from) && WellFormed(to)
    requires WellFormed(root) && WellFormed(prev) && WellFormed(createdAt)
    ensures WellFormed(CheckpointPreimage(v, stream, from, to, root, prev, createdAt))
  {
    var ms := CheckpointPreimage(v, stream, from, to, root, prev, createdAt).members;
    CheckpointPreimageShape(v, stream, from, to, root, prev, createdAt);
    CheckpointNamesGood();
    hide WellFormed, NamedBy, GoodNames, Ascii;
    NamedWellFormed(ms, CHECKPOINT_NAMES);
  }

  // ---- what is hashed under which name

  lemma NamedField(ms: seq<Member>, names: seq<string>, i: nat)
    requires GoodNames(names) && NamedBy(ms, names) && i < |names|
    ensures Field(Some(Object(ms)), names[i]) == Some(ms[i].val)
  {
    NamedDistinct(ms, names);
    LookupAt(ms, i);
  }

  ghost predicate HasField(v: Value, name: string, val: Value)
  {
    Field(Some(v), name) == Some(val)
  }

  /** The hash of an entry is over these ten fields and no more, an absent one being null. */
  lemma EntryPreimageFields(stream: Value, seq_: Value, ev: Option<Value>)
    ensures var p := EntryPreimage(stream, seq_, ev);
            && p.Object? && |p.members| == 10
            && HasField(p, "v", Int(1)) && HasField(p, "stream", stream) && HasField(p, "seq", seq_)
            && HasField(p, "occurred_at", OrNull(Field(ev, "occurred_at")))
            && HasField(p, "received_at", OrNull(Field(ev, "received_at")))
            && HasField(p, "actor", OrNull(Field(ev, "actor"))) && HasField(p, "action", OrNull(Field(ev, "action")))
            && HasField(p, "resource", OrNull(Field(ev, "resource")))
            && HasField(p, "payload_hash", OrNull(Field(ev, "payload_hash")))
            && HasField(p, "prev", OrNull(Field(ev, "prev_hash")))
  {
    var ms := EntryPreimage(stream, seq_, ev).members;
    EntryPreimageShape(stream, seq_, ev);
    EntryNamesGood();
    hide NamedBy, GoodNames, Ascii, Field;
    assert |ENTRY_NAMES| == 10;
    NamedField(ms, ENTRY_NAMES, 0);
    NamedField(ms, ENTRY_NAMES, 1);
    NamedField(ms, ENTRY_NAMES, 2);
    NamedField(ms, ENTRY_NAMES, 3);
    NamedField(ms, ENTRY_NAMES, 4);
    NamedField(ms, ENTRY_NAMES, 5);
    NamedField(ms, ENTRY_NAMES, 6);
    NamedField(ms, ENTRY_NAMES, 7);
    NamedField(ms, ENTRY_NAMES, 8);
    NamedField(ms, ENTRY_NAMES, 9);
  }

  /** The hash of a checkpoint is over these seven. */
  lemma CheckpointPreimageFields(v: Value, stream: Value, from: Value, to: Value, root: Value, prev: Value,
                                 createdAt: Value)
    ensures var p := CheckpointPreimage(v, stream, from, to, root, prev, createdAt);
            && p.Object? && |p.members| == 7
            && HasField(p, "v", v) && HasField(p, "stream", stream) && HasField(p, "from", from)
            && HasField(p, "to", to) && HasField(p, "root", root) && HasField(p, "prev_checkpoint", prev)
            && HasField(p, "created_at", createdAt)
  {
    var ms := CheckpointPreimage(v, stream, from, to, root, prev, createdAt).members;
    CheckpointPreimageShape(v, stream, from, to, root, prev, createdAt);
    CheckpointNamesGood();
    hide NamedBy, GoodNames, Ascii, Field;
    assert |CHECKPOINT_NAMES| == 7;
    NamedField(ms, CHECKPOINT_NAMES, 0);
    NamedField(ms, CHECKPOINT_NAMES, 1);
    NamedField(ms, CHECKPOINT_NAMES, 2);
    NamedField(ms, CHECKPOINT_NAMES, 3);
    NamedField(ms, CHECKPOINT_NAMES, 4);
    NamedField(ms, CHECKPOINT_NAMES, 5);
    NamedField(ms, CHECKPOINT_NAMES, 6);
  }

  /** The seven fields an entry hash covers, besides stream and sequence. */
  ghost predicate SameEntryFields(a: Option<Value>, b: Option<Value>)
  {
    && Same(OrNull(Field(a, "occurred_at")), OrNull(Field(b, "occurred_at")))
    && Same(OrNull(Field(a, "received_at")), OrNull(Field(b, "received_at")))
    && Same(OrNull(Field(a, "actor")), OrNull(Field(b, "actor")))
    && Same(OrNull(Field(a, "action")), OrNull(Field(b, "action")))
    && Same(OrNull(Field(a, "resource")), OrNull(Field(b, "resource")))
    && Same(OrNull(Field(a, "payload_hash")), OrNull(Field(b, "payload_hash")))
    && Same(OrNull(Field(a, "prev_hash")), OrNull(Field(b, "prev_hash")))
  }

  lemma EntryPreimageSame(stream: Value, seq_: Value, a: Option<Value>, stream': Value, seq': Value, b: Option<Value>)
    requires Same(EntryPreimage(stream, seq_, a), EntryPreimage(stream', seq', b))
    ensures Same(stream, stream') && Same(seq_, seq') && SameEntryFields(a, b)
  {
    var ms, ns := EntryPreimage(stream, seq_, a).members, EntryPreimage(stream', seq', b).members;
    EntryPreimageShape(stream, seq_, a);
    EntryPreimageShape(stream', seq', b);
    EntryNamesGood();
    NamedSame(ms, ns, ENTRY_NAMES);
    hide Same, Field, NamedBy, GoodNames, Ascii;
    assert Same(ms[1].val, ns[1].val) && Same(ms[2].val, ns[2].val);
    assert Same(ms[3].val, ns[3].val) && Same(ms[4].val, ns[4].val) && Same(ms[5].val, ns[5].val)
        && Same(ms[6].val, ns[6].val);
    assert Same(ms[7].val, ns[7].val) && Same(ms[8].val, ns[8].val) && Same(ms[9].val, ns[9].val);
  }

  lemma CheckpointPreimageSame(v: Value, stream: Value, from: Value, to: Value, root: Value, prev: Value,
                               createdAt: Value,
                               v': Value, stream': Value, from': Value, to': Value, root': Value, prev': Value,
                                 createdAt': Value)
    requires Same(CheckpointPreimage(v, stream, from, to, root, prev, createdAt),
                  CheckpointPreimage(v', stream', from', to', root', prev', createdAt'))
    ensures Same(v, v') && Same(stream, stream') && Same(from, from') && Same(to, to') && Same(root, root')
    ensures Same(prev, prev') && Same(createdAt, createdAt')
  {
    var ms := CheckpointPreimage(v, stream, from, to, root, prev, createdAt).members;
    var ns := CheckpointPreimage(v', stream', from', to', root', prev', createdAt').members;
    CheckpointPreimageShape(v, stream, from, to, root, prev, createdAt);
    CheckpointPreimageShape(v', stream', from', to', root', prev', createdAt');
    CheckpointNamesGood();
    NamedSame(ms, ns, CHECKPOINT_NAMES);
    hide Same, NamedBy, GoodNames, Ascii;
    assert Same(ms[0].val, ns[0].val) && Same(ms[1].val, ns[1].val) && Same(ms[2].val, ns[2].val);
    assert Same(ms[3].val, ns[3].val) && Same(ms[4].val, ns[4].val) && Same(ms[5].val, ns[5].val)
        && Same(ms[6].val, ns[6].val);
  }

  /** Equal hashes of two canonical encodings, with no collision between them, mean the same value. */
  lemma HashPins(v: Value, w: Value)
    requires WellFormed(v) && WellFormed(w) && Canon(v).Some? && Canon(w).Some?
    requires Sha256Hex(Canon(v).value) == Sha256Hex(Canon(w).value)
    requires NoCollision({Canon(v).value, Canon(w).value})
    ensures Same(v, w)
  {
    hide Canon, WellFormed, Same, HexEncode;
    HexInjective(Sha256(Canon(v).value), Sha256(Canon(w).value));
    CanonInjective(v, w);
  }
}

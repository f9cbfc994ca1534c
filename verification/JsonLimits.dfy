/** internal/cjson: exactly which values print, and exactly which printed values are read back. */
module JsonLimits {
  import opened Bytes
  import opened JsonValue
  import opened JsonSyntax
  import opened Canonical
  import opened JsonRoundTrip
  import opened JsonEquality
  import opened JsonDecoded

  // ---- what prints

  /** No float anywhere, and every integer exactly representable as a double. */
  predicate Printable(v: Value)
    decreases v
  {
    match v
    case Int(n) => -MAX_EXACT_INT <= n <= MAX_EXACT_INT
    case Float(_) => false
    case Array(items) => forall i :: 0 <= i < |items| ==> Printable(items[i])
    case Object(ms) => forall i :: 0 <= i < |ms| ==> Printable(ms[i].val)
    case _ => true
  }

  /** Printing fails exactly on floats and integers out of range. */
  lemma {:induction false} PrintsExactly(v: Value)
    ensures Canon(v).Some? <==> Printable(v)
    decreases Size(v), 1
  {
    if v.Array? {
      ItemsPrint(v.items);
    } else if v.Object? {
      hide Sort;
      SortSameMembers(v.members);
      MembersPrint(Sort(v.members));
      forall i | 0 <= i < |v.members|
        ensures v.members[i] in Sort(v.members)
      {
      }
    }
  }

  lemma {:induction false} ItemsPrint(items: seq<Value>)
    ensures CanonItems(items).Some? <==> forall i :: 0 <= i < |items| ==> Printable(items[i])
    decreases ItemsSize(items), 2
  {
    hide Printable;
    if items != [] {
      PrintsExactly(items[0]);
      ItemsPrint(items[1..]);
      assert forall i :: 0 < i < |items| ==> items[i] == items[1..][i - 1];
    }
  }

  lemma {:induction false} MembersPrint(ms: seq<Member>)
    ensures CanonMembers(ms).Some? <==> forall m :: m in ms ==> Printable(m.val)
    decreases MembersSize(ms), 2
  {
    hide Printable, Canon;
    if ms != [] {
      PrintsExactly(ms[0].val);
      MembersPrint(ms[1..]);
      MembersEach(ms);
    }
  }

  lemma MembersEach(ms: seq<Member>)
    requires ms != []
    ensures (forall m :: m in ms ==> Printable(m.val)) <==>
              Printable(ms[0].val) && forall m :: m in ms[1..] ==> Printable(m.val)
  {
    hide Printable;
    assert forall m :: m in ms <==> m == ms[0] || m in ms[1..];
  }

  // ---- what is read does not depend on where the limits stand

  /** What is read d containers deep is read the same less deep, and with NUL keys allowed. */
  lemma {:induction false} ValueLaxer(assoc: bool, data: Bytes, pos: nat, d: int, d': int)
    requires pos <= |data| && d' <= d && PValue(assoc, data, pos, d).Ok?
    ensures PValue(true, data, pos, d') == PValue(assoc, data, pos, d)
    decreases |data| - pos, 4
  {
    hide PObject, PArray, Number, Literal, Str;
    if pos < |data| && data[pos] == 0x7B {
      ObjectLaxer(assoc, data, pos, d, d');
    } else if pos < |data| && data[pos] == 0x5B {
      ArrayLaxer(assoc, data, pos, d, d');
    }
  }

  lemma {:induction false} ArrayLaxer(assoc: bool, data: Bytes, pos: nat, d: int, d': int)
    requires pos < |data| && d' <= d && PArray(assoc, data, pos, d).Ok?
    ensures PArray(true, data, pos, d') == PArray(assoc, data, pos, d)
    decreases |data| - pos, 3
  {
    hide PItems;
    var start := SkipSpace(data, pos + 1);
    if !ByteAt(data, start, 0x5D) {
      ItemsLaxer(assoc, data, start, d + 1, d' + 1, []);
    }
  }

  lemma {:induction false} ItemsLaxer(assoc: bool, data: Bytes, pos: nat, d: int, d': int, acc: seq<Value>)
    requires pos <= |data| && d' <= d && PItems(assoc, data, pos, d, acc).Ok?
    ensures PItems(true, data, pos, d', acc) == PItems(assoc, data, pos, d, acc)
    decreases |data| - pos, 5
  {
    hide PValue, SkipSpace;
    ValueLaxer(assoc, data, pos, d, d');
    var val := PValue(assoc, data, pos, d);
    var next := SkipSpace(data, val.pos);
    if ByteAt(data, next, 0x2C) {
      ItemsLaxer(assoc, data, SkipSpace(data, next + 1), d, d', acc + [val.value]);
    }
  }

  lemma {:induction false} ObjectLaxer(assoc: bool, data: Bytes, pos: nat, d: int, d': int)
    requires pos < |data| && d' <= d && PObject(assoc, data, pos, d).Ok?
    ensures PObject(true, data, pos, d') == PObject(assoc, data, pos, d)
    decreases |data| - pos, 3
  {
    hide PMembers;
    var start := SkipSpace(data, pos + 1);
    if !ByteAt(data, start, 0x7D) {
      MembersLaxer(assoc, data, start, d + 1, d' + 1, []);
    }
  }

  lemma {:induction false} MembersLaxer(assoc: bool, data: Bytes, pos: nat, d: int, d': int, acc: seq<Member>)
    requires pos <= |data| && d' <= d && PMembers(assoc, data, pos, d, acc).Ok?
    ensures PMembers(true, data, pos, d', acc) == PMembers(assoc, data, pos, d, acc)
    decreases |data| - pos, 6
  {
    hide PPair, SkipSpace, Put;
    PairLaxer(assoc, data, pos, d, d');
    var pair := PPair(assoc, data, pos, d);
    var next := SkipSpace(data, pair.pos);
    if ByteAt(data, next, 0x2C) {
      MembersLaxer(assoc, data, SkipSpace(data, next + 1), d, d', Put(acc, pair.value.key, pair.value.val));
    }
  }

  lemma {:induction false} PairLaxer(assoc: bool, data: Bytes, pos: nat, d: int, d': int)
    requires pos <= |data| && d' <= d && PPair(assoc, data, pos, d).Ok?
    ensures PPair(true, data, pos, d') == PPair(assoc, data, pos, d)
    decreases |data| - pos, 5
  {
    hide PValue, Str, SkipSpace;
    var key := Str(data, pos + 1, []);
    ValueLaxer(assoc, data, SkipSpace(data, SkipSpace(data, key.pos) + 1), d, d');
  }

  // ---- what is read back

  /** Ordering members moves nothing deeper and renames nothing. */
  lemma {:induction false} NormLimits(v: Value, d: nat)
    ensures Within(Norm(v), d) ==> Within(v, d)
    ensures NulFree(Norm(v)) ==> NulFree(v)
    decreases v
  {
    match v {
      case Array(items) =>
        NormArray(v);
        forall i | 0 <= i < |items|
          ensures d >= 1 && Within(NormItems(items)[i], d - 1) ==> Within(items[i], d - 1)
          ensures NulFree(NormItems(items)[i]) ==> NulFree(items[i])
        {
          NormItemsAt(items, i);
          NormLimits(items[i], if d >= 1 then d - 1 else 0);
        }
      case Object(ms) =>
        NormObject(v);
        var r := NormMembers(Sort(ms));
        forall i | 0 <= i < |ms|
          ensures d >= 1 && Within(Norm(v), d) ==> Within(ms[i].val, d - 1)
          ensures NulFree(Norm(v)) ==> (ms[i].key == [] || ms[i].key[0] != 0) && NulFree(ms[i].val)
        {
          MemberLimits(v, i);
          NormLimits(ms[i].val, if d >= 1 then d - 1 else 0);
        }
      case _ =>
    }
  }

  /** Each member of the ordered object is one of the members, ordered. */
  lemma MemberLimits(v: Value, i: nat)
    requires v.Object? && i < |v.members|
    ensures Norm(v).Object? && exists j :: 0 <= j < |Norm(v).members| && Norm(v).members[j] == NormMember(v.members[i])
  {
    hide NormMembers, Sort, NormMember;
    NormObject(v);
    NormMembersOfSort(v.members, NormMember(v.members[i]));
    assert HasNorm(v.members, NormMember(v.members[i]));
  }

  /**
   * A printed value is read back exactly when it is at most 511 containers deep and, for Parse, has no key that begins
   * with NUL.
   */
  lemma ReadBackExactly(v: Value, assoc: bool)
    requires WellFormed(v) && Canon(v).Some?
    ensures Document(assoc, Canon(v).value).Ok? <==> Within(v, MAX_DEPTH - 1) && (assoc || NulFree(v))
  {
    hide *;
    if Within(v, Limit()) && (assoc || NulFree(v)) {
      ReadableIs(v, assoc);
      PrintedIsRead(v, assoc);
    }
    if Document(assoc, Canon(v).value).Ok? {
      var c := Canon(v).value;
      var d := HasDepth(v);
      DecodedIsReadable(assoc, c);
      CanonFirst(v);
      DocumentIs(assoc, c);
      ValueLaxer(assoc, c, 0, 0, -(d as int));
      ReadBack(v, c, d, -(d as int));
      ReadableGives(Norm(v), assoc);
      NormLimits(v, Limit());
    }
    LimitIs();
  }

  /** The deepest nesting the parser accepts. */
  function Limit(): nat { MAX_DEPTH - 1 }

  lemma LimitIs()
    ensures Limit() == MAX_DEPTH - 1
  {
  }

  lemma ReadableIs(v: Value, assoc: bool)
    requires WellFormed(v) && Within(v, Limit()) && (assoc || NulFree(v))
    ensures Readable(v, assoc, 0, MAX_DEPTH - 1)
  {
    hide WellFormed, Within, NulFree;
  }

  lemma ReadableGives(v: Value, assoc: bool)
    requires Readable(v, assoc, 0, MAX_DEPTH - 1)
    ensures Within(v, Limit()) && (assoc || NulFree(v))
  {
    hide WellFormed, Within, NulFree;
  }

  lemma DocumentIs(assoc: bool, c: Bytes)
    requires c != [] && !Space(c[0]) && Document(assoc, c).Ok?
    ensures PValue(assoc, c, 0, 0).Ok? && Document(assoc, c).value == PValue(assoc, c, 0, 0).value
  {
    hide PValue;
  }
}

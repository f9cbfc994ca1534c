/** Parsing what the canonicaliser prints, and what equal canonical bytes mean. */
module JsonRoundTrip {
  import opened Bytes
  import opened KeyOrder
  import opened JsonValue
  import opened JsonSyntax
  import opened Canonical
  import opened JsonScalars

  /** The same value with every object's members in key order. */
  function Norm(v: Value): Value
    decreases Size(v)
  {
    match v
    case Array(items) => Array(NormItems(items))
    case Object(ms) => Object(NormMembers(Sort(ms)))
    case _ => v
  }

  function NormItems(items: seq<Value>): (r: seq<Value>)
    ensures |r| == |items|
    decreases ItemsSize(items)
  {
    if items == [] then [] else [Norm(items[0])] + NormItems(items[1..])
  }

  function NormMembers(ms: seq<Member>): (r: seq<Member>)
    ensures |r| == |ms|
    decreases MembersSize(ms)
  {
    if ms == [] then [] else [Member(ms[0].key, Norm(ms[0].val))] + NormMembers(ms[1..])
  }

  /** At most d containers deep. */
  predicate Within(v: Value, d: nat)
    decreases v
  {
    match v
    case Array(items) => d >= 1 && forall i :: 0 <= i < |items| ==> Within(items[i], d - 1)
    case Object(ms) => d >= 1 && forall i :: 0 <= i < |ms| ==> Within(ms[i].val, d - 1)
    case _ => true
  }

  /** No key begins with NUL, which only ParseAssoc reads. */
  predicate NulFree(v: Value)
    decreases v
  {
    match v
    case Array(items) => forall i :: 0 <= i < |items| ==> NulFree(items[i])
    case Object(ms) => forall i :: 0 <= i < |ms| ==> (ms[i].key == [] || ms[i].key[0] != 0) && NulFree(ms[i].val)
    case _ => true
  }

  /** A value that the parser can hold when it is itself inside depth containers. */
  ghost predicate Readable(v: Value, assoc: bool, depth: int, d: nat)
  {
    WellFormed(v) && (assoc || NulFree(v)) && Within(v, d) && depth + d < MAX_DEPTH
  }

  ghost predicate AllReadable(items: seq<Value>, assoc: bool, depth: int, d: nat)
  {
    forall i :: 0 <= i < |items| ==> Readable(items[i], assoc, depth, d)
  }

  ghost predicate MembersReadable(ms: seq<Member>, assoc: bool, depth: int, d: nat)
  {
    forall i :: 0 <= i < |ms| ==>
      && ValidUtf8(ms[i].key) && (assoc || ms[i].key == [] || ms[i].key[0] != 0)
      && Readable(ms[i].val, assoc, depth, d)
  }

  // ---- positions

  lemma NoSpace(data: Bytes, pos: nat)
    requires pos < |data| && !Space(data[pos])
    ensures SkipSpace(data, pos) == pos
  {
  }

  /** A comma or closing bracket ends a value and is no space. */
  lemma Closes(data: Bytes, pos: nat, b: byte)
    requires pos < |data| && data[pos] == b && (b == 0x2C || b == 0x5D || b == 0x7D)
    ensures ByteAt(data, pos, b) && Delimited(data, pos) && SkipSpace(data, pos) == pos
  {
  }

  lemma ColonAt(data: Bytes, pos: nat)
    requires pos < |data| && data[pos] == 0x3A
    ensures ByteAt(data, pos, 0x3A) && SkipSpace(data, pos) == pos
  {
  }

  /** The first byte of an encoding says what kind of value follows, and is never a space or a closing bracket. */
  lemma CanonFirst(v: Value)
    requires Canon(v).Some?
    ensures var c := Canon(v).value;
            c != [] && !Space(c[0]) && c[0] != 0x5D && c[0] != 0x7D && c[0] != 0x2C
  {
    match v
    case Int(n) =>
      DecimalDigits(if n < 0 then -n else n);
    case _ =>
  }

  // ---- reading values

  lemma {:induction false} ReadCanon(v: Value, assoc: bool, data: Bytes, pos: nat, depth: int, d: nat)
    requires Canon(v).Some? && Placed(data, pos, Canon(v).value) && Delimited(data, pos + |Canon(v).value|)
    requires Readable(v, assoc, depth, d)
    ensures PValue(assoc, data, pos, depth) == Ok(Norm(v), pos + |Canon(v).value|)
    decreases Size(v), 2
  {
    hide *;
    match v {
      case Array(items) => ReadCanonArray(v, assoc, data, pos, depth, d);
      case Object(ms) => ReadCanonObject(v, assoc, data, pos, depth, d);
      case _ => ReadCanonScalar(v, assoc, data, pos, depth, d);
    }
  }

  lemma ReadCanonScalar(v: Value, assoc: bool, data: Bytes, pos: nat, depth: int, d: nat)
    requires !v.Array? && !v.Object? && Readable(v, assoc, depth, d)
    requires Canon(v).Some? && Placed(data, pos, Canon(v).value) && Delimited(data, pos + |Canon(v).value|)
    ensures PValue(assoc, data, pos, depth) == Ok(Norm(v), pos + |Canon(v).value|)
  {
    hide Str, Number, Placed, Escaped, Decimal, ValidUtf8;
    var c := Canon(v).value;
    if v.Int? {
      ReadDecimal(data, pos, v.n, c);
    } else if v.String? {
      ReadCanonString(data, pos, v.s);
    } else {
      PlacedAt(data, pos, c, 0);
      PlacedWord(data, pos, c);
    }
  }

  lemma PlacedWord(data: Bytes, pos: nat, word: Bytes)
    requires Placed(data, pos, word)
    ensures pos + |word| <= |data| && forall v :: Literal(data, pos, word, v) == Ok(v, pos + |word|)
  {
  }

  lemma {:induction false} ReadCanonArray(v: Value, assoc: bool, data: Bytes, pos: nat, depth: int, d: nat)
    requires v.Array? && Readable(v, assoc, depth, d)
    requires Canon(v).Some? && Placed(data, pos, Canon(v).value)
    ensures PValue(assoc, data, pos, depth) == Ok(Norm(v), pos + |Canon(v).value|)
    decreases Size(v), 1
  {
    hide *;
    var items := v.items;
    ArrayOpens(v, data, pos);
    PArrayStep(assoc, data, pos, depth);
    ReadableItems(v, assoc, depth, d);
    NormArray(v);
    if items != [] {
      ReadCanonItems(items, assoc, data, pos + 1, depth + 1, d - 1, []);
      assert [] + NormItems(items) == NormItems(items);
    }
  }

  lemma ArrayOpens(v: Value, data: Bytes, pos: nat)
    requires v.Array? && Canon(v).Some? && Placed(data, pos, Canon(v).value)
    ensures CanonItems(v.items).Some? && |Canon(v).value| == |CanonItems(v.items).value| + 2
    ensures ByteAt(data, pos, 0x5B) && Placed(data, pos + 1, CanonItems(v.items).value + [0x5D])
    ensures SkipSpace(data, pos + 1) == pos + 1
    ensures v.items == [] <==> ByteAt(data, pos + 1, 0x5D)
  {
    hide Placed, SkipSpace;
    var inner := CanonItems(v.items).value;
    assert Canon(v).value == [0x5B] + (inner + [0x5D]);
    PlacedAt(data, pos, Canon(v).value, 0);
    PlacedAt(data, pos, Canon(v).value, 1);
    PlacedSplit(data, pos, [0x5B], inner + [0x5D]);
    if v.items != [] {
      ItemsFirst(v.items);
    }
    NoSpace(data, pos + 1);
  }

  lemma ItemsFirst(items: seq<Value>)
    requires items != [] && CanonItems(items).Some?
    ensures Canon(items[0]).Some? && CanonItems(items).value != []
    ensures var b := CanonItems(items).value[0]; !Space(b) && b != 0x5D
  {
    CanonFirst(items[0]);
  }

  lemma PArrayStep(assoc: bool, data: Bytes, pos: nat, depth: int)
    requires ByteAt(data, pos, 0x5B)
    ensures pos < |data|
    ensures PValue(assoc, data, pos, depth) ==
              if depth + 1 >= MAX_DEPTH then Fail(TooDeep, pos)
              else
                var start := SkipSpace(data, pos + 1);
                if ByteAt(data, start, 0x5D) then Ok(Array([]), start + 1)
                else PItems(assoc, data, start, depth + 1, [])
  {
  }

  lemma ReadableItems(v: Value, assoc: bool, depth: int, d: nat)
    requires v.Array? && Readable(v, assoc, depth, d)
    ensures d >= 1 && depth + d < MAX_DEPTH && AllReadable(v.items, assoc, depth + 1, d - 1)
  {
  }

  lemma NormArray(v: Value)
    requires v.Array?
    ensures Norm(v) == Array(NormItems(v.items)) && Size(v) > ItemsSize(v.items)
    ensures NormItems([]) == [] && CanonItems([]) == Some([])
  {
  }

  lemma {:induction false} ReadCanonItems(items: seq<Value>, assoc: bool, data: Bytes, pos: nat, depth: int, d: nat,
                                          acc: seq<Value>)
    requires items != [] && CanonItems(items).Some? && Placed(data, pos, CanonItems(items).value + [0x5D])
    requires AllReadable(items, assoc, depth, d)
    ensures pos <= |data|
    ensures PItems(assoc, data, pos, depth, acc) ==
              Ok(Array(acc + NormItems(items)), pos + |CanonItems(items).value| + 1)
    decreases ItemsSize(items), 0
  {
    hide *;
    CanonItemsStep(items);
    PlacedItems(items, data, pos);
    var c := Canon(items[0]).value;
    AllReadableHead(items, assoc, depth, d);
    ReadCanon(items[0], assoc, data, pos, depth, d);
    PItemsTurn(assoc, data, pos, depth, acc, Norm(items[0]), pos + |c|);
    if |items| > 1 {
      ReadCanonItems(items[1..], assoc, data, pos + |c| + 1, depth, d, acc + [Norm(items[0])]);
      assert acc + [Norm(items[0])] + NormItems(items[1..]) == acc + ([Norm(items[0])] + NormItems(items[1..]));
    } else {
      assert items[1..] == [];
      assert acc + ([Norm(items[0])] + []) == acc + [Norm(items[0])];
    }
  }

  lemma CanonItemsStep(items: seq<Value>)
    requires items != [] && CanonItems(items).Some?
    ensures Canon(items[0]).Some? && CanonItems(items[1..]).Some?
    ensures var c := Canon(items[0]).value;
            CanonItems(items).value == if |items| == 1 then c else c + [0x2C] + CanonItems(items[1..]).value
    ensures NormItems(items) == [Norm(items[0])] + NormItems(items[1..])
    ensures ItemsSize(items) > Size(items[0]) && ItemsSize(items) > ItemsSize(items[1..])
    ensures NormItems([]) == []
  {
  }

  /** Where the first item ends and the next begins. */
  lemma PlacedItems(items: seq<Value>, data: Bytes, pos: nat)
    requires items != [] && CanonItems(items).Some? && Canon(items[0]).Some?
    requires Placed(data, pos, CanonItems(items).value + [0x5D])
    ensures var c := Canon(items[0]).value;
            && Placed(data, pos, c) && Delimited(data, pos + |c|) && pos + |c| < |data|
            && SkipSpace(data, pos + |c|) == pos + |c|
            && if |items| == 1 then ByteAt(data, pos + |c|, 0x5D)
               else
                 && ByteAt(data, pos + |c|, 0x2C) && SkipSpace(data, pos + |c| + 1) == pos + |c| + 1
                 && CanonItems(items[1..]).Some? && Placed(data, pos + |c| + 1, CanonItems(items[1..]).value + [0x5D])
  {
    hide *;
    CanonItemsStep(items);
    var c := Canon(items[0]).value;
    if |items| == 1 {
      PlacedSplit(data, pos, c, [0x5D]);
      PlacedAt(data, pos + |c|, [0x5D], 0);
      Closes(data, pos + |c|, 0x5D);
    } else {
      var rest := CanonItems(items[1..]).value + [0x5D];
      assert CanonItems(items).value + [0x5D] == c + ([0x2C] + rest);
      PlacedSplit(data, pos, c, [0x2C] + rest);
      PlacedSplit(data, pos + |c|, [0x2C], rest);
      PlacedAt(data, pos + |c|, [0x2C], 0);
      Closes(data, pos + |c|, 0x2C);
      ItemsFirst(items[1..]);
      PlacedAt(data, pos + |c| + 1, rest, 0);
      NoSpace(data, pos + |c| + 1);
    }
  }

  lemma AllReadableHead(items: seq<Value>, assoc: bool, depth: int, d: nat)
    requires items != [] && AllReadable(items, assoc, depth, d)
    ensures Readable(items[0], assoc, depth, d) && AllReadable(items[1..], assoc, depth, d)
  {
  }

  /** One turn of the loop over items, once the value before it is known. */
  lemma PItemsTurn(assoc: bool, data: Bytes, pos: nat, depth: int, acc: seq<Value>, v: Value, end: nat)
    requires pos <= |data| && PValue(assoc, data, pos, depth) == Ok(v, end) && end < |data|
    requires SkipSpace(data, end) == end
    ensures ByteAt(data, end, 0x5D) ==> PItems(assoc, data, pos, depth, acc) == Ok(Array(acc + [v]), end + 1)
    ensures ByteAt(data, end, 0x2C) && SkipSpace(data, end + 1) == end + 1 ==>
              PItems(assoc, data, pos, depth, acc) == PItems(assoc, data, end + 1, depth, acc + [v])
  {
    hide PValue, SkipSpace, Unexpected;
  }

  // ---- objects

  lemma {:induction false} ReadCanonObject(v: Value, assoc: bool, data: Bytes, pos: nat, depth: int, d: nat)
    requires v.Object? && Readable(v, assoc, depth, d)
    requires Canon(v).Some? && Placed(data, pos, Canon(v).value)
    ensures PValue(assoc, data, pos, depth) == Ok(Norm(v), pos + |Canon(v).value|)
    decreases Size(v), 1
  {
    hide *;
    var sorted := Sort(v.members);
    ObjectOpens(v, data, pos);
    PObjectStep(assoc, data, pos, depth);
    ReadableMembers(v, assoc, depth, d);
    NormObject(v);
    if sorted != [] {
      ReadCanonMembers(sorted, assoc, data, pos + 1, depth + 1, d - 1, []);
      assert [] + NormMembers(sorted) == NormMembers(sorted);
    }
  }

  lemma ObjectOpens(v: Value, data: Bytes, pos: nat)
    requires v.Object? && Canon(v).Some? && Placed(data, pos, Canon(v).value)
    ensures var inner := CanonMembers(Sort(v.members));
            && inner.Some? && |Canon(v).value| == |inner.value| + 2
            && Placed(data, pos + 1, inner.value + [0x7D])
    ensures ByteAt(data, pos, 0x7B) && SkipSpace(data, pos + 1) == pos + 1
    ensures Sort(v.members) == [] <==> ByteAt(data, pos + 1, 0x7D)
  {
    hide Placed, SkipSpace, Sort;
    var inner := CanonMembers(Sort(v.members)).value;
    assert Canon(v).value == [0x7B] + (inner + [0x7D]);
    PlacedAt(data, pos, Canon(v).value, 0);
    PlacedAt(data, pos, Canon(v).value, 1);
    PlacedSplit(data, pos, [0x7B], inner + [0x7D]);
    if Sort(v.members) != [] {
      assert inner[0] == 0x22;
    }
    NoSpace(data, pos + 1);
  }

  lemma PObjectStep(assoc: bool, data: Bytes, pos: nat, depth: int)
    requires ByteAt(data, pos, 0x7B)
    ensures pos < |data|
    ensures PValue(assoc, data, pos, depth) ==
              if depth + 1 >= MAX_DEPTH then Fail(TooDeep, pos)
              else
                var start := SkipSpace(data, pos + 1);
                if ByteAt(data, start, 0x7D) then Ok(Object([]), start + 1)
                else PMembers(assoc, data, start, depth + 1, [])
  {
  }

  lemma ReadableMembers(v: Value, assoc: bool, depth: int, d: nat)
    requires v.Object? && Readable(v, assoc, depth, d)
    ensures d >= 1 && depth + d < MAX_DEPTH
    ensures MembersReadable(Sort(v.members), assoc, depth + 1, d - 1) && KeysApart([], Sort(v.members))
  {
    hide Sort, Less, ValidUtf8, Placed;
    assert ValidKeys(v.members);
    SortSorted(v.members);
    SortSameMembers(v.members);
    var s := Sort(v.members);
    forall i, j | 0 <= i < j < |s|
      ensures s[i].key != s[j].key
    {
      LessStrict(s[i].key, s[j].key, s[j].key);
    }
    forall i | 0 <= i < |s|
      ensures s[i] in v.members
    {
      assert s[i] in s;
    }
  }

  lemma NormObject(v: Value)
    requires v.Object?
    ensures Norm(v) == Object(NormMembers(Sort(v.members))) && Size(v) > MembersSize(Sort(v.members))
    ensures NormMembers([]) == [] && CanonMembers([]) == Some([])
  {
  }

  /** The keys still to come differ from each other and from those already read. */
  ghost predicate KeysApart(acc: seq<Member>, ms: seq<Member>)
  {
    && Distinct(ms)
    && forall i :: 0 <= i < |ms| ==> !HasKey(acc, ms[i].key)
  }

  lemma KeysApartNext(acc: seq<Member>, ms: seq<Member>, v: Value)
    requires ms != [] && KeysApart(acc, ms)
    ensures Put(acc, ms[0].key, v) == acc + [Member(ms[0].key, v)]
    ensures KeysApart(acc + [Member(ms[0].key, v)], ms[1..])
  {
    PutNew(acc, ms[0].key, v);
    var more := acc + [Member(ms[0].key, v)];
    forall i | 0 <= i < |ms| - 1
      ensures !HasKey(more, ms[1..][i].key)
    {
      assert ms[1..][i] == ms[i + 1];
      forall j | 0 <= j < |more|
        ensures more[j].key != ms[i + 1].key
      {
        if j < |acc| {
          assert !HasKey(acc, ms[i + 1].key) && more[j] == acc[j];
        }
      }
    }
  }

  lemma {:induction false} ReadCanonMembers(ms: seq<Member>, assoc: bool, data: Bytes, pos: nat, depth: int, d: nat,
                                            acc: seq<Member>)
    requires ms != [] && CanonMembers(ms).Some? && Placed(data, pos, CanonMembers(ms).value + [0x7D])
    requires MembersReadable(ms, assoc, depth, d) && KeysApart(acc, ms)
    ensures pos <= |data|
    ensures PMembers(assoc, data, pos, depth, acc) ==
              Ok(Object(acc + NormMembers(ms)), pos + |CanonMembers(ms).value| + 1)
    decreases MembersSize(ms), 0
  {
    hide *;
    CanonMembersStep(ms);
    PlacedMembers(ms, data, pos);
    var key, c := ms[0].key, Canon(ms[0].val).value;
    var start := pos + |CanonString(key)| + 1;
    MembersReadableHead(ms, assoc, depth, d);
    ReadCanon(ms[0].val, assoc, data, start, depth, d);
    PPairRead(assoc, data, pos, depth, key, Norm(ms[0].val), start + |c|);
    KeysApartNext(acc, ms, Norm(ms[0].val));
    PMembersTurn(assoc, data, pos, depth, acc, Member(key, Norm(ms[0].val)), start + |c|);
    if |ms| > 1 {
      var more := acc + [Member(key, Norm(ms[0].val))];
      ReadCanonMembers(ms[1..], assoc, data, start + |c| + 1, depth, d, more);
      assert more + NormMembers(ms[1..]) == acc + ([Member(key, Norm(ms[0].val))] + NormMembers(ms[1..]));
    } else {
      assert ms[1..] == [];
      assert acc + ([Member(key, Norm(ms[0].val))] + []) == acc + [Member(key, Norm(ms[0].val))];
    }
  }

  lemma CanonMembersStep(ms: seq<Member>)
    requires ms != [] && CanonMembers(ms).Some?
    ensures Canon(ms[0].val).Some? && CanonMembers(ms[1..]).Some?
    ensures var head := CanonString(ms[0].key) + [0x3A] + Canon(ms[0].val).value;
            CanonMembers(ms).value == if |ms| == 1 then head else head + [0x2C] + CanonMembers(ms[1..]).value
    ensures NormMembers(ms) == [Member(ms[0].key, Norm(ms[0].val))] + NormMembers(ms[1..])
    ensures MembersSize(ms) > Size(ms[0].val) && MembersSize(ms) > MembersSize(ms[1..])
    ensures NormMembers([]) == []
  {
  }

  lemma MembersFirst(ms: seq<Member>)
    requires ms != [] && CanonMembers(ms).Some?
    ensures CanonMembers(ms).value != [] && CanonMembers(ms).value[0] == 0x22 && !Space(0x22)
  {
  }

  /** Where the first key, its value and the next member are. */
  lemma PlacedMembers(ms: seq<Member>, data: Bytes, pos: nat)
    requires ms != [] && CanonMembers(ms).Some? && Canon(ms[0].val).Some?
    requires Placed(data, pos, CanonMembers(ms).value + [0x7D])
    ensures var k, c := CanonString(ms[0].key), Canon(ms[0].val).value;
            var start := pos + |k| + 1;
            var end := start + |c|;
            && Placed(data, pos, k)
            && SkipSpace(data, pos + |k|) == pos + |k| && ByteAt(data, pos + |k|, 0x3A)
            && Placed(data, start, c) && SkipSpace(data, start) == start
            && end < |data| && Delimited(data, end) && SkipSpace(data, end) == end
            && if |ms| == 1 then ByteAt(data, end, 0x7D)
               else
                 && ByteAt(data, end, 0x2C) && SkipSpace(data, end + 1) == end + 1
                 && CanonMembers(ms[1..]).Some? && Placed(data, end + 1, CanonMembers(ms[1..]).value + [0x7D])
  {
    hide *;
    CanonMembersStep(ms);
    var k, c := CanonString(ms[0].key), Canon(ms[0].val).value;
    var start := pos + |k| + 1;
    var end := start + |c|;
    var after := if |ms| == 1 then [0x7D] else [0x2C] + (CanonMembers(ms[1..]).value + [0x7D]);
    assert CanonMembers(ms).value + [0x7D] == k + ([0x3A] + (c + after));
    CanonFirst(ms[0].val);
    PlacedPair(data, pos, k, c, after);
    ColonAt(data, pos + |k|);
    NoSpace(data, start);
    Closes(data, end, after[0]);
    if |ms| > 1 {
      var rest := CanonMembers(ms[1..]).value + [0x7D];
      PlacedSplit(data, end, [0x2C], rest);
      MembersFirst(ms[1..]);
      PlacedAt(data, end + 1, rest, 0);
      NoSpace(data, end + 1);
    }
  }

  lemma PlacedPair(data: Bytes, pos: nat, k: Bytes, c: Bytes, after: Bytes)
    requires Placed(data, pos, k + ([0x3A] + (c + after))) && c != [] && after != []
    ensures var start := pos + |k| + 1;
            && start + |c| < |data|
            && Placed(data, pos, k) && data[pos + |k|] == 0x3A
            && Placed(data, start, c) && data[start] == c[0]
            && Placed(data, start + |c|, after) && data[start + |c|] == after[0]
  {
    hide *;
    PlacedSplit(data, pos, k, [0x3A] + (c + after));
    PlacedSplit(data, pos + |k|, [0x3A], c + after);
    PlacedAt(data, pos + |k|, [0x3A], 0);
    PlacedSplit(data, pos + |k| + 1, c, after);
    PlacedAt(data, pos + |k| + 1, c, 0);
    PlacedAt(data, pos + |k| + 1 + |c|, after, 0);
  }

  lemma MembersReadableHead(ms: seq<Member>, assoc: bool, depth: int, d: nat)
    requires ms != [] && MembersReadable(ms, assoc, depth, d)
    ensures ValidUtf8(ms[0].key) && (assoc || ms[0].key == [] || ms[0].key[0] != 0)
    ensures Readable(ms[0].val, assoc, depth, d) && MembersReadable(ms[1..], assoc, depth, d)
  {
  }

  lemma PPairRead(assoc: bool, data: Bytes, pos: nat, depth: int, key: Bytes, v: Value, end: nat)
    requires ValidUtf8(key) && (assoc || key == [] || key[0] != 0)
    requires Placed(data, pos, CanonString(key))
    requires var colon := pos + |CanonString(key)|;
             && SkipSpace(data, colon) == colon && ByteAt(data, colon, 0x3A)
             && SkipSpace(data, colon + 1) == colon + 1
             && PValue(assoc, data, colon + 1, depth) == Ok(v, end)
    ensures pos <= |data| && PPair(assoc, data, pos, depth) == Ok(Member(key, v), end)
  {
    hide Str, SkipSpace, ValidUtf8, CanonString, Placed, PValue, Unexpected;
    ReadCanonString(data, pos, key);
  }

  lemma PMembersTurn(assoc: bool, data: Bytes, pos: nat, depth: int, acc: seq<Member>, m: Member, end: nat)
    requires pos <= |data| && PPair(assoc, data, pos, depth) == Ok(m, end) && end < |data|
    requires SkipSpace(data, end) == end && Put(acc, m.key, m.val) == acc + [m]
    ensures ByteAt(data, end, 0x7D) ==> PMembers(assoc, data, pos, depth, acc) == Ok(Object(acc + [m]), end + 1)
    ensures ByteAt(data, end, 0x2C) && SkipSpace(data, end + 1) == end + 1 ==>
              PMembers(assoc, data, pos, depth, acc) == PMembers(assoc, data, end + 1, depth, acc + [m])
  {
    hide PPair, SkipSpace, Put;
  }
}

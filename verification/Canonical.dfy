/**
 * internal/cjson/canonical.go: the RFC 8785 encoding restricted to integers. None is an error: a float, or too large.
 */
module Canonical {
  import opened Bytes
  import opened KeyOrder
  import opened JsonValue

  const MAX_EXACT_INT := 9007199254740991

  // ---- sorting members by key

  ghost predicate SortedByKey(ms: seq<Member>)
  {
    forall i, j :: 0 <= i < j < |ms| ==> Less(ms[i].key, ms[j].key)
  }

  /** A bound on recursion: sorting does not change it. */
  function Size(v: Value): nat
    decreases v
  {
    match v
    case Array(items) => 1 + ItemsSize(items)
    case Object(ms) => 1 + MembersSize(ms)
    case _ => 1
  }

  function ItemsSize(items: seq<Value>): nat
    decreases items
  {
    if items == [] then 0 else 1 + Size(items[0]) + ItemsSize(items[1..])
  }

  function MembersSize(ms: seq<Member>): nat
    decreases ms
  {
    if ms == [] then 0 else 1 + Size(ms[0].val) + MembersSize(ms[1..])
  }

  lemma InsertSizes(m: Member, ms: seq<Member>, rest: seq<Member>)
    requires ms != [] && multiset(rest) == multiset(ms[1..]) + multiset{m}
    requires MembersSize(rest) == MembersSize(ms[1..]) + 1 + Size(m.val)
    ensures multiset([ms[0]] + rest) == multiset(ms) + multiset{m}
    ensures MembersSize([ms[0]] + rest) == MembersSize(ms) + 1 + Size(m.val)
  {
    hide Size;
    assert ms == [ms[0]] + ms[1..];
    assert ([ms[0]] + rest)[1..] == rest;
  }

  function Insert(m: Member, ms: seq<Member>): (r: seq<Member>)
    ensures multiset(r) == multiset(ms) + multiset{m}
    ensures MembersSize(r) == MembersSize(ms) + 1 + Size(m.val)
  {
    if ms == [] then [m]
    else if Less(m.key, ms[0].key) then [m] + ms
    else
      InsertSizes(m, ms, Insert(m, ms[1..]));
      [ms[0]] + Insert(m, ms[1..])
  }

  function Sort(ms: seq<Member>): (r: seq<Member>)
    ensures multiset(r) == multiset(ms)
    ensures MembersSize(r) == MembersSize(ms)
  {
    if ms == [] then []
    else
      assert ms == [ms[0]] + ms[1..];
      Insert(ms[0], Sort(ms[1..]))
  }

  lemma SortSameMembers(ms: seq<Member>)
    ensures |Sort(ms)| == |ms|
    ensures forall m :: m in Sort(ms) <==> m in ms
  {
    assert forall m :: m in Sort(ms) <==> m in multiset(Sort(ms));
    assert |multiset(Sort(ms))| == |Sort(ms)| && |multiset(ms)| == |ms|;
  }

  predicate ValidKeys(ms: seq<Member>)
  {
    forall i :: 0 <= i < |ms| ==> ValidUtf8(ms[i].key)
  }

  lemma {:induction false} InsertSorted(m: Member, ms: seq<Member>)
    requires SortedByKey(ms) && ValidUtf8(m.key) && ValidKeys(ms)
    requires forall x :: x in ms ==> x.key != m.key
    ensures SortedByKey(Insert(m, ms))
  {
    hide Less, ValidUtf8;
    if ms != [] {
      forall i | 0 <= i < |ms|
        ensures Less(m.key, ms[0].key) ==> Less(m.key, ms[i].key)
      {
        LessStrict(m.key, ms[0].key, ms[i].key);
      }
      if !Less(m.key, ms[0].key) {
        InsertSorted(m, ms[1..]);
        assert ms[0] in ms;
        LessStrict(m.key, ms[0].key, m.key);
        var r := Insert(m, ms[1..]);
        forall i | 0 <= i < |r|
          ensures Less(ms[0].key, r[i].key)
        {
          assert r[i] in multiset(r);
          if r[i] != m {
            assert r[i] in ms[1..];
          }
        }
      }
    }
  }

  lemma {:induction false} SortSorted(ms: seq<Member>)
    requires Distinct(ms) && ValidKeys(ms)
    ensures SortedByKey(Sort(ms)) && ValidKeys(Sort(ms))
  {
    hide Less, ValidUtf8;
    SortSameMembers(ms);
    assert forall i :: 0 <= i < |ms| ==> Sort(ms)[i] in ms;
    if ms != [] {
      SortSorted(ms[1..]);
      SortSameMembers(ms[1..]);
      InsertSorted(ms[0], Sort(ms[1..]));
    }
  }

  /** Strictly sorted members are determined by which they are. */
  lemma {:induction false} SortedUnique(a: seq<Member>, b: seq<Member>)
    requires SortedByKey(a) && SortedByKey(b)
    requires forall m :: m in a <==> m in b
    ensures a == b
  {
    hide Less;
    if a == [] {
      assert forall i :: 0 <= i < |b| ==> b[i] in b;
    } else {
      assert a[0] in a;
      assert a[0] in b;
      assert b[0] in b;
      SameHead(a, b);
      forall m
        ensures m in a[1..] <==> m in b[1..]
      {
        TailMember(a, m);
        TailMember(b, m);
      }
      SortedUnique(a[1..], b[1..]);
      assert a == [a[0]] + a[1..] && b == [b[0]] + b[1..];
    }
  }

  lemma SameHead(a: seq<Member>, b: seq<Member>)
    requires SortedByKey(a) && SortedByKey(b) && a != [] && b != []
    requires a[0] in b && b[0] in a
    ensures a[0] == b[0]
  {
    hide Less;
    var i :| 0 <= i < |b| && b[i] == a[0];
    var j :| 0 <= j < |a| && a[j] == b[0];
    LessStrict(a[0].key, b[0].key, a[0].key);
  }

  lemma TailMember(a: seq<Member>, m: Member)
    requires SortedByKey(a) && a != []
    ensures m in a[1..] <==> m in a && m != a[0]
  {
    hide Less;
    if m in a[1..] {
      var i :| 0 <= i < |a| - 1 && a[1..][i] == m;
      assert Less(a[0].key, a[i + 1].key);
      LessStrict(m.key, m.key, m.key);
    }
    if m in a && m != a[0] {
      var i :| 0 <= i < |a| && a[i] == m;
      assert a[1..][i - 1] == m;
    }
  }

  /** Canonical order does not depend on insertion order. */
  lemma SortOfPermutation(a: seq<Member>, b: seq<Member>)
    requires Distinct(a) && Distinct(b) && ValidKeys(a) && ValidKeys(b)
    requires forall m :: m in a <==> m in b
    ensures Sort(a) == Sort(b)
  {
    SortSorted(a);
    SortSorted(b);
    SortSameMembers(a);
    SortSameMembers(b);
    SortedUnique(Sort(a), Sort(b));
  }

  /** Members in order stay as they are. */
  lemma {:induction false} SortOfSorted(ms: seq<Member>)
    requires SortedByKey(ms)
    ensures Sort(ms) == ms
  {
    hide Less, MembersSize;
    if ms != [] {
      SortOfSorted(ms[1..]);
      assert ms == [ms[0]] + ms[1..];
      if |ms| > 1 {
        assert Less(ms[0].key, ms[1].key);
      }
    }
  }

  // ---- the encoding

  /** strconv.AppendInt, for n >= 0. */
  function Decimal(n: nat): (digits: Bytes)
    ensures digits != []
  {
    if n < 10 then [(0x30 + n) as byte] else Decimal(n / 10) + [(0x30 + n % 10) as byte]
  }

  function HexLetter(n: int): byte
    requires 0 <= n < 0x10
  {
    if n < 10 then (0x30 + n) as byte else (0x61 + n - 10) as byte
  }

  function EscapeByte(b: byte): Bytes
  {
    if b == 0x22 then [0x5C, 0x22]
    else if b == 0x5C then [0x5C, 0x5C]
    else if b == 0x08 then [0x5C, 0x62]
    else if b == 0x09 then [0x5C, 0x74]
    else if b == 0x0A then [0x5C, 0x6E]
    else if b == 0x0C then [0x5C, 0x66]
    else if b == 0x0D then [0x5C, 0x72]
    else if b < 0x20 then [0x5C, 0x75, 0x30, 0x30, HexLetter(b as int / 0x10), HexLetter(b as int % 0x10)]
    else [b]
  }

  function Escaped(s: Bytes): Bytes
  {
    if s == [] then [] else EscapeByte(s[0]) + Escaped(s[1..])
  }

  function CanonString(s: Bytes): Bytes
  {
    [0x22] + Escaped(s) + [0x22]
  }

  function Canon(v: Value): (r: Option<Bytes>)
    decreases Size(v)
  {
    match v
    case Null => Some(Ascii("null"))
    case Bool(b) => Some(if b then Ascii("true") else Ascii("false"))
    case Int(n) =>
      if n > MAX_EXACT_INT || n < -MAX_EXACT_INT then None
      else if n < 0 then Some([0x2D] + Decimal(-n)) else Some(Decimal(n))
    case Float(_) => None
    case String(s) => Some(CanonString(s))
    case Array(items) =>
      var inner := CanonItems(items);
      if inner.None? then None else Some([0x5B] + inner.value + [0x5D])
    case Object(ms) =>
      var inner := CanonMembers(Sort(ms));
      if inner.None? then None else Some([0x7B] + inner.value + [0x7D])
  }

  /** Encodings joined by commas. */
  function CanonItems(items: seq<Value>): (r: Option<Bytes>)
    decreases ItemsSize(items)
  {
    if items == [] then Some([])
    else
      var head, rest := Canon(items[0]), CanonItems(items[1..]);
      if head.None? || rest.None? then None
      else Some(if |items| == 1 then head.value else head.value + [0x2C] + rest.value)
  }

  /** Members in the order given, joined by commas. */
  function CanonMembers(ms: seq<Member>): (r: Option<Bytes>)
    decreases MembersSize(ms)
  {
    if ms == [] then Some([])
    else
      var val, rest := Canon(ms[0].val), CanonMembers(ms[1..]);
      if val.None? || rest.None? then None
      else
        var head := CanonString(ms[0].key) + [0x3A] + val.value;
        Some(if |ms| == 1 then head else head + [0x2C] + rest.value)
  }
}

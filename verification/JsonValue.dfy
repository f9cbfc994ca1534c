/** internal/cjson/value.go: decoded JSON values and the ordered member list of an object. */
module JsonValue {
  import opened Bytes
  import opened KeyOrder

  /**
   * Float stands for any literal Go reads as a float64; the number identifies the float64. Integers are those that
   * fitted a signed 64-bit integer.
   */
  datatype Value =
    | Null
    | Bool(b: bool)
    | Int(n: int)
    | Float(f: int)
    | String(s: Bytes)
    | Array(items: seq<Value>)
    | Object(members: seq<Member>)

  datatype Member = Member(key: Bytes, val: Value)

  /** The name of a field, written in ASCII. */
  function Ascii(name: string): Bytes
  {
    seq(|name|, i requires 0 <= i < |name| => (name[i] as int % 0x100) as byte)
  }

  lemma AsciiInjective(a: string, b: string)
    requires Ascii(a) == Ascii(b)
    requires forall i :: 0 <= i < |a| ==> a[i] as int < 0x100
    requires forall i :: 0 <= i < |b| ==> b[i] as int < 0x100
    ensures a == b
  {
    assert |Ascii(a)| == |a| && |Ascii(b)| == |b|;
    forall i | 0 <= i < |a|
      ensures a[i] == b[i]
    {
      assert Ascii(a)[i] == Ascii(b)[i];
    }
  }

  predicate Distinct(ms: seq<Member>)
  {
    forall i, j :: 0 <= i < j < |ms| ==> ms[i].key != ms[j].key
  }

  const MIN_INT64 := -0x8000_0000_0000_0000
  const MAX_INT64 := 0x7FFF_FFFF_FFFF_FFFF

  /** What every decoded value satisfies: integers fit, strings and keys are UTF-8, and no object repeats a key. */
  predicate WellFormed(v: Value)
  {
    match v
    case Int(n) => MIN_INT64 <= n <= MAX_INT64
    case String(s) => ValidUtf8(s)
    case Array(items) => forall i :: 0 <= i < |items| ==> WellFormed(items[i])
    case Object(ms) =>
      Distinct(ms) && forall i :: 0 <= i < |ms| ==> ValidUtf8(ms[i].key) && WellFormed(ms[i].val)
    case _ => true
  }

  // ---- the member list as a list

  function Lookup(ms: seq<Member>, key: Bytes): Option<Value>
  {
    if ms == [] then None else if ms[0].key == key then Some(ms[0].val) else Lookup(ms[1..], key)
  }

  /** The last value wins, at the first position. */
  function Put(ms: seq<Member>, key: Bytes, v: Value): seq<Member>
  {
    if ms == [] then [Member(key, v)]
    else if ms[0].key == key then [Member(key, v)] + ms[1..]
    else [ms[0]] + Put(ms[1..], key, v)
  }

  function Drop(ms: seq<Member>, key: Bytes): seq<Member>
  {
    if ms == [] then [] else if ms[0].key == key then ms[1..] else [ms[0]] + Drop(ms[1..], key)
  }

  predicate HasKey(ms: seq<Member>, key: Bytes)
  {
    exists i :: 0 <= i < |ms| && ms[i].key == key
  }

  lemma {:induction false} LookupAt(ms: seq<Member>, i: nat)
    requires Distinct(ms) && i < |ms|
    ensures Lookup(ms, ms[i].key) == Some(ms[i].val)
  {
    if i > 0 {
      LookupAt(ms[1..], i - 1);
    }
  }

  lemma {:induction false} LookupAbsent(ms: seq<Member>, key: Bytes)
    ensures Lookup(ms, key).None? <==> !HasKey(ms, key)
  {
    if ms != [] {
      LookupAbsent(ms[1..], key);
      if HasKey(ms[1..], key) {
        var i :| 0 <= i < |ms| - 1 && ms[1..][i].key == key;
        assert ms[i + 1].key == key;
      }
      if HasKey(ms, key) && ms[0].key != key {
        var i :| 0 <= i < |ms| && ms[i].key == key;
        assert ms[1..][i - 1].key == key;
      }
    }
  }

  lemma {:induction false} PutAt(ms: seq<Member>, i: nat, v: Value)
    requires Distinct(ms) && i < |ms|
    ensures Put(ms, ms[i].key, v) == ms[i := Member(ms[i].key, v)]
  {
    if i > 0 {
      PutAt(ms[1..], i - 1, v);
      assert ms == [ms[0]] + ms[1..];
    }
  }

  lemma {:induction false} PutNew(ms: seq<Member>, key: Bytes, v: Value)
    requires !HasKey(ms, key)
    ensures Put(ms, key, v) == ms + [Member(key, v)]
  {
    if ms != [] {
      assert !HasKey(ms[1..], key) by {
        forall i | 0 <= i < |ms| - 1
          ensures ms[1..][i].key != key
        {
          assert ms[i + 1].key != key;
        }
      }
      PutNew(ms[1..], key, v);
    }
  }

  lemma {:induction false} DropAt(ms: seq<Member>, i: nat)
    requires Distinct(ms) && i < |ms|
    ensures Drop(ms, ms[i].key) == ms[..i] + ms[i + 1..]
  {
    if i > 0 {
      var rest := ms[1..];
      DropAt(rest, i - 1);
      assert ms[..i] + ms[i + 1..] == [ms[0]] + (rest[..i - 1] + rest[i..]);
    }
  }

  lemma {:induction false} DropAbsent(ms: seq<Member>, key: Bytes)
    requires !HasKey(ms, key)
    ensures Drop(ms, key) == ms
  {
    if ms != [] {
      assert !HasKey(ms[1..], key) by {
        forall i | 0 <= i < |ms| - 1
          ensures ms[1..][i].key != key
        {
          assert ms[i + 1].key != key;
        }
      }
      DropAbsent(ms[1..], key);
    }
  }

  /** The list behaves as a map. */
  lemma {:induction false} LookupPut(ms: seq<Member>, key: Bytes, v: Value, other: Bytes)
    ensures Lookup(Put(ms, key, v), other) == if other == key then Some(v) else Lookup(ms, other)
  {
    if ms != [] {
      LookupPut(ms[1..], key, v, other);
    }
  }

  lemma {:induction false} LookupDrop(ms: seq<Member>, key: Bytes, other: Bytes)
    requires Distinct(ms)
    ensures Lookup(Drop(ms, key), other) == if other == key then None else Lookup(ms, other)
  {
    if ms != [] {
      LookupDrop(ms[1..], key, other);
      if ms[0].key == key {
        LookupAbsent(ms[1..], key);
      }
    }
  }

  lemma PutDistinct(ms: seq<Member>, key: Bytes, v: Value)
    requires Distinct(ms)
    ensures Distinct(Put(ms, key, v))
  {
    if i :| 0 <= i < |ms| && ms[i].key == key {
      PutAt(ms, i, v);
    } else {
      PutNew(ms, key, v);
    }
  }

  // ---- the class

  const SMALL_OBJECT := 16

  function Zip(keys: seq<Bytes>, vals: seq<Value>): seq<Member>
    requires |keys| == |vals|
  {
    seq(|keys|, i requires 0 <= i < |keys| => Member(keys[i], vals[i]))
  }

  predicate DistinctKeys(keys: seq<Bytes>)
  {
    forall i, j :: 0 <= i < j < |keys| ==> keys[i] != keys[j]
  }

  lemma ZipFacts(keys: seq<Bytes>, vals: seq<Value>)
    requires |keys| == |vals| && DistinctKeys(keys)
    ensures |Zip(keys, vals)| == |keys| && Distinct(Zip(keys, vals))
    ensures forall i :: 0 <= i < |keys| ==> Zip(keys, vals)[i] == Member(keys[i], vals[i])
    ensures forall key :: HasKey(Zip(keys, vals), key) <==> key in keys
  {
    var ms := Zip(keys, vals);
    forall key
      ensures HasKey(ms, key) <==> key in keys
    {
      if key in keys {
        var i :| 0 <= i < |keys| && keys[i] == key;
        assert ms[i].key == key;
      }
    }
  }

  lemma ZipUpdate(keys: seq<Bytes>, vals: seq<Value>, i: nat, v: Value)
    requires i < |keys| == |vals| && DistinctKeys(keys)
    ensures Zip(keys, vals[i := v]) == Put(Zip(keys, vals), keys[i], v)
  {
    PutAt(Zip(keys, vals), i, v);
  }

  lemma ZipPush(keys: seq<Bytes>, vals: seq<Value>, key: Bytes, v: Value)
    requires |keys| == |vals| && DistinctKeys(keys) && key !in keys
    ensures Zip(keys + [key], vals + [v]) == Put(Zip(keys, vals), key, v)
    ensures DistinctKeys(keys + [key])
  {
    ZipFacts(keys, vals);
    PutNew(Zip(keys, vals), key, v);
  }

  lemma ZipCut(keys: seq<Bytes>, vals: seq<Value>, i: nat)
    requires i < |keys| == |vals| && DistinctKeys(keys)
    ensures Zip(keys[..i] + keys[i + 1..], vals[..i] + vals[i + 1..]) == Drop(Zip(keys, vals), keys[i])
    ensures DistinctKeys(keys[..i] + keys[i + 1..])
  {
    hide Drop;
    ZipFacts(keys, vals);
    DropAt(Zip(keys, vals), i);
    var keys', vals' := keys[..i] + keys[i + 1..], vals[..i] + vals[i + 1..];
    assert Zip(keys', vals') == Zip(keys, vals)[..i] + Zip(keys, vals)[i + 1..];
    CutDistinct(keys, i);
  }

  lemma CutDistinct(keys: seq<Bytes>, i: nat)
    requires i < |keys| && DistinctKeys(keys)
    ensures DistinctKeys(keys[..i] + keys[i + 1..])
  {
    var cut := keys[..i] + keys[i + 1..];
    assert forall j :: 0 <= j < |cut| ==> cut[j] == keys[if j < i then j else j + 1];
  }

  ghost predicate Indexes(idx: map<Bytes, nat>, keys: seq<Bytes>)
  {
    && (forall i :: 0 <= i < |keys| ==> keys[i] in idx && idx[keys[i]] == i)
    && (forall k :: k in idx ==> idx[k] < |keys| && keys[idx[k]] == k)
  }

  method BuildIndex(keys: seq<Bytes>) returns (idx: map<Bytes, nat>)
    requires DistinctKeys(keys)
    ensures Indexes(idx, keys)
  {
    idx := map[];
    var i := 0;
    while i < |keys|
      invariant 0 <= i <= |keys| && Indexes(idx, keys[..i])
    {
      idx := idx[keys[i] := i];
      i := i + 1;
    }
    assert keys[..i] == keys;
  }

  lemma IndexPush(idx: map<Bytes, nat>, keys: seq<Bytes>, key: Bytes)
    requires Indexes(idx, keys) && key !in keys
    ensures Indexes(idx[key := |keys|], keys + [key])
  {
  }

  /** idx is None until the object outgrows a linear scan. */
  class Members {
    var keys: seq<Bytes>
    var vals: seq<Value>
    var idx: Option<map<Bytes, nat>>

    ghost predicate Valid()
      reads this
    {
      && |keys| == |vals| && DistinctKeys(keys)
      && (idx.Some? ==> Indexes(idx.value, keys))
      && (idx.None? ==> |keys| <= SMALL_OBJECT)
    }

    function Contents(): seq<Member>
      requires |keys| == |vals|
      reads this
    {
      Zip(keys, vals)
    }

    constructor ()
      ensures Valid() && Contents() == []
    {
      keys, vals, idx := [], [], None;
    }

    method Find(key: Bytes) returns (found: Option<nat>)
      requires Valid()
      ensures found.Some? ==> found.value < |keys| && keys[found.value] == key
      ensures found.None? ==> key !in keys
    {
      if idx.Some? {
        found := if key in idx.value then Some(idx.value[key]) else None;
        return;
      }
      var i := 0;
      while i < |keys|
        invariant 0 <= i <= |keys| && key !in keys[..i]
      {
        if keys[i] == key {
          return Some(i);
        }
        i := i + 1;
      }
      assert keys[..i] == keys;
      found := None;
    }

    method Get(key: Bytes) returns (val: Option<Value>)
      requires Valid()
      ensures val == Lookup(Contents(), key)
    {
      var i := Find(key);
      ZipFacts(keys, vals);
      if i.None? {
        LookupAbsent(Contents(), key);
        return None;
      }
      LookupAt(Contents(), i.value);
      val := Some(vals[i.value]);
    }

    method Set(key: Bytes, v: Value)
      requires Valid()
      modifies this
      ensures Valid() && Contents() == Put(old(Contents()), key, v)
    {
      hide Zip, Put, Indexes, DistinctKeys;
      var i := Find(key);
      if i.Some? {
        ZipUpdate(keys, vals, i.value, v);
        vals := vals[i.value := v];
        return;
      }
      ZipPush(keys, vals, key, v);
      if idx.Some? {
        IndexPush(idx.value, keys, key);
      }
      keys := keys + [key];
      vals := vals + [v];
      if idx.Some? {
        idx := Some(idx.value[key := |keys| - 1]);
      } else if |keys| > SMALL_OBJECT {
        var built := BuildIndex(keys);
        idx := Some(built);
      }
    }

    method Delete(key: Bytes)
      requires Valid()
      modifies this
      ensures Valid() && Contents() == Drop(old(Contents()), key)
    {
      var i := Find(key);
      if i.None? {
        ZipFacts(keys, vals);
        DropAbsent(Contents(), key);
        return;
      }
      hide Zip, Drop, Indexes, DistinctKeys;
      ZipCut(keys, vals, i.value);
      keys := keys[..i.value] + keys[i.value + 1..];
      vals := vals[..i.value] + vals[i.value + 1..];
      if idx.Some? {
        var built := BuildIndex(keys);
        idx := Some(built);
      }
    }
  }
}

/** internal/cjson/canonical.go: object keys ordered by their UTF-16 code units. */
module KeyOrder {
  import opened Bytes
  import opened Utf8

  predicate ValidUtf8(s: Bytes)
  {
    s == [] || (!Malformed(DecodeRune(s, 0)) && DecodeRune(s, 0).size <= |s| && ValidUtf8(s[DecodeRune(s, 0).size..]))
  }

  /** One unit below 0x1_0000, a surrogate pair above. */
  function RuneUnits(code: int): seq<int>
  {
    if code >= 0x1_0000 then [0xD800 + (code - 0x1_0000) / 0x400, 0xDC00 + (code - 0x1_0000) % 0x400] else [code]
  }

  function Units(s: Bytes): seq<int>
  {
    if s == [] then []
    else
      DecodeBounds(s, 0);
      RuneUnits(DecodeRune(s, 0).code) + Units(s[DecodeRune(s, 0).size..])
  }

  /** Lexicographic: -1, 0 or 1. */
  function Compare(a: seq<int>, b: seq<int>): int
  {
    if a == [] then if b == [] then 0 else -1
    else if b == [] then 1
    else if a[0] < b[0] then -1
    else if a[0] > b[0] then 1
    else Compare(a[1..], b[1..])
  }

  class UnitReader {
    const s: Bytes
    var i: nat
    var pending: int
    var hasPend: bool

    constructor (s: Bytes)
      ensures Valid() && this.s == s && Rest() == Units(s)
    {
      this.s, i, pending, hasPend := s, 0, 0, false;
      new;
      assert s[0..] == s;
    }

    ghost predicate Valid()
      reads this
    {
      i <= |s|
    }

    /** The units not read yet. */
    ghost function Rest(): seq<int>
      requires Valid()
      reads this
    {
      (if hasPend then [pending] else []) + Units(s[i..])
    }

    /** None is the source's false, at the end of the string. */
    method Next() returns (unit: Option<int>)
      requires Valid()
      modifies this
      ensures Valid()
      ensures old(Rest()) == [] ==> unit == None && Rest() == []
      ensures old(Rest()) != [] ==> unit == Some(old(Rest())[0]) && Rest() == old(Rest())[1..]
    {
      hide Units, DecodeRune;
      UnitsEmpty([]);
      if hasPend {
        hasPend := false;
        return Some(pending);
      }
      if i >= |s| {
        assert s[i..] == [];
        return None;
      }
      DecodeBounds(s, i);
      DecodeFrom(s, i);
      var r := DecodeRune(s, i);
      i := i + r.size;
      if r.code >= 0x1_0000 {
        var c := r.code - 0x1_0000;
        pending := 0xDC00 + c % 0x400;
        hasPend := true;
        return Some(0xD800 + c / 0x400);
      }
      return Some(r.code);
    }
  }

  lemma DecodeFrom(s: Bytes, i: nat)
    requires i < |s|
    ensures DecodeRune(s[i..], 0) == DecodeRune(s, i) && i + DecodeRune(s, i).size <= |s|
    ensures Units(s[i..]) == RuneUnits(DecodeRune(s, i).code) + Units(s[i + DecodeRune(s, i).size..])
  {
    DecodeSuffix(s, i);
    DecodeBounds(s, i);
    assert s[i..][DecodeRune(s, i).size..] == s[i + DecodeRune(s, i).size..];
  }

  lemma DecodeSuffix(s: Bytes, i: nat)
    requires i < |s|
    ensures DecodeRune(s[i..], 0) == DecodeRune(s, i)
  {
    var t := s[i..];
    assert |s| - i > 1 ==> t[1] == s[i + 1];
    assert |s| - i > 2 ==> t[2] == s[i + 2];
    assert |s| - i > 3 ==> t[3] == s[i + 3];
  }

  method CompareUtf16(a: Bytes, b: Bytes) returns (order: int)
    ensures order == Compare(Units(a), Units(b))
  {
    var ra := new UnitReader(a);
    var rb := new UnitReader(b);
    while true
      invariant ra.Valid() && rb.Valid() && ra != rb && fresh(ra) && fresh(rb)
      invariant Compare(ra.Rest(), rb.Rest()) == Compare(Units(a), Units(b))
      decreases |ra.Rest()|
    {
      var ua := ra.Next();
      var ub := rb.Next();
      if ua.None? && ub.None? {
        return 0;
      } else if ua.None? {
        return -1;
      } else if ub.None? {
        return 1;
      } else if ua.value < ub.value {
        return -1;
      } else if ua.value > ub.value {
        return 1;
      }
    }
  }

  // ---- a strict total order on valid UTF-8

  lemma {:induction false} RuneUnitsPrefix(c: int, d: int, a: seq<int>, b: seq<int>)
    requires Scalar(c) && Scalar(d) && RuneUnits(c) + a == RuneUnits(d) + b
    ensures c == d && a == b
  {
    var x, y := RuneUnits(c) + a, RuneUnits(d) + b;
    assert x[0] == RuneUnits(c)[0] && y[0] == RuneUnits(d)[0];
    if c >= 0x1_0000 && d >= 0x1_0000 {
      assert x[1] == RuneUnits(c)[1] && y[1] == RuneUnits(d)[1];
    }
    assert x[|RuneUnits(c)|..] == a && y[|RuneUnits(d)|..] == b;
  }

  lemma UnitsFirst(a: Bytes, b: Bytes)
    requires ValidUtf8(a) && ValidUtf8(b) && a != [] && b != [] && Units(a) == Units(b)
    ensures DecodeRune(a, 0) == DecodeRune(b, 0) && DecodeRune(a, 0).size <= |a| && DecodeRune(b, 0).size <= |b|
    ensures var n := DecodeRune(a, 0).size;
            n > 0 && a[..n] == b[..n] && Units(a[n..]) == Units(b[n..]) && ValidUtf8(a[n..]) && ValidUtf8(b[n..])
  {
    DecodeBounds(a, 0);
    DecodeBounds(b, 0);
    var r, q := DecodeRune(a, 0), DecodeRune(b, 0);
    EncodeOfDecode(a, 0);
    EncodeOfDecode(b, 0);
    hide DecodeRune, EncodeRune, RuneUnits;
    RuneUnitsPrefix(r.code, q.code, Units(a[r.size..]), Units(b[q.size..]));
  }

  lemma {:induction false} UnitsInjective(a: Bytes, b: Bytes)
    requires ValidUtf8(a) && ValidUtf8(b) && Units(a) == Units(b)
    ensures a == b
    decreases |a|
  {
    UnitsEmpty(a);
    UnitsEmpty(b);
    hide *;
    if a != [] && b != [] {
      UnitsFirst(a, b);
      var n := DecodeRune(a, 0).size;
      UnitsInjective(a[n..], b[n..]);
      assert a == a[..n] + a[n..] && b == b[..n] + b[n..];
    }
  }

  lemma UnitsEmpty(s: Bytes)
    ensures Units(s) == [] <==> s == []
  {
  }

  lemma {:induction false} CompareEqual(a: seq<int>, b: seq<int>)
    ensures Compare(a, b) == 0 <==> a == b
  {
    if a != [] && b != [] && a[0] == b[0] {
      CompareEqual(a[1..], b[1..]);
      assert a == [a[0]] + a[1..] && b == [b[0]] + b[1..];
    }
  }

  lemma {:induction false} CompareFlips(a: seq<int>, b: seq<int>)
    ensures Compare(b, a) == -Compare(a, b)
  {
    if a != [] && b != [] && a[0] == b[0] {
      CompareFlips(a[1..], b[1..]);
    }
  }

  lemma {:induction false} CompareTransitive(a: seq<int>, b: seq<int>, c: seq<int>)
    requires Compare(a, b) < 0 && Compare(b, c) < 0
    ensures Compare(a, c) < 0
  {
    if a != [] && b != [] && c != [] && a[0] == b[0] == c[0] {
      CompareTransitive(a[1..], b[1..], c[1..]);
    }
  }

  /** a and b agree up to k, where a ends and b goes on, or holds the smaller unit. */
  ghost predicate LowerAt(a: seq<int>, b: seq<int>, k: nat)
  {
    && k <= |a| && k < |b| && a[..k] == b[..k]
    && (k == |a| || a[k] < b[k])
  }

  lemma LowerFirst(a: seq<int>, b: seq<int>, k: nat)
    requires LowerAt(a, b, k) && a != []
    ensures b != [] && a[0] <= b[0] && (k > 0 ==> a[0] == b[0])
  {
    assert k > 0 ==> a[..k][0] == b[..k][0];
  }

  /** Lower at the first unit in which they differ, or a beginning of the other. */
  ghost predicate ComesBefore(a: seq<int>, b: seq<int>)
  {
    exists k: nat :: LowerAt(a, b, k)
  }

  lemma {:induction false} CompareExactly(a: seq<int>, b: seq<int>)
    ensures Compare(a, b) < 0 <==> ComesBefore(a, b)
  {
    if a == [] {
      assert b != [] ==> LowerAt(a, b, 0);
    } else if b != [] && a[0] < b[0] {
      assert LowerAt(a, b, 0);
    } else if b != [] && a[0] == b[0] {
      CompareExactly(a[1..], b[1..]);
      if k: nat :| LowerAt(a[1..], b[1..], k) {
        assert a[..k + 1] == [a[0]] + a[1..][..k] && b[..k + 1] == [b[0]] + b[1..][..k];
        assert LowerAt(a, b, k + 1);
      }
      if k: nat :| LowerAt(a, b, k) {
        assert k > 0 && a[1..][..k - 1] == a[..k][1..] && b[1..][..k - 1] == b[..k][1..];
        assert LowerAt(a[1..], b[1..], k - 1);
      }
    } else if k: nat :| LowerAt(a, b, k) {
      LowerFirst(a, b, k);
    }
  }

  /** RFC 8785's key order. */
  predicate Less(a: Bytes, b: Bytes)
  {
    Compare(Units(a), Units(b)) < 0
  }

  /** The order of the first UTF-16 unit in which two keys differ, a key before every longer one it begins. */
  lemma LessExactly(a: Bytes, b: Bytes)
    ensures Less(a, b) <==> ComesBefore(Units(a), Units(b))
  {
    CompareExactly(Units(a), Units(b));
  }

  lemma LessStrict(a: Bytes, b: Bytes, c: Bytes)
    ensures !Less(a, a)
    ensures Less(a, b) && Less(b, c) ==> Less(a, c)
    ensures ValidUtf8(a) && ValidUtf8(b) && a != b ==> Less(a, b) || Less(b, a)
    ensures Less(a, b) ==> !Less(b, a)
  {
    hide Units, ValidUtf8, Compare;
    CompareEqual(Units(a), Units(a));
    CompareEqual(Units(a), Units(b));
    CompareFlips(Units(a), Units(b));
    if Less(a, b) && Less(b, c) {
      CompareTransitive(Units(a), Units(b), Units(c));
    }
    if ValidUtf8(a) && ValidUtf8(b) && a != b && Units(a) == Units(b) {
      UnitsInjective(a, b);
    }
  }

  /** Where this order and code point order part: a surrogate pair sorts before U+E000 to U+FFFF. */
  lemma AstralBeforePrivateUse(a: Bytes, b: Bytes)
    requires a != [] && b != [] && DecodeRune(a, 0).code >= 0x1_0000 && 0xE000 <= DecodeRune(b, 0).code < 0x1_0000
    ensures Less(a, b)
  {
    DecodeBounds(a, 0);
    DecodeBounds(b, 0);
  }
}

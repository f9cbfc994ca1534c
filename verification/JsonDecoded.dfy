/** What every decoded value satisfies, and the round trip and injectivity of the canonical form. */
module JsonDecoded {
  import opened Bytes
  import opened Utf8
  import opened KeyOrder
  import opened JsonValue
  import opened JsonSyntax
  import opened Canonical
  import opened JsonScalars
  import opened JsonRoundTrip
  import opened JsonEquality

  // ---- strings stay well-formed

  lemma ValidRune(code: int)
    ensures ValidUtf8(EncodeRune(code))
  {
    var c := if Scalar(code) then code else RUNE_ERROR;
    var e := EncodeRune(code);
    assert e == EncodeRune(c) && e[0..0 + |e|] == e;
    DecodeOfEncode(c, e, 0);
    NotMalformed(c, |e|);
    assert e[|e|..] == [];
  }

  lemma NotMalformed(code: int, size: nat)
    requires size == |EncodeRune(code)| && Scalar(code)
    ensures !Malformed(Rune(code, size))
  {
  }

  lemma {:induction false} ValidConcat(a: Bytes, b: Bytes)
    requires ValidUtf8(a) && ValidUtf8(b)
    ensures ValidUtf8(a + b)
    decreases |a|
  {
    hide *;
    if a == [] {
      assert a + b == b;
    } else {
      var k := FirstRune(a);
      SameFirstRune(a, b);
      assert (a + b)[k..] == a[k..] + b;
      ValidConcat(a[k..], b);
      ValidFromFirst(a + b, k);
    }
  }

  lemma ValidFromFirst(s: Bytes, k: nat)
    requires s != [] && !Malformed(DecodeRune(s, 0)) && k == DecodeRune(s, 0).size && k <= |s| && ValidUtf8(s[k..])
    ensures ValidUtf8(s)
  {
  }

  lemma SameFirstRune(a: Bytes, b: Bytes)
    requires a != [] && !Malformed(DecodeRune(a, 0))
    ensures DecodeRune(a + b, 0) == DecodeRune(a, 0)
  {
    DecodeBounds(a, 0);
    EncodeOfDecode(a, 0);
    var r := DecodeRune(a, 0);
    assert (a + b)[0..r.size] == a[0..r.size];
    DecodeOfEncode(r.code, a + b, 0);
  }

  lemma ValidAscii(b: byte)
    requires b < 0x80
    ensures ValidUtf8([b])
  {
    assert [b][1..] == [];
  }

  lemma EscapeIsValid(data: Bytes, pos: nat)
    requires pos < |data| && Escape(data, pos).Ok?
    ensures ValidUtf8(Escape(data, pos).value)
  {
    hide EncodeRune, Hex4, ValidUtf8;
    var c := ShortEscape(data[pos + 1]);
    if c.Some? {
      ValidAscii(c.value);
    } else {
      var unit := Hex4(data, pos + 2);
      ValidRune(unit.value);
      if 0xD800 <= unit.value <= 0xDBFF {
        ValidRune(0x1_0000 + (unit.value - 0xD800) * 0x400 + (Hex4(data, pos + 8).value - 0xDC00));
      }
    }
  }

  lemma RuneIsValid(data: Bytes, pos: nat)
    requires pos < |data| && !Malformed(DecodeRune(data, pos))
    ensures pos + DecodeRune(data, pos).size <= |data|
    ensures ValidUtf8(data[pos..pos + DecodeRune(data, pos).size])
  {
    DecodeBounds(data, pos);
    EncodeOfDecode(data, pos);
    ValidRune(DecodeRune(data, pos).code);
  }

  lemma {:induction false} StrIsValid(data: Bytes, pos: nat, buf: Bytes)
    requires pos <= |data| && ValidUtf8(buf) && Str(data, pos, buf).Ok?
    ensures ValidUtf8(Str(data, pos, buf).value)
    decreases |data| - pos
  {
    hide ValidUtf8, DecodeRune, Escape, Malformed;
    var b := data[pos];
    if b == 0x22 {
    } else if b == 0x5C {
      EscapeIsValid(data, pos);
      ValidConcat(buf, Escape(data, pos).value);
      StrIsValid(data, Escape(data, pos).pos, buf + Escape(data, pos).value);
    } else if b < 0x80 {
      ValidAscii(b);
      ValidConcat(buf, [b]);
      StrIsValid(data, pos + 1, buf + [b]);
    } else {
      RuneIsValid(data, pos);
      DecodeBounds(data, pos);
      var k := DecodeRune(data, pos).size;
      ValidConcat(buf, data[pos..pos + k]);
      StrIsValid(data, pos + k, buf + data[pos..pos + k]);
    }
  }

  // ---- an integer literal is read as an integer exactly when it fits

  lemma TensMove(d: int, p: int)
    ensures d * (10 * p) == 10 * (d * p)
  {
  }

  lemma PowerStep(n: nat)
    ensures Power10(n + 1) == 10 * Power10(n) && Power10(0) == 1
  {
  }

  lemma DigitsPush(s: Bytes)
    requires s != []
    ensures DigitsValue(s) == DigitsValue(s[..|s| - 1]) * 10 + DigitValue(s[|s| - 1])
  {
  }

  lemma {:induction false} DigitsConcat(a: Bytes, b: Bytes)
    ensures DigitsValue(a + b) == DigitsValue(a) * Power10(|b|) + DigitsValue(b)
  {
    hide *;
    if b == [] {
      assert a + b == a;
      PowerStep(0);
      NoDigits();
    } else {
      var n := |b| - 1;
      assert (a + b)[..|a + b| - 1] == a + b[..n] && (a + b)[|a + b| - 1] == b[n];
      DigitsConcat(a, b[..n]);
      DigitsPush(b);
      DigitsPush(a + b);
      PowerStep(n);
      TensMove(DigitsValue(a), Power10(n));
    }
  }

  lemma NoDigits()
    ensures DigitsValue([]) == 0
  {
  }

  lemma DigitsOne(b: byte)
    ensures DigitsValue([b]) == DigitValue(b)
  {
    assert [b][..0] == [];
  }

  lemma DigitsFront(s: Bytes)
    requires s != []
    ensures DigitsValue(s) == DigitValue(s[0]) * Power10(|s| - 1) + DigitsValue(s[1..])
  {
    assert s == [s[0]] + s[1..];
    DigitsConcat([s[0]], s[1..]);
    DigitsOne(s[0]);
  }

  lemma {:induction false} DigitsBound(s: Bytes)
    ensures DigitsValue(s) < Power10(|s|)
  {
    if s != [] {
      DigitsBound(s[..|s| - 1]);
    }
  }

  /** Go compares the digit strings; at equal length that compares the numbers. */
  lemma {:induction false} LexLessIsLess(a: Bytes, b: Bytes)
    requires AllDigits(a) && AllDigits(b) && |a| == |b|
    ensures LexLess(a, b) <==> DigitsValue(a) < DigitsValue(b)
    ensures a == b <==> DigitsValue(a) == DigitsValue(b)
  {
    if a != [] {
      LexLessIsLess(a[1..], b[1..]);
      assert a == [a[0]] + a[1..] && b == [b[0]] + b[1..];
      DigitsFront(a);
      DigitsFront(b);
      DigitsBound(a[1..]);
      DigitsBound(b[1..]);
      LeadingDigit(DigitValue(a[0]), DigitValue(b[0]), Power10(|a| - 1), DigitsValue(a[1..]), DigitsValue(b[1..]));
    }
  }

  lemma LeadingDigit(d: nat, e: nat, p: nat, x: nat, y: nat)
    requires x < p && y < p
    ensures d < e ==> d * p + x < e * p + y
    ensures e < d ==> e * p + y < d * p + x
  {
    if d < e {
      assert (d + 1) * p <= e * p;
    } else if e < d {
      assert (e + 1) * p <= d * p;
    }
  }

  lemma FourDigits(a: byte, b: byte, c: byte, d: byte)
    ensures DigitsValue([a, b, c, d]) == DigitValue(a) * 1000 + DigitValue(b) * 100 + DigitValue(c) * 10 + DigitValue(d)
  {
    DigitsOne(a);
    var two, three, four := [a, b], [a, b, c], [a, b, c, d];
    assert two[..1] == [a] && three[..2] == two && four[..3] == three;
    assert DigitsValue(two) == DigitsValue([a]) * 10 + DigitValue(b);
    assert DigitsValue(three) == DigitsValue(two) * 10 + DigitValue(c);
  }

  lemma LastDigits(t: Bytes)
    requires t == [0x38, 0x30, 0x38]
    ensures DigitsValue(t) == 808 && Power10(3) == 1000 && Power10(4) == 10000
  {
    DigitsOne(0x38);
    assert t[..2] == [0x38, 0x30] && t[..2][..1] == [0x38];
  }

  const MIN_PARTS: seq<Bytes> := [
    [0x39, 0x32, 0x32, 0x33], [0x33, 0x37, 0x32, 0x30], [0x33, 0x36, 0x38, 0x35], [0x34, 0x37, 0x37, 0x35],
    [0x38, 0x30, 0x38]]

  lemma MinDigitsParts()
    ensures AllDigits(MIN_DIGITS)
    ensures MIN_DIGITS == MIN_PARTS[0] + MIN_PARTS[1] + MIN_PARTS[2] + MIN_PARTS[3] + MIN_PARTS[4]
  {
  }

  lemma MinPartsValues()
    ensures DigitsValue(MIN_PARTS[0]) == 9223 && DigitsValue(MIN_PARTS[1]) == 3720
    ensures DigitsValue(MIN_PARTS[2]) == 3685 && DigitsValue(MIN_PARTS[3]) == 4775
  {
    hide DigitsValue;
    FourDigits(0x39, 0x32, 0x32, 0x33);
    FourDigits(0x33, 0x37, 0x32, 0x30);
    FourDigits(0x33, 0x36, 0x38, 0x35);
    FourDigits(0x34, 0x37, 0x37, 0x35);
  }

  lemma MinDigitsValue()
    ensures AllDigits(MIN_DIGITS) && DigitsValue(MIN_DIGITS) == 0x8000_0000_0000_0000
  {
    hide DigitsValue, Power10, AllDigits;
    MinDigitsParts();
    MinPartsValues();
    var p, q, r, s, t := MIN_PARTS[0], MIN_PARTS[1], MIN_PARTS[2], MIN_PARTS[3], MIN_PARTS[4];
    LastDigits(t);
    DigitsConcat(p, q);
    DigitsConcat(p + q, r);
    DigitsConcat(p + q + r, s);
    DigitsConcat(p + q + r + s, t);
  }

  /** A leading zero would make a literal long without making it large; the grammar allows none but "0". */
  lemma FitsExactly(literal: Bytes, negative: bool)
    requires negative ==> literal != [] && literal[0] == 0x2D
    requires var body := if negative then literal[1..] else literal;
             body != [] && AllDigits(body) && (|body| > 1 ==> body[0] != 0x30)
    ensures FitsInt64(literal, negative) <==> MIN_INT64 <= IntegerValue(literal) <= MAX_INT64
  {
    hide Power10, DigitsValue;
    var body := if negative then literal[1..] else literal;
    MinDigitsValue();
    DigitsBound(body);
    TenPowers(|body|);
    if |body| == |MIN_DIGITS| {
      LexLessIsLess(body, MIN_DIGITS);
    } else if |body| > |MIN_DIGITS| {
      DigitsFront(body);
      assert DigitValue(body[0]) * Power10(|body| - 1) >= Power10(|body| - 1);
    }
  }

  lemma TenPowers(n: nat)
    ensures n <= 18 ==> Power10(n) <= 10_0000_0000_0000_0000_0
    ensures n >= 20 ==> Power10(n - 1) >= 10_0000_0000_0000_0000_00
  {
    assert Power10(4) == 1_0000;
    assert Power10(8) == 1_0000_0000;
    assert Power10(12) == 1_0000_0000_0000;
    assert Power10(16) == 1_0000_0000_0000_0000;
    assert Power10(18) == 100_0000_0000_0000_0000;
    assert Power10(19) == 1000_0000_0000_0000_0000;
    if n <= 18 {
      Power10Grows(n, 18);
    } else if n >= 20 {
      Power10Grows(19, n - 1);
    }
  }

  lemma {:induction false} Power10Grows(m: nat, n: nat)
    requires m <= n
    ensures Power10(m) <= Power10(n)
  {
    if m < n {
      Power10Grows(m, n - 1);
    }
  }

  // ---- values stay well-formed, shallow and free of NUL keys

  lemma {:induction false} ValueIsReadable(assoc: bool, data: Bytes, pos: nat, depth: nat)
    requires pos <= |data| && depth < MAX_DEPTH && PValue(assoc, data, pos, depth).Ok?
    ensures Readable(PValue(assoc, data, pos, depth).value, assoc, depth, MAX_DEPTH - 1 - depth)
    decreases |data| - pos, 4
  {
    var b := data[pos];
    if b == 0x7B {
      ObjectIsReadable(assoc, data, pos, depth);
    } else if b == 0x5B {
      ArrayIsReadable(assoc, data, pos, depth);
    } else if b == 0x22 {
      StrIsValid(data, pos + 1, []);
    } else {
      hide Number, Literal;
      ScalarIsReadable(assoc, data, pos, depth);
    }
  }

  lemma ScalarIsReadable(assoc: bool, data: Bytes, pos: nat, depth: nat)
    requires pos < |data| && data[pos] != 0x7B && data[pos] != 0x5B && data[pos] != 0x22
    requires depth < MAX_DEPTH && PValue(assoc, data, pos, depth).Ok?
    ensures Readable(PValue(assoc, data, pos, depth).value, assoc, depth, MAX_DEPTH - 1 - depth)
  {
    if data[pos] == 0x2D || Digit(data[pos]) {
      NumberIsReadable(data, pos);
      hide Number;
    }
  }

  lemma {:induction false} DigitsEndDigits(data: Bytes, pos: nat)
    requires pos <= |data|
    ensures AllDigits(data[pos..DigitsEnd(data, pos)])
    ensures DigitAt(data, pos) ==> DigitsEnd(data, pos) > pos
    decreases |data| - pos
  {
    if DigitAt(data, pos) {
      DigitsEndDigits(data, pos + 1);
      var end := DigitsEnd(data, pos);
      assert data[pos..end] == [data[pos]] + data[pos + 1..end];
    }
  }

  /** The literal of a number without fraction or exponent is digits after an optional sign, with no leading zero. */
  lemma NumberIsReadable(data: Bytes, pos: nat)
    requires pos < |data| && Number(data, pos).Ok?
    ensures WellFormed(Number(data, pos).value)
    ensures !Number(data, pos).value.Object? && !Number(data, pos).value.Array?
  {
    var v := Number(data, pos).value;
    if v.Int? {
      var negative := data[pos] == 0x2D;
      var start := if negative then pos + 1 else pos;
      DigitsEndDigits(data, start);
      var end := if data[start] == 0x30 then start + 1 else DigitsEnd(data, start);
      var literal := data[pos..end];
      assert data[start..start + 1] == [data[start]];
      assert negative ==> literal[1..] == data[start..end];
      hide DigitsEnd, FitsInt64, IntegerValue;
      FitsExactly(literal, negative);
    }
  }

  lemma {:induction false} ArrayIsReadable(assoc: bool, data: Bytes, pos: nat, depth: nat)
    requires pos < |data| && depth < MAX_DEPTH && PArray(assoc, data, pos, depth).Ok?
    ensures Readable(PArray(assoc, data, pos, depth).value, assoc, depth, MAX_DEPTH - 1 - depth)
    decreases |data| - pos, 3
  {
    var start := SkipSpace(data, pos + 1);
    if !ByteAt(data, start, 0x5D) {
      hide PItems;
      ItemsAreReadable(assoc, data, start, depth + 1, []);
      ArrayReadable(PItems(assoc, data, start, depth + 1, []).value, assoc, depth + 1);
    }
  }

  lemma ArrayReadable(v: Value, assoc: bool, depth: nat)
    requires 1 <= depth < MAX_DEPTH && v.Array? && AllReadable(v.items, assoc, depth, MAX_DEPTH - 1 - depth)
    ensures Readable(v, assoc, depth - 1, MAX_DEPTH - depth)
  {
  }

  lemma {:induction false} ItemsAreReadable(assoc: bool, data: Bytes, pos: nat, depth: nat, acc: seq<Value>)
    requires pos <= |data| && depth < MAX_DEPTH && PItems(assoc, data, pos, depth, acc).Ok?
    requires AllReadable(acc, assoc, depth, MAX_DEPTH - 1 - depth)
    ensures var v := PItems(assoc, data, pos, depth, acc).value;
            v.Array? && AllReadable(v.items, assoc, depth, MAX_DEPTH - 1 - depth)
    decreases |data| - pos, 5
  {
    hide PValue, SkipSpace, Readable;
    var val := PValue(assoc, data, pos, depth);
    ValueIsReadable(assoc, data, pos, depth);
    var next, more := SkipSpace(data, val.pos), acc + [val.value];
    if ByteAt(data, next, 0x2C) {
      ItemsAreReadable(assoc, data, SkipSpace(data, next + 1), depth, more);
    }
  }

  lemma {:induction false} ObjectIsReadable(assoc: bool, data: Bytes, pos: nat, depth: nat)
    requires pos < |data| && depth < MAX_DEPTH && PObject(assoc, data, pos, depth).Ok?
    ensures Readable(PObject(assoc, data, pos, depth).value, assoc, depth, MAX_DEPTH - 1 - depth)
    decreases |data| - pos, 3
  {
    var start := SkipSpace(data, pos + 1);
    if !ByteAt(data, start, 0x7D) {
      hide PMembers;
      MembersAreReadable(assoc, data, start, depth + 1, []);
      ObjectReadable(PMembers(assoc, data, start, depth + 1, []).value, assoc, depth + 1);
    }
  }

  lemma ObjectReadable(v: Value, assoc: bool, depth: nat)
    requires 1 <= depth < MAX_DEPTH && v.Object? && Distinct(v.members)
    requires MembersReadable(v.members, assoc, depth, MAX_DEPTH - 1 - depth)
    ensures Readable(v, assoc, depth - 1, MAX_DEPTH - depth)
  {
  }

  lemma {:induction false} MembersAreReadable(assoc: bool, data: Bytes, pos: nat, depth: nat, acc: seq<Member>)
    requires pos <= |data| && depth < MAX_DEPTH && PMembers(assoc, data, pos, depth, acc).Ok?
    requires Distinct(acc) && MembersReadable(acc, assoc, depth, MAX_DEPTH - 1 - depth)
    ensures var v := PMembers(assoc, data, pos, depth, acc).value;
            v.Object? && Distinct(v.members) && MembersReadable(v.members, assoc, depth, MAX_DEPTH - 1 - depth)
    decreases |data| - pos, 6
  {
    hide PPair, SkipSpace, Put, Distinct, MembersReadable;
    var pair := PPair(assoc, data, pos, depth);
    var m, next := pair.value, SkipSpace(data, pair.pos);
    PairIsReadable(assoc, data, pos, depth);
    PutReadable(acc, m, assoc, depth);
    if ByteAt(data, next, 0x2C) {
      MembersAreReadable(assoc, data, SkipSpace(data, next + 1), depth, Put(acc, m.key, m.val));
    }
  }

  lemma {:induction false} PairIsReadable(assoc: bool, data: Bytes, pos: nat, depth: nat)
    requires pos <= |data| && depth < MAX_DEPTH && PPair(assoc, data, pos, depth).Ok?
    ensures MembersReadable([PPair(assoc, data, pos, depth).value], assoc, depth, MAX_DEPTH - 1 - depth)
    decreases |data| - pos, 5
  {
    hide PValue, Str, SkipSpace, Readable, ValidUtf8;
    var key := Str(data, pos + 1, []);
    ValidNone();
    StrIsValid(data, pos + 1, []);
    ValueIsReadable(assoc, data, SkipSpace(data, SkipSpace(data, key.pos) + 1), depth);
  }

  lemma ValidNone()
    ensures ValidUtf8([])
  {
  }

  lemma PutReadable(acc: seq<Member>, m: Member, assoc: bool, depth: nat)
    requires depth < MAX_DEPTH && Distinct(acc) && MembersReadable(acc, assoc, depth, MAX_DEPTH - 1 - depth)
    requires MembersReadable([m], assoc, depth, MAX_DEPTH - 1 - depth)
    ensures Distinct(Put(acc, m.key, m.val))
              && MembersReadable(Put(acc, m.key, m.val), assoc, depth, MAX_DEPTH - 1 - depth)
  {
    hide Readable, Put, ValidUtf8;
    PutDistinct(acc, m.key, m.val);
    assert [m][0] == m;
    if i :| 0 <= i < |acc| && acc[i].key == m.key {
      PutAt(acc, i, m.val);
    } else {
      PutNew(acc, m.key, m.val);
    }
  }

  /** Whatever Parse accepts is well-formed, at most 511 containers deep, with no key that begins with NUL. */
  lemma DecodedIsReadable(assoc: bool, data: Bytes)
    requires Document(assoc, data).Ok?
    ensures Readable(Document(assoc, data).value, assoc, 0, MAX_DEPTH - 1)
  {
    hide PValue, SkipSpace;
    ValueIsReadable(assoc, data, SkipSpace(data, 0), 0);
  }

  // ---- the round trip

  /** Printing a readable value and parsing it gives it back, its members in key order. */
  lemma PrintedIsRead(v: Value, assoc: bool)
    requires Readable(v, assoc, 0, MAX_DEPTH - 1) && Canon(v).Some?
    ensures Document(assoc, Canon(v).value) == Ok(Norm(v), |Canon(v).value|)
  {
    hide PValue, Canon, Norm, Readable, Document, Placed, Space;
    var c := Canon(v).value;
    CanonFirst(v);
    PlacedAll(c);
    ReadCanon(v, assoc, c, 0, 0, MAX_DEPTH - 1);
    DocumentAll(assoc, c, Norm(v));
  }

  lemma PlacedAll(c: Bytes)
    ensures Placed(c, 0, c) && Delimited(c, |c|)
  {
    assert c[0..0 + |c|] == c;
  }

  lemma DocumentAll(assoc: bool, c: Bytes, v: Value)
    requires c != [] && !Space(c[0]) && PValue(assoc, c, 0, 0) == Ok(v, |c|)
    ensures Document(assoc, c) == Ok(v, |c|)
  {
    hide PValue;
  }

  /** Any accepted document that can be printed: reading the print gives the same value and the same print again. */
  lemma RoundTrip(assoc: bool, data: Bytes)
    requires Document(assoc, data).Ok? && Canon(Document(assoc, data).value).Some?
    ensures var v := Document(assoc, data).value;
            var again := Document(assoc, Canon(v).value);
            again.Ok? && again.pos == |Canon(v).value| && Same(again.value, v) && Canon(again.value) == Canon(v)
  {
    hide Document, Canon, Norm, Same;
    var v := Document(assoc, data).value;
    DecodedIsReadable(assoc, data);
    PrintedIsRead(v, assoc);
    ReadableWellFormed(v, assoc, 0, MAX_DEPTH - 1);
    CanonOfNorm(v);
    NormIsWellFormed(v, assoc);
    NormTwice(v, assoc);
    SameNorm(Norm(v), v);
  }

  lemma ReadableWellFormed(v: Value, assoc: bool, depth: int, d: nat)
    requires Readable(v, assoc, depth, d)
    ensures WellFormed(v)
  {
  }

  /** The normal form is itself the value of a document, so it is well-formed. */
  lemma NormIsWellFormed(v: Value, assoc: bool)
    requires Readable(v, assoc, 0, MAX_DEPTH - 1) && Canon(v).Some?
    ensures WellFormed(Norm(v)) && Readable(Norm(v), assoc, 0, MAX_DEPTH - 1)
  {
    hide Document, Canon, Norm;
    PrintedIsRead(v, assoc);
    DecodedIsReadable(assoc, Canon(v).value);
  }

  lemma NormTwice(v: Value, assoc: bool)
    requires Readable(v, assoc, 0, MAX_DEPTH - 1) && Canon(v).Some?
    ensures Norm(Norm(v)) == Norm(v)
  {
    hide Document, Canon, Norm, Readable;
    ReadableWellFormed(v, assoc, 0, MAX_DEPTH - 1);
    NormIsWellFormed(v, assoc);
    CanonOfNorm(v);
    PrintedIsRead(v, assoc);
    PrintedIsRead(Norm(v), assoc);
  }

  // ---- injectivity

  lemma {:induction false} HasDepth(v: Value) returns (d: nat)
    ensures Within(v, d)
    decreases v
  {
    match v {
      case Array(items) =>
        d := ItemsDepth(items);
        d := d + 1;
      case Object(ms) =>
        d := MembersDepth(ms);
        d := d + 1;
      case _ =>
        d := 0;
    }
  }

  lemma {:induction false} ItemsDepth(items: seq<Value>) returns (d: nat)
    ensures forall i :: 0 <= i < |items| ==> Within(items[i], d)
    decreases items
  {
    d := 0;
    if items != [] {
      var head := HasDepth(items[0]);
      var rest := ItemsDepth(items[1..]);
      d := if head < rest then rest else head;
      forall i | 0 <= i < |items|
        ensures Within(items[i], d)
      {
        WithinMore(items[i], if i == 0 then head else rest, d);
      }
    }
  }

  lemma {:induction false} MembersDepth(ms: seq<Member>) returns (d: nat)
    ensures forall i :: 0 <= i < |ms| ==> Within(ms[i].val, d)
    decreases ms
  {
    d := 0;
    if ms != [] {
      var head := HasDepth(ms[0].val);
      var rest := MembersDepth(ms[1..]);
      d := if head < rest then rest else head;
      forall i | 0 <= i < |ms|
        ensures Within(ms[i].val, d)
      {
        WithinMore(ms[i].val, if i == 0 then head else rest, d);
      }
    }
  }

  lemma {:induction false} WithinMore(v: Value, d: nat, more: nat)
    requires Within(v, d) && d <= more
    ensures Within(v, more)
    decreases v
  {
    match v {
      case Array(items) =>
        forall i | 0 <= i < |items|
          ensures Within(items[i], more - 1)
        {
          WithinMore(items[i], d - 1, more - 1);
        }
      case Object(ms) =>
        forall i | 0 <= i < |ms|
          ensures Within(ms[i].val, more - 1)
        {
          WithinMore(ms[i].val, d - 1, more - 1);
        }
      case _ =>
    }
  }

  /** At any depth whatever: two printable values have the same bytes exactly when they are the same value. */
  lemma CanonInjective(v: Value, w: Value)
    requires WellFormed(v) && WellFormed(w) && Canon(v).Some? && Canon(w).Some?
    ensures Canon(v) == Canon(w) <==> Same(v, w)
  {
    hide *;
    SameNorm(v, w);
    CanonOfNorm(v);
    CanonOfNorm(w);
    if Canon(v) == Canon(w) {
      var c := Canon(v).value;
      var dv := HasDepth(v);
      var dw := HasDepth(w);
      ReadBack(v, c, dv, -((dv + dw) as int));
      ReadBack(w, c, dw, -((dv + dw) as int));
    }
  }

  lemma ReadBack(v: Value, c: Bytes, d: nat, depth: int)
    requires WellFormed(v) && Canon(v) == Some(c) && Within(v, d) && depth + d <= 0
    ensures PValue(true, c, 0, depth) == Ok(Norm(v), |c|)
  {
    hide Canon, Norm, PValue, WellFormed;
    assert c[0..0 + |c|] == c;
    ReadCanon(v, true, c, 0, depth, d);
  }
}

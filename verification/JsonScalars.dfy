/** Reading back what the printer writes: numbers and strings. */
module JsonScalars {
  import opened Bytes
  import opened Utf8
  import opened KeyOrder
  import opened JsonValue
  import opened JsonSyntax
  import opened Canonical

  ghost predicate Placed(data: Bytes, pos: nat, text: Bytes)
  {
    pos + |text| <= |data| && data[pos..pos + |text|] == text
  }

  lemma PlacedAt(data: Bytes, pos: nat, text: Bytes, i: nat)
    requires Placed(data, pos, text) && i < |text|
    ensures pos + i < |data| && data[pos + i] == text[i]
  {
    assert data[pos..pos + |text|][i] == data[pos + i];
  }

  lemma PlacedSplit(data: Bytes, pos: nat, a: Bytes, b: Bytes)
    requires Placed(data, pos, a + b)
    ensures Placed(data, pos, a) && Placed(data, pos + |a|, b)
  {
    var t := a + b;
    assert data[pos..pos + |t|][..|a|] == a && data[pos..pos + |t|][|a|..] == b;
    assert data[pos..pos + |a|] == data[pos..pos + |t|][..|a|];
    assert data[pos + |a|..pos + |t|] == data[pos..pos + |t|][|a|..];
  }

  // ---- numbers

  predicate AllDigits(s: Bytes)
  {
    forall i :: 0 <= i < |s| ==> Digit(s[i])
  }

  lemma {:induction false} DecimalDigits(n: nat)
    ensures AllDigits(Decimal(n)) && (n > 0 ==> Decimal(n)[0] != 0x30)
    ensures DigitsValue(Decimal(n)) == n
  {
    if n >= 10 {
      DecimalDigits(n / 10);
      var d := Decimal(n);
      assert d[..|d| - 1] == Decimal(n / 10);
    } else {
      assert Decimal(n)[..0] == [];
      assert DigitsValue(Decimal(n)[..0]) == 0;
    }
  }

  function Power10(k: nat): nat
  {
    if k == 0 then 1 else 10 * Power10(k - 1)
  }

  lemma {:induction false} DecimalLength(n: nat, k: nat)
    requires 1 <= k && n < Power10(k)
    ensures |Decimal(n)| <= k
  {
    if n >= 10 {
      if k > 1 {
        DecimalLength(n / 10, k - 1);
      }
    }
  }

  lemma ExactIntIsShort(n: nat)
    requires n <= MAX_EXACT_INT
    ensures |Decimal(n)| <= 16
  {
    assert Power10(4) == 1_0000;
    assert Power10(8) == 1_0000_0000;
    assert Power10(12) == 1_0000_0000_0000;
    assert Power10(16) == 1_0000_0000_0000_0000;
    DecimalLength(n, 16);
  }

  lemma {:induction false} DigitsEndAt(data: Bytes, pos: nat, digits: Bytes)
    requires Placed(data, pos, digits) && AllDigits(digits)
    requires !DigitAt(data, pos + |digits|)
    ensures DigitsEnd(data, pos) == pos + |digits|
    decreases |digits|
  {
    if digits != [] {
      assert digits == digits[..1] + digits[1..];
      PlacedSplit(data, pos, digits[..1], digits[1..]);
      PlacedAt(data, pos, digits, 0);
      DigitsEndAt(data, pos + 1, digits[1..]);
    }
  }

  /** What may follow a value without being read as part of it. */
  predicate Delimited(data: Bytes, pos: nat)
  {
    pos >= |data| || data[pos] == 0x2C || data[pos] == 0x5D || data[pos] == 0x7D
  }

  /** The text of an integer ends where its last digit does. */
  lemma DecimalEnds(data: Bytes, start: nat, m: nat)
    requires Placed(data, start, Decimal(m)) && Delimited(data, start + |Decimal(m)|)
    ensures start < |data| && Digit(data[start]) && data[start] == Decimal(m)[0]
    ensures if data[start] == 0x30 then |Decimal(m)| == 1 else DigitsEnd(data, start) == start + |Decimal(m)|
  {
    hide DigitsEnd, Decimal, Placed;
    DecimalDigits(m);
    PlacedAt(data, start, Decimal(m), 0);
    if m == 0 {
      DecimalZero();
    } else {
      DigitsEndAt(data, start, Decimal(m));
    }
  }

  lemma DecimalZero()
    ensures Decimal(0) == [0x30]
  {
  }

  lemma PlacedSlice(data: Bytes, pos: nat, text: Bytes)
    requires Placed(data, pos, text)
    ensures pos + |text| <= |data| && data[pos..pos + |text|] == text
  {
  }

  lemma NoFraction(data: Bytes, end: nat)
    requires Delimited(data, end) && end <= |data|
    ensures Fraction(data, end) == Ok(false, end) && Exponent(data, end) == Ok(false, end)
  {
  }

  lemma ReadDecimal(data: Bytes, pos: nat, n: int, text: Bytes)
    requires -MAX_EXACT_INT <= n <= MAX_EXACT_INT
    requires text == if n < 0 then [0x2D] + Decimal(-n) else Decimal(n)
    requires Placed(data, pos, text) && Delimited(data, pos + |text|)
    ensures pos < |data| && (data[pos] == 0x2D || Digit(data[pos]))
    ensures Number(data, pos) == Ok(Int(n), pos + |text|)
  {
    hide IntegerValue, FitsInt64, DigitsEnd, Fraction, Exponent, Decimal, Placed, Delimited;
    var m: nat := if n < 0 then -n else n;
    var start := if n < 0 then pos + 1 else pos;
    if n < 0 {
      PlacedSplit(data, pos, [0x2D], Decimal(m));
      PlacedAt(data, pos, text, 0);
    }
    DecimalEnds(data, start, m);
    PlacedSlice(data, pos, text);
    NoFraction(data, pos + |text|);
    DecimalFits(n, text);
  }

  lemma DecimalFits(n: int, text: Bytes)
    requires -MAX_EXACT_INT <= n <= MAX_EXACT_INT
    requires text == if n < 0 then [0x2D] + Decimal(-n) else Decimal(n)
    ensures text != [] && FitsInt64(text, n < 0) && IntegerValue(text) == n
  {
    hide Decimal, DigitsValue;
    var m: nat := if n < 0 then -n else n;
    DecimalDigits(m);
    ExactIntIsShort(m);
    assert n < 0 ==> text[1..] == Decimal(m);
  }

  // ---- strings

  lemma EscapedSplit(a: Bytes, b: Bytes)
    ensures Escaped(a + b) == Escaped(a) + Escaped(b)
  {
    if a == [] {
      assert a + b == b;
    } else {
      assert (a + b)[1..] == a[1..] + b;
      EscapedSplit(a[1..], b);
    }
  }

  /** Bytes above 0x7F are copied as they are. */
  lemma {:induction false} EscapedHigh(s: Bytes)
    requires forall i :: 0 <= i < |s| ==> s[i] >= 0x80
    ensures Escaped(s) == s
  {
    if s != [] {
      EscapedHigh(s[1..]);
    }
  }

  /** An escaped ASCII byte is read back, whichever of the four forms it took. */
  lemma ReadEscapedByte(data: Bytes, pos: nat, b: byte, buf: Bytes)
    requires b < 0x80 && Placed(data, pos, EscapeByte(b))
    ensures Str(data, pos, buf) == Str(data, pos + |EscapeByte(b)|, buf + [b])
  {
    var e := EscapeByte(b);
    PlacedAt(data, pos, e, 0);
    if |e| > 1 {
      PlacedAt(data, pos, e, 1);
    }
    if |e| == 6 {
      ReadControl(data, pos, b);
    }
  }

  lemma ReadControl(data: Bytes, pos: nat, b: byte)
    requires b < 0x20 && |EscapeByte(b)| == 6 && Placed(data, pos, EscapeByte(b))
    ensures Escape(data, pos) == Ok([b], pos + 6)
  {
    var e := EscapeByte(b);
    PlacedAt(data, pos, e, 1);
    PlacedAt(data, pos, e, 2);
    PlacedAt(data, pos, e, 3);
    PlacedAt(data, pos, e, 4);
    PlacedAt(data, pos, e, 5);
    assert HexRun(data, pos + 2, 1) == Some(0);
    assert HexRun(data, pos + 2, 2) == Some(0);
    assert HexRun(data, pos + 2, 3) == Some(b as int / 0x10);
    assert HexRun(data, pos + 2, 4) == Some(b as int);
  }

  /** A rune above ASCII is copied whole. */
  lemma ReadHighRune(data: Bytes, pos: nat, s: Bytes, buf: Bytes)
    requires s != [] && s[0] >= 0x80 && !Malformed(DecodeRune(s, 0))
    requires var k := DecodeRune(s, 0).size; k <= |s| && Placed(data, pos, s[..k])
    ensures var k := DecodeRune(s, 0).size;
            Str(data, pos, buf) == Str(data, pos + k, buf + s[..k])
  {
    var r := DecodeRune(s, 0);
    DecodeBounds(s, 0);
    PlacedAt(data, pos, s[..r.size], 0);
    EncodeOfDecode(s, 0);
    DecodeOfEncode(r.code, data, pos);
  }

  /** The first rune of a string, however it was escaped, is read back. */
  lemma ReadOneRune(data: Bytes, pos: nat, s: Bytes, buf: Bytes) returns (k: nat)
    requires s != [] && ValidUtf8(s) && Placed(data, pos, Escaped(s) + [0x22])
    ensures 1 <= k <= |s| && ValidUtf8(s[k..])
    ensures |Escaped(s)| == |Escaped(s[..k])| + |Escaped(s[k..])|
    ensures Placed(data, pos + |Escaped(s[..k])|, Escaped(s[k..]) + [0x22])
    ensures Str(data, pos, buf) == Str(data, pos + |Escaped(s[..k])|, buf + s[..k])
  {
    hide *;
    k := FirstRune(s);
    var head, tail := s[..k], s[k..];
    assert s == head + tail;
    EscapedSplit(head, tail);
    assert Escaped(s) + [0x22] == Escaped(head) + (Escaped(tail) + [0x22]);
    PlacedSplit(data, pos, Escaped(head), Escaped(tail) + [0x22]);
    if s[0] < 0x80 {
      EscapedOne(s[0]);
      assert head == [s[0]];
      ReadEscapedByte(data, pos, s[0], buf);
    } else {
      EscapedHigh(head);
      ReadHighRune(data, pos, s, buf);
    }
  }

  lemma FirstRune(s: Bytes) returns (k: nat)
    requires s != [] && ValidUtf8(s)
    ensures !Malformed(DecodeRune(s, 0)) && k == DecodeRune(s, 0).size && 1 <= k <= |s| && ValidUtf8(s[k..])
    ensures s[0] < 0x80 ==> k == 1
    ensures s[0] >= 0x80 ==> forall i :: 0 <= i < k ==> s[i] >= 0x80
  {
    DecodeBounds(s, 0);
    k := DecodeRune(s, 0).size;
  }

  lemma {:induction false} ReadEscaped(data: Bytes, pos: nat, s: Bytes, buf: Bytes)
    requires ValidUtf8(s) && Placed(data, pos, Escaped(s) + [0x22])
    ensures Str(data, pos, buf) == Ok(buf + s, pos + |Escaped(s)| + 1)
    decreases |s|
  {
    EscapedNone();
    hide *;
    if s == [] {
      assert Escaped(s) + [0x22] == [0x22];
      PlacedAt(data, pos, Escaped(s) + [0x22], 0);
      ReadQuote(data, pos, buf);
      assert buf + s == buf;
    } else {
      var k := ReadOneRune(data, pos, s, buf);
      ReadEscaped(data, pos + |Escaped(s[..k])|, s[k..], buf + s[..k]);
      assert buf + s[..k] + s[k..] == buf + s;
    }
  }

  lemma EscapedNone()
    ensures Escaped([]) == []
  {
  }

  lemma ReadQuote(data: Bytes, pos: nat, buf: Bytes)
    requires pos < |data| && data[pos] == 0x22
    ensures Str(data, pos, buf) == Ok(buf, pos + 1)
  {
  }

  lemma EscapedOne(b: byte)
    ensures Escaped([b]) == EscapeByte(b)
  {
    assert [b][1..] == [];
  }

  /** Any string of well-formed UTF-8 is read back from its encoding. */
  lemma ReadCanonString(data: Bytes, pos: nat, s: Bytes)
    requires ValidUtf8(s) && Placed(data, pos, CanonString(s))
    ensures data[pos] == 0x22 && Str(data, pos + 1, []) == Ok(s, pos + |CanonString(s)|)
  {
    hide Str, Escaped, ValidUtf8;
    assert CanonString(s) == [0x22] + (Escaped(s) + [0x22]);
    PlacedAt(data, pos, CanonString(s), 0);
    PlacedSplit(data, pos, [0x22], Escaped(s) + [0x22]);
    ReadEscaped(data, pos + 1, s, []);
    assert [] + s == s;
  }
}

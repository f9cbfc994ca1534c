/** internal/cjson/parse.go: a number is read exactly where it is spelled as a numeral, and as what that denotes. */
module JsonNumerals {
  import opened Bytes
  import opened JsonValue
  import opened JsonSyntax
  import opened JsonScalars
  import opened JsonDecoded

  datatype Numeral = Numeral(negative: bool, whole: Bytes, fraction: Bytes, exponent: Bytes)

  predicate SomeDigits(s: Bytes)
  {
    s != [] && AllDigits(s)
  }

  /** No leading zero. */
  predicate GoodWhole(s: Bytes)
  {
    SomeDigits(s) && (s[0] == 0x30 ==> |s| == 1)
  }

  /** Nothing, or a point followed by digits. */
  predicate GoodFraction(s: Bytes)
  {
    s == [] || (s[0] == 0x2E && SomeDigits(s[1..]))
  }

  /** Nothing, or an e in either case, perhaps a sign, and digits. */
  predicate GoodExponent(s: Bytes)
  {
    || s == []
    || ((s[0] == 0x65 || s[0] == 0x45)
        && (SomeDigits(s[1..]) || (|s| > 1 && (s[1] == 0x2B || s[1] == 0x2D) && SomeDigits(s[2..]))))
  }

  predicate GoodNumeral(n: Numeral)
  {
    GoodWhole(n.whole) && GoodFraction(n.fraction) && GoodExponent(n.exponent)
  }

  function SpellNumeral(n: Numeral): Bytes
  {
    (if n.negative then [0x2D] else []) + (n.whole + (n.fraction + n.exponent))
  }

  /** The number a run of decimal digits stands for. */
  function Worth(digits: Bytes): int
  {
    if digits == [] then 0 else (digits[0] as int - 0x30) * Power10(|digits| - 1) + Worth(digits[1..])
  }

  /** A 64-bit integer where the numeral is one, and a float otherwise. */
  function DenoteNumeral(n: Numeral): Value
  {
    var w := if n.negative then -Worth(n.whole) else Worth(n.whole);
    if n.fraction == [] && n.exponent == [] && -0x8000_0000_0000_0000 <= w <= 0x7FFF_FFFF_FFFF_FFFF then Int(w)
    else Float(FLOAT_OF(SpellNumeral(n)))
  }

  /** What may follow a value. */
  predicate Ends(data: Bytes, pos: nat)
  {
    pos >= |data| || Space(data[pos]) || data[pos] == 0x2C || data[pos] == 0x5D || data[pos] == 0x7D
  }

  // ---- the value

  lemma {:induction false} WorthIsValue(s: Bytes)
    requires AllDigits(s)
    ensures Worth(s) == DigitsValue(s)
  {
    hide Power10;
    if s != [] {
      WorthIsValue(s[1..]);
      DigitsFront(s);
    }
  }

  /** Reading a literal without fraction or exponent decides between integer and float by its value. */
  lemma WholeFits(n: Numeral)
    requires GoodWhole(n.whole) && n.fraction == [] && n.exponent == []
    ensures var literal := SpellNumeral(n);
            && literal != []
            && DenoteNumeral(n) ==
               if FitsInt64(literal, n.negative) then Int(IntegerValue(literal)) else Float(FLOAT_OF(literal))
  {
    hide Worth, DigitsValue, FitsInt64;
    var literal := SpellNumeral(n);
    assert n.whole + ([] + []) == n.whole;
    assert literal == if n.negative then [0x2D] + n.whole else n.whole;
    assert n.negative ==> literal[1..] == n.whole;
    WorthIsValue(n.whole);
    FitsExactly(literal, n.negative);
  }

  // ---- a numeral is read

  lemma WholeRead(data: Bytes, start: nat, whole: Bytes)
    requires GoodWhole(whole) && Placed(data, start, whole) && !DigitAt(data, start + |whole|)
    ensures DigitAt(data, start)
    ensures if data[start] == 0x30 then |whole| == 1 else DigitsEnd(data, start) == start + |whole|
  {
    hide DigitsEnd, Placed;
    PlacedAt(data, start, whole, 0);
    DigitsEndAt(data, start, whole);
  }

  lemma FractionRead(data: Bytes, a: nat, s: Bytes)
    requires GoodFraction(s) && Placed(data, a, s) && a <= |data|
    requires !DigitAt(data, a + |s|) && !ByteAt(data, a + |s|, 0x2E)
    ensures Fraction(data, a) == Ok(s != [], a + |s|)
  {
    hide DigitsEnd, Placed;
    if s != [] {
      assert s == [s[0]] + s[1..];
      PlacedSplit(data, a, [s[0]], s[1..]);
      PlacedAt(data, a, s, 0);
      PlacedAt(data, a, s, 1);
      DigitsEndAt(data, a + 1, s[1..]);
    }
  }

  lemma ExponentRead(data: Bytes, b: nat, s: Bytes)
    requires GoodExponent(s) && Placed(data, b, s) && b <= |data| && Ends(data, b + |s|)
    ensures Exponent(data, b) == Ok(s != [], b + |s|)
  {
    hide DigitsEnd, Placed;
    if s != [] {
      PlacedAt(data, b, s, 0);
      PlacedAt(data, b, s, 1);
      var k := if SomeDigits(s[1..]) then 1 else 2;
      assert s == s[..k] + s[k..];
      PlacedSplit(data, b, s[..k], s[k..]);
      PlacedAt(data, b, s, k);
      DigitsEndAt(data, b + k, s[k..]);
    }
  }

  /** Where the parts of a numeral stand. */
  lemma NumeralParts(data: Bytes, pos: nat, n: Numeral)
    requires Placed(data, pos, SpellNumeral(n)) && GoodWhole(n.whole)
    ensures pos < |data| && (data[pos] == 0x2D || Digit(data[pos])) && (n.negative <==> data[pos] == 0x2D)
    ensures var start := if n.negative then pos + 1 else pos;
            var a := start + |n.whole|;
            var b := a + |n.fraction|;
            && Placed(data, start, n.whole) && Placed(data, a, n.fraction) && Placed(data, b, n.exponent)
            && b + |n.exponent| == pos + |SpellNumeral(n)| <= |data|
  {
    hide Placed;
    var sign := if n.negative then [0x2D] else [];
    PlacedSplit(data, pos, sign, n.whole + (n.fraction + n.exponent));
    PlacedSplit(data, pos + |sign|, n.whole, n.fraction + n.exponent);
    PlacedSplit(data, pos + |sign| + |n.whole|, n.fraction, n.exponent);
    PlacedSlice(data, pos, SpellNumeral(n));
    PlacedAt(data, pos, if n.negative then sign else n.whole, 0);
  }

  /** After each part comes something that cannot belong to it. */
  lemma PartsEnd(data: Bytes, a: nat, n: Numeral)
    requires GoodFraction(n.fraction) && GoodExponent(n.exponent)
    requires Placed(data, a, n.fraction) && Placed(data, a + |n.fraction|, n.exponent)
    requires Ends(data, a + |n.fraction| + |n.exponent|)
    ensures var b := a + |n.fraction|;
            !DigitAt(data, a) && !DigitAt(data, b) && !ByteAt(data, b, 0x2E)
  {
    hide Placed;
    if n.fraction != [] {
      PlacedAt(data, a, n.fraction, 0);
    }
    if n.exponent != [] {
      PlacedAt(data, a + |n.fraction|, n.exponent, 0);
    }
  }

  /** A numeral followed by what may follow a value is read as what it denotes. */
  lemma ReadNumeral(data: Bytes, pos: nat, n: Numeral)
    requires GoodNumeral(n) && Placed(data, pos, SpellNumeral(n)) && Ends(data, pos + |SpellNumeral(n)|)
    ensures pos < |data| && (data[pos] == 0x2D || Digit(data[pos]))
    ensures Number(data, pos) == Ok(DenoteNumeral(n), pos + |SpellNumeral(n)|)
  {
    hide *;
    GoodParts(n);
    NumeralParts(data, pos, n);
    var start := if n.negative then pos + 1 else pos;
    var a := start + |n.whole|;
    PartsEnd(data, a, n);
    WholeRead(data, start, n.whole);
    FractionRead(data, a, n.fraction);
    ExponentRead(data, a + |n.fraction|, n.exponent);
    PlacedSlice(data, pos, SpellNumeral(n));
    NumberIs(data, pos, n, start, a, a + |n.fraction|);
  }

  lemma GoodParts(n: Numeral)
    requires GoodNumeral(n)
    ensures GoodWhole(n.whole) && GoodFraction(n.fraction) && GoodExponent(n.exponent)
  {
  }

  lemma NumberIs(data: Bytes, pos: nat, n: Numeral, start: nat, a: nat, b: nat)
    requires pos < |data| && (n.negative <==> data[pos] == 0x2D) && start == if n.negative then pos + 1 else pos
    requires DigitAt(data, start) && a == (if data[start] == 0x30 then start + 1 else DigitsEnd(data, start)) <= |data|
    requires Fraction(data, a) == Ok(n.fraction != [], b) && b <= |data|
    requires Exponent(data, b).Ok? && Exponent(data, b).value == (n.exponent != [])
    requires GoodWhole(n.whole) && Exponent(data, b).pos <= |data|
    requires data[pos..Exponent(data, b).pos] == SpellNumeral(n)
    ensures Number(data, pos) == Ok(DenoteNumeral(n), Exponent(data, b).pos)
  {
    hide Fraction, Exponent, DigitsEnd, Worth, FitsInt64, IntegerValue, SpellNumeral;
    if n.fraction == [] && n.exponent == [] {
      hide DenoteNumeral;
      WholeFits(n);
    }
  }

  // ---- what is read is a numeral

  lemma WholeOf(data: Bytes, start: nat)
    requires DigitAt(data, start)
    ensures var end := if data[start] == 0x30 then start + 1 else DigitsEnd(data, start);
            start < end <= |data| && GoodWhole(data[start..end])
  {
    DigitsEndDigits(data, start);
    assert data[start..start + 1] == [data[start]];
  }

  lemma FractionOf(data: Bytes, a: nat)
    requires a <= |data| && Fraction(data, a).Ok?
    ensures var r := Fraction(data, a);
            GoodFraction(data[a..r.pos]) && (r.value <==> data[a..r.pos] != [])
  {
    if ByteAt(data, a, 0x2E) {
      DigitsEndDigits(data, a + 1);
      var end := Fraction(data, a).pos;
      assert data[a..end][1..] == data[a + 1..end];
    }
  }

  lemma ExponentOf(data: Bytes, b: nat)
    requires b <= |data| && Exponent(data, b).Ok?
    ensures var r := Exponent(data, b);
            GoodExponent(data[b..r.pos]) && (r.value <==> data[b..r.pos] != [])
  {
    if ByteAt(data, b, 0x65) || ByteAt(data, b, 0x45) {
      var end := Exponent(data, b).pos;
      var k := if ByteAt(data, b + 1, 0x2B) || ByteAt(data, b + 1, 0x2D) then 2 else 1;
      DigitsEndDigits(data, b + k);
      assert data[b..end][k..] == data[b + k..end];
    }
  }

  lemma NumberSteps(data: Bytes, pos: nat)
    requires pos < |data| && Number(data, pos).Ok?
    ensures var start := if data[pos] == 0x2D then pos + 1 else pos;
            && DigitAt(data, start)
            && var a := if data[start] == 0x30 then start + 1 else DigitsEnd(data, start);
               && a <= |data| && Fraction(data, a).Ok? && Fraction(data, a).pos <= |data|
               && Exponent(data, Fraction(data, a).pos).Ok?
               && Number(data, pos).pos == Exponent(data, Fraction(data, a).pos).pos
  {
    hide Fraction, Exponent, DigitsEnd, FitsInt64, IntegerValue;
  }

  /** The numeral that a number was read from. */
  lemma NumeralOf(data: Bytes, pos: nat) returns (n: Numeral)
    requires pos < |data| && Number(data, pos).Ok?
    ensures GoodNumeral(n) && data[pos..Number(data, pos).pos] == SpellNumeral(n)
    ensures Number(data, pos).value == DenoteNumeral(n)
  {
    hide Number, Fraction, Exponent, DigitsEnd, DenoteNumeral, GoodWhole, GoodFraction, GoodExponent, SpellNumeral;
    NumberSteps(data, pos);
    var negative := data[pos] == 0x2D;
    var start := if negative then pos + 1 else pos;
    WholeOf(data, start);
    var a := if data[start] == 0x30 then start + 1 else DigitsEnd(data, start);
    FractionOf(data, a);
    var b := Fraction(data, a).pos;
    ExponentOf(data, b);
    var c := Exponent(data, b).pos;
    n := Numeral(negative, data[start..a], data[a..b], data[b..c]);
    PartsJoin(data, pos, n, start, a, b, c);
    NumberIs(data, pos, n, start, a, b);
  }

  lemma PartsJoin(data: Bytes, pos: nat, n: Numeral, start: nat, a: nat, b: nat, c: nat)
    requires pos < |data| && (n.negative <==> data[pos] == 0x2D) && start == (if n.negative then pos + 1 else pos)
    requires start <= a <= b <= c <= |data|
    requires n.whole == data[start..a] && n.fraction == data[a..b] && n.exponent == data[b..c]
    ensures SpellNumeral(n) == data[pos..c]
  {
    assert data[start..a] + (data[a..b] + data[b..c]) == data[start..c];
    assert n.negative ==> data[pos..c] == [0x2D] + data[start..c];
    assert [] + data[pos..c] == data[pos..c];
  }
}

/** internal/cjson/parse.go: what each escape in a string stands for, by its value. */
module JsonEscapes {
  import opened Bytes
  import opened Utf8
  import opened KeyOrder
  import opened JsonSyntax

  const LOWER_DIGITS := "0123456789abcdef"
  const UPPER_DIGITS := "0123456789ABCDEF"

  /** c is the hexadecimal digit of value d, in either case. */
  ghost predicate IsHexDigit(c: byte, d: int)
  {
    0 <= d < 0x10 && (c as int == LOWER_DIGITS[d] as int || c as int == UPPER_DIGITS[d] as int)
  }

  lemma HexDigitExactly(c: byte, d: int)
    ensures HexDigit(c) == Some(d) <==> IsHexDigit(c, d)
  {
  }

  /** The four bytes from pos write the unit, most significant digit first. */
  ghost predicate HexUnit(data: Bytes, pos: nat, unit: int)
  {
    && pos + 4 <= |data| && 0 <= unit < 0x1_0000
    && IsHexDigit(data[pos], unit / 0x1000) && IsHexDigit(data[pos + 1], unit / 0x100 % 0x10)
    && IsHexDigit(data[pos + 2], unit / 0x10 % 0x10) && IsHexDigit(data[pos + 3], unit % 0x10)
  }

  lemma Hex4Exactly(data: Bytes, pos: nat, unit: int)
    ensures Hex4(data, pos) == Some(unit) <==> HexUnit(data, pos, unit)
  {
    hide *;
    if pos + 4 <= |data| {
      Hex4Run(data, pos);
      HexRunFour(data, pos);
      HexUnitIs(data, pos, unit);
      HexDigitExactly(data[pos], unit / 0x1000);
      HexDigitExactly(data[pos + 1], unit / 0x100 % 0x10);
      HexDigitExactly(data[pos + 2], unit / 0x10 % 0x10);
      HexDigitExactly(data[pos + 3], unit % 0x10);
      UnitDigits(unit);
      if Hex4(data, pos) == Some(unit) {
        FourHexDigits(HexDigit(data[pos]).value, HexDigit(data[pos + 1]).value, HexDigit(data[pos + 2]).value,
          HexDigit(data[pos + 3]).value);
      }
    } else {
      Hex4Short(data, pos, unit);
    }
  }

  lemma Hex4Run(data: Bytes, pos: nat)
    requires pos + 4 <= |data|
    ensures Hex4(data, pos) == HexRun(data, pos, 4)
  {
    hide HexRun;
  }

  lemma Hex4Short(data: Bytes, pos: nat, unit: int)
    requires pos + 4 > |data|
    ensures Hex4(data, pos) == None && !HexUnit(data, pos, unit)
  {
  }

  lemma HexUnitIs(data: Bytes, pos: nat, unit: int)
    requires pos + 4 <= |data|
    ensures HexUnit(data, pos, unit) <==>
              && 0 <= unit < 0x1_0000
              && IsHexDigit(data[pos], unit / 0x1000) && IsHexDigit(data[pos + 1], unit / 0x100 % 0x10)
              && IsHexDigit(data[pos + 2], unit / 0x10 % 0x10) && IsHexDigit(data[pos + 3], unit % 0x10)
  {
    hide IsHexDigit;
  }

  lemma UnitDigits(unit: int)
    ensures unit == unit / 0x1000 * 0x1000 + unit / 0x100 % 0x10 * 0x100 + unit / 0x10 % 0x10 * 0x10 + unit % 0x10
  {
    SixteenTwice(unit);
    DropHexDigit(unit);
    DropHexDigit(unit / 0x10);
    DropHexDigit(unit / 0x10 / 0x10);
  }

  lemma DropHexDigit(n: int)
    ensures n == n / 0x10 * 0x10 + n % 0x10
  {
  }

  lemma FourHexDigits(a: int, b: int, c: int, d: int)
    requires 0 <= a < 0x10 && 0 <= b < 0x10 && 0 <= c < 0x10 && 0 <= d < 0x10
    ensures var unit := a * 0x1000 + b * 0x100 + c * 0x10 + d;
            && unit / 0x1000 == a && unit / 0x100 % 0x10 == b && unit / 0x10 % 0x10 == c && unit % 0x10 == d
            && 0 <= unit < 0x1_0000
  {
    LastHexDigit(a * 0x100 + b * 0x10 + c, d);
    LastHexDigit(a * 0x10 + b, c);
    LastHexDigit(a, b);
    SixteenTwice(a * 0x1000 + b * 0x100 + c * 0x10 + d);
  }

  lemma LastHexDigit(high: nat, d: int)
    requires 0 <= d < 0x10
    ensures (high * 0x10 + d) / 0x10 == high && (high * 0x10 + d) % 0x10 == d
  {
  }

  lemma SixteenTwice(unit: int)
    ensures unit / 0x100 == unit / 0x10 / 0x10 && unit / 0x1000 == unit / 0x10 / 0x10 / 0x10
  {
  }

  lemma HexRunFour(data: Bytes, pos: nat)
    requires pos + 4 <= |data|
    ensures var (a, b) := (HexDigit(data[pos]), HexDigit(data[pos + 1]));
            var (c, d) := (HexDigit(data[pos + 2]), HexDigit(data[pos + 3]));
            HexRun(data, pos, 4) ==
              if a.Some? && b.Some? && c.Some? && d.Some?
              then Some(a.value * 0x1000 + b.value * 0x100 + c.value * 0x10 + d.value) else None
  {
    hide HexDigit;
    assert HexRun(data, pos, 1) == HexDigit(data[pos]);
    assert HexRun(data, pos, 2).Some? <==> HexDigit(data[pos]).Some? && HexDigit(data[pos + 1]).Some?;
    assert HexRun(data, pos, 3).Some? <==> HexRun(data, pos, 2).Some? && HexDigit(data[pos + 2]).Some?;
  }

  // ---- surrogates and units

  ghost predicate HighHalf(unit: int)
  {
    0xD800 <= unit < 0xDC00
  }

  ghost predicate LowHalf(unit: int)
  {
    0xDC00 <= unit < 0xE000
  }

  lemma UnitsOfRune(code: int)
    requires Scalar(code)
    ensures Units(EncodeRune(code)) == RuneUnits(code)
  {
    var e := EncodeRune(code);
    assert e[0..0 + |e|] == e && e[|e|..] == [];
    DecodeOfEncode(code, e, 0);
    hide EncodeRune, DecodeRune, RuneUnits;
    assert Units([]) == [];
  }

  lemma UnitsOfPair(high: int, low: int)
    requires HighHalf(high) && LowHalf(low)
    ensures Units(EncodeRune(0x1_0000 + (high - 0xD800) * 0x400 + (low - 0xDC00))) == [high, low]
  {
    hide *;
    PairScalar(high, low);
    UnitsOfRune(0x1_0000 + (high - 0xD800) * 0x400 + (low - 0xDC00));
    Halves(high - 0xD800, low - 0xDC00);
    HalfPair(high - 0xD800, low - 0xDC00);
  }

  lemma PairScalar(high: int, low: int)
    requires HighHalf(high) && LowHalf(low)
    ensures 0 <= high - 0xD800 < 0x400 && 0 <= low - 0xDC00 < 0x400
    ensures Scalar(0x1_0000 + (high - 0xD800) * 0x400 + (low - 0xDC00))
  {
  }

  lemma Halves(a: nat, b: nat)
    requires b < 0x400
    ensures (a * 0x400 + b) / 0x400 == a && (a * 0x400 + b) % 0x400 == b
  {
  }

  lemma HalfPair(a: nat, b: nat)
    requires a < 0x400 && b < 0x400 && (a * 0x400 + b) / 0x400 == a && (a * 0x400 + b) % 0x400 == b
    ensures RuneUnits(0x1_0000 + a * 0x400 + b) == [a + 0xD800, b + 0xDC00]
  {
  }

  // ---- escapes

  const LETTERS := "\"\\/bfnrt"
  const MEANINGS: seq<int> := [0x22, 0x5C, 0x2F, 0x08, 0x0C, 0x0A, 0x0D, 0x09]

  ghost predicate UnicodeAt(data: Bytes, pos: nat, unit: int)
  {
    pos + 6 <= |data| && data[pos] == 0x5C && data[pos + 1] == 0x75 && HexUnit(data, pos + 2, unit)
  }

  /** The escape from pos to end writes these UTF-16 units: a letter's, a unit that is no half, or both of a pair. */
  ghost predicate Writes(data: Bytes, pos: nat, units: seq<int>, end: nat)
  {
    || (end == pos + 2 <= |data| && |units| == 1 &&
        exists i :: 0 <= i < 8 && data[pos + 1] as int == LETTERS[i] as int && units == [MEANINGS[i]])
    || (end == pos + 6 && |units| == 1 && UnicodeAt(data, pos, units[0]) && !HighHalf(units[0]) && !LowHalf(units[0]))
    || (end == pos + 12 && |units| == 2 && UnicodeAt(data, pos, units[0]) && HighHalf(units[0])
        && UnicodeAt(data, pos + 6, units[1]) && LowHalf(units[1]))
  }

  lemma LetterExactly(c: byte, v: int)
    ensures ShortEscape(c).Some? && ShortEscape(c).value as int == v <==>
              exists i :: 0 <= i < 8 && c as int == LETTERS[i] as int && v == MEANINGS[i]
  {
    if ShortEscape(c).Some? && ShortEscape(c).value as int == v {
      var i :=
        if c == 0x22 then 0 else if c == 0x5C then 1 else if c == 0x2F then 2 else if c == 0x62 then 3
        else if c == 0x66 then 4 else if c == 0x6E then 5 else if c == 0x72 then 6 else 7;
      assert c as int == LETTERS[i] as int && v == MEANINGS[i];
    }
  }

  lemma UnitsOfByte(b: byte)
    requires b < 0x80
    ensures Units([b]) == [b as int]
  {
    assert [b][1..] == [];
  }

  /** What an escape is read as has just the units it writes. */
  lemma EscapeWrites(data: Bytes, pos: nat)
    requires pos < |data| && data[pos] == 0x5C && Escape(data, pos).Ok?
    ensures Writes(data, pos, Units(Escape(data, pos).value), Escape(data, pos).pos)
  {
    hide Hex4, HexUnit, EncodeRune, Units, RuneUnits, ShortEscape;
    var short := ShortEscape(data[pos + 1]);
    if short.Some? {
      ShortIsAscii(data[pos + 1]);
      UnitsOfByte(short.value);
      LetterExactly(data[pos + 1], short.value as int);
    } else {
      var unit := Hex4(data, pos + 2).value;
      Hex4Exactly(data, pos + 2, unit);
      if HighHalf(unit) {
        var low := Hex4(data, pos + 8).value;
        Hex4Exactly(data, pos + 8, low);
        UnitsOfPair(unit, low);
      } else {
        UnitsOfRune(unit);
        OneUnit(unit);
      }
    }
  }

  lemma ShortIsAscii(c: byte)
    ensures ShortEscape(c).Some? ==> ShortEscape(c).value < 0x80 && c != 0x75
  {
  }

  lemma OneUnit(code: int)
    requires 0 <= code < 0x1_0000
    ensures RuneUnits(code) == [code]
  {
  }

  /** Whatever writes units is read. */
  lemma WritesEscape(data: Bytes, pos: nat, units: seq<int>, end: nat)
    requires pos < |data| && data[pos] == 0x5C && Writes(data, pos, units, end)
    ensures Escape(data, pos).Ok? && Escape(data, pos).pos == end && Units(Escape(data, pos).value) == units
  {
    hide Hex4, HexUnit, EncodeRune, Units, RuneUnits, ShortEscape, Writes;
    WritesCases(data, pos, units, end);
    ShortIsAscii(data[pos + 1]);
    if end == pos + 2 {
      LetterExactly(data[pos + 1], units[0]);
      UnitsOfByte(ShortEscape(data[pos + 1]).value);
    } else {
      Hex4Exactly(data, pos + 2, units[0]);
      NotShort();
      if end == pos + 6 {
        UnitsOfRune(units[0]);
        OneUnit(units[0]);
      } else {
        Hex4Exactly(data, pos + 8, units[1]);
        UnitsOfPair(units[0], units[1]);
      }
    }
  }

  lemma NotShort()
    ensures ShortEscape(0x75).None?
  {
  }

  lemma WritesCases(data: Bytes, pos: nat, units: seq<int>, end: nat)
    requires Writes(data, pos, units, end)
    ensures pos + 1 < |data| && (end == pos + 2 || end == pos + 6 || end == pos + 12)
    ensures end == pos + 2 ==>
              && |units| == 1 && units == [units[0]]
              && exists i :: 0 <= i < 8 && data[pos + 1] as int == LETTERS[i] as int && units[0] == MEANINGS[i]
    ensures end == pos + 6 ==>
              && |units| == 1 && units == [units[0]] && UnicodeAt(data, pos, units[0])
              && !HighHalf(units[0]) && !LowHalf(units[0]) && 0 <= units[0] < 0x1_0000
    ensures end == pos + 12 ==>
              && |units| == 2 && units == [units[0], units[1]] && UnicodeAt(data, pos, units[0]) && HighHalf(units[0])
              && UnicodeAt(data, pos + 6, units[1]) && LowHalf(units[1])
  {
    hide IsHexDigit;
  }
}

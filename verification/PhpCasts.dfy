/** verify/phpvalue.go: comparison, case and hexadecimal text, by what they mean. */
module PhpCasts {
  import opened Bytes
  import opened JsonValue
  import opened Canonical
  import opened JsonSyntax
  import opened JsonScalars
  import opened JsonEscapes
  import opened JsonNumerals
  import opened PhpValues
  import opened Collection

  // ---- case

  const CAPITALS := "ABCDEFGHIJKLMNOPQRSTUVWXYZ"
  const SMALLS := "abcdefghijklmnopqrstuvwxyz"

  /** The same byte, or the small letter for a capital one. */
  ghost predicate LowersTo(b: byte, c: byte)
  {
    if exists k :: IsLetter(CAPITALS, k, b) then exists k :: IsLetter(CAPITALS, k, b) && IsLetter(SMALLS, k, c)
    else c == b
  }

  ghost predicate IsLetter(letters: string, k: int, b: byte)
  {
    0 <= k < |letters| && letters[k] as int == b as int
  }

  lemma LetterAt(k: int)
    requires 0 <= k < 26
    ensures CAPITALS[k] as int == 0x41 + k && SMALLS[k] as int == 0x61 + k
  {
  }

  lemma LowerByteExactly(b: byte, c: byte)
    ensures LowerByte(b) == c <==> LowersTo(b, c)
  {
    if 0x41 <= b <= 0x5A {
      var k := b as int - 0x41;
      LetterAt(k);
      assert IsLetter(CAPITALS, k, b);
      forall j | IsLetter(CAPITALS, j, b)
        ensures j == k
      {
        LetterAt(j);
      }
      assert IsLetter(SMALLS, k, c) <==> c as int == 0x61 + k;
    } else {
      forall j
        ensures !IsLetter(CAPITALS, j, b)
      {
        if 0 <= j < 26 {
          LetterAt(j);
        }
      }
    }
  }

  /** Letter by letter. */
  lemma LowerExactly(s: Bytes, t: Bytes)
    ensures Lower(s) == t <==> |s| == |t| && forall i :: 0 <= i < |s| ==> LowersTo(s[i], t[i])
  {
    hide LowerByte, LowersTo;
    if |s| == |t| {
      forall i | 0 <= i < |s|
        ensures LowerByte(s[i]) == t[i] <==> LowersTo(s[i], t[i])
      {
        LowerByteExactly(s[i], t[i]);
      }
      assert forall i :: 0 <= i < |s| ==> Lower(s)[i] == LowerByte(s[i]);
    }
  }

  // ---- hexadecimal text

  /** Two digits to a byte, the high one first, in either case. */
  ghost predicate HexSpells(s: Bytes, raw: Bytes)
  {
    |s| == 2 * |raw| && forall i :: 0 <= i < |raw| ==> SpellsByte(s, i, raw[i])
  }

  ghost predicate SpellsByte(s: Bytes, i: nat, b: byte)
    requires 2 * i + 1 < |s|
  {
    IsHexDigit(s[2 * i], b as int / 0x10) && IsHexDigit(s[2 * i + 1], b as int % 0x10)
  }

  lemma TwoDigits(hi: byte, lo: byte, b: byte)
    ensures IsHexDigit(hi, b as int / 0x10) && IsHexDigit(lo, b as int % 0x10) <==>
            HexDigit(hi).Some? && HexDigit(lo).Some? && b as int == HexDigit(hi).value * 0x10 + HexDigit(lo).value
  {
    hide HexDigit, IsHexDigit;
    HexDigitExactly(hi, b as int / 0x10);
    HexDigitExactly(lo, b as int % 0x10);
  }

  lemma HexShift(s: Bytes, raw: Bytes)
    requires |s| == 2 * |raw| && raw != []
    ensures HexSpells(s, raw) <==> SpellsByte(s, 0, raw[0]) && HexSpells(s[2..], raw[1..])
  {
    hide IsHexDigit;
    var t, rest := s[2..], raw[1..];
    forall i | 0 <= i < |rest|
      ensures SpellsByte(t, i, rest[i]) <==> SpellsByte(s, i + 1, raw[i + 1])
    {
      assert t[2 * i] == s[2 * (i + 1)] && t[2 * i + 1] == s[2 * (i + 1) + 1];
    }
    if HexSpells(s, raw) {
      forall i | 0 <= i < |rest|
        ensures SpellsByte(t, i, rest[i])
      {
        assert SpellsByte(s, i + 1, raw[i + 1]);
      }
    }
    if SpellsByte(s, 0, raw[0]) && HexSpells(t, rest) {
      forall i | 0 <= i < |raw|
        ensures SpellsByte(s, i, raw[i])
      {
        if i > 0 {
          assert SpellsByte(t, i - 1, rest[i - 1]);
        }
      }
    }
  }

  /** Hexadecimal text is read exactly as the bytes it spells. */
  lemma {:induction false} HexReads(s: Bytes, raw: Bytes)
    ensures HexBytes(s) == Some(raw) <==> HexSpells(s, raw)
  {
    hide HexDigit, IsHexDigit;
    if raw == [] {
    } else if |s| == 2 * |raw| {
      HexReads(s[2..], raw[1..]);
      TwoDigits(s[0], s[1], raw[0]);
      hide HexSpells;
      HexShift(s, raw);
      assert raw == [raw[0]] + raw[1..];
    }
  }

  /** It is written in small letters. */
  lemma {:induction false} HexWrites(raw: Bytes)
    ensures HexSpells(HexEncode(raw), raw)
    ensures forall i :: 0 <= i < |HexEncode(raw)| ==> SmallDigit(HexEncode(raw)[i])
  {
    if raw != [] {
      HexWrites(raw[1..]);
      var s := HexEncode(raw);
      assert s[2..] == HexEncode(raw[1..]);
      LetterIsSmall(raw[0] as int / 0x10);
      LetterIsSmall(raw[0] as int % 0x10);
      hide HexSpells, SmallDigit, IsHexDigit;
      HexShift(s, raw);
    }
  }

  ghost predicate SmallDigit(b: byte)
  {
    exists d :: 0 <= d < 0x10 && LOWER_DIGITS[d] as int == b as int
  }

  lemma LetterIsSmall(n: int)
    requires 0 <= n < 0x10
    ensures SmallDigit(HexLetter(n)) && IsHexDigit(HexLetter(n), n)
  {
    assert LOWER_DIGITS[n] as int == HexLetter(n) as int;
  }

  // ---- identity

  /** Nothing in it is an object. */
  ghost predicate ObjectFree(v: Value)
  {
    match v
    case Array(items) => forall i :: 0 <= i < |items| ==> ObjectFree(items[i])
    case Object(_) => false
    case _ => true
  }

  /** Identical means equal and without any object. */
  lemma {:induction false} StrictSameExactly(a: Value, b: Value)
    ensures StrictSame(a, b) <==> a == b && ObjectFree(a)
    decreases a
  {
    if a.Array? && b.Array? && |a.items| == |b.items| {
      forall i | 0 <= i < |a.items|
        ensures StrictSame(a.items[i], b.items[i]) <==> a.items[i] == b.items[i] && ObjectFree(a.items[i])
      {
        StrictSameExactly(a.items[i], b.items[i]);
      }
    }
  }

  /** A missing field and null are alike; any other two are identical where they are equal and hold no object. */
  lemma StrictExactly(a: Option<Value>, b: Option<Value>)
    ensures StrictEqual(a, b) <==>
            if a.None? || a == Some(Null) then b.None? || b == Some(Null) else a == b && ObjectFree(a.value)
  {
    hide StrictSame, ObjectFree;
    if a.Some? && b.Some? {
      StrictSameExactly(a.value, b.value);
    }
  }

  // ---- text

  /** A loop over a value runs over an array's elements or an object's values, in order, and over nothing else. */
  lemma IterExactly(v: Value)
    ensures v.Array? ==> IterValues(Some(v)) == v.items
    ensures v.Object? ==> |IterValues(Some(v))| == |v.members|
    ensures v.Object? ==> forall i :: 0 <= i < |v.members| ==> IterValues(Some(v))[i] == v.members[i].val
    ensures !v.Array? && !v.Object? ==> IterValues(Some(v)) == []
    ensures IterValues(None) == []
  {
  }

  /** Strings as they are, whole numbers in decimal, true as 1; nothing for what has no text. */
  lemma TextExactly(v: Value)
    ensures v.String? ==> Text(Some(v)) == v.s
    ensures v.Bool? ==> Text(Some(v)) == if v.b then Ascii("1") else []
    ensures v.Int? ==> exists n: Numeral ::
              GoodNumeral(n) && Whole(n) && SpellNumeral(n) == Text(Some(v)) && WholeWorth(n) == v.n
    ensures v.Null? || v.Array? || v.Object? ==> Text(Some(v)) == []
    ensures Text(None) == []
  {
    if v.Int? {
      IntText(v.n);
    }
  }

  ghost predicate Whole(n: Numeral)
  {
    n.fraction == [] && n.exponent == []
  }

  function WholeWorth(n: Numeral): int
  {
    if n.negative then -Worth(n.whole) else Worth(n.whole)
  }

  lemma DecimalIsWhole(m: nat)
    ensures GoodWhole(Decimal(m)) && Worth(Decimal(m)) == m
  {
    hide DigitsValue, Decimal, Worth;
    DecimalDigits(m);
    DecimalZero();
    DecimalSome(m);
    WorthIsValue(Decimal(m));
  }

  lemma DecimalSome(m: nat)
    ensures Decimal(m) != []
  {
  }

  lemma IntText(i: int)
    ensures exists n: Numeral ::
              GoodNumeral(n) && Whole(n) && SpellNumeral(n) == Text(Some(Int(i))) && WholeWorth(n) == i
  {
    hide Decimal, Worth, GoodWhole;
    var m: nat := if i < 0 then -i else i;
    DecimalIsWhole(m);
    var n := Numeral(i < 0, Decimal(m), [], []);
    assert Decimal(m) + ([] + []) == Decimal(m) && [] + Decimal(m) == Decimal(m);
    assert SpellNumeral(n) == Text(Some(Int(i)));
    assert GoodNumeral(n);
  }

  // ---- digests and days

  ghost predicate AnyDigit(c: byte)
  {
    exists k :: IsHexDigit(c, k)
  }

  /** A digest is 64 hexadecimal digits in small letters. */
  lemma Digest64Exactly(v: Option<Value>, d: Bytes)
    requires d != []
    ensures Digest64(v) == d <==>
            Lower(Text(v)) == d && |d| == 64 && forall i :: 0 <= i < 64 ==> AnyDigit(d[i])
  {
    hide Lower, Text, HexDigit, AnyDigit;
    var t := Lower(Text(v));
    if |t| == 64 {
      forall i | 0 <= i < 64
        ensures HexDigit(t[i]).Some? <==> AnyDigit(t[i])
      {
        DigitSome(t[i]);
      }
    }
  }

  lemma DigitSome(c: byte)
    ensures HexDigit(c).Some? <==> AnyDigit(c)
  {
    hide HexDigit, IsHexDigit;
    if HexDigit(c).Some? {
      HexDigitExactly(c, HexDigit(c).value);
    }
    if k :| IsHexDigit(c, k) {
      HexDigitExactly(c, k);
    }
  }

  ghost predicate DecimalDigit(c: byte)
  {
    exists k :: 0 <= k < 10 && IsHexDigit(c, k)
  }

  /** YYYY-MM-DD: four digits, two and two, with hyphens between. */
  lemma DayFormExactly(s: Bytes)
    ensures DayForm(s) <==>
            && |s| == 10 && s[4] as char == '-' && s[7] as char == '-'
            && (forall i :: 0 <= i < 10 && i !in {4, 7} ==> DecimalDigit(s[i]))
  {
    hide DecimalDigit;
    if |s| == 10 {
      forall i | 0 <= i < 10
        ensures IsDigit(s[i]) <==> DecimalDigit(s[i])
      {
        DecimalDigitExactly(s[i]);
      }
    }
  }

  lemma DecimalDigitExactly(c: byte)
    ensures IsDigit(c) <==> DecimalDigit(c)
  {
    if IsDigit(c) {
      assert IsHexDigit(c, c as int - 0x30);
    }
  }
}

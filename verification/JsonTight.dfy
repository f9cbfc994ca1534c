/**
 * internal/cjson/canonical.go: the canonical text of a value, said as a spelling: no space, the shortest escapes, small
 * hexadecimal letters, and keys in order.
 */
module JsonTight {
  import opened Bytes
  import opened Utf8
  import opened KeyOrder
  import opened JsonValue
  import opened JsonSyntax
  import opened JsonScalars
  import opened JsonDecoded
  import opened JsonEscapes
  import opened Canonical
  import opened JsonStrings
  import opened JsonNumerals
  import opened JsonRoundTrip
  import opened JsonEquality
  import opened JsonGrammar

  // ---- what is tight

  /** No capital hexadecimal letter. */
  ghost predicate SmallText(s: Bytes)
  {
    forall i :: 0 <= i < |s| ==> !(0x41 <= s[i] <= 0x46)
  }

  /** A control character that no letter stands for. */
  ghost predicate Nameless(s: Bytes)
  {
    |s| == 1 && s[0] < 0x20 && forall i :: 0 <= i < 8 ==> MEANINGS[i] != s[0] as int
  }

  /** Written as itself where it can be, else by its letter, else by four small digits; a slash as itself. */
  ghost predicate TightPiece(p: Piece)
  {
    GoodPiece(p)
    && (p.text[0] == 0x5C ==>
          || (|p.text| == 2 && p.text[1] != 0x2F)
          || (|p.text| == 6 && Nameless(p.value) && SmallText(p.text)))
  }

  ghost predicate TightPieces(ps: seq<Piece>)
  {
    forall i :: 0 <= i < |ps| ==> TightPiece(ps[i])
  }

  /** A whole number a double holds exactly; zero has no sign. */
  ghost predicate TightNumeral(n: Numeral)
  {
    && GoodNumeral(n) && n.fraction == [] && n.exponent == [] && Worth(n.whole) <= 9007199254740991
    && (n.negative ==> Worth(n.whole) != 0)
  }

  ghost predicate TightText(t: Text)
    decreases t
  {
    match t
    case Word(v) => v.Null? || v.Bool?
    case Numeric(n) => TightNumeral(n)
    case Quoted(pieces) => TightPieces(pieces)
    case Bracketed(gap, slots) => gap == [] && forall i :: 0 <= i < |slots| ==> TightSlot(slots[i])
    case Braced(gap, pairs) =>
      gap == [] && KeysAscend(pairs) && forall i :: 0 <= i < |pairs| ==> TightPair(pairs[i])
  }

  ghost predicate TightSlot(s: Slot)
    decreases s
  {
    s.before == [] && s.after == [] && TightText(s.text)
  }

  ghost predicate TightPair(p: Pair)
    decreases p
  {
    p.before == [] && p.between == [] && TightPieces(p.key) && TightSlot(p.slot)
  }

  ghost predicate KeysAscend(pairs: seq<Pair>)
  {
    forall i, j :: 0 <= i < j < |pairs| ==>
      ComesBefore(Units(MeanPieces(pairs[i].key)), Units(MeanPieces(pairs[j].key)))
  }

  // ---- strings

  lemma TightPieceIs(p: Piece)
    requires TightPiece(p)
    ensures Escaped(p.value) == p.text
  {
    hide Escaped, Writes, Units, ValidUtf8, DecodeRune, EscapeByte;
    if p.text[0] == 0x5C {
      if |p.text| == 2 {
        LetterTight(p);
      } else {
        HexTight(p);
      }
    } else if p.text[0] < 0x80 {
      EscapedOne(p.text[0]);
      PlainByte(p.text[0]);
      assert p.text == [p.text[0]];
    } else {
      HighRune(p.text);
      EscapedHigh(p.text);
    }
  }

  lemma PlainByte(b: byte)
    requires 0x20 <= b < 0x80 && b != 0x22 && b != 0x5C
    ensures EscapeByte(b) == [b]
  {
  }

  lemma HighRune(s: Bytes)
    requires s != [] && s[0] >= 0x80 && !Malformed(DecodeRune(s, 0)) && DecodeRune(s, 0).size == |s|
    ensures forall i :: 0 <= i < |s| ==> s[i] >= 0x80
  {
  }

  lemma LetterTight(p: Piece)
    requires |p.text| == 2 && p.text[0] == 0x5C && p.text[1] != 0x2F
    requires Writes(p.text, 0, Units(p.value), 2) && ValidUtf8(p.value)
    ensures Escaped(p.value) == p.text
  {
    hide Units, ValidUtf8, Escaped;
    var i :| 0 <= i < 8 && p.text[1] as int == LETTERS[i] as int && Units(p.value) == [MEANINGS[i]];
    var b := MEANINGS[i] as byte;
    UnitsOfByte(b);
    ValidAscii(b);
    UnitsInjective(p.value, [b]);
    EscapedOne(b);
    assert p.text == [0x5C, p.text[1]];
  }

  lemma HexTight(p: Piece)
    requires |p.text| == 6 && p.text[0] == 0x5C && Nameless(p.value) && SmallText(p.text)
    requires Writes(p.text, 0, Units(p.value), 6)
    ensures Escaped(p.value) == p.text
  {
    hide Units, Escaped, HexLetter, IsHexDigit;
    var b := p.value[0];
    assert p.value == [b];
    UnitsOfByte(b);
    var t := p.text;
    assert HexUnit(t, 2, b as int);
    SmallDigits(t[2], 0);
    SmallDigits(t[3], 0);
    SmallDigits(t[4], b as int / 0x10);
    SmallDigits(t[5], b as int % 0x10);
    ZeroLetter();
    EscapedOne(b);
    NamelessEscape(b);
    assert t == [t[0], t[1], t[2], t[3], t[4], t[5]];
  }

  lemma SmallDigits(c: byte, d: int)
    requires IsHexDigit(c, d) && !(0x41 <= c <= 0x46)
    ensures 0 <= d < 0x10 && c == HexLetter(d)
  {
  }

  lemma ZeroLetter()
    ensures HexLetter(0) == 0x30
  {
  }

  lemma NamelessEscape(b: byte)
    requires Nameless([b])
    ensures EscapeByte(b) == [0x5C, 0x75, 0x30, 0x30, HexLetter(b as int / 0x10), HexLetter(b as int % 0x10)]
  {
    assert MEANINGS[3] == 0x08 && MEANINGS[4] == 0x0C && MEANINGS[5] == 0x0A && MEANINGS[6] == 0x0D;
    assert MEANINGS[7] == 0x09;
  }

  lemma {:induction false} TightString(ps: seq<Piece>)
    requires TightPieces(ps)
    ensures Escaped(MeanPieces(ps)) == SpellPieces(ps)
  {
    hide TightPiece, Escaped;
    if ps == [] {
      EscapedNone();
    } else {
      TightPieceIs(ps[0]);
      TightString(ps[1..]);
      EscapedSplit(ps[0].value, MeanPieces(ps[1..]));
    }
  }

  // ---- numbers

  /** Digits without a leading zero are the decimal text of their number. */
  lemma {:induction false} WholeIsDecimal(s: Bytes)
    requires GoodWhole(s)
    ensures Decimal(DigitsValue(s)) == s
    decreases |s|
  {
    hide Decimal, DigitsValue;
    var init, last := s[..|s| - 1], s[|s| - 1];
    DigitsPush(s);
    if |s| == 1 {
      NoDigits();
      assert s == [last];
      DecimalOf(DigitsValue(s));
    } else {
      assert GoodWhole(init);
      WholeIsDecimal(init);
      DigitsFront(init);
      Leading(DigitValue(init[0]), |init| - 1);
      DecimalOf(DigitsValue(s));
      assert s == init + [last];
    }
  }

  lemma Leading(d: nat, k: nat)
    requires d >= 1
    ensures d * Power10(k) >= 1
  {
    hide Power10;
    Power10Grows(0, k);
    PowerStep(0);
    assert d * Power10(k) >= Power10(k);
  }

  lemma DecimalOf(n: nat)
    ensures Decimal(n) == if n < 10 then [(0x30 + n) as byte] else Decimal(n / 10) + [(0x30 + n % 10) as byte]
  {
  }

  lemma TightNumber(n: Numeral)
    requires TightNumeral(n)
    ensures Canon(DenoteNumeral(n)) == Some(SpellNumeral(n))
  {
    hide Decimal, DigitsValue, Worth;
    WorthIsValue(n.whole);
    WholeIsDecimal(n.whole);
    DecimalZero();
    assert n.whole + ([] + []) == n.whole && [] + n.whole == n.whole;
  }

  // ---- values

  lemma {:induction false} TightIsCanon(t: Text)
    requires TightText(t)
    ensures Canon(Denote(t)) == Some(Spell(t))
    decreases t, 1
  {
    match t {
      case Word(v) =>
      case Numeric(n) =>
        hide Canon, TightNumeral, SpellNumeral, DenoteNumeral;
        TightNumber(n);
      case Quoted(pieces) =>
        hide Escaped, TightPieces, MeanPieces, SpellPieces;
        TightString(pieces);
        assert CanonString(MeanPieces(pieces)) == [0x22] + (SpellPieces(pieces) + [0x22]);
      case Bracketed(gap, slots) => TightBracketed(t);
      case Braced(gap, pairs) => TightBraced(t);
    }
  }

  lemma {:induction false} TightBracketed(t: Text)
    requires t.Bracketed? && TightText(t)
    ensures Canon(Denote(t)) == Some(Spell(t))
    decreases t, 0
  {
    hide TightSlot, SpellSlots, DenoteSlots, CanonItems;
    TightItems(t.slots);
    NoItems();
    var inner := SpellSlots(t.slots);
    assert [0x5B] + inner + [0x5D] == [0x5B] + (inner + [0x5D]);
  }

  lemma NoItems()
    ensures SpellSlots([]) == [] && DenoteSlots([]) == [] && SpellPairs([]) == []
    ensures CanonItems([]) == Some([]) && CanonMembers([]) == Some([])
  {
  }

  lemma {:induction false} TightItems(slots: seq<Slot>)
    requires forall i :: 0 <= i < |slots| ==> TightSlot(slots[i])
    ensures CanonItems(DenoteSlots(slots)) == Some(SpellSlots(slots))
    decreases slots, 0
  {
    hide TightText, Canon, Spell, Denote;
    if slots != [] {
      TightIsCanon(slots[0].text);
      TightItems(slots[1..]);
      assert [] + (Spell(slots[0].text) + []) == Spell(slots[0].text);
      assert DenoteSlots(slots)[1..] == DenoteSlots(slots[1..]);
      var a, b := Spell(slots[0].text), SpellSlots(slots[1..]);
      assert a + [0x2C] + b == a + ([0x2C] + b);
    }
  }

  /** The members in the order written. */
  function MembersOf(pairs: seq<Pair>): (ms: seq<Member>)
    ensures |ms| == |pairs|
    decreases pairs
  {
    if pairs == [] then []
    else [Member(MeanPieces(pairs[0].key), Denote(pairs[0].slot.text))] + MembersOf(pairs[1..])
  }

  lemma {:induction false} MembersOfAt(pairs: seq<Pair>, i: nat)
    requires i < |pairs|
    ensures MembersOf(pairs)[i] == Member(MeanPieces(pairs[i].key), Denote(pairs[i].slot.text))
  {
    hide Denote, MeanPieces;
    if i > 0 {
      MembersOfAt(pairs[1..], i - 1);
    }
  }

  lemma AscendingSorted(pairs: seq<Pair>)
    requires KeysAscend(pairs)
    ensures SortedByKey(MembersOf(pairs))
  {
    hide MembersOf, MeanPieces, Denote, ComesBefore, Less, Units;
    var ms := MembersOf(pairs);
    forall i, j | 0 <= i < j < |ms|
      ensures Less(ms[i].key, ms[j].key)
    {
      MembersOfAt(pairs, i);
      MembersOfAt(pairs, j);
      LessExactly(ms[i].key, ms[j].key);
    }
  }

  /** Keys in order differ, so none replaces another. */
  lemma {:induction false} GatherAll(acc: seq<Member>, pairs: seq<Pair>)
    requires SortedByKey(acc + MembersOf(pairs))
    ensures Gather(acc, pairs) == acc + MembersOf(pairs)
    decreases pairs
  {
    hide Less, Denote, MeanPieces;
    if pairs == [] {
      assert acc + [] == acc;
    } else {
      var m, all := MembersOf(pairs)[0], acc + MembersOf(pairs);
      forall i | 0 <= i < |acc|
        ensures acc[i].key != m.key
      {
        assert all[i] == acc[i] && all[|acc|] == m;
        LessStrict(m.key, m.key, m.key);
      }
      PutNew(acc, m.key, m.val);
      assert acc + [m] + MembersOf(pairs[1..]) == all;
      GatherAll(acc + [m], pairs[1..]);
    }
  }

  lemma {:induction false} TightBraced(t: Text)
    requires t.Braced? && TightText(t)
    ensures Canon(Denote(t)) == Some(Spell(t))
    decreases t, 0
  {
    hide TightPair, SpellPairs, CanonMembers, KeysAscend, Gather, Sort, SortedByKey, MembersOf;
    AscendingSorted(t.pairs);
    assert [] + MembersOf(t.pairs) == MembersOf(t.pairs);
    GatherAll([], t.pairs);
    SortOfSorted(MembersOf(t.pairs));
    TightMembers(t.pairs);
    NoItems();
    var inner := SpellPairs(t.pairs);
    assert [0x7B] + inner + [0x7D] == [0x7B] + (inner + [0x7D]);
  }

  lemma {:induction false} TightMembers(pairs: seq<Pair>)
    requires forall i :: 0 <= i < |pairs| ==> TightPair(pairs[i])
    ensures CanonMembers(MembersOf(pairs)) == Some(SpellPairs(pairs))
    decreases pairs, 0
  {
    hide TightText, Canon, Spell, Denote, TightPieces, MeanPieces, SpellPieces, Escaped;
    if pairs != [] {
      var p := pairs[0];
      assert TightPair(p) && TightSlot(p.slot);
      TightString(p.key);
      TightIsCanon(p.slot.text);
      TightMembers(pairs[1..]);
      assert MembersOf(pairs)[1..] == MembersOf(pairs[1..]);
      PairSpelled(p);
      var a, b := SpellPair(p), SpellPairs(pairs[1..]);
      assert a + [0x2C] + b == a + ([0x2C] + b);
    }
  }

  lemma PairSpelled(p: Pair)
    requires p.before == [] && p.between == [] && p.slot.before == [] && p.slot.after == []
    requires Escaped(MeanPieces(p.key)) == SpellPieces(p.key)
    ensures SpellPair(p) == CanonString(MeanPieces(p.key)) + [0x3A] + Spell(p.slot.text)
  {
    hide MeanPieces, SpellPieces, Escaped, Spell;
    var x, y := [0x22] + (SpellPieces(p.key) + [0x22]), Spell(p.slot.text);
    assert [] + (y + []) == y;
    assert [] + (x + ([] + ([0x3A] + y))) == x + [0x3A] + y;
    assert x == [0x22] + SpellPieces(p.key) + [0x22];
  }

  // ---- every value that prints has a tight spelling

  lemma TightPieceOf(s: Bytes) returns (p: Piece)
    requires s != [] && ValidUtf8(s)
    ensures TightPiece(p) && p.value != [] && |p.value| <= |s| && p.value == s[..|p.value|] && ValidUtf8(s[|p.value|..])
  {
    hide Escaped, Writes, Units, EscapeByte, ValidUtf8, EncodeRune, DecodeRune;
    var k := FirstRune(s);
    if s[0] < 0x80 {
      p := TightByteOf(s[0]);
      assert s[..1] == [s[0]];
    } else {
      DecodeBounds(s, 0);
      EncodeOfDecode(s, 0);
      var t := s[..k];
      assert s[0..0 + k] == t && t[0..0 + |t|] == t;
      DecodeOfEncode(DecodeRune(s, 0).code, t, 0);
      p := Piece(t, t);
    }
  }

  lemma TightByteOf(b: byte) returns (p: Piece)
    requires b < 0x80
    ensures TightPiece(p) && p.value == [b]
  {
    hide Units, ValidUtf8, DecodeRune, HexUnit;
    p := Piece(EscapeByte(b), [b]);
    UnitsOfByte(b);
    ValidAscii(b);
    if 0x20 <= b && b != 0x22 && b != 0x5C {
      PlainByte(b);
    } else if |EscapeByte(b)| == 2 {
      LetterOf(b);
    } else {
      NamelessOf(b);
    }
  }

  lemma LetterOf(b: byte)
    requires |EscapeByte(b)| == 2
    ensures var e := EscapeByte(b);
            e[0] == 0x5C && e[1] != 0x2F && Writes(e, 0, [b as int], 2)
  {
    var i := if b == 0x22 then 0 else if b == 0x5C then 1 else if b == 0x08 then 3 else if b == 0x0C then 4
      else if b == 0x0A then 5 else if b == 0x0D then 6 else 7;
    assert EscapeByte(b)[1] as int == LETTERS[i] as int && [b as int] == [MEANINGS[i]];
  }

  lemma NamelessOf(b: byte)
    requires b < 0x20 && |EscapeByte(b)| != 2
    ensures var e := EscapeByte(b);
            |e| == 6 && e[0] == 0x5C && Nameless([b]) && SmallText(e) && Writes(e, 0, [b as int], 6)
  {
    hide HexLetter, IsHexDigit;
    var e := EscapeByte(b);
    LetterIsDigit(b as int / 0x10);
    LetterIsDigit(b as int % 0x10);
    LetterIsDigit(0);
    ZeroLetter();
    assert b as int / 0x1000 == 0 && b as int / 0x100 % 0x10 == 0 && b as int / 0x10 % 0x10 == b as int / 0x10;
  }

  lemma LetterIsDigit(n: int)
    requires 0 <= n < 0x10
    ensures IsHexDigit(HexLetter(n), n) && !(0x41 <= HexLetter(n) <= 0x46)
  {
    assert LOWER_DIGITS[n] as int == HexLetter(n) as int;
  }

  lemma {:induction false} TightPiecesOf(s: Bytes) returns (ps: seq<Piece>)
    requires ValidUtf8(s)
    ensures TightPieces(ps) && MeanPieces(ps) == s
    decreases |s|
  {
    hide TightPiece, ValidUtf8;
    if s == [] {
      ps := [];
    } else {
      var p := TightPieceOf(s);
      var rest := TightPiecesOf(s[|p.value|..]);
      ps := [p] + rest;
      assert s == p.value + s[|p.value|..];
    }
  }

  lemma TightNumeralOf(i: int) returns (n: Numeral)
    requires -MAX_EXACT_INT <= i <= MAX_EXACT_INT
    ensures TightNumeral(n) && DenoteNumeral(n) == Int(i)
  {
    hide Decimal, Worth, DigitsValue;
    var m: nat := if i < 0 then -i else i;
    DecimalDigits(m);
    DecimalZero();
    DecimalLong(m);
    WorthIsValue(Decimal(m));
    n := Numeral(i < 0, Decimal(m), [], []);
  }

  lemma DecimalLong(m: nat)
    ensures Decimal(m) != []
  {
  }

  /** A well-formed value that prints is spelled tightly, its keys in order. */
  lemma {:induction false} TightOf(v: Value) returns (t: Text)
    requires WellFormed(v) && Canon(v).Some?
    ensures TightText(t) && Denote(t) == Norm(v)
    decreases Size(v), 2
  {
    match v {
      case String(s) =>
        hide TightPieces, MeanPieces, ValidUtf8;
        var ps := TightPiecesOf(s);
        t := Quoted(ps);
      case Int(i) =>
        hide TightNumeral, DenoteNumeral;
        var n := TightNumeralOf(i);
        t := Numeric(n);
      case Array(items) => t := TightArrayOf(v);
      case Object(ms) => t := TightObjectOf(v);
      case _ => t := Word(v);
    }
  }

  lemma {:induction false} TightArrayOf(v: Value) returns (t: Text)
    requires v.Array? && WellFormed(v) && Canon(v).Some?
    ensures TightText(t) && Denote(t) == Norm(v)
    decreases Size(v), 1
  {
    hide TightSlot, DenoteSlots, NormItems, CanonItems;
    var slots := TightSlotsOf(v.items);
    t := Bracketed([], slots);
  }

  lemma {:induction false} TightSlotsOf(items: seq<Value>) returns (slots: seq<Slot>)
    requires CanonItems(items).Some? && forall i :: 0 <= i < |items| ==> WellFormed(items[i])
    ensures (forall i :: 0 <= i < |slots| ==> TightSlot(slots[i])) && DenoteSlots(slots) == NormItems(items)
    decreases ItemsSize(items), 0
  {
    hide TightText, Canon, Denote, Norm, WellFormed;
    if items == [] {
      slots := [];
    } else {
      var t := TightOf(items[0]);
      var rest := TightSlotsOf(items[1..]);
      slots := [Slot([], t, [])] + rest;
      assert slots[1..] == rest;
    }
  }

  lemma {:induction false} TightObjectOf(v: Value) returns (t: Text)
    requires v.Object? && WellFormed(v) && Canon(v).Some?
    ensures TightText(t) && Denote(t) == Norm(v)
    decreases Size(v), 1
  {
    hide TightPair, Gather, MembersOf, NormMembers, CanonMembers, Sort, Less, ValidUtf8, ComesBefore, Units;
    assert ValidKeys(v.members);
    SortSorted(v.members);
    SortSameMembers(v.members);
    var ms := Sort(v.members);
    forall i | 0 <= i < |ms|
      ensures ValidUtf8(ms[i].key) && WellFormed(ms[i].val)
    {
      assert ms[i] in v.members;
    }
    var pairs := TightPairsOf(ms);
    KeysAscendOf(ms, pairs);
    t := Braced([], pairs);
    AscendingSorted(pairs);
    assert [] + MembersOf(pairs) == MembersOf(pairs);
    GatherAll([], pairs);
  }

  lemma KeysAscendOf(ms: seq<Member>, pairs: seq<Pair>)
    requires SortedByKey(ms) && MembersOf(pairs) == NormMembers(ms)
    ensures KeysAscend(pairs)
  {
    hide Less, Units, ComesBefore, MembersOf, NormMembers, MeanPieces;
    forall i, j | 0 <= i < j < |pairs|
      ensures ComesBefore(Units(MeanPieces(pairs[i].key)), Units(MeanPieces(pairs[j].key)))
    {
      MembersOfAt(pairs, i);
      MembersOfAt(pairs, j);
      NormKeyAt(ms, i);
      NormKeyAt(ms, j);
      LessExactly(ms[i].key, ms[j].key);
    }
  }

  lemma {:induction false} NormKeyAt(ms: seq<Member>, i: nat)
    requires i < |ms|
    ensures NormMembers(ms)[i].key == ms[i].key
  {
    hide Norm;
    if i > 0 {
      NormKeyAt(ms[1..], i - 1);
    }
  }

  lemma {:induction false} TightPairsOf(ms: seq<Member>) returns (pairs: seq<Pair>)
    requires CanonMembers(ms).Some?
    requires forall i :: 0 <= i < |ms| ==> ValidUtf8(ms[i].key) && WellFormed(ms[i].val)
    ensures (forall i :: 0 <= i < |pairs| ==> TightPair(pairs[i])) && MembersOf(pairs) == NormMembers(ms)
    decreases MembersSize(ms), 0
  {
    hide TightText, Canon, Denote, Norm, WellFormed, TightPieces, MeanPieces, ValidUtf8;
    if ms == [] {
      pairs := [];
    } else {
      var key := TightPiecesOf(ms[0].key);
      var t := TightOf(ms[0].val);
      var rest := TightPairsOf(ms[1..]);
      var p := Pair([], key, [], Slot([], t, []));
      assert TightSlot(p.slot) && TightPair(p);
      pairs := [p] + rest;
      assert pairs[1..] == rest;
    }
  }

  /** A text spells the value tightly. */
  ghost predicate SpellsTightly(t: Text, v: Value, text: Bytes)
  {
    TightText(t) && Denote(t) == Norm(v) && Spell(t) == text
  }

  /** The canonical text of a value is its tight spelling, and there is one exactly where the value prints. */
  lemma CanonExactly(v: Value, text: Bytes)
    requires WellFormed(v)
    ensures Canon(v) == Some(text) <==> exists t :: SpellsTightly(t, v, text)
  {
    hide Canon, TightText, Denote, Norm, Spell, WellFormed;
    if Canon(v) == Some(text) {
      var t := TightOf(v);
      TightIsCanon(t);
      CanonOfNorm(v);
      assert SpellsTightly(t, v, text);
    }
    if t :| SpellsTightly(t, v, text) {
      TightIsCanon(t);
      CanonOfNorm(v);
    }
  }
}

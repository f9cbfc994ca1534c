/** internal/cjson/parse.go: what each error code says of the bytes where it is reported. */
module JsonFailures {
  import opened Bytes
  import opened Utf8
  import opened JsonValue
  import opened JsonSyntax
  import opened JsonScalars
  import opened KeyOrder
  import opened JsonEscapes
  import opened JsonStrings

  function Openings(data: Bytes, n: nat): nat
    requires n <= |data|
  {
    if n == 0 then 0 else Openings(data, n - 1) + if data[n - 1] == 0x5B || data[n - 1] == 0x7B then 1 else 0
  }

  lemma {:induction false} OpeningsGrow(data: Bytes, n: nat, m: nat)
    requires n <= m <= |data|
    ensures Openings(data, n) <= Openings(data, m)
  {
    if n < m {
      OpeningsGrow(data, n, m - 1);
    }
  }

  /** A string is open here: a quotation mark, and since then nothing but what can stand in a string. */
  ghost predicate OpenSince(data: Bytes, pos: nat, q: nat, ps: seq<Piece>)
  {
    q < pos <= |data| && data[q] == 0x22 && GoodPieces(ps) && data[q + 1..pos] == SpellPieces(ps)
  }

  /** A key here begins with an escaped NUL. */
  ghost predicate NulKeyAt(data: Bytes, q: nat)
  {
    q < |data| && data[q] == 0x22 && UnicodeAt(data, q + 1, 0)
  }

  /**
   * A control character, or the end of the data inside a string; bytes that begin no rune; the end of an escaped half
   * of a surrogate pair; the 512th bracket opened, or a later one; a key before that begins with NUL, where that is not
   * allowed.
   */
  ghost predicate Explains(assoc: bool, data: Bytes, code: Code, pos: nat)
  {
    match code
    case CtrlChar =>
      (pos < |data| && data[pos] < 0x20) || (pos == |data| && exists q: nat, ps :: OpenSince(data, pos, q, ps))
    case BadUtf8 =>
      pos < |data| && data[pos] >= 0x80 && forall code :: Scalar(code) ==> !Placed(data, pos, EncodeRune(code))
    case BadUtf16 => exists unit :: EndsHalf(data, pos, unit)
    case TooDeep => pos < |data| && (data[pos] == 0x5B || data[pos] == 0x7B) && Openings(data, pos + 1) >= 512
    case PropertyName => !assoc && exists q: nat :: q < pos && NulKeyAt(data, q)
    case Syntax => pos <= |data|
  }

  lemma NoRune(data: Bytes, pos: nat)
    requires pos < |data| && Malformed(DecodeRune(data, pos))
    ensures forall code :: Scalar(code) ==> !Placed(data, pos, EncodeRune(code))
  {
    hide EncodeRune, DecodeRune;
    forall code | Scalar(code)
      ensures !Placed(data, pos, EncodeRune(code))
    {
      if Placed(data, pos, EncodeRune(code)) {
        DecodeOfEncode(code, data, pos);
        EncodeSize(code);
      }
    }
  }

  lemma EncodeSize(code: int)
    requires Scalar(code)
    ensures |EncodeRune(code)| == 1 ==> code != RUNE_ERROR
  {
  }

  lemma NulKey(data: Bytes, q: nat)
    requires q < |data| && data[q] == 0x22 && Str(data, q + 1, []).Ok?
    requires Str(data, q + 1, []).value != [] && Str(data, q + 1, []).value[0] == 0
    ensures NulKeyAt(data, q)
  {
    hide *;
    var ps := PiecesOf(data, q + 1, []);
    var end := Str(data, q + 1, []).pos;
    assert [] + MeanPieces(ps) == MeanPieces(ps);
    MeansSome(ps);
    var p := ps[0];
    NulPiece(p);
    SlicePlaced(data, q + 1, end);
    assert data[q + 1..end] == p.text + (SpellPieces(ps[1..]) + [0x22]);
    PlacedSplit(data, q + 1, p.text, SpellPieces(ps[1..]) + [0x22]);
    UnitPlaced(data, q + 1, p.text, 0, 0);
    NulKeyIs(data, q);
  }

  lemma NulKeyIs(data: Bytes, q: nat)
    requires q < |data| && data[q] == 0x22 && UnicodeAt(data, q + 1, 0)
    ensures NulKeyAt(data, q)
  {
  }

  lemma MeansSome(ps: seq<Piece>)
    requires GoodPieces(ps) && MeanPieces(ps) != [] && MeanPieces(ps)[0] == 0
    ensures ps != [] && GoodPiece(ps[0]) && ps[0].value != [] && ps[0].value[0] == 0
    ensures SpellPieces(ps) == ps[0].text + SpellPieces(ps[1..])
  {
    hide UnicodeAt, Units, ValidUtf8, DecodeRune;
    NoUnits();
  }

  lemma NoUnits()
    ensures Units([]) == []
  {
  }

  lemma NulPiece(p: Piece)
    requires GoodPiece(p) && p.value != [] && p.value[0] == 0
    ensures |p.text| >= 6 && UnicodeAt(p.text, 0, 0)
  {
    hide UnicodeAt, ValidUtf8, Units;
    NulUnit(p.value);
  }

  lemma NulUnit(value: Bytes)
    requires value != [] && value[0] == 0
    ensures Units(value) != [] && Units(value)[0] == 0
  {
  }

  ghost predicate EndsHalf(data: Bytes, pos: nat, unit: int)
  {
    pos >= 6 && UnicodeAt(data, pos - 6, unit) && (HighHalf(unit) || LowHalf(unit))
  }

  lemma UnexpectedExplains(assoc: bool, data: Bytes, pos: nat)
    requires pos <= |data|
    ensures Explains(assoc, data, Unexpected(data, pos), pos)
  {
    hide DecodeRune, Placed, EncodeRune;
    if pos < |data| && Malformed(DecodeRune(data, pos)) {
      NoRune(data, pos);
    }
  }

  lemma EscapeExplains(assoc: bool, data: Bytes, pos: nat)
    requires pos < |data| && data[pos] == 0x5C && Escape(data, pos).Fail?
    ensures Explains(assoc, data, Escape(data, pos).code, Escape(data, pos).pos)
  {
    hide Hex4, HexUnit, EncodeRune, ShortEscape;
    var unit := Hex4(data, pos + 2);
    if pos + 1 < |data| && ShortEscape(data[pos + 1]).None? && data[pos + 1] == 0x75 && unit.Some? {
      Hex4Exactly(data, pos + 2, unit.value);
      assert UnicodeAt(data, pos, unit.value);
      if HighHalf(unit.value) || LowHalf(unit.value) {
        assert EndsHalf(data, pos + 6, unit.value);
      }
    }
  }

  lemma {:induction false} StrExplains(assoc: bool, data: Bytes, pos: nat, buf: Bytes, q: nat, ps: seq<Piece>)
    requires OpenSince(data, pos, q, ps) && Str(data, pos, buf).Fail?
    ensures Explains(assoc, data, Str(data, pos, buf).code, Str(data, pos, buf).pos)
    decreases |data| - pos
  {
    OpenWithin(data, pos, q, ps);
    hide *;
    StrRefused(data, pos, buf);
    if PieceAt(data, pos) {
      var p := PieceOf(data, pos, buf);
      OpenStep(data, pos, q, ps, p);
      var next, buf' := pos + |p.text|, buf + p.value;
      assert Str(data, next, buf') == Str(data, pos, buf);
      StrExplains(assoc, data, next, buf', q, ps + [p]);
    } else {
      StringEnds(assoc, data, pos, q, ps, Str(data, pos, buf).code, Str(data, pos, buf).pos);
    }
  }

  lemma OpenWithin(data: Bytes, pos: nat, q: nat, ps: seq<Piece>)
    requires OpenSince(data, pos, q, ps)
    ensures q < pos <= |data|
  {
  }

  lemma OpenStep(data: Bytes, pos: nat, q: nat, ps: seq<Piece>, p: Piece)
    requires OpenSince(data, pos, q, ps) && GoodPiece(p)
    requires pos + |p.text| <= |data| && p.text == data[pos..pos + |p.text|]
    ensures OpenSince(data, pos + |p.text|, q, ps + [p])
  {
    hide GoodPieces, GoodPiece, SpellPieces;
    PiecesPush(ps, p);
    assert data[q + 1..pos + |p.text|] == data[q + 1..pos] + data[pos..pos + |p.text|];
  }

  /** A string that is refused here, and not further on. */
  ghost predicate RefusedHere(data: Bytes, pos: nat, code: Code, at: nat)
    requires pos <= |data|
  {
    if pos == |data| || data[pos] < 0x20 then code == CtrlChar && at == pos
    else if data[pos] == 0x5C then
      Escape(data, pos).Fail? && Escape(data, pos).code == code && Escape(data, pos).pos == at
    else code == BadUtf8 && at == pos && data[pos] >= 0x80 && Malformed(DecodeRune(data, pos))
  }

  lemma StrRefused(data: Bytes, pos: nat, buf: Bytes)
    requires pos <= |data| && Str(data, pos, buf).Fail?
    ensures !PieceAt(data, pos) ==> RefusedHere(data, pos, Str(data, pos, buf).code, Str(data, pos, buf).pos)
  {
    hide DecodeRune, Escape;
  }

  lemma StringEnds(assoc: bool, data: Bytes, pos: nat, q: nat, ps: seq<Piece>, code: Code, at: nat)
    requires OpenSince(data, pos, q, ps) && RefusedHere(data, pos, code, at)
    ensures Explains(assoc, data, code, at)
  {
    hide DecodeRune, Escape, EncodeRune, Placed, GoodPieces, SpellPieces, EndsHalf, Openings;
    if pos < |data| && data[pos] == 0x5C {
      EscapeExplains(assoc, data, pos);
    } else if pos < |data| && data[pos] >= 0x80 {
      NoRune(data, pos);
    }
  }

  lemma OpenHere(data: Bytes, q: nat)
    requires q < |data| && data[q] == 0x22
    ensures OpenSince(data, q + 1, q, [])
  {
  }

  lemma NumberExplains(assoc: bool, data: Bytes, pos: nat)
    requires pos < |data| && Number(data, pos).Fail?
    ensures Explains(assoc, data, Number(data, pos).code, Number(data, pos).pos)
  {
    hide DigitsEnd, FitsInt64;
  }

  lemma {:induction false} ValueExplains(assoc: bool, data: Bytes, pos: nat, depth: int)
    requires pos <= |data| && PValue(assoc, data, pos, depth).Fail? && depth <= Openings(data, pos)
    ensures Explains(assoc, data, PValue(assoc, data, pos, depth).code, PValue(assoc, data, pos, depth).pos)
    decreases |data| - pos, 1
  {
    hide PObject, PArray, Number, Literal, Str, Unexpected;
    if pos < |data| {
      var b := data[pos];
      if b == 0x7B {
        ObjectExplains(assoc, data, pos, depth);
      } else if b == 0x5B {
        ArrayExplains(assoc, data, pos, depth);
      } else if b == 0x22 {
        if Str(data, pos + 1, []).Fail? {
          OpenHere(data, pos);
          StrExplains(assoc, data, pos + 1, [], pos, []);
        }
      } else if b == 0x74 || b == 0x66 || b == 0x6E {
        WordExplains(data, pos);
      } else if b == 0x2D || Digit(b) {
        NumberExplains(assoc, data, pos);
      } else {
        UnexpectedExplains(assoc, data, pos);
      }
    }
  }

  lemma WordExplains(data: Bytes, pos: nat)
    requires pos <= |data|
    ensures forall word, v :: Literal(data, pos, word, v).Fail? ==>
              Literal(data, pos, word, v).code == Syntax && Literal(data, pos, word, v).pos == pos
  {
  }

  lemma {:induction false} ArrayExplains(assoc: bool, data: Bytes, pos: nat, depth: int)
    requires pos < |data| && data[pos] == 0x5B && PArray(assoc, data, pos, depth).Fail? && depth <= Openings(data, pos)
    ensures Explains(assoc, data, PArray(assoc, data, pos, depth).code, PArray(assoc, data, pos, depth).pos)
    decreases |data| - pos, 0
  {
    hide PItems, SkipSpace;
    var start := SkipSpace(data, pos + 1);
    OpeningsGrow(data, pos + 1, start);
    if depth + 1 < MAX_DEPTH && !ByteAt(data, start, 0x5D) {
      ItemsExplain(assoc, data, start, depth + 1, []);
    }
  }

  lemma {:induction false} ItemsExplain(assoc: bool, data: Bytes, pos: nat, depth: int, acc: seq<Value>)
    requires pos <= |data| && PItems(assoc, data, pos, depth, acc).Fail? && depth <= Openings(data, pos)
    ensures var r := PItems(assoc, data, pos, depth, acc); Explains(assoc, data, r.code, r.pos)
    decreases |data| - pos, 2
  {
    hide PValue, SkipSpace, Unexpected;
    var val := PValue(assoc, data, pos, depth);
    if val.Fail? {
      ValueExplains(assoc, data, pos, depth);
    } else {
      var next := SkipSpace(data, val.pos);
      if ByteAt(data, next, 0x2C) {
        OpeningsGrow(data, pos, SkipSpace(data, next + 1));
        ItemsExplain(assoc, data, SkipSpace(data, next + 1), depth, acc + [val.value]);
      } else {
        UnexpectedExplains(assoc, data, next);
      }
    }
  }

  lemma {:induction false} ObjectExplains(assoc: bool, data: Bytes, pos: nat, depth: int)
    requires pos < |data| && data[pos] == 0x7B && PObject(assoc, data, pos, depth).Fail? && depth <= Openings(data, pos)
    ensures Explains(assoc, data, PObject(assoc, data, pos, depth).code, PObject(assoc, data, pos, depth).pos)
    decreases |data| - pos, 0
  {
    hide PMembers, SkipSpace;
    var start := SkipSpace(data, pos + 1);
    OpeningsGrow(data, pos + 1, start);
    if depth + 1 < MAX_DEPTH && !ByteAt(data, start, 0x7D) {
      MembersExplain(assoc, data, start, depth + 1, []);
    }
  }

  lemma {:induction false} MembersExplain(assoc: bool, data: Bytes, pos: nat, depth: int, acc: seq<Member>)
    requires pos <= |data| && PMembers(assoc, data, pos, depth, acc).Fail? && depth <= Openings(data, pos)
    ensures var r := PMembers(assoc, data, pos, depth, acc); Explains(assoc, data, r.code, r.pos)
    decreases |data| - pos, 3
  {
    hide PPair, SkipSpace, Unexpected, Put;
    var pair := PPair(assoc, data, pos, depth);
    if pair.Fail? {
      PairExplains(assoc, data, pos, depth);
    } else {
      var next := SkipSpace(data, pair.pos);
      if ByteAt(data, next, 0x2C) {
        OpeningsGrow(data, pos, SkipSpace(data, next + 1));
        MembersExplain(assoc, data, SkipSpace(data, next + 1), depth, Put(acc, pair.value.key, pair.value.val));
      } else {
        UnexpectedExplains(assoc, data, next);
      }
    }
  }

  lemma {:induction false} PairExplains(assoc: bool, data: Bytes, pos: nat, depth: int)
    requires pos <= |data| && PPair(assoc, data, pos, depth).Fail? && depth <= Openings(data, pos)
    ensures Explains(assoc, data, PPair(assoc, data, pos, depth).code, PPair(assoc, data, pos, depth).pos)
    decreases |data| - pos, 2
  {
    hide PValue, SkipSpace, Unexpected, Str, UnicodeAt, OpenSince, NulKeyAt, EndsHalf;
    if !ByteAt(data, pos, 0x22) {
      UnexpectedExplains(assoc, data, pos);
    } else {
      var key := Str(data, pos + 1, []);
      if key.Fail? {
        OpenHere(data, pos);
        StrExplains(assoc, data, pos + 1, [], pos, []);
      } else {
        var colon := SkipSpace(data, key.pos);
        if !ByteAt(data, colon, 0x3A) {
          UnexpectedExplains(assoc, data, colon);
        } else if PValue(assoc, data, SkipSpace(data, colon + 1), depth).Fail? {
          OpeningsGrow(data, pos, SkipSpace(data, colon + 1));
          ValueExplains(assoc, data, SkipSpace(data, colon + 1), depth);
        } else if PPair(assoc, data, pos, depth).code == PropertyName {
          NulKey(data, pos);
        }
      }
    }
  }

  /** Wherever a document is refused, the code says what is wrong there. */
  lemma FailureExplained(assoc: bool, data: Bytes)
    requires Document(assoc, data).Fail?
    ensures Explains(assoc, data, Document(assoc, data).code, Document(assoc, data).pos)
  {
    hide PValue, SkipSpace, Unexpected;
    var start := SkipSpace(data, 0);
    if start < |data| {
      var v := PValue(assoc, data, start, 0);
      if v.Fail? {
        ValueExplains(assoc, data, start, 0);
      } else {
        UnexpectedExplains(assoc, data, SkipSpace(data, v.pos));
      }
    }
  }
}

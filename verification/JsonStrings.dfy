/** internal/cjson/parse.go: a string is read exactly where it is spelled in pieces, and as what they stand for. */
module JsonStrings {
  import opened Bytes
  import opened Utf8
  import opened KeyOrder
  import opened JsonSyntax
  import opened JsonScalars
  import opened JsonDecoded
  import opened JsonEscapes

  /** A stretch of a string as written, and the bytes it stands for. */
  datatype Piece = Piece(text: Bytes, value: Bytes)

  /** A printable ASCII character, a well-formed rune, or an escape for the UTF-16 units of the value. */
  ghost predicate GoodPiece(p: Piece)
  {
    || (|p.text| == 1 && 0x20 <= p.text[0] < 0x80 && p.text[0] != 0x22 && p.text[0] != 0x5C && p.value == p.text)
    || (p.text != [] && p.text[0] >= 0x80 && !Malformed(DecodeRune(p.text, 0)) && DecodeRune(p.text, 0).size == |p.text|
        && p.value == p.text)
    || (p.text != [] && p.text[0] == 0x5C && Writes(p.text, 0, Units(p.value), |p.text|) && ValidUtf8(p.value))
  }

  ghost predicate GoodPieces(ps: seq<Piece>)
  {
    forall i :: 0 <= i < |ps| ==> GoodPiece(ps[i])
  }

  function SpellPieces(ps: seq<Piece>): Bytes
  {
    if ps == [] then [] else ps[0].text + SpellPieces(ps[1..])
  }

  function MeanPieces(ps: seq<Piece>): Bytes
  {
    if ps == [] then [] else ps[0].value + MeanPieces(ps[1..])
  }

  // ---- an escape reads alike wherever it stands

  lemma UnitPlaced(data: Bytes, pos: nat, text: Bytes, at: nat, unit: int)
    requires Placed(data, pos, text) && at + 6 <= |text|
    ensures UnicodeAt(data, pos + at, unit) <==> UnicodeAt(text, at, unit)
  {
    hide IsHexDigit, Placed;
    PlacedAt(data, pos, text, at);
    PlacedAt(data, pos, text, at + 1);
    PlacedAt(data, pos, text, at + 2);
    PlacedAt(data, pos, text, at + 3);
    PlacedAt(data, pos, text, at + 4);
    PlacedAt(data, pos, text, at + 5);
  }

  lemma WritesPlaced(data: Bytes, pos: nat, text: Bytes, units: seq<int>)
    requires Placed(data, pos, text)
    ensures Writes(data, pos, units, pos + |text|) <==> Writes(text, 0, units, |text|)
  {
    hide UnicodeAt;
    if |text| == 2 {
      PlacedAt(data, pos, text, 1);
    } else if |text| == 6 && |units| == 1 {
      UnitPlaced(data, pos, text, 0, units[0]);
    } else if |text| == 12 && |units| == 2 {
      UnitPlaced(data, pos, text, 0, units[0]);
      UnitPlaced(data, pos, text, 6, units[1]);
    }
  }

  // ---- one piece

  lemma ReadPiece(data: Bytes, pos: nat, p: Piece, buf: Bytes)
    requires GoodPiece(p) && Placed(data, pos, p.text)
    ensures p.text != [] && Str(data, pos, buf) == Str(data, pos + |p.text|, buf + p.value)
  {
    hide DecodeRune, Escape, Writes, Units, ValidUtf8, Str;
    PlacedAt(data, pos, p.text, 0);
    if p.text[0] == 0x5C {
      ReadEscapePiece(data, pos, p, buf);
    } else if p.text[0] < 0x80 {
      StrPlain(data, pos, buf);
      assert p.text == [data[pos]];
    } else {
      assert p.text[..|p.text|] == p.text;
      ReadHighRune(data, pos, p.text, buf);
    }
  }

  lemma ReadEscapePiece(data: Bytes, pos: nat, p: Piece, buf: Bytes)
    requires p.text != [] && p.text[0] == 0x5C && Writes(p.text, 0, Units(p.value), |p.text|) && ValidUtf8(p.value)
    requires Placed(data, pos, p.text)
    ensures Str(data, pos, buf) == Str(data, pos + |p.text|, buf + p.value)
  {
    hide *;
    PlacedAt(data, pos, p.text, 0);
    WritesPlaced(data, pos, p.text, Units(p.value));
    WritesEscape(data, pos, Units(p.value), pos + |p.text|);
    EscapeIsValid(data, pos);
    UnitsInjective(Escape(data, pos).value, p.value);
    StrEscape(data, pos, buf);
  }

  lemma StrPlain(data: Bytes, pos: nat, buf: Bytes)
    requires pos < |data| && 0x20 <= data[pos] < 0x80 && data[pos] != 0x22 && data[pos] != 0x5C
    ensures Str(data, pos, buf) == Str(data, pos + 1, buf + [data[pos]])
  {
    hide DecodeRune, Escape;
  }

  lemma StrEscape(data: Bytes, pos: nat, buf: Bytes)
    requires pos < |data| && data[pos] == 0x5C
    ensures var e := Escape(data, pos);
            Str(data, pos, buf) == if e.Fail? then Fail(e.code, e.pos) else Str(data, e.pos, buf + e.value)
  {
    hide DecodeRune, Escape;
  }

  // ---- whole strings

  /** What is spelled in good pieces and then closed is read. */
  lemma {:induction false} ReadPieces(data: Bytes, pos: nat, ps: seq<Piece>, buf: Bytes)
    requires GoodPieces(ps) && Placed(data, pos, SpellPieces(ps) + [0x22])
    ensures Str(data, pos, buf) == Ok(buf + MeanPieces(ps), pos + |SpellPieces(ps)| + 1)
    decreases |ps|
  {
    hide GoodPiece, Str;
    if ps == [] {
      assert SpellPieces(ps) + [0x22] == [0x22];
      PlacedAt(data, pos, [0x22], 0);
      ReadQuote(data, pos, buf);
      assert buf + MeanPieces(ps) == buf;
    } else {
      var p, rest := ps[0], SpellPieces(ps[1..]) + [0x22];
      assert SpellPieces(ps) + [0x22] == p.text + rest;
      PlacedSplit(data, pos, p.text, rest);
      ReadPiece(data, pos, p, buf);
      ReadPieces(data, pos + |p.text|, ps[1..], buf + p.value);
      assert buf + p.value + MeanPieces(ps[1..]) == buf + MeanPieces(ps);
    }
  }

  lemma {:induction false} PiecesPush(ps: seq<Piece>, p: Piece)
    requires GoodPieces(ps) && GoodPiece(p)
    ensures GoodPieces(ps + [p]) && SpellPieces(ps + [p]) == SpellPieces(ps) + p.text
  {
    hide GoodPiece;
    if ps == [] {
      assert [p][1..] == [] && [] + [p] == [p];
    } else {
      PiecesPush(ps[1..], p);
      assert (ps + [p])[1..] == ps[1..] + [p];
    }
  }

  lemma SlicePlaced(data: Bytes, pos: nat, end: nat)
    requires pos <= end <= |data|
    ensures Placed(data, pos, data[pos..end])
  {
  }

  /** Something that can stand in a string begins here. */
  ghost predicate PieceAt(data: Bytes, pos: nat)
  {
    && pos < |data| && data[pos] != 0x22 && data[pos] >= 0x20 && (data[pos] == 0x5C ==> Escape(data, pos).Ok?)
    && (data[pos] >= 0x80 ==> !Malformed(DecodeRune(data, pos)))
  }

  lemma StrPieceAt(data: Bytes, pos: nat, buf: Bytes)
    requires pos < |data| && data[pos] != 0x22 && Str(data, pos, buf).Ok?
    ensures PieceAt(data, pos)
  {
    hide DecodeRune, Escape;
  }

  /** The piece that begins here. */
  lemma PieceOf(data: Bytes, pos: nat, buf: Bytes) returns (p: Piece)
    requires PieceAt(data, pos)
    ensures GoodPiece(p) && pos + |p.text| <= |data| && p.text == data[pos..pos + |p.text|] && p.text != []
    ensures Str(data, pos, buf) == Str(data, pos + |p.text|, buf + p.value)
  {
    if data[pos] == 0x5C {
      hide DecodeRune, Escape, Writes, Units, ValidUtf8, Str;
      StrEscape(data, pos, buf);
      var e := Escape(data, pos);
      EscapeWrites(data, pos);
      EscapeIsValid(data, pos);
      EscapeWithin(data, pos);
      SlicePlaced(data, pos, e.pos);
      WritesPlaced(data, pos, data[pos..e.pos], Units(e.value));
      p := Piece(data[pos..e.pos], e.value);
    } else if data[pos] < 0x80 {
      hide DecodeRune, Escape, Writes, Units, ValidUtf8;
      p := Piece([data[pos]], [data[pos]]);
    } else {
      hide Escape, Writes, Units, ValidUtf8;
      p := RunePiece(data, pos, buf);
    }
  }

  lemma EscapeWithin(data: Bytes, pos: nat)
    requires pos < |data| && Escape(data, pos).Ok?
    ensures pos < Escape(data, pos).pos <= |data|
  {
  }

  lemma RunePiece(data: Bytes, pos: nat, buf: Bytes) returns (p: Piece)
    requires pos < |data| && data[pos] >= 0x80 && !Malformed(DecodeRune(data, pos))
    ensures GoodPiece(p) && pos + |p.text| <= |data| && p.text == data[pos..pos + |p.text|] && p.text != []
    ensures Str(data, pos, buf) == Str(data, pos + |p.text|, buf + p.value)
  {
    hide Escape, Writes, Units, ValidUtf8, EncodeRune;
    DecodeBounds(data, pos);
    var r := DecodeRune(data, pos);
    EncodeOfDecode(data, pos);
    var text := data[pos..pos + r.size];
    assert text[0..0 + |text|] == text;
    DecodeOfEncode(r.code, text, 0);
    p := Piece(text, text);
  }

  /** What is read as a string is spelled in good pieces that stand for it. */
  lemma {:induction false} PiecesOf(data: Bytes, pos: nat, buf: Bytes) returns (ps: seq<Piece>)
    requires pos <= |data| && Str(data, pos, buf).Ok?
    ensures var r := Str(data, pos, buf);
            && GoodPieces(ps) && pos < r.pos <= |data| && data[pos..r.pos] == SpellPieces(ps) + [0x22]
            && r.value == buf + MeanPieces(ps)
    decreases |data| - pos
  {
    hide GoodPiece, Str;
    StrNotEnd(data, pos, buf);
    if data[pos] == 0x22 {
      ReadQuote(data, pos, buf);
      ps := [];
      assert buf + MeanPieces(ps) == buf;
    } else {
      StrPieceAt(data, pos, buf);
      var p := PieceOf(data, pos, buf);
      var rest := PiecesOf(data, pos + |p.text|, buf + p.value);
      ps := [p] + rest;
      assert data[pos..Str(data, pos, buf).pos] == p.text + data[pos + |p.text|..Str(data, pos, buf).pos];
    }
  }

  lemma StrNotEnd(data: Bytes, pos: nat, buf: Bytes)
    requires pos <= |data| && Str(data, pos, buf).Ok?
    ensures pos < |data|
  {
  }
}

/** UTF-8 as Go decodes and encodes it, and the UTF-16 code units of a UTF-8 string. */
module Utf8 {
  import opened Bytes

  const RUNE_ERROR := 0xFFFD

  datatype Rune = Rune(code: int, size: nat)

  predicate Continuation(b: byte) { 0x80 <= b <= 0xBF }

  /** utf8.DecodeRune on the bytes from pos on. Anything malformed is RUNE_ERROR of size 1. */
  function DecodeRune(s: Bytes, pos: nat): Rune
    requires pos < |s|
  {
    var n, b0 := |s| - pos, s[pos] as int;
    var bad := Rune(RUNE_ERROR, 1);
    if b0 < 0x80 then Rune(b0, 1)
    else if b0 < 0xC2 || b0 > 0xF4 then bad
    else if n < 2 then bad
    else
      var b1 := s[pos + 1] as int;
      if b0 < 0xE0 then
        if 0x80 <= b1 <= 0xBF then Rune((b0 - 0xC0) * 0x40 + (b1 - 0x80), 2) else bad
      else
        var low := if b0 == 0xE0 then 0xA0 else if b0 == 0xF0 then 0x90 else 0x80;
        var high := if b0 == 0xED then 0x9F else if b0 == 0xF4 then 0x8F else 0xBF;
        if !(low <= b1 <= high) || n < 3 || !Continuation(s[pos + 2]) then bad
        else
          var b2 := s[pos + 2] as int;
          if b0 < 0xF0 then Rune((b0 - 0xE0) * 0x1000 + (b1 - 0x80) * 0x40 + (b2 - 0x80), 3)
          else if n < 4 || !Continuation(s[pos + 3]) then bad
          else
            var b3 := s[pos + 3] as int;
            Rune((b0 - 0xF0) * 0x4_0000 + (b1 - 0x80) * 0x1000 + (b2 - 0x80) * 0x40 + (b3 - 0x80), 4)
  }

  predicate Malformed(r: Rune)
  {
    r.code == RUNE_ERROR && r.size <= 1
  }

  predicate Scalar(code: int)
  {
    0 <= code < 0xD800 || 0xE000 <= code < 0x11_0000
  }

  /** utf8.AppendRune. */
  function EncodeRune(code: int): (s: Bytes)
    ensures 1 <= |s| <= 4
  {
    var c := if Scalar(code) then code else RUNE_ERROR;
    if c < 0x80 then [c as byte]
    else if c < 0x800 then [(0xC0 + c / 0x40) as byte, (0x80 + c % 0x40) as byte]
    else if c < 0x1_0000 then [(0xE0 + c / 0x1000) as byte, (0x80 + c / 0x40 % 0x40) as byte, (0x80 + c % 0x40) as byte]
    else [(0xF0 + c / 0x4_0000) as byte, (0x80 + c / 0x1000 % 0x40) as byte, (0x80 + c / 0x40 % 0x40) as byte,
      (0x80 + c % 0x40) as byte]
  }

  lemma DecodeBounds(s: Bytes, pos: nat)
    requires pos < |s|
    ensures var r := DecodeRune(s, pos); 1 <= r.size <= |s| - pos && Scalar(r.code)
    ensures s[pos] >= 0x80 && !Malformed(DecodeRune(s, pos)) ==>
              forall i :: pos <= i < pos + DecodeRune(s, pos).size ==> s[i] >= 0x80
  {
  }

  /** Base-64 digits, in both directions. */
  lemma Digits(h: int, m: int, l: int)
    requires 0 <= m < 0x40 && 0 <= l < 0x40
    ensures var c := h * 0x1000 + m * 0x40 + l;
            c / 0x1000 == h && c / 0x40 % 0x40 == m && c % 0x40 == l && c / 0x40 == h * 0x40 + m
  {
    var c := h * 0x1000 + m * 0x40 + l;
    assert c / 0x40 == h * 0x40 + m;
  }

  lemma DigitsOf(c: int)
    ensures c == c / 0x1000 * 0x1000 + c / 0x40 % 0x40 * 0x40 + c % 0x40
  {
  }

  lemma TopDigit(c: int)
    ensures c / 0x1000 == c / 0x4_0000 * 0x40 + c / 0x1000 % 0x40
  {
    assert c / 0x4_0000 == c / 0x1000 / 0x40;
  }

  lemma DecodeOfEncode(code: int, s: Bytes, pos: nat)
    requires Scalar(code) && pos + |EncodeRune(code)| <= |s| && s[pos..pos + |EncodeRune(code)|] == EncodeRune(code)
    ensures DecodeRune(s, pos) == Rune(code, |EncodeRune(code)|)
  {
    var e := EncodeRune(code);
    assert s[pos] == s[pos..pos + |e|][0];
    assert |e| > 1 ==> s[pos + 1] == s[pos..pos + |e|][1];
    assert |e| > 2 ==> s[pos + 2] == s[pos..pos + |e|][2];
    assert |e| > 3 ==> s[pos + 3] == s[pos..pos + |e|][3];
    DigitsOf(code);
    TopDigit(code);
  }

  lemma EncodeThree(h: int, m: int, l: int)
    requires 0 <= m < 0x40 && 0 <= l < 0x40 && 0x800 <= h * 0x1000 + m * 0x40 + l < 0x1_0000
              && Scalar(h * 0x1000 + m * 0x40 + l)
    ensures 0 <= h < 0x10
    ensures EncodeRune(h * 0x1000 + m * 0x40 + l) == [(0xE0 + h) as byte, (0x80 + m) as byte, (0x80 + l) as byte]
  {
    Digits(h, m, l);
  }

  lemma EncodeFour(g: int, h: int, m: int, l: int)
    requires 0 <= h < 0x40 && 0 <= m < 0x40 && 0 <= l < 0x40
    requires 0x1_0000 <= g * 0x4_0000 + h * 0x1000 + m * 0x40 + l < 0x11_0000
    ensures 0 <= g < 5
    ensures EncodeRune(g * 0x4_0000 + h * 0x1000 + m * 0x40 + l) ==
              [(0xF0 + g) as byte, (0x80 + h) as byte, (0x80 + m) as byte, (0x80 + l) as byte]
  {
    Digits(g * 0x40 + h, m, l);
    TopDigit(g * 0x4_0000 + h * 0x1000 + m * 0x40 + l);
  }

  /** A well-formed rune has only one encoding. */
  lemma EncodeOfDecode(s: Bytes, pos: nat)
    requires pos < |s| && !Malformed(DecodeRune(s, pos))
    ensures EncodeRune(DecodeRune(s, pos).code) == s[pos..pos + DecodeRune(s, pos).size]
  {
    var r := DecodeRune(s, pos);
    if r.size == 3 {
      hide EncodeRune;
      EncodeThree(s[pos] as int - 0xE0, s[pos + 1] as int - 0x80, s[pos + 2] as int - 0x80);
    } else if r.size == 4 {
      hide EncodeRune;
      EncodeFour(s[pos] as int - 0xF0, s[pos + 1] as int - 0x80, s[pos + 2] as int - 0x80, s[pos + 3] as int - 0x80);
    }
  }
}

/**
 * internal/cjson/parse.go: which byte strings are documents and what each denotes, as functions of a position.
 * The class in JsonParser.dfy is proved to compute exactly these.
 */
module JsonSyntax {
  import opened Bytes
  import opened Utf8
  import opened JsonValue

  datatype Code = Syntax | BadUtf8 | BadUtf16 | CtrlChar | TooDeep | PropertyName

  /** pos is where reading stopped: after the value, or at the error. */
  datatype Parsed<+T> = Ok(value: T, pos: nat) | Fail(code: Code, pos: nat)

  const MAX_DEPTH := 512

  /** strconv.ParseFloat, given no value: the number identifies the float64. */
  const FLOAT_OF: Bytes -> int

  predicate Space(b: byte) { b == 0x20 || b == 0x09 || b == 0x0A || b == 0x0D }

  predicate Digit(b: byte) { 0x30 <= b <= 0x39 }

  function SkipSpace(data: Bytes, pos: nat): (end: nat)
    requires pos <= |data|
    ensures pos <= end <= |data|
    decreases |data| - pos
  {
    if pos < |data| && Space(data[pos]) then SkipSpace(data, pos + 1) else pos
  }

  function Unexpected(data: Bytes, pos: nat): Code
    requires pos <= |data|
  {
    if pos == |data| then Syntax
    else if data[pos] < 0x20 then CtrlChar
    else if data[pos] < 0x80 then Syntax
    else if Malformed(DecodeRune(data, pos)) then BadUtf8
    else Syntax
  }

  // ---- numbers

  predicate DigitAt(data: Bytes, pos: nat)
  {
    pos < |data| && Digit(data[pos])
  }

  predicate ByteAt(data: Bytes, pos: nat, b: byte)
  {
    pos < |data| && data[pos] == b
  }

  function DigitsEnd(data: Bytes, pos: nat): (end: nat)
    requires pos <= |data|
    ensures pos <= end <= |data|
    decreases |data| - pos
  {
    if DigitAt(data, pos) then DigitsEnd(data, pos + 1) else pos
  }

  /** Go's < on strings. */
  predicate LexLess(a: Bytes, b: Bytes)
  {
    b != [] && (a == [] || a[0] < b[0] || (a[0] == b[0] && LexLess(a[1..], b[1..])))
  }

  /** "9223372036854775808" */
  const MIN_DIGITS: Bytes :=
    [0x39, 0x32, 0x32, 0x33, 0x33, 0x37, 0x32, 0x30, 0x33, 0x36, 0x38, 0x35, 0x34, 0x37, 0x37, 0x35, 0x38, 0x30, 0x38]

  predicate FitsInt64(literal: Bytes, negative: bool)
    requires negative ==> literal != []
  {
    var body := if negative then literal[1..] else literal;
    if |body| < |MIN_DIGITS| then true
    else if |body| > |MIN_DIGITS| then false
    else LexLess(body, MIN_DIGITS) || (body == MIN_DIGITS && negative)
  }

  function DigitsValue(digits: Bytes): nat
  {
    if digits == [] then 0
    else DigitsValue(digits[..|digits| - 1]) * 10 + DigitValue(digits[|digits| - 1])
  }

  function DigitValue(b: byte): (n: nat)
  {
    if Digit(b) then b as int - 0x30 else 0
  }

  /** strconv.ParseInt on a literal of the JSON grammar. */
  function IntegerValue(literal: Bytes): int
  {
    if literal != [] && literal[0] == 0x2D then -(DigitsValue(literal[1..]) as int) else DigitsValue(literal)
  }

  /** The end of an optional fraction; exponents alike. */
  function Fraction(data: Bytes, pos: nat): (end: Parsed<bool>)
    requires pos <= |data|
    ensures pos <= end.pos <= |data|
  {
    if !ByteAt(data, pos, 0x2E) then Ok(false, pos)
    else if !DigitAt(data, pos + 1) then Fail(Syntax, pos + 1)
    else Ok(true, DigitsEnd(data, pos + 1))
  }

  function Exponent(data: Bytes, pos: nat): (end: Parsed<bool>)
    requires pos <= |data|
    ensures pos <= end.pos <= |data|
  {
    if !ByteAt(data, pos, 0x65) && !ByteAt(data, pos, 0x45) then Ok(false, pos)
    else
      var start := if ByteAt(data, pos + 1, 0x2B) || ByteAt(data, pos + 1, 0x2D) then pos + 2 else pos + 1;
      if !DigitAt(data, start) then Fail(Syntax, start) else Ok(true, DigitsEnd(data, start))
  }

  function Number(data: Bytes, pos: nat): (r: Parsed<Value>)
    requires pos < |data|
    ensures r.Ok? ==> pos < r.pos <= |data|
    ensures r.pos <= |data|
  {
    var negative := data[pos] == 0x2D;
    var start := if negative then pos + 1 else pos;
    if !DigitAt(data, start) then Fail(Syntax, start)
    else
      var intEnd := if data[start] == 0x30 then start + 1 else DigitsEnd(data, start);
      var frac := Fraction(data, intEnd);
      if frac.Fail? then Fail(frac.code, frac.pos)
      else
        var exp := Exponent(data, frac.pos);
        if exp.Fail? then Fail(exp.code, exp.pos)
        else
          var literal := data[pos..exp.pos];
          if !frac.value && !exp.value && FitsInt64(literal, negative) then Ok(Int(IntegerValue(literal)), exp.pos)
          else Ok(Float(FLOAT_OF(literal)), exp.pos)
  }

  // ---- strings

  function HexDigit(c: byte): (d: Option<int>)
    ensures d.Some? ==> 0 <= d.value < 0x10
  {
    if 0x30 <= c <= 0x39 then Some(c as int - 0x30)
    else if 0x61 <= c <= 0x66 then Some(c as int - 0x61 + 10)
    else if 0x41 <= c <= 0x46 then Some(c as int - 0x41 + 10)
    else None
  }

  /** The first n hexadecimal digits from pos. */
  function HexRun(data: Bytes, pos: nat, n: nat): (v: Option<int>)
    requires pos + n <= |data|
    ensures v.Some? ==> 0 <= v.value && (n <= 4 ==> v.value < [1, 0x10, 0x100, 0x1000, 0x1_0000][n])
  {
    if n == 0 then Some(0)
    else
      var high, d := HexRun(data, pos, n - 1), HexDigit(data[pos + n - 1]);
      if high.None? || d.None? then None else Some(high.value * 0x10 + d.value)
  }

  function Hex4(data: Bytes, pos: nat): (unit: Option<int>)
    ensures unit.Some? ==> pos + 4 <= |data| && 0 <= unit.value < 0x1_0000
  {
    if pos + 4 > |data| then None else HexRun(data, pos, 4)
  }

  /** The byte a one-letter escape stands for. */
  function ShortEscape(c: byte): Option<byte>
  {
    if c == 0x22 || c == 0x5C || c == 0x2F then Some(c)
    else if c == 0x62 then Some(0x08)
    else if c == 0x66 then Some(0x0C)
    else if c == 0x6E then Some(0x0A)
    else if c == 0x72 then Some(0x0D)
    else if c == 0x74 then Some(0x09)
    else None
  }

  /** One backslash sequence; pos is at the backslash. */
  function Escape(data: Bytes, pos: nat): (r: Parsed<Bytes>)
    requires pos < |data|
    ensures r.Ok? ==> pos < r.pos
    ensures r.pos <= |data|
  {
    if pos + 1 == |data| then Fail(Syntax, pos + 1)
    else if ShortEscape(data[pos + 1]).Some? then Ok([ShortEscape(data[pos + 1]).value], pos + 2)
    else if data[pos + 1] != 0x75 then Fail(Syntax, pos + 1)
    else
      var unit := Hex4(data, pos + 2);
      if unit.None? then Fail(Syntax, pos + 2)
      else if 0xD800 <= unit.value <= 0xDBFF then
        if |data| - (pos + 6) >= 6 && data[pos + 6] == 0x5C && data[pos + 7] == 0x75 then
          var low := Hex4(data, pos + 8);
          if low.Some? && 0xDC00 <= low.value <= 0xDFFF then
            Ok(EncodeRune(0x1_0000 + (unit.value - 0xD800) * 0x400 + (low.value - 0xDC00)), pos + 12)
          else Fail(BadUtf16, pos + 6)
        else Fail(BadUtf16, pos + 6)
      else if 0xDC00 <= unit.value <= 0xDFFF then Fail(BadUtf16, pos + 6)
      else Ok(EncodeRune(unit.value), pos + 6)
  }

  /** The rest of a string from inside its quotes, after buf. */
  function Str(data: Bytes, pos: nat, buf: Bytes): (r: Parsed<Bytes>)
    requires pos <= |data|
    ensures r.Ok? ==> pos < r.pos
    ensures r.pos <= |data|
    decreases |data| - pos
  {
    if pos == |data| then Fail(CtrlChar, pos)
    else if data[pos] == 0x22 then Ok(buf, pos + 1)
    else if data[pos] == 0x5C then
      var e := Escape(data, pos);
      if e.Fail? then Fail(e.code, e.pos) else Str(data, e.pos, buf + e.value)
    else if data[pos] < 0x20 then Fail(CtrlChar, pos)
    else if data[pos] < 0x80 then Str(data, pos + 1, buf + [data[pos]])
    else
      var r := DecodeRune(data, pos);
      DecodeBounds(data, pos);
      if Malformed(r) then Fail(BadUtf8, pos) else Str(data, pos + r.size, buf + data[pos..pos + r.size])
  }

  // ---- values

  function Literal(data: Bytes, pos: nat, word: Bytes, v: Value): (r: Parsed<Value>)
    requires pos <= |data|
    ensures r.Ok? ==> r.pos == pos + |word| <= |data|
    ensures r.Fail? ==> r.pos == pos
  {
    if |data| - pos < |word| || data[pos..pos + |word|] != word then Fail(Syntax, pos) else Ok(v, pos + |word|)
  }

  function PValue(assoc: bool, data: Bytes, pos: nat, depth: int): (r: Parsed<Value>)
    requires pos <= |data|
    ensures r.Ok? ==> pos < r.pos
    ensures r.pos <= |data|
    decreases |data| - pos, 1
  {
    if pos == |data| then Fail(Syntax, pos)
    else
      var b := data[pos];
      if b == 0x7B then PObject(assoc, data, pos, depth)
      else if b == 0x5B then PArray(assoc, data, pos, depth)
      else if b == 0x22 then
        var s := Str(data, pos + 1, []);
        if s.Fail? then Fail(s.code, s.pos) else Ok(String(s.value), s.pos)
      else if b == 0x74 then Literal(data, pos, Ascii("true"), Bool(true))
      else if b == 0x66 then Literal(data, pos, Ascii("false"), Bool(false))
      else if b == 0x6E then Literal(data, pos, Ascii("null"), Null)
      else if b == 0x2D || Digit(b) then Number(data, pos)
      else Fail(Unexpected(data, pos), pos)
  }

  /** depth counts the containers around this one. */
  function PObject(assoc: bool, data: Bytes, pos: nat, depth: int): (r: Parsed<Value>)
    requires pos < |data|
    ensures r.Ok? ==> pos < r.pos
    ensures r.pos <= |data|
    decreases |data| - pos, 0
  {
    if depth + 1 >= MAX_DEPTH then Fail(TooDeep, pos)
    else
      var start := SkipSpace(data, pos + 1);
      if ByteAt(data, start, 0x7D) then Ok(Object([]), start + 1)
      else PMembers(assoc, data, start, depth + 1, [])
  }

  /** One member: key, colon, value. */
  function PPair(assoc: bool, data: Bytes, pos: nat, depth: int): (r: Parsed<Member>)
    requires pos <= |data|
    ensures r.Ok? ==> pos < r.pos
    ensures r.pos <= |data|
    decreases |data| - pos, 2
  {
    if !ByteAt(data, pos, 0x22) then Fail(Unexpected(data, pos), pos)
    else
      var key := Str(data, pos + 1, []);
      if key.Fail? then Fail(key.code, key.pos)
      else
        var colon := SkipSpace(data, key.pos);
        if !ByteAt(data, colon, 0x3A) then Fail(Unexpected(data, colon), colon)
        else
          var val := PValue(assoc, data, SkipSpace(data, colon + 1), depth);
          if val.Fail? then Fail(val.code, val.pos)
          else if !assoc && key.value != [] && key.value[0] == 0 then Fail(PropertyName, val.pos)
          else Ok(Member(key.value, val.value), val.pos)
  }

  function PMembers(assoc: bool, data: Bytes, pos: nat, depth: int, ms: seq<Member>): (r: Parsed<Value>)
    requires pos <= |data|
    ensures r.Ok? ==> pos < r.pos
    ensures r.pos <= |data|
    decreases |data| - pos, 3
  {
    var pair := PPair(assoc, data, pos, depth);
    if pair.Fail? then Fail(pair.code, pair.pos)
    else
      var next, more := SkipSpace(data, pair.pos), Put(ms, pair.value.key, pair.value.val);
      if ByteAt(data, next, 0x2C) then PMembers(assoc, data, SkipSpace(data, next + 1), depth, more)
      else if ByteAt(data, next, 0x7D) then Ok(Object(more), next + 1)
      else Fail(Unexpected(data, next), next)
  }

  function PArray(assoc: bool, data: Bytes, pos: nat, depth: int): (r: Parsed<Value>)
    requires pos < |data|
    ensures r.Ok? ==> pos < r.pos
    ensures r.pos <= |data|
    decreases |data| - pos, 0
  {
    if depth + 1 >= MAX_DEPTH then Fail(TooDeep, pos)
    else
      var start := SkipSpace(data, pos + 1);
      if ByteAt(data, start, 0x5D) then Ok(Array([]), start + 1)
      else PItems(assoc, data, start, depth + 1, [])
  }

  function PItems(assoc: bool, data: Bytes, pos: nat, depth: int, items: seq<Value>): (r: Parsed<Value>)
    requires pos <= |data|
    ensures r.Ok? ==> pos < r.pos
    ensures r.pos <= |data|
    decreases |data| - pos, 2
  {
    var val := PValue(assoc, data, pos, depth);
    if val.Fail? then Fail(val.code, val.pos)
    else
      var next, more := SkipSpace(data, val.pos), items + [val.value];
      if ByteAt(data, next, 0x2C) then PItems(assoc, data, SkipSpace(data, next + 1), depth, more)
      else if ByteAt(data, next, 0x5D) then Ok(Array(more), next + 1)
      else Fail(Unexpected(data, next), next)
  }

  /** Exactly one document, with spaces around it. */
  function Document(assoc: bool, data: Bytes): Parsed<Value>
  {
    var start := SkipSpace(data, 0);
    if start == |data| then Fail(Syntax, start)
    else
      var v := PValue(assoc, data, start, 0);
      if v.Fail? then v
      else
        var end := SkipSpace(data, v.pos);
        if end < |data| then Fail(Unexpected(data, end), end) else Ok(v.value, end)
  }
}

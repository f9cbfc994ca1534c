/** verify/phpvalue.go: how decoded values are read, compared and cast, and hexadecimal text. */
module PhpValues {
  import opened Bytes
  import opened JsonValue
  import opened Canonical
  import opened JsonSyntax
  import opened JsonScalars

  /** An absent field is None. */
  function Field(v: Option<Value>, name: string): Option<Value>
  {
    if v.Some? && v.value.Object? then Lookup(v.value.members, Ascii(name)) else None
  }

  predicate Nullish(v: Option<Value>)
  {
    v.None? || v.value.Null?
  }

  function OrNull(v: Option<Value>): Value
  {
    if v.Some? then v.value else Null
  }

  predicate StrEq(v: Option<Value>, s: string)
  {
    v == Some(String(Ascii(s)))
  }

  predicate IsInt(v: Option<Value>)
  {
    v.Some? && v.value.Int?
  }

  predicate IsString(v: Option<Value>)
  {
    v.Some? && v.value.String?
  }

  predicate IsArray(v: Option<Value>)
  {
    v.Some? && v.value.Array?
  }

  predicate IsObject(v: Option<Value>)
  {
    v.Some? && v.value.Object?
  }

  predicate IntIs(v: Option<Value>, n: int)
  {
    v == Some(Int(n))
  }

  type FloatText = s: Bytes | |s| <= 24 witness []

  /** PHP's text for a float, given no value but its length. */
  const FLOAT_TEXT: int -> FloatText

  /** The (string) cast; an integer has at most 20 characters. */
  function Text(v: Option<Value>): Bytes
  {
    if v.None? then []
    else
      match v.value
      case Bool(b) => if b then [0x31] else []
      case Int(n) => if n < 0 then [0x2D] + Decimal(-n) else Decimal(n)
      case Float(f) => FLOAT_TEXT(f)
      case String(s) => s
      case _ => []
  }

  function Vals(ms: seq<Member>): seq<Value>
  {
    seq(|ms|, i requires 0 <= i < |ms| => ms[i].val)
  }

  /** An array's elements, an object's values, nothing of anything else. */
  function IterValues(v: Option<Value>): seq<Value>
  {
    if v.None? then []
    else
      match v.value
      case Array(items) => items
      case Object(ms) => Vals(ms)
      case _ => []
  }

  predicate HasPrefix(s: Bytes, prefix: Bytes)
  {
    prefix <= s
  }

  /** PHP's === : two objects are never identical. */
  predicate StrictSame(a: Value, b: Value)
    decreases a
  {
    match a
    case Array(items) =>
      && b.Array? && |items| == |b.items|
      && forall i :: 0 <= i < |items| ==>
           if items[i].Null? || b.items[i].Null? then items[i].Null? && b.items[i].Null?
             else StrictSame(items[i], b.items[i])
    case Object(_) => false
    case _ => a == b
  }

  predicate StrictEqual(a: Option<Value>, b: Option<Value>)
  {
    if Nullish(a) || Nullish(b) then Nullish(a) && Nullish(b) else StrictSame(a.value, b.value)
  }

  // ---- hexadecimal text

  function LowerByte(b: byte): byte
  {
    if 0x41 <= b <= 0x5A then b + 0x20 else b
  }

  /** ASCII letters only. */
  function Lower(s: Bytes): (r: Bytes)
    ensures |r| == |s|
  {
    seq(|s|, i requires 0 <= i < |s| => LowerByte(s[i]))
  }

  function HexEncode(raw: Bytes): (s: Bytes)
    ensures |s| == 2 * |raw|
  {
    if raw == [] then []
    else [HexLetter(raw[0] as int / 0x10), HexLetter(raw[0] as int % 0x10)] + HexEncode(raw[1..])
  }

  /** hex2bin: an even number of digits in either case. */
  function HexBytes(s: Bytes): (r: Option<Bytes>)
    ensures r.Some? ==> 2 * |r.value| == |s|
  {
    if s == [] then Some([])
    else if |s| == 1 || HexDigit(s[0]).None? || HexDigit(s[1]).None? then None
    else
      var rest := HexBytes(s[2..]);
      if rest.None? then None
      else Some([(HexDigit(s[0]).value * 0x10 + HexDigit(s[1]).value) as byte] + rest.value)
  }

  predicate IsHex64(s: Bytes)
  {
    |s| == 64 && forall i :: 0 <= i < 64 ==> HexDigit(s[i]).Some?
  }

  lemma {:induction false} HexRoundTrip(raw: Bytes)
    ensures HexBytes(HexEncode(raw)) == Some(raw)
  {
    if raw != [] {
      HexRoundTrip(raw[1..]);
      var s, n := HexEncode(raw), raw[0] as int;
      assert s[2..] == HexEncode(raw[1..]);
      HexDigitOfLetter(n / 0x10);
      HexDigitOfLetter(n % 0x10);
      assert raw == [raw[0]] + raw[1..];
    }
  }

  lemma HexDigitOfLetter(n: int)
    requires 0 <= n < 0x10
    ensures HexDigit(HexLetter(n)) == Some(n)
  {
  }

  lemma {:induction false} HexIsHex(raw: Bytes)
    ensures forall i :: 0 <= i < |HexEncode(raw)| ==> HexDigit(HexEncode(raw)[i]).Some?
  {
    if raw != [] {
      HexIsHex(raw[1..]);
      HexDigitOfLetter(raw[0] as int / 0x10);
      HexDigitOfLetter(raw[0] as int % 0x10);
    }
  }

  function Sha256Hex(data: Bytes): (s: Bytes)
    ensures |s| == 64
  {
    HexEncode(Sha256(data))
  }

  lemma HexInjective(a: Bytes, b: Bytes)
    requires HexEncode(a) == HexEncode(b)
    ensures a == b
  {
    HexRoundTrip(a);
    HexRoundTrip(b);
  }

  /** Only a string is 64 characters long as text. */
  lemma LongTextIsString(v: Option<Value>)
    requires |Text(v)| == 64 && (v.Some? ==> WellFormed(v.value))
    ensures v.Some? && v.value.String?
  {
    if IsInt(v) {
      var n: nat := if v.value.n < 0 then -v.value.n else v.value.n;
      assert Power10(4) == 1_0000;
      assert Power10(8) == 1_0000_0000;
      assert Power10(12) == 1_0000_0000_0000;
      assert Power10(16) == 1_0000_0000_0000_0000;
      assert Power10(20) == 1_0000_0000_0000_0000_0000;
      DecimalLength(n, 20);
    }
  }
}

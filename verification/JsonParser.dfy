/** internal/cjson/parse.go: the parser, a cursor over the bytes. Every method computes its function in JsonSyntax. */
module JsonParser {
  import opened Bytes
  import opened Utf8
  import opened JsonValue
  import opened JsonSyntax

  lemma SliceMore(data: Bytes, start: nat, pos: nat, k: nat)
    requires start <= pos && pos + k <= |data|
    ensures data[start..pos + k] == data[start..pos] + data[pos..pos + k]
    ensures k == 0 ==> data[pos..pos + k] == []
    ensures k == 1 ==> data[pos..pos + k] == [data[pos]]
  {
  }

  class Parser {
    const data: Bytes
    const assoc: bool
    var pos: nat
    var depth: int

    constructor (data: Bytes, assoc: bool)
      ensures this.data == data && this.assoc == assoc && pos == 0 && depth == 0
    {
      this.data, this.assoc, pos, depth := data, assoc, 0, 0;
    }

    method SkipSpace()
      requires pos <= |data|
      modifies `pos
      ensures pos == JsonSyntax.SkipSpace(data, old(pos))
    {
      while pos < |data| && Space(data[pos])
        invariant pos <= |data| && JsonSyntax.SkipSpace(data, pos) == JsonSyntax.SkipSpace(data, old(pos))
      {
        pos := pos + 1;
      }
    }

    method Digits()
      requires pos <= |data|
      modifies `pos
      ensures pos == DigitsEnd(data, old(pos))
    {
      while pos < |data| && Digit(data[pos])
        invariant pos <= |data| && DigitsEnd(data, pos) == DigitsEnd(data, old(pos))
      {
        pos := pos + 1;
      }
    }

    method Literal(word: Bytes, v: Value) returns (r: Parsed<Value>)
      requires pos <= |data|
      modifies `pos
      ensures r == JsonSyntax.Literal(data, old(pos), word, v) && pos == r.pos
    {
      if |data| - pos < |word| || data[pos..pos + |word|] != word {
        return Fail(Syntax, pos);
      }
      pos := pos + |word|;
      r := Ok(v, pos);
    }

    /** Reads a fraction if there is one. */
    method ReadFraction() returns (r: Parsed<bool>)
      requires pos <= |data|
      modifies `pos
      ensures r == Fraction(data, old(pos)) && pos == r.pos
    {
      if pos < |data| && data[pos] == 0x2E {
        pos := pos + 1;
        if pos >= |data| || data[pos] < 0x30 || data[pos] > 0x39 {
          return Fail(Syntax, pos);
        }
        Digits();
        return Ok(true, pos);
      }
      r := Ok(false, pos);
    }

    method ReadExponent() returns (r: Parsed<bool>)
      requires pos <= |data|
      modifies `pos
      ensures r == Exponent(data, old(pos)) && pos == r.pos
    {
      if pos < |data| && (data[pos] == 0x65 || data[pos] == 0x45) {
        pos := pos + 1;
        if pos < |data| && (data[pos] == 0x2B || data[pos] == 0x2D) {
          pos := pos + 1;
        }
        if pos >= |data| || data[pos] < 0x30 || data[pos] > 0x39 {
          return Fail(Syntax, pos);
        }
        Digits();
        return Ok(true, pos);
      }
      r := Ok(false, pos);
    }

    method Number() returns (r: Parsed<Value>)
      requires pos < |data| && (data[pos] == 0x2D || Digit(data[pos]))
      modifies `pos
      ensures r == JsonSyntax.Number(data, old(pos)) && pos == r.pos
    {
      hide DigitsEnd, FitsInt64, IntegerValue, Fraction, Exponent;
      var start, negative := pos, false;
      if data[pos] == 0x2D {
        negative := true;
        pos := pos + 1;
      }
      if pos >= |data| || data[pos] < 0x30 || data[pos] > 0x39 {
        return Fail(Syntax, pos);
      }
      if data[pos] == 0x30 {
        pos := pos + 1;
      } else {
        Digits();
      }
      var frac := ReadFraction();
      if frac.Fail? {
        return Fail(frac.code, frac.pos);
      }
      var exp := ReadExponent();
      if exp.Fail? {
        return Fail(exp.code, exp.pos);
      }
      var literal := data[start..pos];
      if !frac.value && !exp.value && FitsInt64(literal, negative) {
        return Ok(Int(IntegerValue(literal)), pos);
      }
      r := Ok(Float(FLOAT_OF(literal)), pos);
    }

    /** The cursor moves only past four hexadecimal digits. */
    method ReadHex4() returns (unit: Option<int>)
      modifies `pos
      ensures unit == Hex4(data, old(pos)) && pos == if unit.Some? then old(pos) + 4 else old(pos)
    {
      if pos + 4 > |data| {
        return None;
      }
      var v, i := 0, 0;
      while i < 4
        invariant 0 <= i <= 4 && HexRun(data, pos, i) == Some(v)
      {
        var d := HexDigit(data[pos + i]);
        if d.None? {
          HexRunStops(data, pos, i + 1, 4);
          return None;
        }
        v := v * 0x10 + d.value;
        i := i + 1;
      }
      pos := pos + 4;
      unit := Some(v);
    }

    method ReadEscape(buf: Bytes) returns (r: Parsed<Bytes>)
      requires pos < |data| && data[pos] == 0x5C
      modifies `pos
      ensures pos == r.pos
      ensures var e := Escape(data, old(pos)); r == if e.Ok? then Ok(buf + e.value, e.pos) else e
    {
      pos := pos + 1;
      if pos >= |data| {
        return Fail(Syntax, pos);
      }
      var c := data[pos];
      pos := pos + 1;
      if c == 0x22 || c == 0x5C || c == 0x2F {
        return Ok(buf + [c], pos);
      } else if c == 0x62 {
        return Ok(buf + [0x08], pos);
      } else if c == 0x66 {
        return Ok(buf + [0x0C], pos);
      } else if c == 0x6E {
        return Ok(buf + [0x0A], pos);
      } else if c == 0x72 {
        return Ok(buf + [0x0D], pos);
      } else if c == 0x74 {
        return Ok(buf + [0x09], pos);
      } else if c == 0x75 {
        var unit := ReadHex4();
        if unit.None? {
          return Fail(Syntax, pos);
        }
        if 0xD800 <= unit.value <= 0xDBFF {
          if |data| - pos >= 6 && data[pos] == 0x5C && data[pos + 1] == 0x75 {
            var save := pos;
            pos := pos + 2;
            var low := ReadHex4();
            if low.Some? && 0xDC00 <= low.value <= 0xDFFF {
              return Ok(buf + EncodeRune(0x1_0000 + (unit.value - 0xD800) * 0x400 + (low.value - 0xDC00)), pos);
            }
            pos := save;
          }
          return Fail(BadUtf16, pos);
        } else if 0xDC00 <= unit.value <= 0xDFFF {
          return Fail(BadUtf16, pos);
        }
        return Ok(buf + EncodeRune(unit.value), pos);
      }
      pos := pos - 1;
      r := Fail(Syntax, pos);
    }

    /** The fast path: nothing is copied until an escape is met. */
    method ReadStr() returns (r: Parsed<Bytes>)
      requires pos < |data|
      modifies `pos
      ensures r == Str(data, old(pos) + 1, []) && pos == r.pos
    {
      pos := pos + 1;
      var start := pos;
      hide DecodeRune, Malformed, Escape;
      SliceMore(data, start, start, 0);
      while pos < |data|
        invariant start <= pos <= |data|
        invariant Str(data, pos, data[start..pos]) == Str(data, start, [])
      {
        var b := data[pos];
        if b == 0x22 {
          var s := data[start..pos];
          pos := pos + 1;
          return Ok(s, pos);
        } else if b == 0x5C {
          r := ReadStrSlow(data[start..pos]);
          return;
        } else if b < 0x20 {
          return Fail(CtrlChar, pos);
        } else if b < 0x80 {
          SliceMore(data, start, pos, 1);
          pos := pos + 1;
        } else {
          var rune := DecodeRune(data, pos);
          DecodeBounds(data, pos);
          if Malformed(rune) {
            return Fail(BadUtf8, pos);
          }
          SliceMore(data, start, pos, rune.size);
          pos := pos + rune.size;
        }
      }
      r := Fail(CtrlChar, pos);
    }

    method ReadStrSlow(prefix: Bytes) returns (r: Parsed<Bytes>)
      requires pos <= |data|
      modifies `pos
      ensures r == Str(data, old(pos), prefix) && pos == r.pos
    {
      var buf := prefix;
      while pos < |data|
        invariant pos <= |data| && Str(data, pos, buf) == Str(data, old(pos), prefix)
        decreases |data| - pos
      {
        var b := data[pos];
        if b == 0x22 {
          pos := pos + 1;
          return Ok(buf, pos);
        } else if b == 0x5C {
          var e := ReadEscape(buf);
          if e.Fail? {
            return e;
          }
          buf := e.value;
        } else if b < 0x20 {
          return Fail(CtrlChar, pos);
        } else if b < 0x80 {
          buf := buf + [b];
          pos := pos + 1;
        } else {
          var rune := DecodeRune(data, pos);
          DecodeBounds(data, pos);
          if Malformed(rune) {
            return Fail(BadUtf8, pos);
          }
          buf := buf + data[pos..pos + rune.size];
          pos := pos + rune.size;
        }
      }
      r := Fail(CtrlChar, pos);
    }

    /** False is the source's depth error; the depth is counted either way. */
    method Enter() returns (ok: bool)
      modifies `depth
      ensures depth == old(depth) + 1 && ok == (depth < MAX_DEPTH)
    {
      depth := depth + 1;
      ok := depth < MAX_DEPTH;
    }

    method ReadValue() returns (r: Parsed<Value>)
      requires pos <= |data|
      modifies this
      ensures r == PValue(assoc, data, old(pos), old(depth)) && pos == r.pos
      ensures r.Ok? ==> depth == old(depth)
      decreases |data| - pos, 1
    {
      if pos >= |data| {
        return Fail(Unexpected(data, pos), pos);
      }
      var b := data[pos];
      if b == 0x7B {
        r := ReadObject();
      } else if b == 0x5B {
        r := ReadArray();
      } else if b == 0x22 {
        var s := ReadStr();
        if s.Fail? {
          return Fail(s.code, s.pos);
        }
        r := Ok(String(s.value), s.pos);
      } else if b == 0x74 {
        r := Literal(Ascii("true"), Bool(true));
      } else if b == 0x66 {
        r := Literal(Ascii("false"), Bool(false));
      } else if b == 0x6E {
        r := Literal(Ascii("null"), Null);
      } else if b == 0x2D || Digit(b) {
        r := Number();
      } else {
        r := Fail(Unexpected(data, pos), pos);
      }
    }

    /** One member, up to the end of its value. */
    method ReadPair() returns (r: Parsed<Member>)
      requires pos <= |data|
      modifies this
      ensures r == PPair(assoc, data, old(pos), old(depth)) && pos == r.pos
      ensures r.Ok? ==> depth == old(depth)
      decreases |data| - pos, 2
    {
      hide PValue, Str, JsonSyntax.SkipSpace, Unexpected;
      if pos >= |data| || data[pos] != 0x22 {
        return Fail(Unexpected(data, pos), pos);
      }
      var key := ReadStr();
      if key.Fail? {
        return Fail(key.code, key.pos);
      }
      SkipSpace();
      if pos >= |data| || data[pos] != 0x3A {
        return Fail(Unexpected(data, pos), pos);
      }
      pos := pos + 1;
      SkipSpace();
      var val := ReadValue();
      if val.Fail? {
        return Fail(val.code, val.pos);
      }
      if !assoc && |key.value| > 0 && key.value[0] == 0 {
        return Fail(PropertyName, pos);
      }
      r := Ok(Member(key.value, val.value), pos);
    }

    method ReadObject() returns (r: Parsed<Value>)
      requires pos < |data|
      modifies this
      ensures r == PObject(assoc, data, old(pos), old(depth)) && pos == r.pos
      ensures r.Ok? ==> depth == old(depth)
      decreases |data| - pos, 0
    {
      hide PMembers, PPair, Put, Zip, Unexpected, JsonSyntax.SkipSpace, DistinctKeys, Indexes;
      var ok := Enter();
      if !ok {
        return Fail(TooDeep, pos);
      }
      pos := pos + 1;
      var obj := new Members();
      SkipSpace();
      if pos < |data| && data[pos] == 0x7D {
        pos := pos + 1;
        depth := depth - 1;
        return Ok(Object(obj.Contents()), pos);
      }
      ghost var result := PMembers(assoc, data, pos, depth, []);
      while true
        invariant old(pos) < pos <= |data| && fresh(obj) && obj.Valid() && depth == old(depth) + 1
        invariant PMembers(assoc, data, pos, depth, obj.Contents()) == result
        decreases |data| - pos
      {
        PMembersStep(assoc, data, pos, depth, obj.Contents());
        var pair := ReadPair();
        if pair.Fail? {
          return Fail(pair.code, pair.pos);
        }
        obj.Set(pair.value.key, pair.value.val);
        SkipSpace();
        if pos >= |data| {
          return Fail(Unexpected(data, pos), pos);
        }
        if data[pos] == 0x2C {
          pos := pos + 1;
          SkipSpace();
        } else if data[pos] == 0x7D {
          pos := pos + 1;
          depth := depth - 1;
          return Ok(Object(obj.Contents()), pos);
        } else {
          return Fail(Unexpected(data, pos), pos);
        }
      }
    }

    method ReadArray() returns (r: Parsed<Value>)
      requires pos < |data|
      modifies this
      ensures r == PArray(assoc, data, old(pos), old(depth)) && pos == r.pos
      ensures r.Ok? ==> depth == old(depth)
      decreases |data| - pos, 0
    {
      hide PItems, PValue, JsonSyntax.SkipSpace;
      var ok := Enter();
      if !ok {
        return Fail(TooDeep, pos);
      }
      pos := pos + 1;
      var items: seq<Value> := [];
      SkipSpace();
      if pos < |data| && data[pos] == 0x5D {
        pos := pos + 1;
        depth := depth - 1;
        return Ok(Array([]), pos);
      }
      ghost var result := PItems(assoc, data, pos, depth, []);
      while true
        invariant old(pos) < pos <= |data| && depth == old(depth) + 1
        invariant PItems(assoc, data, pos, depth, items) == result
        decreases |data| - pos
      {
        PItemsStep(assoc, data, pos, depth, items);
        var val := ReadValue();
        if val.Fail? {
          return val;
        }
        items := items + [val.value];
        SkipSpace();
        if pos >= |data| {
          return Fail(Unexpected(data, pos), pos);
        }
        if data[pos] == 0x2C {
          pos := pos + 1;
          SkipSpace();
        } else if data[pos] == 0x5D {
          pos := pos + 1;
          depth := depth - 1;
          return Ok(Array(items), pos);
        } else {
          return Fail(Unexpected(data, pos), pos);
        }
      }
    }
  }

  lemma HexRunStops(data: Bytes, pos: nat, m: nat, n: nat)
    requires m <= n && pos + n <= |data| && HexRun(data, pos, m).None?
    ensures HexRun(data, pos, n).None?
  {
  }

  /** One turn of the loop over members. */
  lemma PMembersStep(assoc: bool, data: Bytes, pos: nat, depth: int, ms: seq<Member>)
    requires pos <= |data|
    ensures PMembers(assoc, data, pos, depth, ms) ==
      var pair := PPair(assoc, data, pos, depth);
      if pair.Fail? then Fail(pair.code, pair.pos)
      else
        var next, more := JsonSyntax.SkipSpace(data, pair.pos), Put(ms, pair.value.key, pair.value.val);
        if ByteAt(data, next, 0x2C) then PMembers(assoc, data, JsonSyntax.SkipSpace(data, next + 1), depth, more)
        else if ByteAt(data, next, 0x7D) then Ok(Object(more), next + 1)
        else Fail(Unexpected(data, next), next)
  {
  }

  lemma PItemsStep(assoc: bool, data: Bytes, pos: nat, depth: int, items: seq<Value>)
    requires pos <= |data|
    ensures PItems(assoc, data, pos, depth, items) ==
      var val := PValue(assoc, data, pos, depth);
      if val.Fail? then Fail(val.code, val.pos)
      else
        var next, more := JsonSyntax.SkipSpace(data, val.pos), items + [val.value];
        if ByteAt(data, next, 0x2C) then PItems(assoc, data, JsonSyntax.SkipSpace(data, next + 1), depth, more)
        else if ByteAt(data, next, 0x5D) then Ok(Array(more), next + 1)
        else Fail(Unexpected(data, next), next)
  {
  }

  /** The whole of Parse and ParseAssoc. */
  method Parse(data: Bytes, assoc: bool) returns (r: Parsed<Value>)
    ensures r == Document(assoc, data)
  {
    var p := new Parser(data, assoc);
    p.SkipSpace();
    if p.pos >= |p.data| {
      return Fail(Syntax, p.pos);
    }
    var v := p.ReadValue();
    if v.Fail? {
      return v;
    }
    p.SkipSpace();
    if p.pos < |p.data| {
      return Fail(Unexpected(p.data, p.pos), p.pos);
    }
    r := Ok(v.value, p.pos);
  }
}

/** internal/tst/der.go: the tolerant DER reader and the minimal writer. */
module Der {
  import opened Bytes

  /** total is the encoded length including the header. */
  datatype Element = Element(tagClass: nat, constructed: bool, number: nat, content: Bytes, total: nat)

  datatype DerError = TruncatedElement | TagForm | BadLength | TruncatedContent

  datatype Read = Read(element: Element) | Refused(error: DerError)

  /** Most significant byte first; leading zeros are accepted. */
  function BigEndian(bs: Bytes): nat
  {
    if bs == [] then 0 else BigEndian(bs[..|bs| - 1]) * 0x100 + bs[|bs| - 1] as nat
  }

  function MinimalBytes(n: nat): Bytes
  {
    if n == 0 then [] else MinimalBytes(n / 0x100) + [(n % 0x100) as byte]
  }

  function Pow256(k: nat): nat
  {
    if k == 0 then 1 else 0x100 * Pow256(k - 1)
  }

  lemma {:induction false} MinimalLength(n: nat, k: nat)
    ensures |MinimalBytes(n)| <= k <==> n < Pow256(k)
  {
    if k > 0 {
      MinimalLength(n / 0x100, k - 1);
    }
  }

  lemma {:induction false} BigEndianMinimal(n: nat)
    ensures BigEndian(MinimalBytes(n)) == n
  {
    if n > 0 {
      BigEndianMinimal(n / 0x100);
      var bs := MinimalBytes(n);
      assert bs[..|bs| - 1] == MinimalBytes(n / 0x100);
    }
  }

  /** No encoding of a number is shorter than its minimal bytes, and one of the same length is they. */
  lemma {:induction false} MinimalIsShortest(bs: Bytes)
    ensures |MinimalBytes(BigEndian(bs))| <= |bs|
    ensures |MinimalBytes(BigEndian(bs))| == |bs| ==> MinimalBytes(BigEndian(bs)) == bs
  {
    if bs != [] {
      var init, last := bs[..|bs| - 1], bs[|bs| - 1];
      MinimalIsShortest(init);
      assert BigEndian(bs) / 0x100 == BigEndian(init) && BigEndian(bs) % 0x100 == last as nat;
      assert bs == init + [last];
    }
  }

  lemma Lengths(n: nat)
    ensures |MinimalBytes(n)| <= 4 <==> n < 0x1_0000_0000
    ensures |MinimalBytes(n)| <= 8 <==> n < 0x1_0000_0000_0000_0000
    ensures |MinimalBytes(n)| == 0 <==> n == 0
  {
    hide MinimalBytes;
    assert Pow256(2) == 0x1_0000;
    assert Pow256(4) == 0x1_0000_0000;
    assert Pow256(6) == 0x1_0000_0000_0000;
    assert Pow256(8) == 0x1_0000_0000_0000_0000;
    MinimalLength(n, 0);
    MinimalLength(n, 4);
    MinimalLength(n, 8);
  }

  /** Lengths are Go's int, and the tag fits one byte. */
  predicate Writable(e: Element)
  {
    e.tagClass < 4 && e.number < 0x20 && |e.content| < 0x8000_0000_0000_0000
  }

  /** What Read can return. */
  predicate Readable(e: Element)
  {
    e.tagClass < 4 && e.number < 0x1F && |e.content| < 0x1_0000_0000
  }

  function Tag(e: Element): byte
    requires Writable(e)
  {
    (e.tagClass * 0x40 + (if e.constructed then 0x20 else 0) + e.number) as byte
  }

  function LengthHeader(n: nat): (h: Bytes)
    requires n < 0x8000_0000_0000_0000
    ensures 1 <= |h| <= 9
  {
    Lengths(n);
    if n < 0x80 then [n as byte] else [(0x80 + |MinimalBytes(n)|) as byte] + MinimalBytes(n)
  }

  function Encode(e: Element): Bytes
    requires Writable(e)
  {
    [Tag(e)] + LengthHeader(|e.content|) + e.content
  }

  /** The header's length and the content's, or why they cannot be had. */
  function ReadLength(der: Bytes, offset: nat): Option<(nat, nat)>
    requires offset + 2 <= |der|
  {
    var lengthByte, available := der[offset + 1] as nat, |der| - offset;
    if lengthByte < 0x80 then Some((2, lengthByte))
    else
      var n := lengthByte - 0x80;
      if n == 0 || n > 4 || available < 2 + n then None
      else Some((2 + n, BigEndian(der[offset + 2..offset + 2 + n])))
  }

  /** A length that was read can be written in no more bytes, and in the same ones if it was minimal. */
  lemma HeaderNeverLonger(der: Bytes, offset: nat)
    requires offset + 2 <= |der| && ReadLength(der, offset).Some?
    ensures var (header, n) := ReadLength(der, offset).value;
            && n < 0x1_0000_0000 && 1 + |LengthHeader(n)| <= header <= |der| - offset
            && (1 + |LengthHeader(n)| == header ==> der[offset + 1..offset + header] == LengthHeader(n))
  {
    hide BigEndian, MinimalBytes;
    var b := der[offset + 1] as nat;
    if b >= 0x80 {
      var bs := der[offset + 2..offset + 2 + (b - 0x80)];
      MinimalIsShortest(bs);
      Lengths(BigEndian(bs));
      assert der[offset + 1..offset + 2 + (b - 0x80)] == [der[offset + 1]] + bs;
    } else {
      assert der[offset + 1..offset + 2] == [der[offset + 1]];
    }
  }

  function ReadAt(der: Bytes, offset: nat): (r: Read)
    requires offset <= |der|
    ensures r.Read? ==> Readable(r.element) && 2 + |r.element.content| <= r.element.total <= |der| - offset
    ensures r.Read? ==> |Encode(r.element)| <= r.element.total
  {
    if |der| - offset < 2 then Refused(TruncatedElement)
    else
      var first := der[offset] as nat;
      if first % 0x20 == 0x1F then Refused(TagForm)
      else
        var lengths := ReadLength(der, offset);
        if lengths.None? then Refused(BadLength)
        else
          HeaderNeverLonger(der, offset);
          var (header, length) := lengths.value;
          if |der| - offset < header + length then Refused(TruncatedContent)
          else
            Read(Element(first / 0x40, first / 0x20 % 2 == 1, first % 0x20,
                         der[offset + header..offset + header + length], header + length))
  }

  lemma BigEndianPush(der: Bytes, lo: nat, i: nat)
    requires lo + i < |der|
    ensures BigEndian(der[lo..lo + i + 1]) == BigEndian(der[lo..lo + i]) * 0x100 + der[lo + i] as nat
    ensures BigEndian(der[lo..lo]) == 0
  {
    assert der[lo..lo + i + 1][..i] == der[lo..lo + i];
  }

  method ReadElement(der: Bytes, offset: nat) returns (r: Read)
    requires offset <= |der|
    ensures r == ReadAt(der, offset)
  {
    hide BigEndian, Encode, LengthHeader, Readable;
    var available := |der| - offset;
    if available < 2 {
      return Refused(TruncatedElement);
    }
    var first := der[offset] as nat;
    var number := first % 0x20;
    if number == 0x1F {
      return Refused(TagForm);
    }
    var lengthByte, headerLength, contentLength := der[offset + 1] as nat, 2, 0;
    if lengthByte < 0x80 {
      contentLength := lengthByte;
    } else {
      var lengthOfLength := lengthByte - 0x80;
      if lengthOfLength == 0 || lengthOfLength > 4 || available < 2 + lengthOfLength {
        return Refused(BadLength);
      }
      BigEndianPush(der, offset + 2, 0);
      for i := 0 to lengthOfLength
        invariant contentLength == BigEndian(der[offset + 2..offset + 2 + i])
      {
        BigEndianPush(der, offset + 2, i);
        contentLength := contentLength * 0x100 + der[offset + 2 + i] as nat;
      }
      headerLength := headerLength + lengthOfLength;
    }
    if available < headerLength + contentLength {
      return Refused(TruncatedContent);
    }
    var content := der[offset + headerLength..offset + headerLength + contentLength];
    r := Read(Element(first / 0x40, first / 0x20 % 2 == 1, number, content, headerLength + contentLength));
  }

  /** Elements back to back from offset to the end. */
  function ChildrenFrom(content: Bytes, offset: nat): (r: Option<seq<Element>>)
    requires offset <= |content|
    ensures r.Some? ==> forall i :: 0 <= i < |r.value| ==> |r.value[i].content| + 2 <= |content|
    decreases |content| - offset
  {
    if offset == |content| then Some([])
    else
      var child := ReadAt(content, offset);
      if child.Refused? then None
      else
        var rest := ChildrenFrom(content, offset + child.element.total);
        if rest.None? then None else Some([child.element] + rest.value)
  }

  function ChildrenOf(content: Bytes): Option<seq<Element>>
  {
    ChildrenFrom(content, 0)
  }

  /** Why the first element that cannot be read is refused. */
  function RefusalFrom(content: Bytes, offset: nat): Option<DerError>
    requires offset <= |content|
    decreases |content| - offset
  {
    if offset == |content| then None
    else
      var child := ReadAt(content, offset);
      if child.Refused? then Some(child.error) else RefusalFrom(content, offset + child.element.total)
  }

  lemma {:induction false} RefusedExactly(content: Bytes, offset: nat)
    requires offset <= |content|
    ensures RefusalFrom(content, offset).None? <==> ChildrenFrom(content, offset).Some?
    decreases |content| - offset
  {
    hide ReadAt;
    if offset < |content| && ReadAt(content, offset).Read? {
      RefusedExactly(content, offset + ReadAt(content, offset).element.total);
    }
  }

  function Prepend(head: seq<Element>, rest: Option<seq<Element>>): Option<seq<Element>>
  {
    if rest.None? then None else Some(head + rest.value)
  }

  /** Every element in the content, or the error of the first that cannot be read. */
  method Children(content: Bytes) returns (r: Option<seq<Element>>, refused: Option<DerError>)
    ensures r == ChildrenOf(content) && refused == RefusalFrom(content, 0)
    ensures r.Some? <==> refused.None?
  {
    hide ReadAt, ChildrenFrom, RefusalFrom;
    RefusedExactly(content, 0);
    var children: seq<Element>, offset := [], 0;
    assert forall es: seq<Element> :: [] + es == es;
    while offset < |content|
      invariant offset <= |content|
      invariant ChildrenOf(content) == Prepend(children, ChildrenFrom(content, offset))
      invariant RefusalFrom(content, 0) == RefusalFrom(content, offset)
      decreases |content| - offset
    {
      var child := ReadElement(content, offset);
      ChildrenStep(content, offset);
      if child.Refused? {
        return None, Some(child.error);
      }
      PrependOne(children, child.element, ChildrenFrom(content, offset + child.element.total));
      children := children + [child.element];
      offset := offset + child.element.total;
    }
    ChildrenEnd(content);
    assert children + [] == children;
    r, refused := Some(children), None;
  }

  lemma ChildrenEnd(content: Bytes)
    ensures ChildrenFrom(content, |content|) == Some([]) && RefusalFrom(content, |content|).None?
  {
  }

  lemma ChildrenStep(content: Bytes, offset: nat)
    requires offset < |content|
    ensures var child := ReadAt(content, offset);
            ChildrenFrom(content, offset) ==
              if child.Refused? then None
                else Prepend([child.element], ChildrenFrom(content, offset + child.element.total))
    ensures var child := ReadAt(content, offset);
            RefusalFrom(content, offset) ==
              if child.Refused? then Some(child.error) else RefusalFrom(content, offset + child.element.total)
  {
    hide ReadAt;
  }

  lemma PrependOne(children: seq<Element>, child: Element, rest: Option<seq<Element>>)
    ensures Prepend(children, Prepend([child], rest)) == Prepend(children + [child], rest)
  {
    if rest.Some? {
      assert children + ([child] + rest.value) == children + [child] + rest.value;
    }
  }

  // ---- the writer

  method Reencode(e: Element) returns (out: Bytes)
    requires Writable(e)
    ensures out == Encode(e)
  {
    var length: nat := |e.content|;
    if length < 0x80 {
      assert [Tag(e), length as byte] == [Tag(e)] + [length as byte];
      return [Tag(e), length as byte] + e.content;
    }
    Lengths(length);
    var lengthBytes: Bytes := [];
    while length > 0
      invariant MinimalBytes(|e.content|) == MinimalBytes(length) + lengthBytes
    {
      lengthBytes := [(length % 0x100) as byte] + lengthBytes;
      length := length / 0x100;
    }
    var lead := (0x80 + |lengthBytes|) as byte;
    assert [Tag(e), lead] + lengthBytes == [Tag(e)] + ([lead] + lengthBytes);
    out := [Tag(e), lead] + lengthBytes + e.content;
  }

  // ---- reader and writer undo each other

  lemma TagRead(e: Element)
    requires Writable(e)
    ensures var first := Tag(e) as nat;
            first / 0x40 == e.tagClass && (first / 0x20 % 2 == 1 <==> e.constructed) && first % 0x20 == e.number
  {
  }

  lemma LengthRead(der: Bytes, offset: nat, n: nat)
    requires n < 0x8000_0000_0000_0000 && offset + 1 + |LengthHeader(n)| <= |der|
    requires der[offset + 1..offset + 1 + |LengthHeader(n)|] == LengthHeader(n)
    ensures ReadLength(der, offset) == if n < 0x1_0000_0000 then Some((1 + |LengthHeader(n)|, n)) else None
  {
    hide BigEndian, MinimalBytes;
    Lengths(n);
    var h := LengthHeader(n);
    assert der[offset + 1..offset + 1 + |h|][0] == der[offset + 1];
    if n >= 0x80 {
      BigEndianMinimal(n);
      assert der[offset + 2..offset + 1 + |h|] == der[offset + 1..offset + 1 + |h|][1..] == h[1..] == MinimalBytes(n);
    }
  }

  lemma WritableLength(e: Element)
    requires Writable(e)
    ensures |e.content| < 0x8000_0000_0000_0000
    ensures Readable(e) <==> e.number != 0x1F && |e.content| < 0x1_0000_0000
  {
  }

  /**
   * Reading a written element gives it back wherever it stands and whatever follows; the reader refuses exactly the tag
   * number that means a longer form, and contents of 2^32 bytes and more.
   */
  lemma ReadOfEncode(before: Bytes, e: Element, after: Bytes)
    requires Writable(e)
    ensures ReadAt(before + Encode(e) + after, |before|) ==
              if Readable(e) then Read(e.(total := |Encode(e)|))
              else if e.number == 0x1F then Refused(TagForm) else Refused(BadLength)
  {
    hide LengthHeader, Tag, ReadLength, Writable, Readable;
    WritableLength(e);
    var der, o, n, h := before + Encode(e) + after, |before|, |e.content|, LengthHeader(|e.content|);
    EncodeParts(before, e, after);
    LengthRead(der, o, n);
    TagRead(e);
  }

  lemma EncodeParts(before: Bytes, e: Element, after: Bytes)
    requires Writable(e)
    ensures var der, o, h := before + Encode(e) + after, |before|, LengthHeader(|e.content|);
            && |Encode(e)| == 1 + |h| + |e.content| && |der| == o + |Encode(e)| + |after|
            && der[o] == Tag(e) && der[o + 1..o + 1 + |h|] == h
            && der[o + 1 + |h|..o + 1 + |h| + |e.content|] == e.content
  {
    hide LengthHeader, Tag;
    WritableLength(e);
    var x, h := Encode(e), LengthHeader(|e.content|);
    assert x[1..1 + |h|] == h && x[1 + |h|..] == e.content;
    var der, o := before + x + after, |before|;
    assert der[o..o + |x|] == x;
    assert der[o + 1..o + 1 + |h|] == der[o..o + |x|][1..1 + |h|];
    assert der[o + 1 + |h|..o + 1 + |h| + |e.content|] == der[o..o + |x|][1 + |h|..];
  }

  /** Whatever was read can be written, never longer than it was, and unchanged exactly where its length was minimal. */
  lemma EncodeOfRead(der: Bytes, offset: nat)
    requires offset <= |der| && ReadAt(der, offset).Read?
    ensures var e := ReadAt(der, offset).element;
            && Readable(e) && |Encode(e)| <= e.total <= |der| - offset
            && (|Encode(e)| == e.total <==> Encode(e) == der[offset..offset + e.total])
  {
    hide LengthHeader, ReadLength;
    HeaderNeverLonger(der, offset);
    var e, first := ReadAt(der, offset).element, der[offset] as nat;
    var (header, n) := ReadLength(der, offset).value;
    assert Tag(e) == der[offset];
    if |Encode(e)| == e.total {
      assert der[offset..offset + e.total] == [der[offset]] + der[offset + 1..offset + header] +
          der[offset + header..offset + header + n];
    }
  }

  // ---- back to back

  ghost predicate AllReadable(es: seq<Element>)
  {
    forall i :: 0 <= i < |es| ==> Readable(es[i])
  }

  ghost function EncodeAll(es: seq<Element>): Bytes
    requires AllReadable(es)
  {
    if es == [] then []
    else
      assert Readable(es[0]);
      Encode(es[0]) + EncodeAll(es[1..])
  }

  /** The elements as they read back: the total is what was written. */
  ghost function Sized(es: seq<Element>): (r: seq<Element>)
    requires AllReadable(es)
    ensures |r| == |es|
  {
    seq(|es|, i requires 0 <= i < |es| => assert Readable(es[i]); es[i].(total := |Encode(es[i])|))
  }

  lemma {:induction false} ChildrenAfter(before: Bytes, es: seq<Element>)
    requires AllReadable(es)
    ensures ChildrenFrom(before + EncodeAll(es), |before|) == Some(Sized(es))
    decreases |es|
  {
    hide ReadAt, Encode;
    if es == [] {
      assert before + EncodeAll(es) == before;
    } else {
      var content, first := before + EncodeAll(es), Encode(es[0]);
      assert content == before + first + EncodeAll(es[1..]);
      assert Readable(es[0]);
      ReadOfEncode(before, es[0], EncodeAll(es[1..]));
      ChildrenAfter(before + first, es[1..]);
      EncodeNotEmpty(es[0]);
      assert ChildrenFrom(content, |before|) == Some([es[0].(total := |first|)] + Sized(es[1..]));
      assert [es[0].(total := |first|)] + Sized(es[1..]) == Sized(es);
    }
  }

  lemma EncodeNotEmpty(e: Element)
    requires Writable(e)
    ensures |Encode(e)| >= 2
  {
  }

  /** Children of written elements are the elements. */
  lemma ChildrenOfEncodeAll(es: seq<Element>)
    requires AllReadable(es)
    ensures ChildrenOf(EncodeAll(es)) == Some(Sized(es))
  {
    hide ReadAt, Encode, ChildrenFrom;
    ChildrenAfter([], es);
    assert [] + EncodeAll(es) == EncodeAll(es);
  }

  lemma FitsTogether(es: seq<Element>, child: Element, content: Bytes, offset: nat)
    requires es != [] && es[0] == child && Readable(child) && AllReadable(es[1..])
    requires |Encode(child)| <= child.total && |EncodeAll(es[1..])| + offset + child.total <= |content|
    ensures AllReadable(es) && |EncodeAll(es)| <= |content| - offset
  {
    hide Encode, Readable;
    assert forall i :: 0 < i < |es| ==> es[i] == es[1..][i - 1];
  }

  /** What Children returns can all be written, in no more bytes than it took, and each is smaller than the whole. */
  lemma {:induction false} ChildrenFit(content: Bytes, offset: nat)
    requires offset <= |content| && ChildrenFrom(content, offset).Some?
    ensures var es := ChildrenFrom(content, offset).value;
            && AllReadable(es) && |EncodeAll(es)| <= |content| - offset
            && forall i :: 0 <= i < |es| ==> |es[i].content| + 2 <= |content|
    decreases |content| - offset
  {
    hide Encode, Readable;
    if offset < |content| {
      var child := ReadAt(content, offset).element;
      ChildrenFit(content, offset + child.total);
      var es := ChildrenFrom(content, offset).value;
      assert es[1..] == ChildrenFrom(content, offset + child.total).value;
      assert forall i :: 0 < i < |es| ==> es[i] == es[1..][i - 1];
      FitsTogether(es, child, content, offset);
    }
  }
}

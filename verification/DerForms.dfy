/** internal/tst/der.go: exactly which bytes are an element, whatever form its length takes, and why others are not. */
module DerForms {
  import opened Bytes
  import opened Der

  /** The number some bytes spell, most significant first. */
  function Number(bs: Bytes): nat
  {
    if bs == [] then 0 else bs[0] as nat * Pow256(|bs| - 1) + Number(bs[1..])
  }

  lemma PowStep(k: nat)
    ensures Pow256(k + 1) == 0x100 * Pow256(k) && Pow256(0) == 1
  {
  }

  lemma {:induction false} NumberPush(bs: Bytes, b: byte)
    ensures Number(bs + [b]) == Number(bs) * 0x100 + b as nat
  {
    if bs == [] {
      assert [] + [b] == [b] && [b][1..] == [];
    } else {
      var more := bs + [b];
      assert more[1..] == bs[1..] + [b] && more[0] == bs[0];
      NumberPush(bs[1..], b);
      PowStep(|bs| - 1);
      TimesStep(bs[0] as nat, Pow256(|bs| - 1));
    }
  }

  lemma TimesStep(d: nat, p: nat)
    ensures d * (0x100 * p) == d * p * 0x100
  {
  }

  lemma {:induction false} NumberIs(bs: Bytes)
    ensures Number(bs) == BigEndian(bs)
  {
    hide Number, Pow256;
    if bs == [] {
      NumberNone();
    } else {
      var init, last := bs[..|bs| - 1], bs[|bs| - 1];
      assert bs == init + [last];
      NumberIs(init);
      NumberPush(init, last);
    }
  }

  lemma NumberNone()
    ensures Number([]) == 0
  {
  }

  /** One byte under 0x80, or a count of one to four and as many bytes, leading zeros and all. */
  ghost predicate LengthForm(h: Bytes, n: nat)
  {
    || (|h| == 1 && h[0] < 0x80 && n == h[0] as nat)
    || (2 <= |h| <= 5 && h[0] as nat == 0x80 + (|h| - 1) && n == Number(h[1..]))
  }

  /** A length in some form, ending k bytes into what starts here, says n. */
  ghost predicate LengthAt(der: Bytes, offset: nat, k: nat, n: nat)
  {
    2 <= k && offset + k <= |der| && LengthForm(der[offset + 1..offset + k], n)
  }

  /** The bytes here are the element: its tag, its length in some form, and its content. */
  ghost predicate ElementAt(der: Bytes, offset: nat, e: Element, k: nat)
  {
    && LengthAt(der, offset, k, |e.content|) && offset + e.total <= |der| && e.total == k + |e.content|
    && e.tagClass < 4 && e.number < 0x1F
    && der[offset] as nat == e.tagClass * 0x40 + (if e.constructed then 0x20 else 0) + e.number
    && e.content == der[offset + k..offset + e.total]
  }

  lemma LengthRead(der: Bytes, offset: nat, k: nat, n: nat)
    requires LengthAt(der, offset, k, n)
    ensures offset + 2 <= |der| && ReadLength(der, offset) == Some((k, n))
  {
    hide BigEndian, Number;
    var h := der[offset + 1..offset + k];
    assert h[0] == der[offset + 1];
    if |h| > 1 {
      assert h[1..] == der[offset + 2..offset + k];
      NumberIs(h[1..]);
    }
  }

  lemma LengthSpelled(der: Bytes, offset: nat)
    requires offset + 2 <= |der| && ReadLength(der, offset).Some?
    ensures var (k, n) := ReadLength(der, offset).value; LengthAt(der, offset, k, n)
  {
    hide BigEndian, Number;
    var (k, n) := ReadLength(der, offset).value;
    var h := der[offset + 1..offset + k];
    assert h[0] == der[offset + 1];
    if |h| > 1 {
      assert h[1..] == der[offset + 2..offset + k];
      NumberIs(h[1..]);
    }
  }

  lemma TagSplits(tag: nat, class_: nat, constructed: bool, number: nat)
    requires class_ < 4 && number < 0x20
    ensures tag == class_ * 0x40 + (if constructed then 0x20 else 0) + number <==>
            class_ == tag / 0x40 && (constructed <==> tag / 0x20 % 2 == 1) && number == tag % 0x20
  {
  }

  /** An element is read exactly where the bytes spell it, in any form its length may take. */
  lemma ReadExactly(der: Bytes, offset: nat, e: Element)
    requires offset <= |der|
    ensures ReadAt(der, offset) == Read(e) <==> exists k: nat :: ElementAt(der, offset, e, k)
  {
    hide ReadLength, LengthAt, Encode, Readable;
    if ReadAt(der, offset) == Read(e) {
      LengthSpelled(der, offset);
      TagSplits(der[offset] as nat, e.tagClass, e.constructed, e.number);
      assert ElementAt(der, offset, e, ReadLength(der, offset).value.0);
    }
    if k: nat :| ElementAt(der, offset, e, k) {
      LengthRead(der, offset, k, |e.content|);
      TagSplits(der[offset] as nat, e.tagClass, e.constructed, e.number);
    }
  }

  // ---- why bytes are refused

  /** The length byte says no length at all, or more bytes than four, or more than there are. */
  ghost predicate NoLength(der: Bytes, offset: nat)
    requires offset + 2 <= |der|
  {
    || der[offset + 1] == 0x80 || der[offset + 1] > 0x84
    || (der[offset + 1] > 0x80 && |der| - offset < 2 + (der[offset + 1] as nat - 0x80))
  }

  lemma NoLengthExactly(der: Bytes, offset: nat)
    requires offset + 2 <= |der|
    ensures ReadLength(der, offset).None? <==> NoLength(der, offset)
  {
    hide BigEndian;
  }

  /** The length says more content than there is. */
  ghost predicate TooLong(der: Bytes, offset: nat)
  {
    exists k: nat, n: nat :: LengthAt(der, offset, k, n) && offset + k + n > |der|
  }

  /** Too few bytes for a header, the longer tag form, no length, or less content than its length says. */
  lemma RefusedBecause(der: Bytes, offset: nat)
    requires offset <= |der|
    ensures ReadAt(der, offset) == Refused(TruncatedElement) <==> |der| - offset < 2
    ensures ReadAt(der, offset) == Refused(TagForm) <==> |der| - offset >= 2 && der[offset] as nat % 0x20 == 0x1F
    ensures ReadAt(der, offset) == Refused(BadLength) <==>
            |der| - offset >= 2 && der[offset] as nat % 0x20 != 0x1F && NoLength(der, offset)
    ensures ReadAt(der, offset) == Refused(TruncatedContent) <==>
            && |der| - offset >= 2 && der[offset] as nat % 0x20 != 0x1F
            && !NoLength(der, offset) && TooLong(der, offset)
  {
    hide ReadLength, LengthAt, Encode, Readable, NoLength;
    if |der| - offset >= 2 {
      NoLengthExactly(der, offset);
      if ReadLength(der, offset).Some? {
        LengthSpelled(der, offset);
        var (header, length) := ReadLength(der, offset).value;
        assert LengthAt(der, offset, header, length);
      }
      if k: nat, n: nat :| LengthAt(der, offset, k, n) && offset + k + n > |der| {
        LengthRead(der, offset, k, n);
      }
    }
  }
}

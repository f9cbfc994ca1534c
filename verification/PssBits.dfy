/** internal/tst/crypto.go: an EMSA-PSS encoding bit by bit (section 9.1.1 and appendix B.2.1 of RFC 8017). */
module PssBits {
  import opened Bytes
  import opened Pss

  /** Bit i of a number, the lowest being bit 0. */
  predicate Bit(n: nat, i: nat)
  {
    if i == 0 then n % 2 == 1 else Bit(n / 2, i - 1)
  }

  lemma {:induction false} NoBits(i: nat)
    ensures !Bit(0, i)
  {
    if i > 0 {
      NoBits(i - 1);
    }
  }

  lemma {:induction false} XorBit(a: nat, b: nat, i: nat)
    ensures Bit(Xor(a, b), i) <==> Bit(a, i) != Bit(b, i)
  {
    hide Xor;
    XorStep(a, b);
    if i > 0 {
      XorBit(a / 2, b / 2, i - 1);
    }
  }

  lemma {:induction false} LowBit(n: nat, w: nat, i: nat)
    ensures Bit(Low(n, w), i) <==> i < w && Bit(n, i)
  {
    if w == 0 {
      NoBits(i);
    } else {
      Bits(n % 2, Low(n / 2, w - 1));
      if i > 0 {
        LowBit(n / 2, w - 1, i - 1);
      }
    }
  }

  // ---- the mask

  /** A 32-bit counter, most significant octet first. */
  function Counter(c: nat): Bytes
  {
    [(c / 0x100_0000 % 0x100) as byte, (c / 0x1_0000 % 0x100) as byte, (c / 0x100 % 0x100) as byte, (c % 0x100) as byte]
  }

  lemma CounterIs(c: nat)
    ensures I2osp(c, 4) == Counter(c)
  {
    assert I2osp(c / 0x100 / 0x100 / 0x100 / 0x100, 0) == [];
    assert I2osp(c / 0x100 / 0x100 / 0x100, 1) == [(c / 0x100 / 0x100 / 0x100 % 0x100) as byte];
    assert I2osp(c / 0x100 / 0x100, 2) ==
           [(c / 0x100 / 0x100 / 0x100 % 0x100) as byte, (c / 0x100 / 0x100 % 0x100) as byte];
    assert c / 0x100 / 0x100 == c / 0x1_0000 && c / 0x1_0000 / 0x100 == c / 0x100_0000;
  }

  lemma {:induction false} BlocksLength(h: HashFunc, seed: Bytes, k: nat)
    requires IsDigest(h)
    ensures |Blocks(h, seed, k)| == k * h.size
  {
    hide I2osp, Blocks;
    if k == 0 {
      NoBlocks(h, seed);
    } else {
      BlocksLength(h, seed, k - 1);
      BlocksStep(h, seed, k - 1);
      OneMore(k - 1, h.size);
    }
  }

  lemma OneMore(k: nat, size: nat)
    ensures (k + 1) * size == k * size + size
  {
  }

  /** Octet i of the mask is octet i % size of the digest of the seed and the counter i / size. */
  lemma {:induction false} BlockAt(h: HashFunc, seed: Bytes, k: nat, c: nat, r: nat)
    requires IsDigest(h) && c < k && r < h.size
    ensures c * h.size + r < |Blocks(h, seed, k)|
    ensures Blocks(h, seed, k)[c * h.size + r] == h.sum(seed + Counter(c))[r]
  {
    hide I2osp, Counter;
    BlocksLength(h, seed, k);
    BlocksLength(h, seed, k - 1);
    if c == k - 1 {
      CounterIs(c);
    } else {
      Earlier(c, k - 1, h.size, r);
      BlockAt(h, seed, k - 1, c, r);
    }
  }

  lemma Earlier(c: nat, k: nat, size: nat, r: nat)
    requires c < k && r < size
    ensures c * size + r < k * size
  {
    assert (c + 1) * size <= k * size;
  }

  lemma MaskAt(h: HashFunc, seed: Bytes, n: nat, i: nat)
    requires IsDigest(h) && i < n
    ensures Mgf1(h, seed, n)[i] == h.sum(seed + Counter(i / h.size))[i % h.size]
  {
    hide Blocks, Counter;
    var c, r := i / h.size, i % h.size;
    assert i == c * h.size + r;
    CounterSmall(i, h.size);
    EnoughBlocks(h, seed, n);
    BlockAt(h, seed, n, c, r);
  }

  lemma {:induction false} CounterSmall(i: nat, size: nat)
    requires size > 0
    ensures i / size <= i
  {
    var c := i / size;
    if c > 0 {
      OneMore(size - 1, c);
      assert i >= size * c;
      assert (size - 1) * c >= 0;
    }
  }

  // ---- the encoding

  /** What is masked: zeros, a one, and the salt. */
  function PaddedAt(n: nat, salt: Bytes, i: nat): byte
    requires i < n && |salt| < n
  {
    if i < n - |salt| - 1 then 0 else if i == n - |salt| - 1 then 1 else salt[i - (n - |salt|)]
  }

  /**
   * An encoding ends in 0xBC, after the digest of eight zero octets, the message's digest and the salt; before that,
   * each bit of the padded salt is changed where the mask has one, and the bits above the lowest emBits are zero.
   */
  ghost predicate EncodedAs(h: HashFunc, emBits: nat, data: Bytes, salt: Bytes, em: Bytes)
    requires IsDigest(h) && Fits(h, emBits, |salt|)
  {
    var n := |em| - h.size - 1;
    && |em| == (emBits + 7) / 8 && n > |salt| && em[|em| - 1] == 0xBC
    && var hash := h.sum([0, 0, 0, 0, 0, 0, 0, 0] + h.sum(data) + salt);
       && em[n..n + h.size] == hash
       && forall i :: 0 <= i < n ==> MaskedRight(h, hash, emBits, em[i], PaddedAt(n, salt, i), i)
  }

  ghost predicate MaskedRight(h: HashFunc, hash: Bytes, emBits: nat, masked: byte, plain: byte, i: nat)
    requires IsDigest(h)
  {
    forall j :: 0 <= j < 8 ==> BitRight(h, hash, emBits, masked, plain, i, j)
  }

  ghost predicate BitRight(h: HashFunc, hash: Bytes, emBits: nat, masked: byte, plain: byte, i: nat, j: nat)
    requires IsDigest(h)
  {
    var mask := h.sum(hash + Counter(i / h.size))[i % h.size];
    Bit(masked as nat, j) <==>
      (i > 0 || j < 8 - (8 * ((emBits + 7) / 8) - emBits)) && Bit(plain as nat, j) != Bit(mask as nat, j)
  }

  lemma {:induction false} SameBits(a: nat, b: nat, w: nat)
    requires a < Pow2(w) && b < Pow2(w) && forall j :: 0 <= j < w ==> (Bit(a, j) <==> Bit(b, j))
    ensures a == b
  {
    if w > 0 {
      forall j | 0 <= j < w - 1
        ensures Bit(a / 2, j) <==> Bit(b / 2, j)
      {
        var k := j + 1;
        assert Bit(a, k) <==> Bit(b, k);
      }
      assert Bit(a, 0) <==> Bit(b, 0);
      SameBits(a / 2, b / 2, w - 1);
    }
  }

  /** One octet of the masked part. */
  lemma OctetRight(h: HashFunc, hash: Bytes, emBits: nat, masked: byte, plain: byte, i: nat)
    requires IsDigest(h)
    ensures var mask := h.sum(hash + Counter(i / h.size))[i % h.size];
            var x := XorByte(plain, mask) as nat;
            MaskedRight(h, hash, emBits, masked, plain, i) <==>
            masked as nat == if i == 0 then Low(x, FirstBits(emBits)) else x
  {
    hide Xor, Low, Counter, Bit;
    var mask := h.sum(hash + Counter(i / h.size))[i % h.size];
    var x := XorByte(plain, mask) as nat;
    var r := if i == 0 then Low(x, FirstBits(emBits)) else x;
    LowFits(x, FirstBits(emBits));
    assert Pow2(8) == 0x100;
    forall j | 0 <= j < 8
      ensures BitRight(h, hash, emBits, masked, plain, i, j) <==> (Bit(masked as nat, j) <==> Bit(r, j))
    {
      XorBit(plain as nat, mask as nat, j);
      LowBit(x, FirstBits(emBits), j);
    }
    if MaskedRight(h, hash, emBits, masked, plain, i) {
      SameBits(masked as nat, r, 8);
    }
  }

  lemma EightZeros()
    ensures Zeros(8) == [0, 0, 0, 0, 0, 0, 0, 0]
  {
  }

  /** A block encodes a message exactly where it does so bit by bit. */
  lemma EncodedExactly(h: HashFunc, emBits: nat, data: Bytes, salt: Bytes, em: Bytes)
    requires IsDigest(h) && Fits(h, emBits, |salt|)
    ensures em == EncodePss(h, emBits, data, salt) <==> EncodedAs(h, emBits, data, salt, em)
  {
    hide Mgf1, XorByte, FirstBits, Salted, Low, MaskedRight, Counter;
    EightZeros();
    var hash, db, want := Salted(h, data, salt), Padded(h, emBits, salt), EncodePss(h, emBits, data, salt);
    SaltedIs(h, data, salt);
    var n := |db|;
    if |em| == |want| {
      assert want[n..n + h.size] == hash && want[|want| - 1] == 0xBC;
      forall i | 0 <= i < n
        ensures MaskedRight(h, hash, emBits, em[i], PaddedAt(n, salt, i), i) <==> em[i] == want[i]
      {
        MaskAt(h, hash, n, i);
        OctetRight(h, hash, emBits, em[i], PaddedAt(n, salt, i), i);
        assert db[i] == PaddedAt(n, salt, i);
      }
      assert em == em[..n] + em[n..n + h.size] + em[n + h.size..];
    }
  }

  lemma SaltedIs(h: HashFunc, data: Bytes, salt: Bytes)
    requires IsDigest(h)
    ensures Salted(h, data, salt) == h.sum([0, 0, 0, 0, 0, 0, 0, 0] + h.sum(data) + salt)
    ensures |Salted(h, data, salt)| == h.size
  {
    EightZeros();
  }
}

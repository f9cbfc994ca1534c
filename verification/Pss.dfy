/** internal/tst/crypto.go: MGF1 in place, and the EMSA-PSS check of a recovered block. */
module Pss {
  import opened Bytes

  /** A digest: any function to strings of one non-zero length. */
  datatype HashFunc = HashFunc(size: nat, sum: Bytes -> Bytes)

  ghost predicate IsDigest(h: HashFunc)
  {
    h.size > 0 && forall data :: |h.sum(data)| == h.size
  }

  // ---- exclusive or

  function Xor(a: nat, b: nat): nat
    decreases a + b
  {
    if a == 0 && b == 0 then 0 else (if a % 2 == b % 2 then 0 else 1) + 2 * Xor(a / 2, b / 2)
  }

  /** The low w bits: and with 2^w - 1. */
  function Low(n: nat, w: nat): nat
  {
    if w == 0 then 0 else n % 2 + 2 * Low(n / 2, w - 1)
  }

  /** Shifted right by w. */
  function Shift(n: nat, w: nat): nat
  {
    if w == 0 then n else Shift(n / 2, w - 1)
  }

  lemma {:induction false} LowIsAll(n: nat, w: nat)
    ensures Low(n, w) == n <==> Shift(n, w) == 0
  {
    if w > 0 {
      LowIsAll(n / 2, w - 1);
    }
  }

  lemma Bits(r: nat, x: nat)
    requires r < 2
    ensures (r + 2 * x) % 2 == r && (r + 2 * x) / 2 == x
  {
  }

  lemma XorStep(a: nat, b: nat)
    ensures Xor(a, b) == (if a % 2 == b % 2 then 0 else 1) + 2 * Xor(a / 2, b / 2)
    ensures Xor(a, b) % 2 == (if a % 2 == b % 2 then 0 else 1) && Xor(a, b) / 2 == Xor(a / 2, b / 2)
  {
    Bits(if a % 2 == b % 2 then 0 else 1, Xor(a / 2, b / 2));
  }

  lemma {:induction false} XorSelf(a: nat, b: nat)
    ensures Xor(Xor(a, b), b) == a
    decreases a + b
  {
    hide Xor;
    if a == 0 && b == 0 {
      XorZero();
    } else {
      XorSelf(a / 2, b / 2);
      XorStep(a, b);
      XorStep(Xor(a, b), b);
    }
  }

  lemma XorZero()
    ensures Xor(0, 0) == 0
  {
  }

  /** The low bits of an exclusive or come from the low bits. */
  lemma {:induction false} XorLow(a: nat, b: nat, w: nat)
    ensures Low(Xor(a, b), w) == Xor(Low(a, w), Low(b, w))
    decreases w
  {
    hide Xor;
    if w == 0 {
      XorZero();
    } else {
      XorLow(a / 2, b / 2, w - 1);
      XorStep(a, b);
      Bits(a % 2, Low(a / 2, w - 1));
      Bits(b % 2, Low(b / 2, w - 1));
      XorStep(Low(a, w), Low(b, w));
    }
  }

  lemma {:induction false} LowTwice(n: nat, w: nat)
    ensures Low(Low(n, w), w) == Low(n, w)
  {
    if w > 0 {
      LowTwice(n / 2, w - 1);
      Bits(n % 2, Low(n / 2, w - 1));
    }
  }

  /** Eight bits make a byte. */
  lemma ByteBits(n: nat)
    ensures Shift(n, 8) == n / 0x100 && Low(n, 8) < 0x100
    ensures n < 0x100 ==> Low(n, 8) == n
  {
    LowIsAll(n, 8);
    ShiftEight(n);
    LowBound(n, 8);
    assert Pow2(8) == 0x100;
  }

  function Pow2(w: nat): nat
  {
    if w == 0 then 1 else 2 * Pow2(w - 1)
  }

  lemma {:induction false} LowBound(n: nat, w: nat)
    ensures Low(n, w) < Pow2(w)
  {
    if w > 0 {
      LowBound(n / 2, w - 1);
    }
  }

  lemma ShiftEight(n: nat)
    ensures Shift(n, 8) == n / 0x100
  {
    var a, b := n / 2, n / 4;
    var c, d := n / 8, n / 0x10;
    assert Shift(d / 2 / 2 / 2, 1) == n / 0x100;
    assert Shift(d / 2, 3) == Shift(d / 2 / 2, 2) == Shift(d / 2 / 2 / 2, 1);
    assert Shift(d, 4) == Shift(d / 2, 3);
    assert Shift(c, 5) == Shift(d, 4) && Shift(b, 6) == Shift(c, 5) && Shift(a, 7) == Shift(b, 6);
  }

  lemma XorFits(a: nat, b: nat)
    requires a < 0x100 && b < 0x100
    ensures Xor(a, b) < 0x100
  {
    hide Xor, Low, Shift;
    ByteBits(a);
    ByteBits(b);
    XorLow(a, b, 8);
    ByteBits(Xor(a, b));
  }

  function XorByte(a: byte, b: byte): byte
  {
    XorFits(a as nat, b as nat);
    Xor(a as nat, b as nat) as byte
  }

  function XorAll(a: Bytes, b: Bytes): (r: Bytes)
    requires |a| == |b|
    ensures |r| == |a|
  {
    seq(|a|, i requires 0 <= i < |a| => XorByte(a[i], b[i]))
  }

  // ---- MGF1 (appendix B.2.1 of RFC 8017)

  /** The low k octets of a number, most significant first. */
  function I2osp(n: nat, k: nat): (r: Bytes)
    ensures |r| == k
  {
    if k == 0 then [] else I2osp(n / 0x100, k - 1) + [(n % 0x100) as byte]
  }

  /** The first k digests of the seed with a 32-bit counter, back to back. */
  function Blocks(h: HashFunc, seed: Bytes, k: nat): Bytes
  {
    if k == 0 then [] else Blocks(h, seed, k - 1) + h.sum(seed + I2osp(k - 1, 4))
  }

  lemma {:induction false} EnoughBlocks(h: HashFunc, seed: Bytes, k: nat)
    requires IsDigest(h)
    ensures |Blocks(h, seed, k)| >= k
  {
    if k > 0 {
      EnoughBlocks(h, seed, k - 1);
    }
  }

  lemma {:induction false} BlocksPrefix(h: HashFunc, seed: Bytes, j: nat, k: nat)
    requires j <= k
    ensures |Blocks(h, seed, j)| <= |Blocks(h, seed, k)|
              && Blocks(h, seed, j) == Blocks(h, seed, k)[..|Blocks(h, seed, j)|]
  {
    if j < k {
      BlocksPrefix(h, seed, j, k - 1);
    }
  }

  /** The leading n octets; n blocks are always enough, and any number that is enough gives the same. */
  function Mgf1(h: HashFunc, seed: Bytes, n: nat): (mask: Bytes)
    requires IsDigest(h)
    ensures |mask| == n
  {
    EnoughBlocks(h, seed, n);
    Blocks(h, seed, n)[..n]
  }

  lemma Mgf1Any(h: HashFunc, seed: Bytes, n: nat, k: nat)
    requires IsDigest(h) && n <= |Blocks(h, seed, k)|
    ensures Mgf1(h, seed, n) == Blocks(h, seed, k)[..n]
  {
    hide Blocks, I2osp;
    EnoughBlocks(h, seed, n);
    if n <= k {
      BlocksPrefix(h, seed, n, k);
      assert Blocks(h, seed, k)[..n] == Blocks(h, seed, k)[..|Blocks(h, seed, n)|][..n];
    } else {
      BlocksPrefix(h, seed, k, n);
      assert Blocks(h, seed, n)[..n] == Blocks(h, seed, n)[..|Blocks(h, seed, k)|][..n];
    }
  }

  /** Adds one with carry; the largest number wraps. */
  method Increment(counter: array<byte>, ghost n: nat)
    requires counter[..] == I2osp(n, counter.Length)
    modifies counter
    ensures counter[..] == I2osp(n + 1, counter.Length)
  {
    ghost var before := counter[..];
    var i := counter.Length - 1;
    while i >= 0
      invariant -1 <= i < counter.Length
      invariant forall j :: 0 <= j <= i ==> counter[j] == before[j]
      invariant forall j :: i < j < counter.Length ==> counter[j] == 0 && before[j] == 0xFF
    {
      counter[i] := if counter[i] == 0xFF then 0 else counter[i] + 1;
      if counter[i] != 0 {
        break;
      }
      i := i - 1;
    }
    Carry(before, n, counter[..], i);
  }

  lemma {:induction false} Carry(before: Bytes, n: nat, after: Bytes, i: int)
    requires before == I2osp(n, |before|) && |after| == |before| && -1 <= i < |before|
    requires forall j :: 0 <= j < i ==> after[j] == before[j]
    requires forall j :: i < j < |before| ==> after[j] == 0 && before[j] == 0xFF
    requires i >= 0 ==> before[i] != 0xFF && after[i] == before[i] + 1
    ensures after == I2osp(n + 1, |before|)
    decreases |before|
  {
    var k := |before| - 1;
    if k >= 0 {
      assert before[..k] == I2osp(n / 0x100, k) && before[k] as nat == n % 0x100;
      assert after == after[..k] + [after[k]];
      if i == k {
        assert after[..k] == before[..k];
        assert (n + 1) / 0x100 == n / 0x100 && (n + 1) % 0x100 == n % 0x100 + 1;
      } else {
        assert (n + 1) / 0x100 == n / 0x100 + 1 && (n + 1) % 0x100 == 0;
        Carry(before[..k], n / 0x100, after[..k], i);
      }
    }
  }

  /** Applies the mask in place. */
  method Mgf1Xor(out: array<byte>, seed: Bytes, h: HashFunc)
    requires IsDigest(h)
    modifies out
    ensures out[..] == XorAll(old(out[..]), Mgf1(h, seed, out.Length))
  {
    hide Blocks, I2osp, XorByte;
    var counter := new byte[4](_ => 0);
    ghost var before, blocks := out[..], 0;
    ZeroCounter(counter[..]);
    NoBlocks(h, seed);
    var done := 0;
    while done < out.Length
      invariant done <= out.Length == |before| && counter.Length == 4 && fresh(counter)
      invariant counter[..] == I2osp(blocks, 4)
      invariant done <= |Blocks(h, seed, blocks)| && (done < out.Length ==> done == |Blocks(h, seed, blocks)|)
      invariant forall i :: 0 <= i < done ==> out[i] == XorByte(before[i], Blocks(h, seed, blocks)[i])
      invariant forall i :: done <= i < out.Length ==> out[i] == before[i]
    {
      var block := h.sum(seed + counter[..]);
      ghost var mask := Blocks(h, seed, blocks) + block;
      BlocksStep(h, seed, blocks);
      var i, start := 0, done;
      while i < |block| && done < out.Length
        invariant 0 <= i <= |block| && done == start + i <= out.Length && counter[..] == I2osp(blocks, 4)
        invariant forall j :: 0 <= j < done ==> out[j] == XorByte(before[j], mask[j])
        invariant forall j :: done <= j < out.Length ==> out[j] == before[j]
      {
        out[done] := XorByte(out[done], block[i]);
        done := done + 1;
        i := i + 1;
      }
      Increment(counter, blocks);
      blocks := blocks + 1;
    }
    Mgf1Any(h, seed, out.Length, blocks);
  }

  lemma ZeroCounter(counter: Bytes)
    requires |counter| == 4 && forall i :: 0 <= i < 4 ==> counter[i] == 0
    ensures counter == I2osp(0, 4)
  {
    assert I2osp(0, 1) == [0];
    assert I2osp(0, 2) == [0, 0];
    assert I2osp(0, 3) == [0, 0, 0];
  }

  lemma NoBlocks(h: HashFunc, seed: Bytes)
    ensures Blocks(h, seed, 0) == []
  {
  }

  lemma BlocksStep(h: HashFunc, seed: Bytes, k: nat)
    ensures Blocks(h, seed, k + 1) == Blocks(h, seed, k) + h.sum(seed + I2osp(k, 4))
  {
    hide I2osp;
  }

  // ---- EMSA-PSS (sections 9.1.1 and 9.1.2 of RFC 8017)

  function Zeros(n: nat): (z: Bytes)
    ensures |z| == n
  {
    seq(n, _ => 0)
  }

  /** Keeps only the low bits of the first octet. */
  function MaskFirst(b: Bytes, bits: nat): (r: Bytes)
    requires b != [] && bits <= 8
    ensures |r| == |b|
  {
    LowFits(b[0] as nat, bits);
    [Low(b[0] as nat, bits) as byte] + b[1..]
  }

  lemma {:induction false} LowFits(n: nat, bits: nat)
    requires n < 0x100
    ensures Low(n, bits) < 0x100 && Low(n, bits) <= n
  {
    if bits > 0 {
      LowFits(n / 2, bits - 1);
    }
  }

  function Salted(h: HashFunc, data: Bytes, salt: Bytes): Bytes
  {
    h.sum(Zeros(8) + h.sum(data) + salt)
  }

  /** Octets, and bits of the first octet, an encoding of emBits bits has. */
  function Octets(emBits: nat): nat { (emBits + 7) / 8 }

  function FirstBits(emBits: nat): (bits: nat)
    ensures 0 < bits <= 8
  {
    8 - (8 * Octets(emBits) - emBits)
  }

  predicate Fits(h: HashFunc, emBits: nat, saltLen: int)
  {
    0 <= saltLen && h.size + saltLen + 2 <= Octets(emBits)
  }

  /** EMSA-PSS-ENCODE with a given salt. */
  function EncodePss(h: HashFunc, emBits: nat, data: Bytes, salt: Bytes): (em: Bytes)
    requires IsDigest(h) && Fits(h, emBits, |salt|)
    ensures |em| == Octets(emBits)
  {
    var hash := Salted(h, data, salt);
    var db := Zeros(Octets(emBits) - h.size - |salt| - 2) + [1] + salt;
    MaskFirst(XorAll(db, Mgf1(h, hash, |db|)), FirstBits(emBits)) + hash + [0xBC]
  }

  /** The block is some salt's encoding, zero-padded to the modulus length. */
  ghost predicate IsEncoding(h: HashFunc, modBits: nat, saltLen: int, data: Bytes, em: Bytes)
    requires IsDigest(h) && modBits > 0
  {
    && Fits(h, modBits - 1, saltLen) && Octets(modBits - 1) <= |em|
    && exists salt: Bytes ::
         |salt| == saltLen && em == Zeros(|em| - Octets(modBits - 1)) + EncodePss(h, modBits - 1, data, salt)
  }

  /** Masking and unmasking undo each other on blocks whose first octet has no high bits. */
  lemma Unmask(masked: Bytes, db: Bytes, mask: Bytes, bits: nat)
    requires |masked| == |db| == |mask| > 0 && bits <= 8
    requires Low(masked[0] as nat, bits) == masked[0] as nat && Low(db[0] as nat, bits) == db[0] as nat
    ensures MaskFirst(XorAll(masked, mask), bits) == db <==> masked == MaskFirst(XorAll(db, mask), bits)
  {
    if MaskFirst(XorAll(masked, mask), bits) == db {
      UnmaskOne(masked, db, mask, bits);
    }
    if MaskFirst(XorAll(db, mask), bits) == masked {
      UnmaskOne(db, masked, mask, bits);
    }
  }

  lemma UnmaskOne(masked: Bytes, db: Bytes, mask: Bytes, bits: nat)
    requires |masked| == |db| == |mask| > 0 && bits <= 8
    requires Low(masked[0] as nat, bits) == masked[0] as nat
    requires MaskFirst(XorAll(masked, mask), bits) == db
    ensures masked == MaskFirst(XorAll(db, mask), bits)
  {
    hide Xor, Low;
    var r := MaskFirst(XorAll(db, mask), bits);
    forall i | 0 <= i < |masked|
      ensures r[i] == masked[i]
    {
      var m, k := masked[i] as nat, mask[i] as nat;
      if i == 0 {
        XorLow(m, k, bits);
        XorLow(Low(Xor(m, k), bits), k, bits);
        LowTwice(Xor(m, k), bits);
        XorLow(Xor(m, k), k, bits);
        XorSelf(m, k);
      } else {
        XorSelf(m, k);
      }
    }
  }

  // ---- the check

  function MaskedPart(h: HashFunc, block: Bytes): Bytes
    requires |block| > h.size
  {
    block[..|block| - h.size - 1]
  }

  function HashPart(h: HashFunc, block: Bytes): Bytes
    requires |block| > h.size
  {
    block[|block| - h.size - 1..|block| - 1]
  }

  function Unmasked(h: HashFunc, emBits: nat, block: Bytes): Bytes
    requires IsDigest(h) && |block| > h.size + 1
  {
    var masked := MaskedPart(h, block);
    MaskFirst(XorAll(masked, Mgf1(h, HashPart(h, block), |masked|)), FirstBits(emBits))
  }

  /** Zeros, a one, and a salt the hash is over. */
  ghost predicate Opens(h: HashFunc, data: Bytes, saltLen: nat, db: Bytes, hash: Bytes)
  {
    && |db| > saltLen && (forall i :: 0 <= i < |db| - saltLen - 1 ==> db[i] == 0) && db[|db| - saltLen - 1] == 1
    && hash == Salted(h, data, db[|db| - saltLen..])
  }

  ghost predicate Good(h: HashFunc, emBits: nat, saltLen: int, data: Bytes, block: Bytes)
    requires IsDigest(h) && |block| == Octets(emBits)
  {
    && Fits(h, emBits, saltLen) && block[|block| - 1] == 0xBC
    && Low(block[0] as nat, FirstBits(emBits)) == block[0] as nat
    && Opens(h, data, saltLen, Unmasked(h, emBits, block), HashPart(h, block))
  }

  function Padded(h: HashFunc, emBits: nat, salt: Bytes): (db: Bytes)
    requires Fits(h, emBits, |salt|)
    ensures |db| == Octets(emBits) - h.size - 1
  {
    Zeros(Octets(emBits) - h.size - |salt| - 2) + [1] + salt
  }

  lemma OpensIs(h: HashFunc, emBits: nat, data: Bytes, saltLen: nat, db: Bytes, hash: Bytes)
    requires Fits(h, emBits, saltLen) && |db| == Octets(emBits) - h.size - 1 && Opens(h, data, saltLen, db, hash)
    ensures var salt := db[|db| - saltLen..];
            |salt| == saltLen && db == Padded(h, emBits, salt) && hash == Salted(h, data, salt)
  {
    hide Salted;
  }

  lemma PaddedOpens(h: HashFunc, emBits: nat, data: Bytes, salt: Bytes)
    requires Fits(h, emBits, |salt|)
    ensures Opens(h, data, |salt|, Padded(h, emBits, salt), Salted(h, data, salt))
  {
    hide Salted;
    var db := Padded(h, emBits, salt);
    assert db[|db| - |salt|..] == salt;
  }

  /** The first octet of the padded salt is 0 or 1, and at least one bit of it is kept. */
  lemma PaddedLow(h: HashFunc, emBits: nat, salt: Bytes)
    requires Fits(h, emBits, |salt|)
    ensures Low(Padded(h, emBits, salt)[0] as nat, FirstBits(emBits)) == Padded(h, emBits, salt)[0] as nat
  {
    ShiftOne(FirstBits(emBits));
    LowIsAll(0, FirstBits(emBits));
    LowIsAll(1, FirstBits(emBits));
  }

  lemma {:induction false} ShiftOne(w: nat)
    ensures Shift(0, w) == 0 && (w > 0 ==> Shift(1, w) == 0)
  {
    if w > 0 {
      ShiftOne(w - 1);
    }
  }

  lemma EncodeParts(h: HashFunc, emBits: nat, data: Bytes, salt: Bytes)
    requires IsDigest(h) && Fits(h, emBits, |salt|)
    ensures var hash, em, db := Salted(h, data, salt), EncodePss(h, emBits, data, salt), Padded(h, emBits, salt);
            && |hash| == h.size && em[|em| - 1] == 0xBC && HashPart(h, em) == hash
            && MaskedPart(h, em) == MaskFirst(XorAll(db, Mgf1(h, hash, |db|)), FirstBits(emBits))
  {
    hide Mgf1, XorAll, MaskFirst, FirstBits, Salted;
    SaltedSize(h, data, salt);
  }

  lemma SaltedSize(h: HashFunc, data: Bytes, salt: Bytes)
    requires IsDigest(h)
    ensures |Salted(h, data, salt)| == h.size
  {
  }

  lemma BlockIs(h: HashFunc, block: Bytes)
    requires |block| > h.size && block[|block| - 1] == 0xBC
    ensures block == MaskedPart(h, block) + HashPart(h, block) + [0xBC]
  {
  }

  lemma GoodEncodes(h: HashFunc, emBits: nat, saltLen: int, data: Bytes, block: Bytes)
    requires IsDigest(h) && |block| == Octets(emBits) && Good(h, emBits, saltLen, data, block)
    ensures Fits(h, emBits, saltLen)
    ensures exists salt: Bytes :: |salt| == saltLen && block == EncodePss(h, emBits, data, salt)
  {
    hide Mgf1, XorAll, MaskFirst, FirstBits, Salted, Padded, Opens, Low, Octets;
    var db, hash, masked := Unmasked(h, emBits, block), HashPart(h, block), MaskedPart(h, block);
    OpensIs(h, emBits, data, saltLen, db, hash);
    var salt := db[|db| - saltLen..];
    PaddedLow(h, emBits, salt);
    Unmask(masked, db, Mgf1(h, hash, |masked|), FirstBits(emBits));
    BlockIs(h, block);
    EncodeParts(h, emBits, data, salt);
    BlockIs(h, EncodePss(h, emBits, data, salt));
    assert block == EncodePss(h, emBits, data, salt);
  }

  lemma EncodedIsGood(h: HashFunc, emBits: nat, data: Bytes, salt: Bytes)
    requires IsDigest(h) && Fits(h, emBits, |salt|)
    ensures Good(h, emBits, |salt|, data, EncodePss(h, emBits, data, salt))
  {
    hide Mgf1, XorAll, MaskFirst, FirstBits, Salted, Padded, Opens, Low, Octets, EncodePss;
    var em, db, hash := EncodePss(h, emBits, data, salt), Padded(h, emBits, salt), Salted(h, data, salt);
    EncodeParts(h, emBits, data, salt);
    PaddedLow(h, emBits, salt);
    var masked := MaskedPart(h, em);
    MaskFirstLow(XorAll(db, Mgf1(h, hash, |db|)), FirstBits(emBits));
    Unmask(masked, db, Mgf1(h, hash, |db|), FirstBits(emBits));
    PaddedOpens(h, emBits, data, salt);
  }

  lemma MaskFirstLow(b: Bytes, bits: nat)
    requires b != [] && bits <= 8
    ensures Low(MaskFirst(b, bits)[0] as nat, bits) == MaskFirst(b, bits)[0] as nat
  {
    LowTwice(b[0] as nat, bits);
  }

  lemma GoodExactly(h: HashFunc, emBits: nat, saltLen: int, data: Bytes, block: Bytes)
    requires IsDigest(h) && |block| == Octets(emBits)
    ensures Good(h, emBits, saltLen, data, block) <==>
              Fits(h, emBits, saltLen) && exists salt: Bytes ::
                |salt| == saltLen && block == EncodePss(h, emBits, data, salt)
  {
    hide Good, Fits, EncodePss, Octets;
    if Good(h, emBits, saltLen, data, block) {
      GoodEncodes(h, emBits, saltLen, data, block);
    }
    if Fits(h, emBits, saltLen) && exists salt: Bytes ::
      |salt| == saltLen && block == EncodePss(h, emBits, data, salt) {
      var salt: Bytes :| |salt| == saltLen && block == EncodePss(h, emBits, data, salt);
      EncodedIsGood(h, emBits, data, salt);
    }
  }

  lemma IsEncodingStripped(h: HashFunc, modBits: nat, saltLen: int, data: Bytes, em: Bytes, block: Bytes)
    requires IsDigest(h) && modBits > 0 && |block| == Octets(modBits - 1) <= |em|
    requires em == Zeros(|em| - |block|) + block
    ensures IsEncoding(h, modBits, saltLen, data, em) <==> Good(h, modBits - 1, saltLen, data, block)
  {
    hide Good, Fits, EncodePss, Octets;
    GoodExactly(h, modBits - 1, saltLen, data, block);
    assert em[|em| - |block|..] == block;
    if IsEncoding(h, modBits, saltLen, data, em) {
      var salt: Bytes :| |salt| == saltLen
        && em == Zeros(|em| - Octets(modBits - 1)) + EncodePss(h, modBits - 1, data, salt);
      assert em[|em| - |block|..] == EncodePss(h, modBits - 1, data, salt);
    }
  }

  lemma NotPadded(h: HashFunc, modBits: nat, saltLen: int, data: Bytes, em: Bytes, i: nat)
    requires IsDigest(h) && modBits > 0 && i < |em| - Octets(modBits - 1) && em[i] != 0
    ensures !IsEncoding(h, modBits, saltLen, data, em)
  {
    hide Fits, EncodePss, Octets;
  }

  /** The padding and the salt's hash, once the mask is off. */
  method CheckOpened(h: HashFunc, data: Bytes, saltLen: nat, db: Bytes, hash: Bytes) returns (ok: bool)
    requires |db| > saltLen
    ensures ok <==> Opens(h, data, saltLen, db, hash)
  {
    hide Salted;
    var psLen := |db| - saltLen - 1;
    for i := 0 to psLen
      invariant forall j :: 0 <= j < i ==> db[j] == 0
    {
      if db[i] != 0 {
        return false;
      }
    }
    if db[psLen] != 1 {
      return false;
    }
    var salt := db[psLen + 1..];
    ok := hash == Salted(h, data, salt);
  }

  method CheckBlock(h: HashFunc, emBits: nat, saltLen: int, data: Bytes, block: Bytes) returns (ok: bool)
    requires IsDigest(h) && |block| == (emBits + 7) / 8
    ensures ok <==> Good(h, emBits, saltLen, data, block)
  {
    hide Opens, Low, Shift, XorByte, Mgf1, Salted;
    var emLen, hLen := |block|, h.size;
    if saltLen < 0 || emLen < hLen + saltLen + 2 || block[emLen - 1] != 0xBC {
      return false;
    }
    var maskedDB, hash, topBits := block[..emLen - hLen - 1], block[emLen - hLen - 1..emLen - 1], 8 * emLen - emBits;
    LowIsAll(maskedDB[0] as nat, 8 - topBits);
    ByteBits(maskedDB[0] as nat);
    if topBits > 0 && Shift(maskedDB[0] as nat, 8 - topBits) != 0 {
      return false;
    }
    var db := new byte[|maskedDB|](i requires 0 <= i < |maskedDB| => maskedDB[i]);
    assert db[..] == maskedDB;
    Mgf1Xor(db, hash, h);
    ghost var unmasked := db[..];
    ByteBits(db[0] as nat);
    LowFits(db[0] as nat, 8 - topBits);
    if topBits > 0 {
      db[0] := Low(db[0] as nat, 8 - topBits) as byte;
    }
    assert db[..] == MaskFirst(unmasked, 8 - topBits);
    ok := CheckOpened(h, data, saltLen, db[..], hash);
  }

  /** em is what the RSA step recovered, if it recovered anything. */
  method VerifyPss(em: Option<Bytes>, modBits: nat, h: HashFunc, saltLen: int, data: Bytes) returns (ok: bool)
    requires IsDigest(h) && modBits > 0 && (em.Some? ==> |em.value| == (modBits + 7) / 8)
    ensures ok <==> em.Some? && IsEncoding(h, modBits, saltLen, data, em.value)
  {
    hide IsEncoding, Good;
    if em.None? {
      return false;
    }
    var emBits, block := modBits - 1, em.value;
    var emLen := (emBits + 7) / 8;
    assert em.value == Zeros(0) + block;
    while |block| > emLen
      invariant emLen <= |block| <= |em.value| && em.value == Zeros(|em.value| - |block|) + block
    {
      if block[0] != 0 {
        NotPadded(h, modBits, saltLen, data, em.value, |em.value| - |block|);
        return false;
      }
      assert Zeros(|em.value| - |block| + 1) == Zeros(|em.value| - |block|) + [block[0]];
      block := block[1..];
    }
    IsEncodingStripped(h, modBits, saltLen, data, em.value, block);
    ok := CheckBlock(h, emBits, saltLen, data, block);
  }
}

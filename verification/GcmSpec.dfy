/** Galois/Counter Mode as NIST SP 800-38D defines it, on byte strings and for an abstract block cipher. */
module GcmSpec {
  import opened BitStrings
  import opened Blocks
  import opened Buffers
  import opened Gf128
  import opened Words

  /** x followed by the fewest zeros that make whole blocks. */
  function Pad16(x: seq<byte>): (p: seq<byte>)
    ensures |p| % 16 == 0 && |x| <= |p| < |x| + 16
  {
    x + Zeros((16 - |x| % 16) % 16)
  }

  // ---------------------------------------------------------------------------------------
  // Section 6.4: GHASH
  // ---------------------------------------------------------------------------------------

  /** Multiplication by the hash subkey. */
  type Mult = Bytes16 -> Bytes16

  function TimesH(x: Bytes16, h: Block): Bytes16 {
    BitsToBytes(Times(x, h))
  }

  /** m is multiplication by h in GF(2^128). */
  ghost predicate Multiplies(m: Mult, h: Block) {
    forall x: Bytes16 {:trigger Shown(x)} :: Shown(x) ==> m(x) == TimesH(x, h)
  }

  /** Go on hashing from y. */
  function Fold(m: Mult, y: Bytes16, x: seq<byte>): Bytes16
    requires |x| % 16 == 0
    decreases |x|
  {
    if x == [] then y else Fold(m, m(XorBytes(y, x[..16])), x[16..])
  }

  function Ghash(m: Mult, x: seq<byte>): Bytes16
    requires |x| % 16 == 0
  {
    Fold(m, Zeros(16), x)
  }

  lemma {:induction false} FoldAppend(m: Mult, y: Bytes16, a: seq<byte>, b: seq<byte>)
    requires |a| % 16 == 0 && |b| % 16 == 0
    ensures Fold(m, y, a + b) == Fold(m, Fold(m, y, a), b)
    decreases |a|
  {
    if a == [] {
      assert a + b == b;
    } else {
      CutAppended(a, b, a + b);
      FoldAppend(m, m(XorBytes(y, a[..16])), a[16..], b);
    }
  }

  // ---------------------------------------------------------------------------------------
  // Section 6.2 and 6.5: inc32 and GCTR
  // ---------------------------------------------------------------------------------------

  /** The last 32 bits counted up, without a carry into the others. */
  function Inc32(y: Bytes16): Bytes16 {
    y[..12] + IncBytes(y[12..])
  }

  /** Section 6.2: the last 32 bits are a number, and the next one modulo 2^32 takes its place. */
  lemma {:induction false} Inc32Counts(y: Bytes16)
    ensures Inc32(y) == y[..12] + Be(FromBe(y[12..]) + 1, 4)
  {
    IncBytesIs(y[12..]);
  }

  /** GCTR whose first counter block is the one after y. */
  function Gctr(e: Cipher, y: Bytes16, x: seq<byte>): (c: seq<byte>)
    ensures |c| == |x|
    decreases |x|
  {
    if x == [] then []
    else
      var n, next := Least(|x|, 16), Inc32(y);
      XorBytes(e(next)[..n], x[..n]) + Gctr(e, next, x[n..])
  }

  /** The counter block after n blocks. */
  function CtrAfter(y: Bytes16, n: nat): Bytes16
    decreases n
  {
    if n == 0 then y else CtrAfter(Inc32(y), n - 1)
  }

  /** The first n bytes of the output, and the rest. */
  lemma {:induction false} GctrCut(e: Cipher, y: Bytes16, x: seq<byte>, n: nat, next: Bytes16, head: seq<byte>,
      rest: seq<byte>)
    requires x != [] && n == Least(|x|, 16) && next == Inc32(y) && head == x[..n] && rest == x[n..]
    ensures Gctr(e, y, x) == XorBytes(e(next)[..n], head) + Gctr(e, next, rest)
  {
  }

  lemma {:induction false} XorBytesTwice(k: seq<byte>, x: seq<byte>)
    requires |k| == |x|
    ensures XorBytes(k, XorBytes(k, x)) == x
  {
    forall i | 0 <= i < |x|
      ensures XorBytes(k, XorBytes(k, x))[i] == x[i]
    {
      XorByteTwice(k[i], x[i]);
    }
  }

  lemma {:induction false} CutJoined<T>(c: seq<T>, a: seq<T>, b: seq<T>, n: nat)
    requires c == a + b && n == |a|
    ensures c[..n] == a && c[n..] == b
  {
  }

  /** The keystream is added twice: the same operation encrypts and decrypts. */
  lemma {:induction false} GctrTwice(e: Cipher, y: Bytes16, x: seq<byte>)
    ensures Gctr(e, y, Gctr(e, y, x)) == x
    decreases |x|
  {
    if x != [] {
      var n, next := Least(|x|, 16), Inc32(y);
      var head, rest, k := x[..n], x[n..], e(next)[..n];
      GctrCut(e, y, x, n, next, head, rest);
      var c, d, f := Gctr(e, y, x), XorBytes(k, head), Gctr(e, next, rest);
      CutJoined(c, d, f, n);
      GctrCut(e, y, c, n, next, d, f);
      GctrTwice(e, next, rest);
      XorBytesTwice(k, head);
    }
  }

  lemma {:induction false} CutAppended<T>(a: seq<T>, b: seq<T>, x: seq<T>)
    requires |a| >= 16 && x == a + b
    ensures x[..16] == a[..16] && x[16..] == a[16..] + b
  {
  }

  /** Whole blocks first, the rest later: the same output. */
  lemma {:induction false} GctrAppend(e: Cipher, y: Bytes16, a: seq<byte>, b: seq<byte>, n: nat)
    requires |a| == 16 * n
    ensures Gctr(e, y, a + b) == Gctr(e, y, a) + Gctr(e, CtrAfter(y, n), b)
    decreases n
  {
    if n == 0 {
      assert a + b == b;
    } else {
      var x, next, rest, tail := a + b, Inc32(y), a[16..], a[16..] + b;
      CutAppended(a, b, x);
      GctrCut(e, y, x, 16, next, a[..16], tail);
      GctrCut(e, y, a, 16, next, a[..16], rest);
      GctrAppend(e, next, rest, b, n - 1);
      var head, c := XorBytes(e(next)[..16], a[..16]), Gctr(e, CtrAfter(next, n - 1), b);
      Regroup(Gctr(e, y, x), head, Gctr(e, next, tail), Gctr(e, next, rest), c, Gctr(e, y, a));
    }
  }

  // ---------------------------------------------------------------------------------------
  // Section 7.1: GCM-AE
  // ---------------------------------------------------------------------------------------

  /** The hash subkey. */
  function SubKey(e: Cipher): Block {
    BytesToBits(e(Zeros(16)))
  }

  function J0(m: Mult, iv: seq<byte>): Bytes16 {
    if |iv| == 12 then iv + Be(1, 4)
    else Ghash(m, Pad16(iv) + (Zeros(8) + Be(8 * |iv|, 8)))
  }

  function Lengths(a: nat, c: nat): Bytes16 {
    Be(8 * a, 8) + Be(8 * c, 8)
  }

  lemma {:induction false} WholeBlocks(a: nat, b: nat)
    requires a % 16 == 0 && b % 16 == 0
    ensures (a + b) % 16 == 0
  {
  }

  /** S, the block that is encrypted into the tag. */
  function TagHash(m: Mult, a: seq<byte>, c: seq<byte>): Bytes16 {
    WholeBlocks(|Pad16(a)|, |Pad16(c)|); WholeBlocks(|Pad16(a)| + |Pad16(c)|, 16);
    Ghash(m, Pad16(a) + Pad16(c) + Lengths(|a|, |c|))
  }

  /** The tag of ciphertext c from the pre-counter block j on. */
  function TagFrom(e: Cipher, m: Mult, j: Bytes16, a: seq<byte>, c: seq<byte>): Bytes16 {
    XorBytes(e(j), TagHash(m, a, c))
  }

  /** The tag of ciphertext c, where m multiplies by the hash subkey. */
  function Tag(e: Cipher, m: Mult, iv: seq<byte>, a: seq<byte>, c: seq<byte>): Bytes16 {
    TagFrom(e, m, J0(m, iv), a, c)
  }

  /** Encryption and decryption. */
  function Crypt(e: Cipher, m: Mult, iv: seq<byte>, x: seq<byte>): seq<byte> {
    Gctr(e, J0(m, iv), x)
  }

  // ---------------------------------------------------------------------------------------
  // Facts about the empty hash
  // ---------------------------------------------------------------------------------------

  lemma {:induction false} ProductOfZeros(bits: Bits, h: Block, i: nat)
    requires i <= |bits| && forall k :: 0 <= k < |bits| ==> !bits[k]
    ensures Product(Gf(), bits, h, i) == Zero()
    decreases |bits| - i
  {
    if i < |bits| {
      ProductOfZeros(bits, Gf().x(h), i + 1);
      AddCommutes(Zero(), Zero());
    }
  }

  lemma {:induction false} ZeroBit(i: nat)
    requires i < 8
    ensures !BitAt(0, i)
  {
    ShrOfZero(7 - i);
  }

  lemma {:induction false} TimesOfZero(h: Block)
    ensures TimesH(Zeros(16), h) == Zeros(16)
  {
    var b := BytesToBits(Zeros(16));
    forall k | 0 <= k < |b|
      ensures !b[k]
    {
      ZeroBit(k % 8);
    }
    ProductOfZeros(b, h, 0);
    assert b == Zero();
    BytesOfBits(Zeros(16));
  }

  /** Hashing one block of zeros gives zeros. */
  lemma {:induction false} EmptyTagHash(m: Mult, h: Block)
    requires Multiplies(m, h)
    ensures TagHash(m, [], []) == Zeros(16)
  {
    BeOfZero(8);
    var x := Pad16([]) + Pad16([]) + Lengths(0, 0);
    assert x == Zeros(16);
    XorByteTwice(0, 0);
    assert x[..16] == Zeros(16) && x[16..] == [];
    assert XorBytes(Zeros(16), x[..16]) == Zeros(16);
    TimesOfZero(h);
    assert Shown(Zeros(16));
    assert Fold(m, Zeros(16), x) == Fold(m, Zeros(16), []);
  }

  // ---------------------------------------------------------------------------------------
  // Cutting off the first block
  // ---------------------------------------------------------------------------------------

  /** The first block of x, filled up with zeros. */
  function FirstBlock(x: seq<byte>): Bytes16
    requires x != []
  {
    var n := Least(|x|, 16);
    x[..n] + Zeros(16 - n)
  }

  function Rest(x: seq<byte>): seq<byte> {
    x[Least(|x|, 16)..]
  }

  lemma {:induction false} PadStep(x: seq<byte>)
    requires x != []
    ensures Pad16(x) == FirstBlock(x) + Pad16(Rest(x))
  {
  }

  /** One round of any hashing loop. */
  lemma {:induction false} FoldStep(m: Mult, y: Bytes16, x: seq<byte>)
    requires x != []
    ensures Fold(m, y, Pad16(x)) == Fold(m, m(XorBytes(y, FirstBlock(x))), Pad16(Rest(x)))
  {
    PadStep(x);
    var p := Pad16(x);
    assert p[..16] == FirstBlock(x) && p[16..] == Pad16(Rest(x));
  }

  /** One round of the counter loop. */
  lemma {:induction false} GctrStep(e: Cipher, y: Bytes16, x: seq<byte>, n: nat, next: Bytes16)
    requires x != [] && n == Least(|x|, 16) && next == Inc32(y)
    ensures Gctr(e, y, x) == XorBytes(e(next)[..n], x[..n]) + Gctr(e, next, Rest(x))
  {
  }

  datatype Mode = Encrypt | Decrypt

  /** The ciphertext, whichever way x goes. */
  function CText(mode: Mode, e: Cipher, y: Bytes16, x: seq<byte>): (c: seq<byte>)
    ensures |c| == |x|
  {
    if mode == Encrypt then Gctr(e, y, x) else x
  }

  /** The ciphertext of one block with keystream k. */
  function CBlock(mode: Mode, k: seq<byte>, x: seq<byte>): seq<byte>
    requires |k| == |x|
  {
    if mode == Encrypt then XorBytes(k, x) else x
  }

  lemma {:induction false} CTextStep(mode: Mode, e: Cipher, y: Bytes16, x: seq<byte>, n: nat, next: Bytes16)
    requires x != [] && n == Least(|x|, 16) && next == Inc32(y)
    ensures FirstBlock(CText(mode, e, y, x)) == CBlock(mode, e(next)[..n], x[..n]) + Zeros(16 - n)
    ensures Rest(CText(mode, e, y, x)) == CText(mode, e, next, Rest(x))
  {
  }

  /** How many blocks n bytes take. */
  function BlocksOf(n: nat): nat {
    (n + 15) / 16
  }

  /** The counter y and the output out, in the middle of x. */
  ghost predicate CounterAt(e: Cipher, x: seq<byte>, pos: nat, out: seq<byte>, y: Bytes16, y0: Bytes16) {
    && pos == |out| <= |x| && out + Gctr(e, y, x[pos..]) == Gctr(e, y0, x)
    && CtrAfter(y, BlocksOf(|x| - pos)) == CtrAfter(y0, BlocksOf(|x|))
  }

  /** The hash state b, in the middle of x. */
  ghost predicate HashAt(mode: Mode, e: Cipher, m: Mult, x: seq<byte>, pos: nat, y: Bytes16, b: Bytes16, y0: Bytes16,
      b0: Bytes16)
  {
    pos <= |x| && Fold(m, b, Pad16(CText(mode, e, y, x[pos..]))) == Fold(m, b0, Pad16(CText(mode, e, y0, x)))
  }

  lemma {:induction false} UpdateStart(mode: Mode, e: Cipher, m: Mult, x: seq<byte>, y0: Bytes16, b0: Bytes16)
    ensures CounterAt(e, x, 0, [], y0, y0) && HashAt(mode, e, m, x, 0, y0, b0, y0, b0)
  {
    assert x[0..] == x;
  }

  lemma {:induction false} UpdateEnd(mode: Mode, e: Cipher, m: Mult, x: seq<byte>, out: seq<byte>, y: Bytes16,
      b: Bytes16, y0: Bytes16, b0: Bytes16)
    requires CounterAt(e, x, |x|, out, y, y0) && HashAt(mode, e, m, x, |x|, y, b, y0, b0)
    ensures out == Gctr(e, y0, x) && y == CtrAfter(y0, BlocksOf(|x|)) && b == Fold(m, b0, Pad16(CText(mode, e, y0, x)))
  {
    assert x[|x|..] == [] && Pad16([]) == [];
  }

  lemma {:induction false} BlocksStep(l: nat, n: nat)
    requires l > 0 && n == Least(l, 16)
    ensures BlocksOf(l) == BlocksOf(l - n) + 1
  {
  }

  lemma {:induction false} CutTail(x: seq<byte>, pos: nat, n: nat, next: nat)
    requires pos < |x| && n == Least(|x| - pos, 16) && next == pos + n
    ensures x[pos..][..n] == x[pos..next] && Rest(x[pos..]) == x[next..]
  {
    assert x[pos..][n..] == x[next..];
  }

  lemma {:induction false} CounterStep(e: Cipher, x: seq<byte>, pos: nat, out: seq<byte>, y: Bytes16, y0: Bytes16,
      n: nat, next: Bytes16, block: seq<byte>)
    requires CounterAt(e, x, pos, out, y, y0) && pos < |x|
    requires n == Least(|x| - pos, 16) && next == Inc32(y) && block == x[pos..pos + n]
    ensures CounterAt(e, x, pos + n, out + XorBytes(e(next)[..n], block), next, y0)
  {
    var rest := x[pos..];
    CutTail(x, pos, n, pos + n);
    GctrStep(e, y, rest, n, next);
    BlocksStep(|x| - pos, n);
    assert out + XorBytes(e(next)[..n], block) + Gctr(e, next, x[pos + n..]) == out + Gctr(e, y, rest);
  }

  lemma {:induction false} HashStep(mode: Mode, e: Cipher, m: Mult, x: seq<byte>, pos: nat, y: Bytes16, b: Bytes16,
      y0: Bytes16, b0: Bytes16, n: nat, next: Bytes16, block: seq<byte>)
    requires HashAt(mode, e, m, x, pos, y, b, y0, b0) && pos < |x|
    requires n == Least(|x| - pos, 16) && next == Inc32(y) && block == x[pos..pos + n]
    ensures HashAt(mode, e, m, x, pos + n, next, m(XorBytes(b, CBlock(mode, e(next)[..n], block) + Zeros(16 - n))), y0,
      b0)
  {
    var rest := x[pos..];
    CutTail(x, pos, n, pos + n);
    CTextStep(mode, e, y, rest, n, next);
    FoldStep(m, b, CText(mode, e, y, rest));
  }

  // ---------------------------------------------------------------------------------------
  // The 32-bit length block of gcm_start
  // ---------------------------------------------------------------------------------------

  /** The counter block that gcm_start computes: it stores 32 bits of the length. */
  function StartBlock(m: Mult, iv: seq<byte>): Bytes16 {
    if |iv| == 12 then iv + Be(1, 4)
    else Fold(m, Ghash(m, Pad16(iv)), Zeros(12) + Be(8 * |iv|, 4))
  }

  lemma {:induction false} BeFour(n: nat)
    ensures Be(n, 8) == Be(n / TWO_32, 4) + Be(n, 4)
  {
    var n1, n2, n3, n4 := n / 256, n / 256 / 256, n / 256 / 256 / 256, n / 256 / 256 / 256 / 256;
    assert n4 == n / TWO_32;
    assert Be(n, 4) == Be(n1, 3) + [n % 256];
    assert Be(n1, 3) == Be(n2, 2) + [n1 % 256];
    assert Be(n2, 2) == Be(n3, 1) + [n2 % 256];
    assert Be(n3, 1) == [] + [n3 % 256];
    assert Be(n, 8) == Be(n1, 7) + [n % 256];
    assert Be(n1, 7) == Be(n2, 6) + [n1 % 256];
    assert Be(n2, 6) == Be(n3, 5) + [n2 % 256];
    assert Be(n3, 5) == Be(n4, 4) + [n3 % 256];
  }

  /** The stored length is the standard's exactly for initialization vectors below 2^29 bytes. */
  lemma {:induction false} LengthBlockIff(n: nat)
    requires 8 * n < TWO_32 * TWO_32
    ensures Zeros(12) + Be(8 * n, 4) == Zeros(8) + Be(8 * n, 8) <==> n < 0x2000_0000
  {
    BeFour(8 * n);
    var q := 8 * n / TWO_32;
    var a, b := Zeros(12) + Be(8 * n, 4), Zeros(8) + Be(8 * n, 8);
    if q == 0 {
      BeOfZero(4);
      assert a == b;
    } else {
      assert Pow256(4) == TWO_32;
      if a == b {
        assert Be(q, 4) == b[8..12] == a[8..12] == Zeros(4);
        BeIsZero(q, 4);
      }
    }
  }

  lemma {:induction false} FoldBlock(m: Mult, g: Bytes16, b: Bytes16)
    ensures Fold(m, g, b) == m(XorBytes(g, b))
  {
    assert b[..16] == b;
  }

  /** Both blocks multiply the same hash with a length block added. */
  lemma {:induction false} StartBlocks(m: Mult, iv: seq<byte>)
    requires |iv| != 12
    ensures
      var g := Ghash(m, Pad16(iv));
      && StartBlock(m, iv) == m(XorBytes(g, Zeros(12) + Be(8 * |iv|, 4)))
      && J0(m, iv) == m(XorBytes(g, Zeros(8) + Be(8 * |iv|, 8)))
  {
    var g := Ghash(m, Pad16(iv));
    FoldAppend(m, Zeros(16), Pad16(iv), Zeros(8) + Be(8 * |iv|, 8));
    FoldBlock(m, g, Zeros(12) + Be(8 * |iv|, 4));
    FoldBlock(m, g, Zeros(8) + Be(8 * |iv|, 8));
  }

  /** gcm_start computes the standard's pre-counter block. */
  lemma {:induction false} StartBlockIsJ0(m: Mult, iv: seq<byte>)
    requires |iv| < 0x2000_0000
    ensures StartBlock(m, iv) == J0(m, iv)
  {
    if |iv| != 12 {
      LengthBlockIff(|iv|);
      StartBlocks(m, iv);
    }
  }

  /** The block with one bit set. */
  function Unit(i: nat): Block {
    seq(128, j => j == i)
  }

  lemma {:induction false} UnitStep(i: nat)
    requires i < 127
    ensures XTimes(Unit(i)) == Unit(i + 1)
  {
  }

  /** The product with the field's one: bit i of it multiplies step i. */
  lemma {:induction false} ProductOfUnit(bits: Bits, i: nat)
    requires |bits| == 128 && i < 128
    ensures forall j :: 0 <= j < 128 ==> Product(Gf(), bits, Unit(i), i)[j] == (j >= i && bits[j])
    decreases 128 - i
  {
    var rest := Product(Gf(), bits, XTimes(Unit(i)), i + 1);
    assert Product(Gf(), bits, Unit(i), i) == Add(Sel(Gf(), bits[i], Unit(i)), rest);
    if i < 127 {
      UnitStep(i);
      ProductOfUnit(bits, i + 1);
    } else {
      assert rest == Zero();
    }
  }

  lemma {:induction false} TimesOne(x: Bytes16)
    ensures TimesH(x, Unit(0)) == x
  {
    ProductOfUnit(BytesToBits(x), 0);
    assert Times(x, Unit(0)) == BytesToBits(x);
    BytesOfBits(x);
  }

  lemma {:induction false} ShrOfTop(k: nat)
    requires k <= 7
    ensures Shr(0x80, k) == Pow2(7 - k)
  {
    if k == 0 {
      assert Pow2(7) == 128;
    } else {
      ShrOfTop(k - 1);
    }
  }

  lemma {:induction false} TopBitOnly(i: nat)
    requires i < 8
    ensures BitAt(0x80, i) == (i == 0) && !BitAt(0, i)
  {
    ShrOfTop(7 - i);
    ShrOfZero(7 - i);
  }

  /** A key whose hash subkey is the field's one. */
  lemma {:induction false} KeyOfOne() returns (e: Cipher)
    ensures SubKey(e) == Unit(0)
  {
    var block: Bytes16 := [0x80] + Zeros(15);
    e := (x: Bytes16) => block;
    BitsOfOne(block);
  }

  lemma {:induction false} BitsOfOne(block: Bytes16)
    requires block == [0x80] + Zeros(15)
    ensures BytesToBits(block) == Unit(0)
  {
    forall i | 0 <= i < 128
      ensures BytesToBits(block)[i] == Unit(0)[i]
    {
      TopBitOnly(i % 8);
    }
  }

  /** What is added to a block can be told from the sum. */
  lemma {:induction false} SumTells(g: Bytes16, a: Bytes16, b: Bytes16)
    requires XorBytes(g, a) == XorBytes(g, b)
    ensures a == b
  {
    forall i | 0 <= i < 16
      ensures a[i] == b[i]
    {
      XorByteTwice(g[i], a[i]);
      XorByteTwice(g[i], b[i]);
      assert XorBytes(g, a)[i] == XorBytes(g, b)[i];
    }
  }

  /** For that key the start block is right exactly below 2^29 bytes: no longer vector is safe for every key. */
  lemma {:induction false} StartBlockIff() returns (e: Cipher, m: Mult)
    ensures Multiplies(m, SubKey(e))
    ensures forall iv :: 8 * |iv| < TWO_32 * TWO_32 ==> (StartBlock(m, iv) == J0(m, iv) <==> |iv| < 0x2000_0000)
  {
    e := KeyOfOne();
    m := (x: Bytes16) => x;
    forall x: Bytes16 {:trigger Shown(x)} | Shown(x)
      ensures m(x) == TimesH(x, SubKey(e))
    {
      TimesOne(x);
    }
    forall iv | 8 * |iv| < TWO_32 * TWO_32
      ensures StartBlock(m, iv) == J0(m, iv) <==> |iv| < 0x2000_0000
    {
      IdentityStart(m, iv);
    }
  }

  lemma {:induction false} IdentityStart(m: Mult, iv: seq<byte>)
    requires 8 * |iv| < TWO_32 * TWO_32 && forall x: Bytes16 :: m(x) == x
    ensures StartBlock(m, iv) == J0(m, iv) <==> |iv| < 0x2000_0000
  {
    if |iv| < 0x2000_0000 {
      StartBlockIsJ0(m, iv);
    } else {
      StartBlocks(m, iv);
      LengthBlockIff(|iv|);
      if StartBlock(m, iv) == J0(m, iv) {
        SumTells(Ghash(m, Pad16(iv)), Zeros(12) + Be(8 * |iv|, 4), Zeros(8) + Be(8 * |iv|, 8));
      }
    }
  }

  // ---------------------------------------------------------------------------------------
  // Whole messages
  // ---------------------------------------------------------------------------------------

  /** Decrypting what was encrypted gives the plaintext back, and both sides hash the same ciphertext. */
  lemma {:induction false} DecryptUndoesEncrypt(e: Cipher, m: Mult, iv: seq<byte>, p: seq<byte>)
    ensures var j, c := J0(m, iv), Crypt(e, m, iv, p);
            Crypt(e, m, iv, c) == p && CText(Encrypt, e, j, p) == CText(Decrypt, e, j, c)
  {
    GctrTwice(e, J0(m, iv), p);
  }

  lemma {:induction false} CtrAfterMore(y: Bytes16, n: nat, k: nat)
    ensures CtrAfter(CtrAfter(y, n), k) == CtrAfter(y, n + k)
    decreases n
  {
    if n > 0 {
      CtrAfterMore(Inc32(y), n - 1, k);
    }
  }

  lemma {:induction false} PadWhole(a: seq<byte>, b: seq<byte>, n: nat)
    requires |a| == 16 * n
    ensures Pad16(a) == a && Pad16(a + b) == a + Pad16(b)
  {
    assert |a + b| % 16 == |b| % 16;
  }

  lemma {:induction false} OutputInParts(e: Cipher, y: Bytes16, a: seq<byte>, b: seq<byte>, n: nat)
    requires |a| == 16 * n
    ensures BlocksOf(|a|) == n && Gctr(e, y, a + b) == Gctr(e, y, a) + Gctr(e, CtrAfter(y, n), b)
    ensures CtrAfter(y, BlocksOf(|a + b|)) == CtrAfter(CtrAfter(y, n), BlocksOf(|b|))
  {
    assert BlocksOf(|a|) == n && BlocksOf(|a + b|) == n + BlocksOf(|b|);
    GctrAppend(e, y, a, b, n);
    CtrAfterMore(y, n, BlocksOf(|b|));
  }

  lemma {:induction false} HashInParts(m: Mult, h0: Bytes16, ca: seq<byte>, cb: seq<byte>, n: nat)
    requires |ca| == 16 * n
    ensures Fold(m, h0, Pad16(ca + cb)) == Fold(m, Fold(m, h0, Pad16(ca)), Pad16(cb))
  {
    PadWhole(ca, cb, n);
    FoldAppend(m, h0, ca, Pad16(cb));
  }

  /** What gcm_update leaves after a is what it needs to go on with b, when a is whole blocks. */
  lemma {:induction false} UpdateInParts(mode: Mode, e: Cipher, m: Mult, y: Bytes16, h0: Bytes16, a: seq<byte>,
      b: seq<byte>, n: nat)
    requires |a| == 16 * n
    ensures var next := CtrAfter(y, BlocksOf(|a|));
            && Gctr(e, y, a + b) == Gctr(e, y, a) + Gctr(e, next, b)
            && CtrAfter(y, BlocksOf(|a + b|)) == CtrAfter(next, BlocksOf(|b|))
            && Fold(m, h0, Pad16(CText(mode, e, y, a + b))) ==
               Fold(m, Fold(m, h0, Pad16(CText(mode, e, y, a))), Pad16(CText(mode, e, next, b)))
  {
    OutputInParts(e, y, a, b, n);
    HashInParts(m, h0, CText(mode, e, y, a), CText(mode, e, CtrAfter(y, n), b), n);
  }
}

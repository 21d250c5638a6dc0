/**
  The field GF(2^128) of NIST SP 800-38D, section 6.3, and the four-bit step that
  nfq2/crypto/gcm.c builds its GHASH multiplication from.
 */
module Gf128 {
  import opened BitStrings
  import opened Words

  // ---------------------------------------------------------------------------------------
  // Multiplication over any step that respects addition
  // ---------------------------------------------------------------------------------------

  /** Addition, its zero, and multiplication by the indeterminate. */
  datatype Ops<!G> = Ops(zero: G, add: (G, G) -> G, x: G -> G)

  /** Addition without carries. */
  ghost predicate AddLaws<G(!new)>(f: Ops<G>) {
    && (forall a, b, c :: f.add(f.add(a, b), c) == f.add(a, f.add(b, c)))
    && (forall a, b :: f.add(a, b) == f.add(b, a))
    && (forall a :: f.add(f.zero, a) == a)
    && (forall a :: f.add(a, a) == f.zero)
  }

  ghost predicate StepLaws<G(!new)>(f: Ops<G>) {
    (forall a, b :: f.x(f.add(a, b)) == f.add(f.x(a), f.x(b))) && f.x(f.zero) == f.zero
  }

  ghost predicate Laws<G(!new)>(f: Ops<G>) {
    AddLaws(f) && StepLaws(f)
  }

  function Sel<G>(f: Ops<G>, b: bool, v: G): G {
    if b then v else f.zero
  }

  /** The product of bits i, i + 1, ... with v: bit i counts v, each further bit one more step. */
  function Product<G>(f: Ops<G>, bits: seq<bool>, v: G, i: nat): G
    requires i <= |bits|
    decreases |bits| - i
  {
    if i == |bits| then f.zero else f.add(Sel(f, bits[i], v), Product(f, bits, f.x(v), i + 1))
  }

  lemma {:induction false} ProductOfStep<G(!new)>(f: Ops<G>, bits: seq<bool>, v: G, i: nat)
    requires Laws(f) && i <= |bits|
    ensures Product(f, bits, f.x(v), i) == f.x(Product(f, bits, v, i))
    decreases |bits| - i
  {
    if i < |bits| {
      ProductOfStep(f, bits, f.x(v), i + 1);
      assert Sel(f, bits[i], f.x(v)) == f.x(Sel(f, bits[i], v));
    }
  }

  function Four<G>(f: Ops<G>, v: G): G {
    f.x(f.x(f.x(f.x(v))))
  }

  /** What four bits contribute. */
  function Nibble<G>(f: Ops<G>, b0: bool, b1: bool, b2: bool, b3: bool, h: G): G {
    f.add(Sel(f, b0, h), f.add(Sel(f, b1, f.x(h)), f.add(Sel(f, b2, f.x(f.x(h))), Sel(f, b3, f.x(f.x(f.x(h)))))))
  }

  lemma {:induction false} ProductOfFour<G(!new)>(f: Ops<G>, bits: seq<bool>, v: G, i: nat)
    requires Laws(f) && i <= |bits|
    ensures Product(f, bits, Four(f, v), i) == Four(f, Product(f, bits, v, i))
  {
    ProductOfStep(f, bits, v, i);
    ProductOfStep(f, bits, f.x(v), i);
    ProductOfStep(f, bits, f.x(f.x(v)), i);
    ProductOfStep(f, bits, f.x(f.x(f.x(v))), i);
  }

  /** Horner's rule, four bits at a time. */
  lemma {:induction false} NibbleStep<G(!new)>(f: Ops<G>, bits: seq<bool>, h: G, i: nat)
    requires Laws(f) && i + 4 <= |bits|
    ensures Product(f, bits, h, i) ==
      f.add(Four(f, Product(f, bits, h, i + 4)), Nibble(f, bits[i], bits[i + 1], bits[i + 2], bits[i + 3], h))
  {
    ProductOfFour(f, bits, h, i + 4);
    var h1, h2, h3 := f.x(h), f.x(f.x(h)), f.x(f.x(f.x(h)));
    var rest := Product(f, bits, Four(f, h), i + 4);
    var s0, s1, s2, s3 := Sel(f, bits[i], h), Sel(f, bits[i + 1], h1), Sel(f, bits[i + 2], h2), Sel(f, bits[i + 3], h3);
    assert Product(f, bits, h3, i + 3) == f.add(s3, rest);
    assert Product(f, bits, h2, i + 2) == f.add(s2, f.add(s3, rest));
    assert Product(f, bits, h1, i + 1) == f.add(s1, f.add(s2, f.add(s3, rest)));
    calc {
      f.add(s0, f.add(s1, f.add(s2, f.add(s3, rest))));
      f.add(s0, f.add(s1, f.add(f.add(s2, s3), rest)));
      f.add(s0, f.add(f.add(s1, f.add(s2, s3)), rest));
      f.add(f.add(s0, f.add(s1, f.add(s2, s3))), rest);
    }
  }

  lemma {:induction false} AddTwo<G(!new)>(f: Ops<G>, a: G, b: G, c: G, d: G)
    requires Laws(f)
    ensures f.add(f.add(a, b), f.add(c, d)) == f.add(f.add(a, c), f.add(b, d))
  {
    calc {
      f.add(f.add(a, b), f.add(c, d));
      f.add(a, f.add(b, f.add(c, d)));
      { assert f.add(b, f.add(c, d)) == f.add(f.add(b, c), d) == f.add(f.add(c, b), d) == f.add(c, f.add(b, d)); }
      f.add(a, f.add(c, f.add(b, d)));
      f.add(f.add(a, c), f.add(b, d));
    }
  }

  /** Nibbles with no common bit add up. */
  lemma {:induction false} NibbleSum<G(!new)>(f: Ops<G>, a0: bool, a1: bool, a2: bool, a3: bool, b0: bool, b1: bool,
      b2: bool, b3: bool, h: G)
    requires Laws(f) && !(a0 && b0) && !(a1 && b1) && !(a2 && b2) && !(a3 && b3)
    ensures f.add(Nibble(f, a0, a1, a2, a3, h), Nibble(f, b0, b1, b2, b3, h)) ==
      Nibble(f, a0 || b0, a1 || b1, a2 || b2, a3 || b3, h)
  {
    var h1, h2, h3 := f.x(h), f.x(f.x(h)), f.x(f.x(f.x(h)));
    SelSum(f, a0, b0, h);
    SelSum(f, a1, b1, h1);
    SelSum(f, a2, b2, h2);
    SelSum(f, a3, b3, h3);
    var a, b := f.add(Sel(f, a2, h2), Sel(f, a3, h3)), f.add(Sel(f, b2, h2), Sel(f, b3, h3));
    AddTwo(f, Sel(f, a2, h2), Sel(f, a3, h3), Sel(f, b2, h2), Sel(f, b3, h3));
    AddTwo(f, Sel(f, a1, h1), a, Sel(f, b1, h1), b);
    AddTwo(f, Sel(f, a0, h), f.add(Sel(f, a1, h1), a), Sel(f, b0, h), f.add(Sel(f, b1, h1), b));
  }

  lemma {:induction false} SelSum<G(!new)>(f: Ops<G>, a: bool, b: bool, v: G)
    requires Laws(f) && !(a && b)
    ensures f.add(Sel(f, a, v), Sel(f, b, v)) == Sel(f, a || b, v)
  {
    assert f.add(v, f.zero) == f.add(f.zero, v);
  }

  /** The bits of a number below 16. */
  predicate Has8(n: nat) { n >= 8 }

  function Less8(n: nat): nat { if Has8(n) then n - 8 else n }

  predicate Has4(n: nat) { Less8(n) >= 4 }

  function Less4(n: nat): nat { if Has4(n) then Less8(n) - 4 else Less8(n) }

  predicate Has2(n: nat) { Less4(n) >= 2 }

  predicate Has1(n: nat) { (if Has2(n) then Less4(n) - 2 else Less4(n)) == 1 }

  /** The number that four bits make. */
  function NumberOf(b0: bool, b1: bool, b2: bool, b3: bool): (n: nat)
    ensures n < 16 && Has8(n) == b0 && Has4(n) == b1 && Has2(n) == b2 && Has1(n) == b3
  {
    (if b0 then 8 else 0) + (if b1 then 4 else 0) + (if b2 then 2 else 0) + (if b3 then 1 else 0)
  }

  /** What the four bits of n < 16 contribute. */
  function NibbleOf<G>(f: Ops<G>, n: nat, h: G): G {
    Nibble(f, Has8(n), Has4(n), Has2(n), Has1(n), h)
  }

  lemma {:induction false} NumberBits(i: nat, j: nat, n: nat)
    requires (i == 2 || i == 4 || i == 8) && j < i && n == i + j
    ensures Has8(n) == (Has8(i) || Has8(j)) && !(Has8(i) && Has8(j)) && Has4(n) == (Has4(i) || Has4(j))
      && !(Has4(i) && Has4(j))
    ensures Has2(n) == (Has2(i) || Has2(j)) && !(Has2(i) && Has2(j)) && Has1(n) == (Has1(i) || Has1(j))
      && !(Has1(i) && Has1(j))
  {
  }

  /** Entries with no common bit add up. */
  lemma {:induction false} EntrySum<G(!new)>(f: Ops<G>, i: nat, j: nat, n: nat, h: G)
    requires Laws(f) && (i == 2 || i == 4 || i == 8) && j < i && n == i + j
    ensures NibbleOf(f, n, h) == f.add(NibbleOf(f, i, h), NibbleOf(f, j, h))
  {
    NumberBits(i, j, n);
    NibbleSum(f, Has8(i), Has4(i), Has2(i), Has1(i), Has8(j), Has4(j), Has2(j), Has1(j), h);
  }

  ghost predicate HasZero<G(!new)>(f: Ops<G>) {
    forall a :: f.add(f.zero, a) == a && f.add(a, f.zero) == a
  }

  lemma {:induction false} LawsHaveZero<G(!new)>(f: Ops<G>)
    requires AddLaws(f)
    ensures HasZero(f)
  {
    forall a
      ensures f.add(f.zero, a) == a && f.add(a, f.zero) == a
    {
      assert f.add(a, f.zero) == f.add(f.zero, a);
    }
  }

  /** The entries from which the others are summed. */
  lemma {:induction false} EntryPowers<G(!new)>(f: Ops<G>, h: G)
    requires HasZero(f)
    ensures NibbleOf(f, 0, h) == f.zero && NibbleOf(f, 8, h) == h && NibbleOf(f, 4, h) == f.x(h)
    ensures NibbleOf(f, 2, h) == f.x(f.x(h)) && NibbleOf(f, 1, h) == f.x(f.x(f.x(h)))
  {
  }

  /** Bits k..k+4 are those of the number n. */
  ghost predicate BitsAre(bits: seq<bool>, k: nat, n: nat)
    requires k + 4 <= |bits|
  {
    bits[k] == Has8(n) && bits[k + 1] == Has4(n) && bits[k + 2] == Has2(n) && bits[k + 3] == Has1(n)
  }

  lemma {:induction false} NumberStep<G(!new)>(f: Ops<G>, bits: seq<bool>, h: G, k: nat, n: nat)
    requires Laws(f) && k + 4 <= |bits| && BitsAre(bits, k, n)
    ensures Product(f, bits, h, k) == f.add(Four(f, Product(f, bits, h, k + 4)), NibbleOf(f, n, h))
  {
    NibbleStep(f, bits, h, k);
  }

  // ---------------------------------------------------------------------------------------
  // The field itself
  // ---------------------------------------------------------------------------------------

  type Block = b: Bits | |b| == 128 witness seq(128, i => false)

  /** Bits of R = 11100001 || 0^120 */
  predicate RBit(i: int) {
    i == 0 || i == 1 || i == 2 || i == 7
  }

  /** The next V of the standard's Algorithm 1. */
  function XTimes(v: Block): (w: Block)
    ensures forall i :: 0 <= i < 128 ==> w[i] == ((i > 0 && v[i - 1]) != (v[127] && RBit(i)))
  {
    seq(128, i requires 0 <= i < 128 => (i > 0 && v[i - 1]) != (v[127] && RBit(i)))
  }

  function Add(a: Block, b: Block): Block {
    XorBits(a, b)
  }

  function Zero(): (z: Block)
    ensures forall i :: 0 <= i < 128 ==> !z[i]
  {
    seq(128, i => false)
  }

  function Gf(): Ops<Block> {
    Ops(Zero(), Add, XTimes)
  }

  lemma {:induction false} AddAssociates(a: Block, b: Block, c: Block)
    ensures Add(Add(a, b), c) == Add(a, Add(b, c))
  {
  }

  lemma {:induction false} AddCommutes(a: Block, b: Block)
    ensures Add(a, b) == Add(b, a) && Add(Zero(), a) == a && Add(a, a) == Zero()
  {
  }

  lemma {:induction false} GfAddLaws()
    ensures AddLaws(Gf())
  {
    forall a: Block, b: Block, c: Block
      ensures Gf().add(Gf().add(a, b), c) == Gf().add(a, Gf().add(b, c))
    {
      AddAssociates(a, b, c);
    }
    forall a: Block, b: Block
      ensures Gf().add(a, b) == Gf().add(b, a) && Gf().add(Gf().zero, a) == a && Gf().add(a, a) == Gf().zero
    {
      AddCommutes(a, b);
    }
  }

  lemma {:induction false} GfStepLaws()
    ensures StepLaws(Gf())
  {
    forall a: Block, b: Block
      ensures XTimes(Add(a, b)) == Add(XTimes(a), XTimes(b))
    {
    }
    assert XTimes(Zero()) == Zero();
  }

  lemma {:induction false} GfLaws()
    ensures Laws(Gf())
  {
    GfAddLaws();
    GfStepLaws();
  }

  // ---------------------------------------------------------------------------------------
  // The four-bit step
  // ---------------------------------------------------------------------------------------

  /** last4: what the four dropped bits add to the first 16 bits */
  const LAST4: seq<nat> := [
    0x0000, 0x1c20, 0x3840, 0x2460, 0x7080, 0x6ca0, 0x48c0, 0x54e0,
    0xe100, 0xfd20, 0xd940, 0xc560, 0x9180, 0x8da0, 0xa9c0, 0xb5e0]

  /** The dropped bits a, b, c, d, the last one first, each reduced at its own step. */
  predicate Folded(a: bool, b: bool, c: bool, d: bool, i: int) {
    (((d && RBit(i - 3)) != (c && RBit(i - 2))) != (b && RBit(i - 1))) != (a && RBit(i))
  }

  lemma {:induction false} TwoSteps(v: Block, w: Block, i: nat)
    requires w == XTimes(XTimes(v)) && i < 128
    ensures w[i] == (((i > 1 && v[i - 2]) != (v[127] && RBit(i - 1))) != (v[126] && RBit(i)))
  {
    var u := XTimes(v);
    assert u[127] == v[126];
    assert w[i] == ((i > 0 && u[i - 1]) != (u[127] && RBit(i)));
  }

  lemma {:induction false} FourIs(v: Block)
    ensures Four(Gf(), v) == XTimes(XTimes(XTimes(XTimes(v))))
  {
  }

  lemma {:induction false} FourStepsBit(v: Block, w: Block, i: nat)
    requires w == XTimes(XTimes(XTimes(XTimes(v)))) && i < 128
    ensures w[i] == ((i > 3 && v[i - 4]) != Folded(v[124], v[125], v[126], v[127], i))
  {
    var u := XTimes(XTimes(v));
    TwoSteps(u, w, i);
    TwoSteps(v, u, 127);
    TwoSteps(v, u, 126);
    if i > 1 {
      TwoSteps(v, u, i - 2);
    }
  }

  lemma {:induction false} FourSteps(v: Block, i: nat)
    requires i < 128
    ensures Four(Gf(), v)[i] == ((i > 3 && v[i - 4]) != Folded(v[124], v[125], v[126], v[127], i))
  {
    FourIs(v);
    FourStepsBit(v, Four(Gf(), v), i);
  }

  const POWERS: seq<nat> :=
    [0x8000, 0x4000, 0x2000, 0x1000, 0x800, 0x400, 0x200, 0x100, 0x80, 0x40, 0x20, 0x10, 8, 4, 2, 1]

  /** Bit i of a 16-bit number, the most significant one first. */
  predicate Bit16(x: nat, i: nat)
    requires i < 16
  {
    x / POWERS[i] % 2 == 1
  }

  /** The bits of a number below 16 say which dropped bits are set. */
  predicate FoldedNumber(n: nat, i: int) {
    Folded(Has8(n), Has4(n), Has2(n), Has1(n), i)
  }

  lemma {:induction false} FirstRows(n: nat, i: nat)
    requires n < 4 && i < 16
    ensures Bit16(LAST4[n], i) == FoldedNumber(n, i)
  {
  }

  lemma {:induction false} LowRows(n: nat, i: nat)
    requires 4 <= n < 8 && i < 16
    ensures Bit16(LAST4[n], i) == FoldedNumber(n, i)
  {
  }

  lemma {:induction false} HighRows(n: nat, i: nat)
    requires 8 <= n < 12 && i < 16
    ensures Bit16(LAST4[n], i) == FoldedNumber(n, i)
  {
  }

  lemma {:induction false} TopRows(n: nat, i: nat)
    requires 12 <= n < 16 && i < 16
    ensures Bit16(LAST4[n], i) == FoldedNumber(n, i)
  {
  }

  /** last4 is the reduction of the four bits that four steps drop. */
  lemma {:induction false} Last4IsReduction(n: nat, i: nat)
    requires n < 16 && i < 128
    ensures FoldedNumber(n, i) == (i < 16 && Bit16(LAST4[n], i))
  {
    if i < 16 {
      if n < 4 {
        FirstRows(n, i);
      } else if n < 8 {
        LowRows(n, i);
      } else if n < 12 {
        HighRows(n, i);
      } else {
        TopRows(n, i);
      }
    }
  }

  // ---------------------------------------------------------------------------------------
  // Pairs of 64-bit words
  // ---------------------------------------------------------------------------------------

  type Word64 = b: Bits | |b| == 64 witness seq(64, i => false)

  function Zero64(): (z: Word64)
    ensures forall i :: 0 <= i < 64 ==> !z[i]
  {
    seq(64, i => false)
  }

  /** Two words as one block. */
  function Pair(zh: Word64, zl: Word64): (z: Block)
    ensures forall i :: 0 <= i < 128 ==> z[i] == if i < 64 then zh[i] else zl[i - 64]
  {
    var z: Bits := zh;
    z + zl
  }

  /** z & 0x0f */
  function LowNibble(z: Word64): nat {
    NumberOf(z[60], z[61], z[62], z[63])
  }

  /** (uint64_t)x << 48 */
  function Shl48(x: nat): Word64 {
    seq(64, i requires 0 <= i < 64 => i < 16 && Bit16(x, i))
  }

  /** (zh >> 4) ^ ((uint64_t)last4[rem] << 48) */
  function NextHigh(zh: Word64, zl: Word64): Word64 {
    XorBits([false, false, false, false] + zh[..60], Shl48(LAST4[LowNibble(zl)]))
  }

  /** (zh << 60) | (zl >> 4) */
  function NextLow(zh: Word64, zl: Word64): Word64 {
    zh[60..] + zl[..60]
  }

  /** The shifts and the table of gcm_mult are four steps. */
  lemma {:induction false} NextIsFourSteps(zh: Word64, zl: Word64)
    ensures Pair(NextHigh(zh, zl), NextLow(zh, zl)) == Four(Gf(), Pair(zh, zl))
  {
    var z, w := Pair(zh, zl), Pair(NextHigh(zh, zl), NextLow(zh, zl));
    forall i | 0 <= i < 128
      ensures w[i] == Four(Gf(), z)[i]
    {
      FourSteps(z, i);
      Last4IsReduction(LowNibble(zl), i);
    }
  }

  lemma {:induction false} XorPairs(a: Word64, b: Word64, c: Word64, d: Word64)
    ensures Pair(XorBits(a, c), XorBits(b, d)) == Add(Pair(a, b), Pair(c, d))
  {
  }

  /** The constant that gcm_setkey multiplies by the dropped bit. */
  const REDUCTION := 0xe100_0000

  /** Bit i of a 32-bit number, the most significant one first. */
  predicate Bit32(x: nat, i: nat)
    requires i < 32
  {
    if i < 16 then Bit16(x / 0x1_0000, i) else Bit16(x % 0x1_0000, i - 16)
  }

  /** (uint64_t)x << 32 */
  function Shl32(x: nat): (w: Word64)
    ensures forall i :: 0 <= i < 64 ==> w[i] == (i < 32 && Bit32(x, i))
  {
    seq(64, i requires 0 <= i < 64 => i < 32 && Bit32(x, i))
  }

  /** T = (uint32_t)(vl & 1) * 0xe1000000U */
  function DroppedTimes(vl: Word64): nat {
    (if vl[63] then 1 else 0) * REDUCTION
  }

  /** (vh >> 1) ^ ((uint64_t)T << 32) */
  function HalfHigh(vh: Word64, vl: Word64): Word64 {
    XorBits([false] + vh[..63], Shl32(DroppedTimes(vl)))
  }

  /** (vh << 63) | (vl >> 1) */
  function HalfLow(vh: Word64, vl: Word64): Word64 {
    [vh[63]] + vl[..63]
  }

  lemma {:induction false} ReductionHigh(i: nat)
    requires i < 16
    ensures Bit16(0xe100, i) == RBit(i) && !Bit16(0, i)
  {
  }

  /** The 32-bit constant, moved to the top of the high word, is the reduction polynomial. */
  lemma {:induction false} ReductionIsR(i: nat)
    requires i < 64
    ensures Shl32(REDUCTION)[i] == RBit(i) && !Shl32(0)[i]
  {
    assert REDUCTION / 0x1_0000 == 0xe100 && REDUCTION % 0x1_0000 == 0;
    if i < 32 {
      ReductionHigh(i % 16);
    }
  }

  lemma {:induction false} HalfBit(vh: Word64, vl: Word64, i: nat)
    requires i < 64
    ensures HalfHigh(vh, vl)[i] == ((i > 0 && vh[i - 1]) != (vl[63] && RBit(i)))
  {
    ReductionIsR(i);
  }

  /** One shift of gcm_setkey multiplies by the indeterminate. */
  lemma {:induction false} HalfIsStep(vh: Word64, vl: Word64)
    ensures Pair(HalfHigh(vh, vl), HalfLow(vh, vl)) == XTimes(Pair(vh, vl))
  {
    var v, w := Pair(vh, vl), Pair(HalfHigh(vh, vl), HalfLow(vh, vl));
    forall i | 0 <= i < 128
      ensures w[i] == XTimes(v)[i]
    {
      if i < 64 {
        HalfBit(vh, vl, i);
      }
    }
  }

  // ---------------------------------------------------------------------------------------
  // Blocks of bytes
  // ---------------------------------------------------------------------------------------

  /** x times H, section 6.3 of NIST SP 800-38D */
  function Times(x: seq<byte>, h: Block): Block
    requires |x| == 16
  {
    Product(Gf(), BytesToBits(x), h, 0)
  }

  lemma {:induction false} LastFour(n: nat, k: nat)
    requires k == NumberOf(Shr(n, 3) % 2 == 1, Shr(n, 2) % 2 == 1, Shr(n, 1) % 2 == 1, n % 2 == 1)
    ensures n == 16 * Shr(n, 4) + k
  {
    var n1, n2, n3 := Shr(n, 1), Shr(n, 2), Shr(n, 3);
    assert n1 == n / 2;
    assert n2 == n1 / 2;
    assert n3 == n2 / 2;
    assert Shr(n, 4) == n3 / 2;
  }

  lemma {:induction false} ModIs(n: nat, m: nat, k: nat)
    requires n == 16 * m + k && k < 16
    ensures n % 16 == k && n / 16 == m
  {
  }

  lemma {:induction false} ByteNumber(c: byte)
    ensures c % 16 == NumberOf(BitAt(c, 4), BitAt(c, 5), BitAt(c, 6), BitAt(c, 7))
    ensures c / 16 == NumberOf(BitAt(c, 0), BitAt(c, 1), BitAt(c, 2), BitAt(c, 3))
  {
    var low, high := NumberOf(BitAt(c, 4), BitAt(c, 5), BitAt(c, 6), BitAt(c, 7)),
      NumberOf(BitAt(c, 0), BitAt(c, 1), BitAt(c, 2), BitAt(c, 3));
    LastFour(c, low);
    ModIs(c, Shr(c, 4), low);
    HighFour(c, high);
  }

  lemma {:induction false} HighFour(c: byte, high: nat)
    requires high == NumberOf(BitAt(c, 0), BitAt(c, 1), BitAt(c, 2), BitAt(c, 3))
    ensures Shr(c, 4) == high
  {
    ShrTwice(c, 4, 1);
    ShrTwice(c, 4, 2);
    ShrTwice(c, 4, 3);
    ShrTwice(c, 4, 4);
    Pow2Of8();
    ShrBound(c, 8, 8);
    LastFour(Shr(c, 4), high);
  }

  lemma {:induction false} BytesHaveBits(x: seq<byte>, i: nat, k: nat)
    requires i < |x| && k == 8 * i
    ensures BitsAre(BytesToBits(x), k, x[i] / 16) && BitsAre(BytesToBits(x), k + 4, x[i] % 16)
  {
    var b, c := BytesToBits(x), x[i];
    ByteNumber(c);
    forall j | 0 <= j < 8
      ensures b[k + j] == BitAt(c, j)
    {
      assert (k + j) / 8 == i && (k + j) % 8 == j;
    }
  }

  /** One line of gcm_mult's loop: shift by four, reduce, add a table entry. */
  lemma {:induction false} MultStep(zh: Word64, zl: Word64, eh: Word64, el: Word64, z: Block, e: Block)
    requires Pair(zh, zl) == z && Pair(eh, el) == e
    ensures Pair(XorBits(NextHigh(zh, zl), eh), XorBits(NextLow(zh, zl), el)) == Gf().add(Four(Gf(), z), e)
  {
    NextIsFourSteps(zh, zl);
    XorPairs(NextHigh(zh, zl), NextLow(zh, zl), eh, el);
  }
}

/**
  The tag hash of GCM as a polynomial in the hash subkey, with its blocks and the number in the last
  one told by position: the sum of block i times the (n - i)-th power, over n blocks.
 */
module GcmPolynomial {
  import opened BitStrings
  import opened Blocks
  import opened Gf128
  import opened GcmSpec
  import opened Words

  // ---------------------------------------------------------------------------------------
  // Bytes are added bit by bit
  // ---------------------------------------------------------------------------------------

  lemma {:induction false} XorHalf(a: nat, b: nat)
    ensures Xor(a, b) / 2 == Xor(a / 2, b / 2) && Xor(a, b) % 2 == if a % 2 == b % 2 then 0 else 1
  {
  }

  lemma {:induction false} ShrOfXor(a: nat, b: nat, k: nat)
    ensures Shr(Xor(a, b), k) == Xor(Shr(a, k), Shr(b, k))
  {
    if k > 0 {
      ShrOfXor(a, b, k - 1);
      XorHalf(Shr(a, k - 1), Shr(b, k - 1));
    }
  }

  lemma {:induction false} BitOfXor(a: byte, b: byte, i: nat)
    requires i < 8
    ensures BitAt(XorByte(a, b), i) == (BitAt(a, i) != BitAt(b, i))
  {
    ShrOfXor(a, b, 7 - i);
    XorHalf(Shr(a, 7 - i), Shr(b, 7 - i));
  }

  lemma {:induction false} BitsOfXor(a: seq<byte>, b: seq<byte>)
    requires |a| == |b|
    ensures BytesToBits(XorBytes(a, b)) == XorBits(BytesToBits(a), BytesToBits(b))
  {
    forall i | 0 <= i < 8 * |a|
      ensures DataBit(XorBytes(a, b), i) == (DataBit(a, i) != DataBit(b, i))
    {
      BitOfXor(a[i / 8], b[i / 8], i % 8);
    }
  }

  lemma {:induction false} BitsOfBytes(b: Bits)
    requires |b| % 8 == 0
    ensures BytesToBits(BitsToBytes(b)) == b
  {
    var data := BitsToBytes(b);
    forall i | 0 <= i < |b|
      ensures DataBit(data, i) == b[i]
    {
      var k := i / 8;
      assert data[k] == ByteOf(b[8 * k..8 * k + 8]) && b[8 * k..8 * k + 8][i % 8] == b[i];
    }
  }

  lemma {:induction false} BytesOfSum(a: Block, b: Block)
    ensures BitsToBytes(Add(a, b)) == XorBytes(BitsToBytes(a), BitsToBytes(b))
  {
    var x, y := BitsToBytes(a), BitsToBytes(b);
    BitsOfBytes(a);
    BitsOfBytes(b);
    BitsOfXor(x, y);
    BytesOfBits(XorBytes(x, y));
  }

  // ---------------------------------------------------------------------------------------
  // Multiplication by the subkey respects addition
  // ---------------------------------------------------------------------------------------

  lemma {:induction false} SelXor<G(!new)>(f: Ops<G>, a: bool, b: bool, v: G)
    requires Laws(f)
    ensures Sel(f, a != b, v) == f.add(Sel(f, a, v), Sel(f, b, v))
  {
    LawsHaveZero(f);
  }

  lemma {:induction false} ProductSum<G(!new)>(f: Ops<G>, a: seq<bool>, b: seq<bool>, c: seq<bool>, v: G, i: nat)
    requires Laws(f) && i <= |a| == |b| == |c| && forall k :: 0 <= k < |c| ==> c[k] == (a[k] != b[k])
    ensures Product(f, c, v, i) == f.add(Product(f, a, v, i), Product(f, b, v, i))
    decreases |a| - i
  {
    if i == |a| {
      LawsHaveZero(f);
    } else {
      ProductSum(f, a, b, c, f.x(v), i + 1);
      var p, q := Product(f, a, f.x(v), i + 1), Product(f, b, f.x(v), i + 1);
      SumOfTwo(f, a[i], b[i], v, p, q);
    }
  }

  lemma {:induction false} SumOfTwo<G(!new)>(f: Ops<G>, a: bool, b: bool, v: G, p: G, q: G)
    requires Laws(f)
    ensures f.add(Sel(f, a != b, v), f.add(p, q)) == f.add(f.add(Sel(f, a, v), p), f.add(Sel(f, b, v), q))
  {
    SelXor(f, a, b, v);
    AddTwo(f, Sel(f, a, v), Sel(f, b, v), p, q);
  }

  lemma {:induction false} TimesSum(x: Bytes16, y: Bytes16, h: Block)
    ensures TimesH(XorBytes(x, y), h) == XorBytes(TimesH(x, h), TimesH(y, h))
  {
    var a, b, c := BytesToBits(x), BytesToBits(y), BytesToBits(XorBytes(x, y));
    BitsOfXor(x, y);
    GfLaws();
    ProductSum(Gf(), a, b, c, h, 0);
    BytesOfSum(Times(x, h), Times(y, h));
  }

  lemma {:induction false} MultSum(m: Mult, h: Block, x: Bytes16, y: Bytes16)
    requires Multiplies(m, h)
    ensures m(XorBytes(x, y)) == XorBytes(m(x), m(y))
  {
    assert Shown(x) && Shown(y) && Shown(XorBytes(x, y));
    TimesSum(x, y, h);
  }

  /** x times the k-th power of the subkey that m multiplies by. */
  function TimesPower(m: Mult, x: Bytes16, k: nat): Bytes16
    decreases k
  {
    if k == 0 then x else TimesPower(m, m(x), k - 1)
  }

  lemma {:induction false} PowerSum(m: Mult, h: Block, x: Bytes16, y: Bytes16, k: nat)
    requires Multiplies(m, h)
    ensures TimesPower(m, XorBytes(x, y), k) == XorBytes(TimesPower(m, x, k), TimesPower(m, y, k))
    decreases k
  {
    if k > 0 {
      MultSum(m, h, x, y);
      PowerSum(m, h, m(x), m(y), k - 1);
    }
  }

  // ---------------------------------------------------------------------------------------
  // The blocks that are hashed
  // ---------------------------------------------------------------------------------------

  /** Byte i of x, and zeros behind its end. */
  function ByteOrZero(x: seq<byte>, i: nat): byte {
    if i < |x| then x[i] else 0
  }

  /** Block i of x, the last one filled up with zeros. */
  function BlockOf(x: seq<byte>, i: nat): (b: seq<byte>)
    ensures |b| == 16 && forall k :: 0 <= k < 16 ==> b[k] == ByteOrZero(x, 16 * i + k)
  {
    seq<byte>(16, k requires 0 <= k < 16 => ByteOrZero(x, 16 * i + k))
  }

  /** How many blocks are hashed for a and c. */
  function HashBlocks(a: seq<byte>, c: seq<byte>): nat {
    BlocksOf(|a|) + BlocksOf(|c|) + 1
  }

  /** Block i: of a, then of c, each filled up with zeros, and at last their bit lengths as one number. */
  function AuthBlock(a: seq<byte>, c: seq<byte>, i: nat): Bytes16 {
    var n := BlocksOf(|a|);
    if i < n then BlockOf(a, i)
    else if i < n + BlocksOf(|c|) then BlockOf(c, i - n)
    else Be(8 * |a| * TWO_32 * TWO_32 + 8 * |c|, 16)
  }

  /** The sum of the blocks i, ..., n - 1, each times its power: the last one once, the one before twice, and so on. */
  function Sum(m: Mult, block: nat -> Bytes16, n: nat, i: nat): Bytes16
    requires i <= n
    decreases n - i
  {
    if i == n then Zeros(16) else XorBytes(TimesPower(m, block(i), n - i), Sum(m, block, n, i + 1))
  }

  lemma {:induction false} LastByte(x: nat, lo: nat)
    ensures (256 * x + lo) / 256 == x + lo / 256 && (256 * x + lo) % 256 == lo % 256
  {
  }

  lemma {:induction false} BeJoin(hi: nat, lo: nat, j: nat, k: nat)
    requires lo < Pow256(k)
    ensures Be(hi * Pow256(k) + lo, j + k) == Be(hi, j) + Be(lo, k)
    decreases k
  {
    if k > 0 {
      var p := Pow256(k - 1);
      assert hi * Pow256(k) == 256 * (hi * p);
      LastByte(hi * p, lo);
      BeJoin(hi, lo / 256, j, k - 1);
    }
  }

  lemma {:induction false} LengthsAreNumber(a: nat, c: nat)
    requires 8 * c < TWO_32 * TWO_32
    ensures Lengths(a, c) == Be(8 * a * TWO_32 * TWO_32 + 8 * c, 16)
  {
    assert Pow256(8) == TWO_32 * TWO_32;
    BeJoin(8 * a, 8 * c, 8, 8);
  }

  /** Block i of the padded string is told by position. */
  lemma {:induction false} PaddedBlock(x: seq<byte>, i: nat)
    requires i < BlocksOf(|x|)
    ensures |Pad16(x)| == 16 * BlocksOf(|x|)
      && Pad16(x)[16 * i..16 * i + 16] == BlockOf(x, i)
  {
    PadLength(x);
    var b := Pad16(x)[16 * i..16 * i + 16];
    forall k | 0 <= k < 16
      ensures b[k] == BlockOf(x, i)[k]
    {
      assert b[k] == Pad16(x)[16 * i + k];
    }
  }

  lemma {:induction false} PadLength(x: seq<byte>)
    ensures |Pad16(x)| == 16 * BlocksOf(|x|)
  {
  }

  /** Slices of three strings, one after the other. */
  lemma {:induction false} InThree<T>(p: seq<T>, q: seq<T>, l: seq<T>, x: seq<T>, k: nat, n: nat)
    requires x == p + q + l
    ensures k + n <= |p| ==> x[k..k + n] == p[k..k + n]
    ensures k + n <= |q| ==> x[|p| + k..|p| + k + n] == q[k..k + n]
    ensures x[|p| + |q|..] == l
  {
  }

  lemma {:induction false} DataBlock(a: seq<byte>, p: seq<byte>, q: seq<byte>, l: seq<byte>, x: seq<byte>, i: nat)
    requires p == Pad16(a) && x == p + q + l && i < BlocksOf(|a|)
    ensures 16 * i + 16 <= |x| && x[16 * i..16 * i + 16] == BlockOf(a, i)
  {
    PaddedBlock(a, i);
    InThree(p, q, l, x, 16 * i, 16);
  }

  lemma {:induction false} TextBlock(c: seq<byte>, p: seq<byte>, q: seq<byte>, l: seq<byte>, x: seq<byte>, j: nat,
      at: nat)
    requires q == Pad16(c) && x == p + q + l && j < BlocksOf(|c|) && at == |p| + 16 * j
    ensures at + 16 <= |x| && x[at..at + 16] == BlockOf(c, j)
  {
    PaddedBlock(c, j);
    InThree(p, q, l, x, 16 * j, 16);
  }

  lemma {:induction false} LastBlock(p: seq<byte>, q: seq<byte>, l: Bytes16, x: seq<byte>, at: nat)
    requires x == p + q + l && at == |p| + |q|
    ensures at + 16 == |x| && x[at..at + 16] == l
  {
  }

  lemma {:induction false} BlockAt(a: seq<byte>, c: seq<byte>, p: seq<byte>, q: seq<byte>, x: seq<byte>, i: nat,
      at: nat)
    requires p == Pad16(a) && q == Pad16(c) && x == p + q + Lengths(|a|, |c|)
    requires 8 * |c| < TWO_32 * TWO_32 && i < HashBlocks(a, c) && at == 16 * i
    ensures at + 16 <= |x| == 16 * HashBlocks(a, c) && x[at..at + 16] == AuthBlock(a, c, i)
  {
    var n, l := BlocksOf(|a|), Lengths(|a|, |c|);
    PadLength(a);
    PadLength(c);
    if i < n {
      DataBlock(a, p, q, l, x, i);
    } else if i < n + BlocksOf(|c|) {
      TextBlock(c, p, q, l, x, i - n, at);
    } else {
      LengthsAreNumber(|a|, |c|);
      LastBlock(p, q, l, x, at);
    }
  }

  // ---------------------------------------------------------------------------------------
  // Horner's rule
  // ---------------------------------------------------------------------------------------

  lemma {:induction false} XorAssoc(x: Bytes16, y: Bytes16, z: Bytes16)
    ensures XorBytes(XorBytes(x, y), z) == XorBytes(x, XorBytes(y, z))
  {
    forall i | 0 <= i < 16
      ensures XorByte(XorByte(x[i], y[i]), z[i]) == XorByte(x[i], XorByte(y[i], z[i]))
    {
      XorAssociates(x[i], y[i], z[i]);
    }
  }

  lemma {:induction false} XorZeros(x: Bytes16)
    ensures XorBytes(x, Zeros(16)) == x && XorBytes(Zeros(16), x) == x
  {
    forall i | 0 <= i < 16
      ensures XorByte(x[i], 0) == x[i] && XorByte(0, x[i]) == x[i]
    {
      XorByteTwice(x[i], 0);
    }
  }

  lemma {:induction false} HornerStep(m: Mult, h: Block, y: Bytes16, b: Bytes16, n: nat, rest: Bytes16)
    requires Multiplies(m, h) && n > 0
    ensures XorBytes(TimesPower(m, m(XorBytes(y, b)), n - 1), rest) ==
      XorBytes(TimesPower(m, y, n), XorBytes(TimesPower(m, b, n), rest))
  {
    PowerSum(m, h, y, b, n);
    XorAssoc(TimesPower(m, y, n), TimesPower(m, b, n), rest);
  }

  lemma {:induction false} FoldOnce(m: Mult, y: Bytes16, t: seq<byte>, b: Bytes16, rest: seq<byte>)
    requires |rest| % 16 == 0 && t == b + rest
    ensures Fold(m, y, t) == Fold(m, m(XorBytes(y, b)), rest)
  {
    assert t[..16] == b && t[16..] == rest;
  }

  /** The string x is the n blocks, one after the other. */
  ghost predicate IsBlocks(x: seq<byte>, block: nat -> Bytes16, n: nat) {
    |x| == 16 * n && forall i: nat :: i < n ==> x[16 * i..16 * i + 16] == block(i)
  }

  lemma {:induction false} FoldIsSum(m: Mult, h: Block, x: seq<byte>, block: nat -> Bytes16, n: nat, y: Bytes16, i: nat,
      t: seq<byte>)
    requires Multiplies(m, h) && IsBlocks(x, block, n) && i <= n && t == x[16 * i..]
    ensures |t| % 16 == 0 && Fold(m, y, t) == XorBytes(TimesPower(m, y, n - i), Sum(m, block, n, i))
    decreases n - i
  {
    if i == n {
      XorZeros(y);
    } else {
      var b, rest := block(i), x[16 * (i + 1)..];
      assert t == x[16 * i..16 * i + 16] + rest;
      FoldIsSum(m, h, x, block, n, m(XorBytes(y, b)), i + 1, rest);
      FoldOnce(m, y, t, b, rest);
      HornerStep(m, h, y, b, n - i, Sum(m, block, n, i + 1));
    }
  }

  lemma {:induction false} PowerOfZero(m: Mult, h: Block, k: nat)
    requires Multiplies(m, h)
    ensures TimesPower(m, Zeros(16), k) == Zeros(16)
  {
    if k > 0 {
      assert Shown(Zeros(16));
      TimesOfZero(h);
      PowerOfZero(m, h, k - 1);
    }
  }

  /** The blocks of a tag, by number. */
  function BlocksFor(a: seq<byte>, c: seq<byte>): nat -> Bytes16 {
    i => AuthBlock(a, c, i)
  }

  lemma {:induction false} AllBlocks(a: seq<byte>, c: seq<byte>, x: seq<byte>)
    requires x == Pad16(a) + Pad16(c) + Lengths(|a|, |c|) && 8 * |c| < TWO_32 * TWO_32
    ensures IsBlocks(x, BlocksFor(a, c), HashBlocks(a, c))
  {
    BlockAt(a, c, Pad16(a), Pad16(c), x, 0, 0);
    forall i: nat | i < HashBlocks(a, c)
      ensures x[16 * i..16 * i + 16] == BlocksFor(a, c)(i)
    {
      BlockAt(a, c, Pad16(a), Pad16(c), x, i, 16 * i);
    }
  }

  /**
    The hash of a tag is the sum of all blocks, the first one times the highest power of the
    subkey: those of the additional data, those of the ciphertext, and the number that has the bit
    length of the additional data in its upper half and that of the ciphertext in its lower.
   */
  lemma {:induction false} TagHashIsPolynomial(m: Mult, h: Block, a: seq<byte>, c: seq<byte>)
    requires Multiplies(m, h) && 8 * |c| < TWO_32 * TWO_32
    ensures TagHash(m, a, c) == Sum(m, BlocksFor(a, c), HashBlocks(a, c), 0)
  {
    var x, n := Pad16(a) + Pad16(c) + Lengths(|a|, |c|), HashBlocks(a, c);
    AllBlocks(a, c, x);
    assert x[0..] == x;
    FoldIsSum(m, h, x, BlocksFor(a, c), n, Zeros(16), 0, x);
    PowerOfZero(m, h, n);
    XorZeros(Sum(m, BlocksFor(a, c), n, 0));
  }
}

/** nfq2/crypto/gcm.c: AES-GCM with a 16-entry table per key, on buffers that are updated in place. */
module Gcm {
  import opened BitStrings
  import opened Blocks
  import opened Gf128
  import opened GcmSpec
  import opened Words

  // ---------------------------------------------------------------------------------------
  // gcm_mult
  // ---------------------------------------------------------------------------------------

  /** Entry n of HH and HL holds the halves of t[n]. */
  ghost predicate Filled(hh: seq<Word64>, hl: seq<Word64>, t: seq<Block>, n: nat)
    requires |hh| == 16 && |hl| == 16 && |t| == 16 && n < 16
  {
    Pair(hh[n], hl[n]) == t[n]
  }

  /** HH and HL hold the halves of the blocks t. */
  ghost predicate Tables(hh: seq<Word64>, hl: seq<Word64>, t: seq<Block>)
  {
    |hh| == 16 && |hl| == 16 && |t| == 16 && forall n :: 0 <= n < 16 ==> Filled(hh, hl, t, n)
  }

  /** Four steps on from q, and an entry added. */
  ghost predicate Line(q: Block, e: Block, p: Block) {
    forall zh: Word64, zl: Word64, eh: Word64, el: Word64 :: Pair(zh, zl) == q && Pair(eh, el) == e ==>
      Pair(XorBits(NextHigh(zh, zl), eh), XorBits(NextLow(zh, zl), el)) == p
  }

  /** What byte i of x does to the partial products p. */
  ghost predicate Lines(x: seq<byte>, t: seq<Block>, p: seq<Block>, i: nat)
    requires |x| == 16 && |t| == 16 && |p| == 33 && i < 16
  {
    Line(p[2 * i + 2], t[x[i] % 16], p[2 * i + 1]) && Line(p[2 * i + 1], t[x[i] / 16], p[2 * i])
  }

  ghost predicate Horner(x: seq<byte>, t: seq<Block>, p: seq<Block>) {
    |x| == 16 && |t| == 16 && |p| == 33 && p[31] == t[x[15] % 16] && forall i :: 0 <= i < 16 ==> Lines(x, t, p, i)
  }

  /** Shift by a nibble, reduce, and add the table entry of the next one. */
  method AddNibble(hh: seq<Word64>, hl: seq<Word64>, n: nat, zh0: Word64, zl0: Word64, ghost t: seq<Block>,
      ghost p: Block)
    returns (zh: Word64, zl: Word64)
    requires Tables(hh, hl, t) && n < 16 && Line(Pair(zh0, zl0), t[n], p)
    ensures Pair(zh, zl) == p
  {
    assert Filled(hh, hl, t, n);
    zh, zl := XorBits(NextHigh(zh0, zl0), hh[n]), XorBits(NextLow(zh0, zl0), hl[n]);
  }

  /** The loop of gcm_mult; p[k] is the product of nibbles k, k + 1, ... */
  method MultLoop(hh: seq<Word64>, hl: seq<Word64>, x: array<byte>, ghost t: seq<Block>, ghost p: seq<Block>)
    returns (zh: Word64, zl: Word64)
    requires Tables(hh, hl, t) && x.Length == 16 && Horner(x[..], t, p)
    ensures Pair(zh, zl) == p[0]
  {
    var lo, hi := x[15] % 16, x[15] / 16;
    zh, zl := hh[lo], hl[lo];
    assert Filled(hh, hl, t, lo);
    var i := 15;
    while i >= 0
      invariant -1 <= i <= 15 && Pair(zh, zl) == if i == 15 then p[31] else p[2 * i + 2]
    {
      lo, hi := x[i] % 16, x[i] / 16;
      assert Lines(x[..], t, p, i);
      if i != 15 {
        zh, zl := AddNibble(hh, hl, lo, zh, zl, t, p[2 * i + 1]);
      }
      zh, zl := AddNibble(hh, hl, hi, zh, zl, t, p[2 * i]);
      i := i - 1;
    }
  }

  /** The table entry of every nibble. */
  ghost function TableOf(h: Block): seq<Block> {
    seq(16, n requires 0 <= n < 16 => NibbleOf(Gf(), n, h))
  }

  lemma {:induction false} NumberStepGf(bits: Bits, h: Block, k: nat, n: nat)
    requires k + 4 <= |bits| && BitsAre(bits, k, n)
    ensures Product(Gf(), bits, h, k) == Gf().add(Four(Gf(), Product(Gf(), bits, h, k + 4)), NibbleOf(Gf(), n, h))
  {
    GfLaws();
    NumberStep(Gf(), bits, h, k, n);
  }

  lemma {:induction false} LineFrom(q: Block, e: Block, p: Block)
    requires p == Gf().add(Four(Gf(), q), e)
    ensures Line(q, e, p)
  {
    forall zh: Word64, zl: Word64, eh: Word64, el: Word64 | Pair(zh, zl) == q && Pair(eh, el) == e
      ensures Pair(XorBits(NextHigh(zh, zl), eh), XorBits(NextLow(zh, zl), el)) == p
    {
      MultStep(zh, zl, eh, el, q, e);
    }
  }

  lemma {:induction false} LineHolds(bits: Bits, h: Block, k: nat, n: nat)
    requires k + 4 <= |bits| && BitsAre(bits, k, n)
    ensures Line(Product(Gf(), bits, h, k + 4), NibbleOf(Gf(), n, h), Product(Gf(), bits, h, k))
  {
    NumberStepGf(bits, h, k, n);
    LineFrom(Product(Gf(), bits, h, k + 4), NibbleOf(Gf(), n, h), Product(Gf(), bits, h, k));
  }

  lemma {:induction false} FirstLine<G(!new)>(f: Ops<G>, bits: Bits, h: G, k: nat, n: nat)
    requires k + 4 == |bits| && BitsAre(bits, k, n) && HasZero(f)
    ensures Product(f, bits, h, k) == NibbleOf(f, n, h)
  {
    var h1, h2, h3 := f.x(h), f.x(f.x(h)), f.x(f.x(f.x(h)));
    assert Product(f, bits, f.x(h3), k + 4) == f.zero;
    assert Product(f, bits, h3, k + 3) == Sel(f, bits[k + 3], h3);
    assert Product(f, bits, h2, k + 2) == f.add(Sel(f, bits[k + 2], h2), Sel(f, bits[k + 3], h3));
    assert Product(f, bits, h1, k + 1) ==
      f.add(Sel(f, bits[k + 1], h1), f.add(Sel(f, bits[k + 2], h2), Sel(f, bits[k + 3], h3)));
  }

  ghost function Partials(x: seq<byte>, h: Block): seq<Block>
    requires |x| == 16
  {
    seq(33, k requires 0 <= k < 33 => Product(Gf(), BytesToBits(x), h, 4 * k))
  }

  lemma {:induction false} LinesHold(x: seq<byte>, h: Block, i: nat, k: nat)
    requires |x| == 16 && i < 16 && k == 8 * i
    ensures Lines(x, TableOf(h), Partials(x, h), i)
  {
    var bits, p, t := BytesToBits(x), Partials(x, h), TableOf(h);
    BytesHaveBits(x, i, k);
    var q0, q1, q2 := Product(Gf(), bits, h, k), Product(Gf(), bits, h, k + 4), Product(Gf(), bits, h, k + 8);
    assert p[2 * i] == q0 && p[2 * i + 1] == q1 && p[2 * i + 2] == q2;
    LineHolds(bits, h, k, x[i] / 16);
    LineHolds(bits, h, k + 4, x[i] % 16);
    assert Line(q1, t[x[i] / 16], q0) && Line(q2, t[x[i] % 16], q1);
  }

  lemma {:induction false} FirstLineGf(bits: Bits, h: Block, k: nat, n: nat)
    requires k + 4 == |bits| && BitsAre(bits, k, n)
    ensures Product(Gf(), bits, h, k) == NibbleOf(Gf(), n, h)
  {
    GfHasZero();
    FirstLine(Gf(), bits, h, k, n);
  }

  lemma {:induction false} HornerHolds(x: seq<byte>, h: Block)
    requires |x| == 16
    ensures Horner(x, TableOf(h), Partials(x, h)) && Partials(x, h)[0] == Times(x, h)
  {
    BytesHaveBits(x, 15, 120);
    FirstLineGf(BytesToBits(x), h, 124, x[15] % 16);
    forall i | 0 <= i < 16
      ensures Lines(x, TableOf(h), Partials(x, h), i)
    {
      LinesHold(x, h, i, 8 * i);
    }
  }

  /** The tables belong to the subkey h, and m is multiplication by it. */
  ghost predicate Keyed(hh: seq<Word64>, hl: seq<Word64>, h: Block, m: Mult)
  {
    Tables(hh, hl, TableOf(h)) && Multiplies(m, h)
  }

  /** gcm_mult: output may be the same buffer as x. */
  method GcmMult(hh: seq<Word64>, hl: seq<Word64>, x: array<byte>, output: array<byte>, ghost h: Block, ghost m: Mult)
    requires Keyed(hh, hl, h, m) && x.Length == 16 && output.Length == 16
    modifies output
    ensures output[..] == m(old(x[..]))
  {
    HornerHolds(x[..], h);
    assert Shown(x[..]);
    var zh, zl := MultLoop(hh, hl, x, TableOf(h), Partials(x[..], h));
    var z := BitsToBytes(Pair(zh, zl));
    forall i | 0 <= i < 16 {
      output[i] := z[i];
    }
  }

  // ---------------------------------------------------------------------------------------
  // gcm_setkey
  // ---------------------------------------------------------------------------------------

  /** Multiply by the indeterminate, on two words. */
  method HalveWords(vh0: Word64, vl0: Word64) returns (vh: Word64, vl: Word64)
    ensures Pair(vh, vl) == XTimes(Pair(vh0, vl0))
  {
    vl := HalfLow(vh0, vl0);
    vh := HalfHigh(vh0, vl0);
    HalfIsStep(vh0, vl0);
  }

  /** The entries of the single bits, from entry 8 on. */
  ghost predicate Steps(t: seq<Block>) {
    |t| == 16 && t[0] == Zero() && t[4] == XTimes(t[8]) && t[2] == XTimes(t[4]) && t[1] == XTimes(t[2])
  }

  /** The other entries are sums. */
  ghost predicate Sums(t: seq<Block>) {
    |t| == 16 && forall i, j :: (i == 2 || i == 4 || i == 8) && 0 < j < i ==> t[i + j] == Add(t[i], t[j])
  }

  lemma {:induction false} GfHasZero()
    ensures HasZero(Gf())
  {
    GfAddLaws();
    LawsHaveZero(Gf());
  }

  lemma {:induction false} EntryPowersGf(h: Block)
    ensures NibbleOf(Gf(), 0, h) == Gf().zero && NibbleOf(Gf(), 8, h) == h && NibbleOf(Gf(), 4, h) == Gf().x(h)
    ensures NibbleOf(Gf(), 2, h) == Gf().x(Gf().x(h)) && NibbleOf(Gf(), 1, h) == Gf().x(Gf().x(Gf().x(h)))
  {
    GfHasZero();
    EntryPowers(Gf(), h);
  }

  lemma {:induction false} TableSteps(h: Block)
    ensures Steps(TableOf(h)) && TableOf(h)[8] == h
  {
    EntryPowersGf(h);
  }

  lemma {:induction false} TableSums(h: Block)
    ensures Sums(TableOf(h))
  {
    var t := TableOf(h);
    forall i, j | (i == 2 || i == 4 || i == 8) && 0 < j < i
      ensures t[i + j] == Add(t[i], t[j])
    {
      EntrySumGf(i, j, i + j, h);
    }
  }

  lemma {:induction false} EntrySumGf(i: nat, j: nat, n: nat, h: Block)
    requires (i == 2 || i == 4 || i == 8) && j < i && n == i + j
    ensures NibbleOf(Gf(), n, h) == Add(NibbleOf(Gf(), i, h), NibbleOf(Gf(), j, h))
  {
    GfLaws();
    EntrySum(Gf(), i, j, n, h);
  }

  method SetPowers(hh: array<Word64>, hl: array<Word64>, vh0: Word64, vl0: Word64, ghost t: seq<Block>)
    requires hh.Length == 16 && hl.Length == 16 && hh != hl && Steps(t) && t[8] == Pair(vh0, vl0)
    modifies hh, hl
    ensures forall n :: n == 0 || n == 1 || n == 2 || n == 4 || n == 8 ==> Filled(hh[..], hl[..], t, n)
  {
    var vh, vl := vh0, vl0;
    hl[8] := vl;
    hh[8] := vh;
    hh[0] := Zero64();
    hl[0] := Zero64();
    assert Pair(hh[0], hl[0]) == Zero();
    vh, vl := HalveWords(vh, vl);
    hl[4], hh[4] := vl, vh;
    vh, vl := HalveWords(vh, vl);
    hl[2], hh[2] := vl, vh;
    vh, vl := HalveWords(vh, vl);
    hl[1], hh[1] := vl, vh;
  }

  /** The inner loop of gcm_setkey's second loop: entries i + 1 up to 2 * i - 1. */
  method FillFrom(hh: array<Word64>, hl: array<Word64>, i: nat, ghost t: seq<Block>)
    requires hh.Length == 16 && hl.Length == 16 && hh != hl && Sums(t) && (i == 2 || i == 4 || i == 8)
    requires forall n :: 0 <= n <= i || n == 4 || n == 8 ==> Filled(hh[..], hl[..], t, n)
    modifies hh, hl
    ensures forall n :: 0 <= n < 2 * i || n == 4 || n == 8 ==> Filled(hh[..], hl[..], t, n)
  {
    var vh, vl := hh[i], hl[i];
    assert Filled(hh[..], hl[..], t, i);
    for j := 1 to i
      invariant Pair(vh, vl) == t[i] && forall n :: 0 <= n < i + j || n == 4 || n == 8 ==> Filled(hh[..], hl[..], t, n)
    {
      assert Filled(hh[..], hl[..], t, j) && Filled(hh[..], hl[..], t, i);
      assert t[i + j] == Add(t[i], t[j]);
      XorPairs(vh, vl, hh[j], hl[j]);
      label Before:
      hh[i + j] := XorBits(vh, hh[j]);
      hl[i + j] := XorBits(vl, hl[j]);
      forall n | 0 <= n < i + j || n == 4 || n == 8
        ensures Filled(hh[..], hl[..], t, n)
      {
        assert old@Before(Filled(hh[..], hl[..], t, n));
      }
    }
  }

  method FillTables(hh: array<Word64>, hl: array<Word64>, ghost t: seq<Block>)
    requires hh.Length == 16 && hl.Length == 16 && hh != hl && Sums(t)
    requires forall n :: n == 0 || n == 1 || n == 2 || n == 4 || n == 8 ==> Filled(hh[..], hl[..], t, n)
    modifies hh, hl
    ensures Tables(hh[..], hl[..], t)
  {
    var i := 2;
    while i < 16
      invariant i == 2 || i == 4 || i == 8 || i == 16
      invariant forall n :: (0 <= n < i || n == i || n == 4 || n == 8) && n < 16 ==> Filled(hh[..], hl[..], t, n)
      decreases 16 - i
    {
      FillFrom(hh, hl, i, t);
      i := 2 * i;
    }
  }

  /** The two loops of gcm_setkey. */
  method SetTablesFrom(hh: array<Word64>, hl: array<Word64>, vh: Word64, vl: Word64, ghost t: seq<Block>)
    requires hh.Length == 16 && hl.Length == 16 && hh != hl && Steps(t) && Sums(t) && t[8] == Pair(vh, vl)
    modifies hh, hl
    ensures Tables(hh[..], hl[..], t)
  {
    SetPowers(hh, hl, vh, vl, t);
    FillTables(hh, hl, t);
  }

  /** gcm_setkey, once the zero block is encrypted into hbytes. */
  method SetTables(hh: array<Word64>, hl: array<Word64>, hbytes: Bytes16)
    requires hh.Length == 16 && hl.Length == 16 && hh != hl
    modifies hh, hl
    ensures Tables(hh[..], hl[..], TableOf(BytesToBits(hbytes)))
  {
    var bits := BytesToBits(hbytes);
    assert bits == Pair(bits[..64], bits[64..]);
    ghost var t := TableOf(bits);
    assert Steps(t) && Sums(t) && t[8] == bits by {
      TableSteps(bits);
      TableSums(bits);
    }
    SetTablesFrom(hh, hl, bits[..64], bits[64..], t);
  }

  // ---------------------------------------------------------------------------------------
  // gcm_start, gcm_update, gcm_finish
  // ---------------------------------------------------------------------------------------

  /** Count the last four bytes of the counter block up by one, with carry. */
  method IncCounter(y: array<byte>)
    requires y.Length == 16
    modifies y
    ensures y[..] == Inc32(old(y[..]))
  {
    assert y[..][12..] == y[12..] && y[..][..12] == y[..12];
    IncTail(y, 12);
  }

  /** Mix n bytes of data into a working buffer. */
  method XorInto(acc: array<byte>, p: seq<byte>, n: nat)
    requires acc.Length == 16 && n <= 16 && n <= |p|
    modifies acc
    ensures acc[..] == XorBytes(old(acc[..]), p[..n] + Zeros(16 - n))
  {
    ghost var s := acc[..];
    for i := 0 to n
      invariant forall k :: 0 <= k < 16 ==> acc[k] == if k < i then XorByte(s[k], p[k]) else s[k]
    {
      acc[i] := XorByte(acc[i], p[i]);
    }
    forall k | 0 <= k < 16
      ensures acc[k] == XorByte(s[k], (p[..n] + Zeros(16 - n))[k])
    {
      XorByteTwice(s[k], 0);
    }
  }

  /** One round of a hashing loop. */
  method HashBlock(hh: seq<Word64>, hl: seq<Word64>, acc: array<byte>, p: seq<byte>, useLen: nat, ghost h: Block,
      ghost m: Mult)
    requires Keyed(hh, hl, h, m) && acc.Length == 16 && p != [] && useLen == Least(|p|, 16)
    modifies acc
    ensures acc[..] == m(XorBytes(old(acc[..]), FirstBlock(p)))
  {
    XorInto(acc, p, useLen);
    GcmMult(hh, hl, acc, acc, h, m);
  }

  /** The loops of gcm_start that hash p into a working buffer, block by block. */
  method HashInto(hh: seq<Word64>, hl: seq<Word64>, acc: array<byte>, p: seq<byte>, ghost h: Block, ghost m: Mult)
    requires Keyed(hh, hl, h, m) && acc.Length == 16
    modifies acc
    ensures acc[..] == Fold(m, old(acc[..]), Pad16(p))
  {
    var rest := p;
    while rest != []
      invariant Fold(m, acc[..], Pad16(rest)) == Fold(m, old(acc[..]), Pad16(p))
      decreases |rest|
    {
      var useLen := if |rest| < 16 then |rest| else 16;
      FoldStep(m, acc[..], rest);
      HashBlock(hh, hl, acc, rest, useLen, h, m);
      rest := rest[useLen..];
    }
  }

  /** The inner loops of gcm_update: input and output may be the same buffer. */
  method CryptBytes(mode: Mode, ectr: Bytes16, input: array<byte>, output: array<byte>, buf: array<byte>, pos: nat,
      n: nat)
    requires n <= 16 && pos + n <= input.Length && pos + n <= output.Length && buf.Length == 16 && buf != input
      && buf != output
    modifies output, buf
    ensures output[pos..pos + n] == XorBytes(ectr[..n], old(input[pos..pos + n]))
    ensures forall k :: 0 <= k < output.Length && !(pos <= k < pos + n) ==> output[k] == old(output[k])
    ensures forall k :: pos + n <= k < input.Length ==> input[k] == old(input[k])
    ensures buf[..] == XorBytes(old(buf[..]), CBlock(mode, ectr[..n], old(input[pos..pos + n])) + Zeros(16 - n))
  {
    ghost var x, s := input[pos..pos + n], buf[..];
    ghost var c := CBlock(mode, ectr[..n], x);
    for i := 0 to n
      invariant forall k :: pos + i <= k < pos + n ==> input[k] == x[k - pos]
      invariant forall k :: 0 <= k < i ==> output[pos + k] == XorByte(ectr[k], x[k])
      invariant forall k :: 0 <= k < output.Length && !(pos <= k < pos + i) ==> output[k] == old(output[k])
      invariant forall k :: 0 <= k < 16 ==> buf[k] == if k < i then XorByte(s[k], c[k]) else s[k]
    {
      if mode == Encrypt {
        output[pos + i] := XorByte(ectr[i], input[pos + i]);
        buf[i] := XorByte(buf[i], output[pos + i]);
      } else {
        buf[i] := XorByte(buf[i], input[pos + i]);
        output[pos + i] := XorByte(ectr[i], input[pos + i]);
      }
    }
    forall k | 0 <= k < 16
      ensures buf[k] == XorByte(s[k], (c + Zeros(16 - n))[k])
    {
      XorByteTwice(s[k], 0);
    }
  }

  /** The statements of one round of the loop of gcm_update. */
  method CryptOne(hh: seq<Word64>, hl: seq<Word64>, mode: Mode, e: Cipher, input: array<byte>, output: array<byte>,
      y: array<byte>, buf: array<byte>, pos: nat, n: nat, ghost h: Block, ghost m: Mult)
    requires Keyed(hh, hl, h, m) && y.Length == 16 && buf.Length == 16 && y != buf
    requires input != y && input != buf && output != y && output != buf
    requires n <= 16 && pos + n <= input.Length && pos + n <= output.Length
    modifies y, buf, output
    ensures y[..] == Inc32(old(y[..]))
    ensures output[..pos + n] == old(output[..pos]) + XorBytes(e(y[..])[..n], old(input[pos..pos + n]))
    ensures forall k :: pos + n <= k < output.Length ==> output[k] == old(output[k])
    ensures forall k :: pos + n <= k < input.Length ==> input[k] == old(input[k])
    ensures buf[..] ==
      m(XorBytes(old(buf[..]), CBlock(mode, e(y[..])[..n], old(input[pos..pos + n])) + Zeros(16 - n)))
  {
    IncCounter(y);
    var ectr := e(y[..]);
    CryptBytes(mode, ectr, input, output, buf, pos, n);
    GcmMult(hh, hl, buf, buf, h, m);
    assert output[..pos + n] == output[..pos] + output[pos..pos + n];
    assert output[..pos] == old(output[..pos]);
  }

  /** One round of the loop of gcm_update. */
  method CryptBlock(hh: seq<Word64>, hl: seq<Word64>, mode: Mode, e: Cipher, input: array<byte>, output: array<byte>,
      y: array<byte>, buf: array<byte>, pos: nat, useLen: nat, ghost x: seq<byte>, ghost y0: Bytes16,
      ghost b0: Bytes16, ghost h: Block, ghost m: Mult)
    requires Keyed(hh, hl, h, m) && y.Length == 16 && buf.Length == 16 && y != buf
    requires input != y && input != buf && output != y && output != buf
    requires pos < |x| <= input.Length && |x| <= output.Length && useLen == Least(|x| - pos, 16)
    requires forall k :: pos <= k < |x| ==> input[k] == x[k]
    requires CounterAt(e, x, pos, output[..pos], y[..], y0) && HashAt(mode, e, m, x, pos, y[..], buf[..], y0, b0)
    modifies y, buf, output
    ensures CounterAt(e, x, pos + useLen, output[..pos + useLen], y[..], y0)
      && HashAt(mode, e, m, x, pos + useLen, y[..], buf[..], y0, b0)
    ensures forall k :: pos + useLen <= k < |x| ==> input[k] == x[k]
    ensures forall k :: |x| <= k < output.Length ==> output[k] == old(output[k])
  {
    ghost var out, yOld, bOld, block := output[..pos], y[..], buf[..], x[pos..pos + useLen];
    assert input[pos..pos + useLen] == block;
    CryptOne(hh, hl, mode, e, input, output, y, buf, pos, useLen, h, m);
    CounterStep(e, x, pos, out, yOld, y0, useLen, y[..], block);
    HashStep(mode, e, m, x, pos, yOld, bOld, y0, b0, useLen, y[..], block);
  }

  /** gcm_context, with the key schedule as the function it computes. */
  class GcmContext {
    var mode: Mode
    var len: nat
    var addLen: nat
    /** The tables, read-only once gcm_setkey has filled them. */
    const HL: seq<Word64>
    const HH: seq<Word64>
    const baseEctr: array<byte>
    const y: array<byte>
    const buf: array<byte>
    const cipher: Cipher
    /** Multiplication by the hash subkey. */
    ghost const m: Mult

    ghost predicate Valid() {
      && Keyed(HH, HL, SubKey(cipher), m)
      && baseEctr.Length == 16 && y.Length == 16 && buf.Length == 16
      && baseEctr != y && baseEctr != buf && y != buf
    }

    /** gcm_setkey */
    constructor (cipher: Cipher)
      ensures Valid() && this.cipher == cipher && fresh(baseEctr) && fresh(y) && fresh(buf)
    {
      this.cipher := cipher;
      mode, len, addLen := Encrypt, 0, 0;
      var hl, hh := new Word64[16](_ => Zero64()), new Word64[16](_ => Zero64());
      SetTables(hh, hl, cipher(Zeros(16)));
      HL, HH := hl[..], hh[..];
      baseEctr, y, buf := new byte[16](_ => 0), new byte[16](_ => 0), new byte[16](_ => 0);
      ghost var h := SubKey(cipher);
      m := (x: Bytes16) => TimesH(x, h);
    }

    /** The hash of the additional data and the ciphertext so far. */
    ghost function Hashed(a: seq<byte>, c: seq<byte>): Bytes16 {
      Fold(m, Fold(m, Zeros(16), Pad16(a)), Pad16(c))
    }

    /** The part of gcm_start that makes the first counter block. */
    method StartCounter(iv: seq<byte>)
      requires Valid()
      modifies y
      ensures y[..] == StartBlock(m, iv)
    {
      Clear(y);
      if |iv| == 12 {
        forall i | 0 <= i < 12 {
          y[i] := iv[i];
        }
        y[15] := 1;
        assert Be(1, 4) == [0, 0, 0, 1];
        assert y[..] == iv + Be(1, 4);
      } else {
        HashInto(HH, HL, y, iv, SubKey(cipher), m);
        HashWhole(HH, HL, y, Zeros(12) + Be(8 * |iv|, 4), SubKey(cipher), m);
      }
    }

    /** gcm_start */
    method GcmStart(mode: Mode, iv: seq<byte>, add: seq<byte>)
      requires Valid()
      modifies this`mode, this`len, this`addLen, y, buf, baseEctr
      ensures this.mode == mode && len == 0 && addLen == |add|
      ensures y[..] == StartBlock(m, iv) && baseEctr[..] == cipher(y[..])
      ensures buf[..] == Fold(m, Zeros(16), Pad16(add))
    {
      Clear(buf);
      len, addLen := 0, 0;
      this.mode := mode;
      StartCounter(iv);
      Store(baseEctr, cipher(y[..]));
      addLen := |add|;
      HashInto(HH, HL, buf, add, SubKey(cipher), m);
    }

    /** gcm_update: input and output may be the same buffer. */
    method GcmUpdate(length: nat, input: array<byte>, output: array<byte>)
      requires Valid() && length <= input.Length && length <= output.Length
      requires input != y && input != buf && input != baseEctr && output != y && output != buf && output != baseEctr
      modifies this`len, y, buf, output
      ensures len == old(len) + length
      ensures output[..length] == Gctr(cipher, old(y[..]), old(input[..length]))
        && output[length..] == old(output[length..])
      ensures y[..] == CtrAfter(old(y[..]), BlocksOf(length))
      ensures buf[..] == Fold(m, old(buf[..]), Pad16(CText(mode, cipher, old(y[..]), old(input[..length]))))
    {
      ghost var x, y0, b0 := input[..length], y[..], buf[..];
      len := len + length;
      var pos := 0;
      UpdateStart(mode, cipher, m, x, y0, b0);
      assert output[..0] == [];
      while pos < length
        invariant pos <= length && len == old(len) + length
        invariant CounterAt(cipher, x, pos, output[..pos], y[..], y0)
          && HashAt(mode, cipher, m, x, pos, y[..], buf[..], y0, b0)
        invariant forall k :: pos <= k < length ==> input[k] == x[k]
        invariant forall k :: length <= k < output.Length ==> output[k] == old(output[k])
      {
        var useLen := if length - pos < 16 then length - pos else 16;
        CryptBlock(HH, HL, mode, cipher, input, output, y, buf, pos, useLen, x, y0, b0, SubKey(cipher), m);
        pos := pos + useLen;
      }
      UpdateEnd(mode, cipher, m, x, output[..pos], y[..], buf[..], y0, b0);
    }

    /** gcm_finish */
    method GcmFinish(tagLen: nat, ghost a: seq<byte>, ghost c: seq<byte>) returns (ok: bool, tag: seq<byte>)
      requires Valid() && addLen == |a| < 0x2000_0000_0000_0000 && len == |c| < 0x2000_0000_0000_0000
      requires buf[..] == Hashed(a, c)
      modifies buf
      ensures ok <==> tagLen <= 16
      ensures ok ==> tag == XorBytes(baseEctr[..], TagHash(m, a, c))[..tagLen]
    {
      if tagLen > 16 {
        return false, [];
      }
      tag := baseEctr[..tagLen];
      if len != 0 || addLen != 0 {
        ghost var b := buf[..];
        HashWhole(HH, HL, buf, Be(8 * addLen, 8) + Be(8 * len, 8), SubKey(cipher), m);
        FinishHash(m, a, c, b);
        tag := XorBytes(tag, buf[..tagLen]);
      } else {
        EmptyTagHash(m, SubKey(cipher));
        assert a == [] && c == [];
        ZeroTag(baseEctr[..], tagLen);
      }
      return true, tag;
    }

    /**
      gcm_crypt_and_tag, in either direction: the operation of section 7.1 of NIST SP 800-38D
      from the computed start block on, which is the standard's below 2^29 bytes.
     */
    method GcmCryptAndTag(mode: Mode, iv: seq<byte>, add: seq<byte>, length: nat, input: array<byte>,
        output: array<byte>, tagLen: nat)
      returns (ok: bool, tag: seq<byte>)
      requires Valid() && length <= input.Length && length <= output.Length
      requires input != y && input != buf && input != baseEctr && output != y && output != buf && output != baseEctr
      requires |add| < 0x2000_0000_0000_0000 && length < 0x2000_0000_0000_0000
      modifies this`mode, this`len, this`addLen, y, buf, baseEctr, output
      ensures ok <==> tagLen <= 16
      ensures |iv| < 0x2000_0000 ==> StartBlock(m, iv) == J0(m, iv)
      ensures ok ==> output[..length] == Gctr(cipher, StartBlock(m, iv), old(input[..length]))
      ensures ok ==> output[length..] == old(output[length..])
      ensures ok ==>
        var j := StartBlock(m, iv);
        tag == TagFrom(cipher, m, j, add, CText(mode, cipher, j, old(input[..length])))[..tagLen]
      ensures !ok ==> output[..] == old(output[..])
    {
      StartIsStandard(m, iv);
      if tagLen > 16 {
        return false, [];
      }
      ghost var x := input[..length];
      GcmStart(mode, iv, add);
      assert input[..length] == x;
      GcmUpdate(length, input, output);
      ok, tag := GcmFinish(tagLen, add, CText(mode, cipher, StartBlock(m, iv), x));
    }

    /** gcm_auth_decrypt: the plaintext comes out exactly when the tag is right, otherwise zeros. */
    method GcmAuthDecrypt(iv: seq<byte>, add: seq<byte>, length: nat, input: array<byte>, output: array<byte>,
        tag: seq<byte>)
      returns (status: Status)
      requires Valid() && length <= input.Length && length <= output.Length
      requires input != y && input != buf && input != baseEctr && output != y && output != buf && output != baseEctr
      requires |add| < 0x2000_0000_0000_0000 && length < 0x2000_0000_0000_0000
      modifies this`mode, this`len, this`addLen, y, buf, baseEctr, output
      ensures status == BadTagLength <==> |tag| > 16
      ensures |iv| < 0x2000_0000 ==> StartBlock(m, iv) == J0(m, iv)
      ensures |tag| <= 16 ==>
        (status == Success <==> tag == TagFrom(cipher, m, StartBlock(m, iv), add, old(input[..length]))[..|tag|])
      ensures status == Success ==> output[..length] == Gctr(cipher, StartBlock(m, iv), old(input[..length]))
      ensures status == AuthFailure ==> output[..length] == Zeros(length)
    {
      StartIsStandard(m, iv);
      if |tag| > 16 {
        return BadTagLength;
      }
      var ok, checkTag := GcmCryptAndTag(Decrypt, iv, add, length, input, output, |tag|);
      var diff := TagDiff(tag, checkTag);
      if diff != 0 {
        forall i | 0 <= i < length {
          output[i] := 0;
        }
        return AuthFailure;
      }
      return Success;
    }
  }

  lemma {:induction false} StartIsStandard(m: Mult, iv: seq<byte>)
    ensures |iv| < 0x2000_0000 ==> StartBlock(m, iv) == J0(m, iv)
  {
    if |iv| < 0x2000_0000 {
      StartBlockIsJ0(m, iv);
    }
  }

  /** Compare two tags without stopping at the first difference: 0 when they are the same. */
  method TagDiff(tag: seq<byte>, checkTag: seq<byte>) returns (diff: nat)
    requires |tag| == |checkTag|
    ensures diff == 0 <==> tag == checkTag
  {
    diff := 0;
    for i := 0 to |tag|
      invariant diff == 0 <==> forall k :: 0 <= k < i ==> tag[k] == checkTag[k]
    {
      DiffersIff(diff, tag[i], checkTag[i]);
      diff := Or(diff, XorByte(tag[i], checkTag[i]));
    }
  }

  datatype Status = Success | AuthFailure | BadTagLength

  lemma {:induction false} OrIsZero(a: nat, b: nat)
    ensures Or(a, b) == 0 <==> a == 0 && b == 0
  {
    if a > 0 {
      OrIsZero(a / 2, b / 2);
    }
  }

  lemma {:induction false} DiffersIff(diff: nat, a: byte, b: byte)
    ensures Or(diff, XorByte(a, b)) == 0 <==> diff == 0 && a == b
  {
    OrIsZero(diff, XorByte(a, b));
    XorByteTwice(a, b);
    XorByteTwice(b, 0);
    XorCommutes(0, b);
    XorCancels(a);
  }

  /** Clear a working buffer. */
  method Clear(b: array<byte>)
    requires b.Length == 16
    modifies b
    ensures b[..] == Zeros(16)
  {
    for i := 0 to 16
      invariant forall k :: 0 <= k < i ==> b[k] == 0
    {
      b[i] := 0;
    }
  }

  method Store(b: array<byte>, s: Bytes16)
    requires b.Length == 16
    modifies b
    ensures b[..] == s
  {
    forall i | 0 <= i < 16 {
      b[i] := s[i];
    }
  }

  /** Hash one whole block into a working buffer. */
  method HashWhole(hh: seq<Word64>, hl: seq<Word64>, acc: array<byte>, work: Bytes16, ghost h: Block, ghost m: Mult)
    requires Keyed(hh, hl, h, m) && acc.Length == 16
    modifies acc
    ensures acc[..] == Fold(m, old(acc[..]), work)
  {
    ghost var g := acc[..];
    assert work[..16] == work && work + Zeros(0) == work && work[16..] == [];
    XorInto(acc, work, 16);
    GcmMult(hh, hl, acc, acc, h, m);
    assert Fold(m, g, work) == Fold(m, m(XorBytes(g, work[..16])), work[16..]);
  }

  lemma {:induction false} ZeroTag(b: Bytes16, n: nat)
    requires n <= 16
    ensures XorBytes(b, Zeros(16))[..n] == b[..n]
  {
    forall i | 0 <= i < 16
      ensures XorByte(b[i], 0) == b[i]
    {
      XorByteTwice(b[i], 0);
    }
  }

  lemma {:induction false} FinishHash(m: Mult, a: seq<byte>, c: seq<byte>, b: Bytes16)
    requires b == Fold(m, Fold(m, Zeros(16), Pad16(a)), Pad16(c))
    ensures Fold(m, b, Lengths(|a|, |c|)) == TagHash(m, a, c)
  {
    WholeBlocks(|Pad16(a)|, |Pad16(c)|);
    FoldAppend(m, Zeros(16), Pad16(a), Pad16(c));
    FoldAppend(m, Zeros(16), Pad16(a) + Pad16(c), Lengths(|a|, |c|));
  }
}

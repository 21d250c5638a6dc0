/** nfq2/crypto/aes-ctr.c, for an abstract block cipher, and its use in IsMTProto of nfq2/protocol.c. */
module AesCtr {
  import opened BitStrings
  import opened Blocks
  import opened Words

  /** The k-th counter block after iv, as a number modulo 2^128. */
  function CtrBlock(iv: Bytes16, k: nat): Bytes16 {
    Be(FromBe(iv) + k, 16)
  }

  function KeyByte(e: Cipher, iv: Bytes16, i: nat): byte {
    e(CtrBlock(iv, i / 16))[i % 16]
  }

  /** Section 6.5 of NIST SP 800-38A: byte i is added to byte i mod 16 of block i / 16 of the keystream. */
  function Xcrypt(e: Cipher, iv: Bytes16, x: seq<byte>): (c: seq<byte>)
    ensures |c| == |x|
  {
    seq(|x|, i requires 0 <= i < |x| => XorByte(x[i], KeyByte(e, iv, i)))
  }

  lemma {:induction false} XcryptTwice(e: Cipher, iv: Bytes16, x: seq<byte>)
    ensures Xcrypt(e, iv, Xcrypt(e, iv, x)) == x
  {
    forall i | 0 <= i < |x|
      ensures Xcrypt(e, iv, Xcrypt(e, iv, x))[i] == x[i]
    {
      XorByteTwice(x[i], KeyByte(e, iv, i));
    }
  }

  // ---------------------------------------------------------------------------------------
  // Counters
  // ---------------------------------------------------------------------------------------

  /** Reading the bytes back loses only what was dropped before. */
  lemma {:induction false} BeSuccessor(n: nat, k: nat)
    ensures Be(FromBe(Be(n, k)) + 1, k) == Be(n + 1, k)
  {
    if k > 0 {
      var q, r := n / 256, n % 256;
      var m := FromBe(Be(q, k - 1));
      assert Be(n, k)[..k - 1] == Be(q, k - 1);
      assert FromBe(Be(n, k)) == 256 * m + r;
      BeFromBe(Be(q, k - 1));
      if r == 255 {
        BeSuccessor(q, k - 1);
        assert (256 * m + 256) / 256 == m + 1 && (256 * m + 256) % 256 == 0;
        assert (n + 1) / 256 == q + 1 && (n + 1) % 256 == 0;
      } else {
        assert (256 * m + (r + 1)) / 256 == m && (256 * m + (r + 1)) % 256 == r + 1;
        assert (n + 1) / 256 == q && (n + 1) % 256 == r + 1;
      }
    }
  }

  /** Incrementing in place is counting modulo 2^128. */
  lemma {:induction false} NextBlock(iv: Bytes16, k: nat)
    ensures IncBytes(CtrBlock(iv, k)) == CtrBlock(iv, k + 1)
  {
    IncBytesIs(CtrBlock(iv, k));
    BeSuccessor(FromBe(iv) + k, 16);
  }

  lemma {:induction false} FirstBlock(iv: Bytes16)
    ensures CtrBlock(iv, 0) == iv
  {
    BeFromBe(iv);
  }

  /** k calls of ctr_increment. */
  function Increments(iv: Bytes16, k: nat): Bytes16 {
    if k == 0 then iv else IncBytes(Increments(iv, k - 1))
  }

  lemma {:induction false} IncrementsCount(iv: Bytes16, k: nat)
    ensures Increments(iv, k) == CtrBlock(iv, k)
  {
    if k == 0 {
      FirstBlock(iv);
    } else {
      IncrementsCount(iv, k - 1);
      NextBlock(iv, k - 1);
    }
  }

  /** ctr_increment */
  method CtrIncrement(counter: array<byte>)
    requires counter.Length == 16
    modifies counter
    ensures counter[..] == IncBytes(old(counter[..]))
  {
    assert counter[..0] == [] && counter[0..] == counter[..];
    IncTail(counter, 0);
  }

  // ---------------------------------------------------------------------------------------
  // ctr_add
  // ---------------------------------------------------------------------------------------

  /** x shifted left by k bytes. */
  function Scale(x: nat, k: nat): nat {
    if k == 0 then x else 256 * Scale(x, k - 1)
  }

  /** x shifted right by k bytes. */
  function DropLow(x: nat, k: nat): nat {
    if k == 0 then x else DropLow(x / 256, k - 1)
  }

  lemma {:induction false} FromBeJoined(a: seq<byte>, b: seq<byte>)
    ensures FromBe(a + b) == Scale(FromBe(a), |b|) + FromBe(b)
    decreases |b|
  {
    if b == [] {
      assert a + b == a;
    } else {
      var n := |b| - 1;
      assert (a + b)[..|a + b| - 1] == a + b[..n];
      FromBeJoined(a, b[..n]);
    }
  }

  lemma {:induction false} ScaleOfOne(k: nat)
    ensures Scale(1, k) == Pow256(k)
  {
    if k > 0 {
      ScaleOfOne(k - 1);
    }
  }

  /** The low k bytes do not depend on what is above them. */
  lemma {:induction false} BeLow(x: nat, q: nat, k: nat)
    ensures Be(Scale(q, k) + x, k) == Be(x, k)
  {
    if k > 0 {
      var s := Scale(q, k - 1);
      assert (256 * s + x) / 256 == s + x / 256 && (256 * s + x) % 256 == x % 256;
      BeLow(x / 256, q, k - 1);
    }
  }

  lemma {:induction false} BeSplit(n: nat, j: nat, k: nat)
    ensures Be(n, j + k) == Be(DropLow(n, k), j) + Be(n, k)
  {
    if k > 0 {
      BeSplit(n / 256, j, k - 1);
    }
  }

  lemma {:induction false} DropScaled(q: nat, x: nat, k: nat)
    requires x < Scale(1, k)
    ensures DropLow(Scale(q, k) + x, k) == q
  {
    if k > 0 {
      var s := Scale(q, k - 1);
      assert (256 * s + x) / 256 == s + x / 256;
      DropScaled(q, x / 256, k - 1);
    }
  }

  lemma {:induction false} ScaleSum(p: nat, q: nat, k: nat)
    ensures Scale(p + q, k) == Scale(p, k) + Scale(q, k)
  {
    if k > 0 {
      ScaleSum(p, q, k - 1);
    }
  }

  /** A number of two halves, the lower one not overflowing. */
  lemma {:induction false} JoinHalves(q: nat, x: nat, j: nat, k: nat)
    requires x < Scale(1, k)
    ensures Be(Scale(q, k) + x, j + k) == Be(q, j) + Be(x, k)
  {
    BeSplit(Scale(q, k) + x, j, k);
    DropScaled(q, x, k);
    BeLow(x, q, k);
  }

  const TWO_64: nat := 0x1_0000_0000_0000_0000

  /** ctr_add, with the words that __builtin_bswap64 makes of the two halves */
  function CtrAdd(counter: Bytes16, add: nat): Bytes16
    requires add < TWO_64
  {
    var hi, lsw := FromBe(counter[..8]), FromBe(counter[8..]);
    var sum := (lsw + add) % TWO_64;
    (if sum < lsw then Be(hi + 1, 8) else counter[..8]) + Be(sum, 8)
  }

  lemma {:induction false} ScaleOne()
    ensures Scale(1, 8) == TWO_64
  {
    assert Scale(1, 4) == 0x1_0000_0000;
  }

  /** The carry between the two words. */
  lemma {:induction false} AddWithCarry(hi: nat, lsw: nat, add: nat, sum: nat, w: nat, k: nat)
    requires w == Scale(1, k) && lsw < w && add < w && sum == (if lsw + add < w then lsw + add else lsw + add - w)
    ensures Be(Scale(hi, k) + lsw + add, k + k) == Be(if sum < lsw then hi + 1 else hi, k) + Be(sum, k)
  {
    if lsw + add < w {
      JoinHalves(hi, sum, k, k);
    } else {
      ScaleSum(hi, 1, k);
      JoinHalves(hi + 1, sum, k, k);
    }
  }

  lemma {:induction false} SumMod(lsw: nat, add: nat)
    requires lsw < TWO_64 && add < TWO_64
    ensures (lsw + add) % TWO_64 == if lsw + add < TWO_64 then lsw + add else lsw + add - TWO_64
  {
  }

  lemma {:induction false} SplitCounter(counter: Bytes16)
    ensures FromBe(counter) == Scale(FromBe(counter[..8]), 8) + FromBe(counter[8..]) && FromBe(counter[8..]) < TWO_64
  {
    var a, b := counter[..8], counter[8..];
    assert counter == a + b;
    FromBeJoined(a, b);
    FromBeBound(b);
    ScaleOfOne(|b|);
    ScaleOne();
  }

  /** ctr_add(c, k) is k increments, across the 64-bit carry. */
  lemma {:induction false} CtrAddCounts(counter: Bytes16, add: nat)
    requires add < TWO_64
    ensures CtrAdd(counter, add) == CtrBlock(counter, add) == Increments(counter, add)
  {
    var hi, lsw := FromBe(counter[..8]), FromBe(counter[8..]);
    SplitCounter(counter);
    BeFromBe(counter[..8]);
    ScaleOne();
    SumMod(lsw, add);
    AddWithCarry(hi, lsw, add, (lsw + add) % TWO_64, TWO_64, 8);
    IncrementsCount(counter, add);
  }

  // ---------------------------------------------------------------------------------------
  // aes_ctr_xcrypt_buffer
  // ---------------------------------------------------------------------------------------

  /** out[pos..pos + n] = in[pos..pos + n] ^ buffer, by words or by bytes; in and out may be the same. */
  method XorOut(input: array<byte>, output: array<byte>, pos: nat, n: nat, buffer: Bytes16, ghost x: seq<byte>)
    requires n <= 16 && pos + n <= |x| <= input.Length && |x| <= output.Length
    requires forall k :: pos <= k < |x| ==> input[k] == x[k]
    modifies output
    ensures forall k :: pos <= k < pos + n ==> output[k] == XorByte(x[k], buffer[k - pos])
    ensures forall k :: 0 <= k < output.Length && !(pos <= k < pos + n) ==> output[k] == old(output[k])
    ensures forall k :: pos + n <= k < |x| ==> input[k] == x[k]
  {
    for i := 0 to n
      invariant forall k :: pos <= k < pos + i ==> output[k] == XorByte(x[k], buffer[k - pos])
      invariant forall k :: 0 <= k < output.Length && !(pos <= k < pos + i) ==> output[k] == old(output[k])
      invariant forall k :: pos + i <= k < |x| ==> input[k] == x[k]
    {
      output[pos + i] := XorByte(input[pos + i], buffer[i]);
    }
  }

  lemma {:induction false} BlockBytes(e: Cipher, iv: Bytes16, pos: nat, b: nat, n: nat)
    requires pos == 16 * b && n <= 16
    ensures forall k :: pos <= k < pos + n ==> KeyByte(e, iv, k) == e(CtrBlock(iv, b))[k - pos]
  {
    forall k | pos <= k < pos + n
      ensures KeyByte(e, iv, k) == e(CtrBlock(iv, b))[k - pos]
    {
      assert k / 16 == b && k % 16 == k - pos;
    }
  }

  /** The first i bytes are done, the rest of the input is still x. */
  ghost predicate Halfway(e: Cipher, iv: Bytes16, x: seq<byte>, i: nat, input: array<byte>, output: array<byte>,
      tail: seq<byte>)
    reads input, output
  {
    && i <= |x| <= input.Length && output.Length == |x| + |tail|
    && (forall k :: 0 <= k < i ==> output[k] == XorByte(x[k], KeyByte(e, iv, k)))
    && (forall k :: i <= k < |x| ==> input[k] == x[k])
    && (forall k :: |x| <= k < output.Length ==> output[k] == tail[k - |x|])
  }

  /** One block, or the part of one at the end. */
  method XcryptBlock(e: Cipher, iv: Bytes16, input: array<byte>, output: array<byte>, i: nat, n: nat, buffer: Bytes16,
                     ghost x: seq<byte>, ghost b: nat, ghost tail: seq<byte>)
    requires Halfway(e, iv, x, i, input, output, tail) && n <= 16 && i + n <= |x| && i == 16 * b
      && buffer == e(CtrBlock(iv, b))
    modifies output
    ensures Halfway(e, iv, x, i + n, input, output, tail)
  {
    BlockBytes(e, iv, i, b, n);
    XorOut(input, output, i, n, buffer, x);
  }

  /** One round of the loop: the key stream of block b, the next counter, and 16 bytes of output. */
  method XcryptRound(e: Cipher, iv: Bytes16, ivc: array<byte>, input: array<byte>, output: array<byte>, i: nat,
      ghost x: seq<byte>, ghost b: nat, ghost tail: seq<byte>)
    requires ivc.Length == 16 && ivc != input && ivc != output && ivc[..] == CtrBlock(iv, b)
    requires Halfway(e, iv, x, i, input, output, tail) && i + 16 <= |x| && i == 16 * b
    modifies ivc, output
    ensures ivc[..] == CtrBlock(iv, b + 1) && Halfway(e, iv, x, i + 16, input, output, tail)
  {
    var buffer := e(ivc[..]);
    NextBlock(iv, b);
    CtrIncrement(ivc);
    XcryptBlock(e, iv, input, output, i, 16, buffer, x, b, tail);
  }

  lemma {:induction false} AllDone(e: Cipher, iv: Bytes16, x: seq<byte>, input: array<byte>, output: array<byte>,
      tail: seq<byte>)
    requires Halfway(e, iv, x, |x|, input, output, tail)
    ensures output[..|x|] == Xcrypt(e, iv, x) && output[|x|..] == tail
  {
  }

  /** aes_ctr_xcrypt_buffer */
  method AesCtrXcryptBuffer(e: Cipher, iv: Bytes16, input: array<byte>, length: nat, output: array<byte>)
    requires length <= input.Length && length <= output.Length
    modifies output
    ensures output[..length] == Xcrypt(e, iv, old(input[..length])) && output[length..] == old(output[length..])
  {
    ghost var x, tail := input[..length], output[length..];
    var ivc := new byte[16](i requires 0 <= i < 16 => iv[i]);
    assert ivc[..] == iv;
    FirstBlock(iv);
    var l16, i := length - length % 16, 0;
    ghost var b := 0;
    while i < l16
      invariant i == 16 * b && i <= l16 && ivc[..] == CtrBlock(iv, b)
      invariant Halfway(e, iv, x, i, input, output, tail)
    {
      XcryptRound(e, iv, ivc, input, output, i, x, b, tail);
      i, b := i + 16, b + 1;
    }
    if i < length {
      var buffer := e(ivc[..]);
      XcryptBlock(e, iv, input, output, i, length - i, buffer, x, b, tail);
    }
    AllDone(e, iv, x, input, output, tail);
  }

  // ---------------------------------------------------------------------------------------
  // IsMTProto
  // ---------------------------------------------------------------------------------------

  type Key32 = s: seq<byte> | |s| == 32 witness seq(32, i => 0)

  /** The reference in the source's comment: decrypt 64 bytes and look at four of them. */
  predicate DecryptsToMagic(aes: Key32 -> Cipher, data: seq<byte>)
    requires |data| >= 64
  {
    Xcrypt(aes(data[8..40]), data[40..56], data[..64])[56..60] == [0xEF, 0xEF, 0xEF, 0xEF]
  }

  /** IsMTProto: one block instead of four. */
  method IsMTProto(aes: Key32 -> Cipher, data: seq<byte>) returns (r: bool)
    ensures r <==> |data| >= 64 && DecryptsToMagic(aes, data)
  {
    if |data| < 64 {
      return false;
    }
    var iv := CtrAdd(data[40..56], 3);
    CtrAddCounts(data[40..56], 3);
    var decrypt := aes(data[8..40])(iv);
    var d: seq<byte> := [XorByte(decrypt[8], data[56]), XorByte(decrypt[9], data[57]), XorByte(decrypt[10], data[58]),
      XorByte(decrypt[11], data[59])];
    LastBlock(aes(data[8..40]), data[40..56], data[..64], decrypt);
    assert d == Xcrypt(aes(data[8..40]), data[40..56], data[..64])[56..60];
    return d == [0xEF, 0xEF, 0xEF, 0xEF];
  }

  lemma {:induction false} LastBlock(e: Cipher, iv: Bytes16, x: seq<byte>, block: Bytes16)
    requires |x| == 64 && block == e(CtrBlock(iv, 3))
    ensures forall k :: 48 <= k < 64 ==> Xcrypt(e, iv, x)[k] == XorByte(block[k - 48], x[k])
  {
    BlockBytes(e, iv, 48, 3, 16);
    forall k | 48 <= k < 64
      ensures Xcrypt(e, iv, x)[k] == XorByte(block[k - 48], x[k])
    {
      XorCommutes(x[k], block[k - 48]);
    }
  }
}

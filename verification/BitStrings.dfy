/** Bit strings, most significant bit first, as NIST SP 800-38D writes blocks; bytes as bit strings. */
module BitStrings {
  import opened Words

  type Bits = seq<bool>

  /** Bit i of a byte. */
  predicate BitAt(c: byte, i: nat)
    requires i < 8
  {
    Shr(c, 7 - i) % 2 == 1
  }

  /** Bit i of a string of bytes. */
  predicate DataBit(data: seq<byte>, i: nat)
    requires i < 8 * |data|
  {
    BitAt(data[i / 8], i % 8)
  }

  function BytesToBits(data: seq<byte>): (b: Bits)
    ensures |b| == 8 * |data|
  {
    seq(8 * |data|, i requires 0 <= i < 8 * |data| => DataBit(data, i))
  }

  function Number(b: Bits): nat {
    if b == [] then 0 else 2 * Number(b[..|b| - 1]) + (if b[|b| - 1] then 1 else 0)
  }

  lemma {:induction false} NumberBound(b: Bits)
    ensures Number(b) < Pow2(|b|)
  {
    if b != [] {
      NumberBound(b[..|b| - 1]);
    }
  }

  lemma {:induction false} ShrNumber(b: Bits, k: nat)
    requires k <= |b|
    ensures Shr(Number(b), k) == Number(b[..|b| - k])
  {
    if k == 0 {
      assert b[..|b|] == b;
    } else {
      ShrNumber(b, k - 1);
      var p := b[..|b| - (k - 1)];
      assert p[..|p| - 1] == b[..|b| - k];
    }
  }

  lemma {:induction false} Pow2Of8()
    ensures Pow2(8) == 256
  {
  }

  lemma {:induction false} NumberBits(b: Bits)
    requires |b| == 8
    ensures Number(b) < 256 && forall i :: 0 <= i < 8 ==> Shr(Number(b), 7 - i) % 2 == if b[i] then 1 else 0
  {
    NumberBound(b);
    Pow2Of8();
    forall i | 0 <= i < 8
      ensures Shr(Number(b), 7 - i) % 2 == if b[i] then 1 else 0
    {
      ShrNumber(b, 7 - i);
      assert b[..i + 1][..i] == b[..i];
    }
  }

  /** Eight bits of a string as a byte. */
  function ByteOf(b: Bits): (c: byte)
    requires |b| == 8
    ensures forall i :: 0 <= i < 8 ==> BitAt(c, i) == b[i]
  {
    NumberBits(b);
    Number(b)
  }

  /** The bytes of a bit string. */
  function BitsToBytes(b: Bits): (data: seq<byte>)
    requires |b| % 8 == 0
    ensures |data| == |b| / 8
  {
    seq(|b| / 8, i requires 0 <= i < |b| / 8 => ByteOf(b[8 * i..8 * i + 8]))
  }

  /** A byte is its bits. */
  lemma {:induction false} ByteIsBits(c: byte, d: byte)
    requires forall i :: 0 <= i < 8 ==> BitAt(c, i) == BitAt(d, i)
    ensures c == d
  {
    Pow2Of8();
    ShrBound(c, 8, 8);
    ShrBound(d, 8, 8);
    SameShr(c, d, 8);
  }

  lemma {:induction false} SameShr(c: byte, d: byte, k: nat)
    requires k <= 8 && forall i :: 8 - k <= i < 8 ==> BitAt(c, i) == BitAt(d, i)
    requires Shr(c, k) == Shr(d, k)
    ensures c == d
  {
    if k > 0 {
      assert BitAt(c, 8 - k) == BitAt(d, 8 - k);
      SameShr(c, d, k - 1);
    }
  }

  lemma {:induction false} BytesOfBits(data: seq<byte>)
    ensures BitsToBytes(BytesToBits(data)) == data
  {
    var b := BytesToBits(data);
    forall k | 0 <= k < |data|
      ensures ByteOf(b[8 * k..8 * k + 8]) == data[k]
    {
      var c := b[8 * k..8 * k + 8];
      forall i | 0 <= i < 8
        ensures c[i] == BitAt(data[k], i)
      {
        assert c[i] == b[8 * k + i] && (8 * k + i) / 8 == k && (8 * k + i) % 8 == i;
      }
      ByteIsBits(ByteOf(c), data[k]);
    }
  }

  // ---------------------------------------------------------------------------------------
  // Exclusive or
  // ---------------------------------------------------------------------------------------

  function XorBits(a: Bits, b: Bits): (c: Bits)
    requires |a| == |b|
    ensures |c| == |a| && forall i :: 0 <= i < |a| ==> c[i] == (a[i] != b[i])
  {
    seq(|a|, i requires 0 <= i < |a| => a[i] != b[i])
  }

  /** a ^ b on bytes */
  function XorByte(a: byte, b: byte): byte {
    XorOfBytes(a, b); Xor(a, b)
  }

  lemma {:induction false} XorOfBytes(a: byte, b: byte)
    ensures Xor(a, b) < 256
  {
    Pow2Of8();
    XorBound(a, b, 8);
  }

  function XorBytes(a: seq<byte>, b: seq<byte>): (c: seq<byte>)
    requires |a| == |b|
    ensures |c| == |a| && forall i :: 0 <= i < |a| ==> c[i] == XorByte(a[i], b[i])
  {
    seq(|a|, i requires 0 <= i < |a| => XorByte(a[i], b[i]))
  }

  /** What is added twice is gone. */
  lemma {:induction false} XorByteTwice(a: byte, b: byte)
    ensures XorByte(XorByte(a, b), b) == a && XorByte(a, XorByte(a, b)) == b && XorByte(a, b) == XorByte(b, a)
      && XorByte(a, 0) == a
  {
    XorAssociates(a, b, b);
    XorAssociates(a, a, b);
    XorCommutes(a, b);
    XorCancels(a);
    XorCancels(b);
  }
}

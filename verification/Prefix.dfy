/**
  kavl_bit_cmp of nfq2/pools.c: the comparator under which two CIDR prefixes are "equal" when one
  contains the other.  Its meaning is given on bit strings.
 */
module Prefix {
  import opened BitStrings
  import opened Words

  /** kavl_bit_elem without its tree header: the first bitlen bits of data count. */
  datatype RawKey = Key(data: seq<byte>, bitlen: nat)

  type Key = k: RawKey | k.bitlen <= 8 * |k.data| witness Key([], 0)

  /** The bits of a prefix in network order. */
  function BitsOf(k: Key): (b: Bits)
    ensures |b| == k.bitlen
  {
    seq(k.bitlen, i requires 0 <= i < k.bitlen => DataBit(k.data, i))
  }

  /** a and b differ first at bit i, which is clear in a. */
  ghost predicate BelowAt(a: Bits, b: Bits, i: nat) {
    i < |a| && i < |b| && !a[i] && b[i] && forall j :: 0 <= j < i ==> a[j] == b[j]
  }

  /** All addresses with prefix a are below all addresses with prefix b. */
  ghost predicate Below(a: Bits, b: Bits) {
    exists i: nat :: BelowAt(a, b, i)
  }

  /** One of the prefixes contains the other. */
  predicate Overlap(a: Bits, b: Bits) {
    a <= b || b <= a
  }

  lemma {:induction false} BelowTransitive(a: Bits, b: Bits, c: Bits)
    requires Below(a, b) && Below(b, c)
    ensures Below(a, c)
  {
    var i: nat :| BelowAt(a, b, i);
    var j: nat :| BelowAt(b, c, j);
    assert BelowAt(a, c, if i < j then i else j);
  }

  /** The three outcomes exclude each other. */
  lemma {:induction false} BelowOrOverlap(a: Bits, b: Bits)
    ensures Below(a, b) ==> !Below(b, a) && !Overlap(a, b)
    ensures Overlap(a, b) ==> !Below(b, a)
  {
    if i: nat :| BelowAt(a, b, i) {
      assert !(a <= b) by {
        assert a[i] != b[i];
      }
    }
    if i: nat :| BelowAt(b, a, i) {
      assert !(b <= a) by {
        assert a[i] != b[i];
      }
    }
  }

  /** memcmp, as the difference of the first bytes that differ. */
  function MemCmp(p: seq<byte>, q: seq<byte>, n: nat): int
    requires n <= |p| && n <= |q|
  {
    if n == 0 then 0
    else
      var cmp := MemCmp(p, q, n - 1);
      if cmp != 0 then cmp else (p[n - 1] as int) - q[n - 1]
  }

  /** kavl_bit_cmp */
  function KavlBitCmp(p: Key, q: Key): int {
    var bitlen := if q.bitlen < p.bitlen then q.bitlen else p.bitlen;
    var df, bytes := bitlen % 8, bitlen / 8;
    var cmp := MemCmp(p.data, q.data, bytes);
    if cmp != 0 || df == 0 then cmp
    else
      var c1, c2 := Shr(p.data[bytes], 8 - df), Shr(q.data[bytes], 8 - df);
      if c1 < c2 then -1 else if c1 == c2 then 0 else 1
  }

  // ---------------------------------------------------------------------------------------
  // From bytes to bits
  // ---------------------------------------------------------------------------------------

  /** The top k bits of two bytes agree when the bytes do after dropping the rest. */
  lemma {:induction false} SameTop(c: byte, d: byte, k: nat)
    requires k <= 8 && Shr(c, 8 - k) == Shr(d, 8 - k)
    ensures forall i :: 0 <= i < k ==> BitAt(c, i) == BitAt(d, i)
  {
    if k > 0 {
      assert Shr(c, 8 - (k - 1)) == Shr(c, 8 - k) / 2;
      SameTop(c, d, k - 1);
    }
  }

  /** The first of the top k bits that differ decides the order. */
  lemma {:induction false} LessTop(c: byte, d: byte, k: nat) returns (i: nat)
    requires k <= 8 && Shr(c, 8 - k) < Shr(d, 8 - k)
    ensures i < k && !BitAt(c, i) && BitAt(d, i) && forall j :: 0 <= j < i ==> BitAt(c, j) == BitAt(d, j)
  {
    if k == 0 {
      Shr8(d);
    } else {
      assert Shr(c, 8 - (k - 1)) == Shr(c, 8 - k) / 2;
      assert Shr(d, 8 - (k - 1)) == Shr(d, 8 - k) / 2;
      if Shr(c, 8 - (k - 1)) < Shr(d, 8 - (k - 1)) {
        i := LessTop(c, d, k - 1);
      } else {
        SameTop(c, d, k - 1);
        i := k - 1;
      }
    }
  }

  lemma {:induction false} Shr8(c: byte)
    ensures Shr(c, 8) == 0
  {
    assert Shr(c, 1) <= 127;
    assert Shr(c, 2) <= 63;
    assert Shr(c, 3) <= 31;
    assert Shr(c, 4) <= 15;
    assert Shr(c, 5) <= 7;
    assert Shr(c, 6) <= 3;
    assert Shr(c, 7) <= 1;
  }

  /** Two data areas agree on their first n bits. */
  ghost predicate SameBits(p: seq<byte>, q: seq<byte>, n: nat)
    requires n <= 8 * |p| && n <= 8 * |q|
  {
    forall i :: 0 <= i < n ==> DataBit(p, i) == DataBit(q, i)
  }

  /** They differ first at bit i, below n. */
  ghost predicate FirstDiff(p: seq<byte>, q: seq<byte>, i: nat, n: nat)
    requires n <= 8 * |p| && n <= 8 * |q|
  {
    i < n && !DataBit(p, i) && DataBit(q, i) && SameBits(p, q, i)
  }

  /** Comparing the top k bits of the byte that follows b equal ones. */
  lemma {:induction false} ByteDecides(p: seq<byte>, q: seq<byte>, b: nat, k: nat, n: nat) returns (i: nat)
    requires b < |p| && b < |q| && k <= 8 && n == 8 * b + k
    requires SameBits(p, q, 8 * b) && Shr(p[b], 8 - k) < Shr(q[b], 8 - k)
    ensures FirstDiff(p, q, i, n)
  {
    var j := LessTop(p[b], q[b], k);
    i := 8 * b + j;
    forall m | 0 <= m < i
      ensures DataBit(p, m) == DataBit(q, m)
    {
      if m >= 8 * b {
        assert m / 8 == b && m % 8 < j;
      }
    }
    assert i / 8 == b && i % 8 == j;
  }

  lemma {:induction false} ByteSame(p: seq<byte>, q: seq<byte>, b: nat, k: nat, n: nat)
    requires b < |p| && b < |q| && k <= 8 && n == 8 * b + k
    requires SameBits(p, q, 8 * b) && Shr(p[b], 8 - k) == Shr(q[b], 8 - k)
    ensures SameBits(p, q, n)
  {
    SameTop(p[b], q[b], k);
    forall m | 0 <= m < n
      ensures DataBit(p, m) == DataBit(q, m)
    {
      if m >= 8 * b {
        assert m / 8 == b && m % 8 < k;
      }
    }
  }

  /** What a comparison of the first n bits says. */
  ghost predicate Decides(cmp: int, p: seq<byte>, q: seq<byte>, n: nat)
    requires n <= 8 * |p| && n <= 8 * |q|
  {
    && (cmp == 0 ==> SameBits(p, q, n))
    && (cmp < 0 ==> exists i: nat :: FirstDiff(p, q, i, n))
    && (cmp > 0 ==> exists i: nat :: FirstDiff(q, p, i, n))
  }

  lemma {:induction false} StillDecides(cmp: int, p: seq<byte>, q: seq<byte>, n: nat, n': nat)
    requires n <= n' <= 8 * |p| && n' <= 8 * |q| && cmp != 0 && Decides(cmp, p, q, n)
    ensures Decides(cmp, p, q, n')
  {
    if cmp < 0 {
      var i: nat :| FirstDiff(p, q, i, n);
      assert FirstDiff(p, q, i, n');
    } else {
      var i: nat :| FirstDiff(q, p, i, n);
      assert FirstDiff(q, p, i, n');
    }
  }

  /** Comparing the top k bits of one more byte. */
  lemma {:induction false} NextByte(p: seq<byte>, q: seq<byte>, b: nat, k: nat, n: nat, cmp: int)
    requires b < |p| && b < |q| && k <= 8 && n == 8 * b + k && SameBits(p, q, 8 * b)
    requires cmp < 0 <==> Shr(p[b], 8 - k) < Shr(q[b], 8 - k)
    requires cmp > 0 <==> Shr(p[b], 8 - k) > Shr(q[b], 8 - k)
    ensures Decides(cmp, p, q, n)
  {
    if cmp < 0 {
      var i := ByteDecides(p, q, b, k, n);
    } else if cmp > 0 {
      var i := ByteDecides(q, p, b, k, n);
    } else {
      ByteSame(p, q, b, k, n);
    }
  }

  lemma {:induction false} MemCmpDecides(p: seq<byte>, q: seq<byte>, n: nat)
    requires n <= |p| && n <= |q|
    ensures Decides(MemCmp(p, q, n), p, q, 8 * n)
  {
    if n > 0 {
      MemCmpDecides(p, q, n - 1);
      var cmp := MemCmp(p, q, n - 1);
      if cmp != 0 {
        StillDecides(cmp, p, q, 8 * (n - 1), 8 * n);
      } else {
        NextByte(p, q, n - 1, 8, 8 * n, MemCmp(p, q, n));
      }
    }
  }

  lemma {:induction false} CmpDecides(p: Key, q: Key)
    ensures Decides(KavlBitCmp(p, q), p.data, q.data, Least(p.bitlen, q.bitlen))
  {
    var n := Least(p.bitlen, q.bitlen);
    var df, bytes := n % 8, n / 8;
    MemCmpDecides(p.data, q.data, bytes);
    var cmp := MemCmp(p.data, q.data, bytes);
    if cmp != 0 {
      StillDecides(cmp, p.data, q.data, 8 * bytes, n);
    } else if df != 0 {
      NextByte(p.data, q.data, bytes, df, n, KavlBitCmp(p, q));
    }
  }

  lemma {:induction false} DiffIsBelow(p: Key, q: Key, i: nat)
    requires FirstDiff(p.data, q.data, i, Least(p.bitlen, q.bitlen))
    ensures Below(BitsOf(p), BitsOf(q))
  {
    assert BelowAt(BitsOf(p), BitsOf(q), i);
  }

  lemma {:induction false} SameIsOverlap(p: Key, q: Key)
    requires SameBits(p.data, q.data, Least(p.bitlen, q.bitlen))
    ensures if p.bitlen <= q.bitlen then BitsOf(p) <= BitsOf(q) else BitsOf(q) <= BitsOf(p)
  {
  }

  /** kavl_bit_cmp orders prefixes by their addresses, and 0 means that one contains the other. */
  lemma {:induction false} CmpOrdersPrefixes(p: Key, q: Key)
    ensures KavlBitCmp(p, q) < 0 <==> Below(BitsOf(p), BitsOf(q))
    ensures KavlBitCmp(p, q) > 0 <==> Below(BitsOf(q), BitsOf(p))
    ensures KavlBitCmp(p, q) == 0 <==> Overlap(BitsOf(p), BitsOf(q))
  {
    CmpDecides(p, q);
    var n := Least(p.bitlen, q.bitlen);
    var cmp := KavlBitCmp(p, q);
    if cmp < 0 {
      var i: nat :| FirstDiff(p.data, q.data, i, n);
      DiffIsBelow(p, q, i);
    } else if cmp > 0 {
      var i: nat :| FirstDiff(q.data, p.data, i, n);
      DiffIsBelow(q, p, i);
    } else {
      SameIsOverlap(p, q);
    }
    BelowOrOverlap(BitsOf(p), BitsOf(q));
    BelowOrOverlap(BitsOf(q), BitsOf(p));
  }
}

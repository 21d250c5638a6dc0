/** 16-byte blocks, big-endian numbers in bytes, and counters that are incremented in place. */
module Blocks {
  import opened Words

  type Bytes16 = s: seq<byte> | |s| == 16 witness seq(16, i => 0)

  /** The forward cipher under a fixed key. */
  type Cipher = Bytes16 -> Bytes16

  function Zeros(n: nat): (z: seq<byte>)
    ensures |z| == n && forall i :: 0 <= i < n ==> z[i] == 0
  {
    seq(n, i => 0)
  }

  /** The low k bytes of n, most significant first. */
  function Be(n: nat, k: nat): (b: seq<byte>)
    ensures |b| == k
  {
    if k == 0 then [] else Be(n / 256, k - 1) + [n % 256]
  }

  function FromBe(b: seq<byte>): nat {
    if b == [] then 0 else 256 * FromBe(b[..|b| - 1]) + b[|b| - 1]
  }

  /** Add one to a big-endian number in place, dropping the last carry. */
  function IncBytes(b: seq<byte>): (c: seq<byte>)
    ensures |c| == |b|
  {
    if b == [] then []
    else
      var n := |b| - 1;
      if b[n] == 255 then IncBytes(b[..n]) + [0] else b[..n] + [b[n] + 1]
  }

  lemma {:induction false} BeFromBe(b: seq<byte>)
    ensures Be(FromBe(b), |b|) == b
  {
    if b != [] {
      BeFromBe(b[..|b| - 1]);
    }
  }

  lemma {:induction false} IncBytesIs(b: seq<byte>)
    ensures IncBytes(b) == Be(FromBe(b) + 1, |b|)
  {
    if b != [] {
      var n := |b| - 1;
      var m := FromBe(b[..n]);
      BeFromBe(b[..n]);
      if b[n] == 255 {
        IncBytesIs(b[..n]);
        assert (256 * m + 255 + 1) / 256 == m + 1 && (256 * m + 255 + 1) % 256 == 0;
      } else {
        assert (256 * m + (b[n] + 1)) / 256 == m && (256 * m + (b[n] + 1)) % 256 == b[n] + 1;
      }
    }
  }

  /** One carry further down. */
  lemma {:induction false} IncTailStep(s: seq<byte>, lo: nat, i: nat)
    requires lo < i <= |s|
    ensures IncBytes(s[lo..i]) == if s[i - 1] == 255 then IncBytes(s[lo..i - 1]) + [0]
      else s[lo..i - 1] + [s[i - 1] + 1]
  {
    assert s[lo..i][..i - lo - 1] == s[lo..i - 1];
  }

  /** The carry has reached position i: all bytes from there on are zero, those before are still s. */
  ghost predicate Carried(s: seq<byte>, y: seq<byte>, lo: nat, i: nat) {
    && lo <= i <= |s| == |y| && IncBytes(s[lo..]) == IncBytes(s[lo..i]) + Zeros(|s| - i)
    && y == s[..i] + Zeros(|s| - i)
  }

  lemma {:induction false} CarryOn(s: seq<byte>, y: seq<byte>, lo: nat, i: nat)
    requires Carried(s, y, lo, i) && lo < i
    ensures if s[i - 1] == 255 then Carried(s, y[i - 1 := 0], lo, i - 1)
      else y[i - 1 := s[i - 1] + 1] == s[..lo] + IncBytes(s[lo..])
  {
    IncTailStep(s, lo, i);
    if s[i - 1] == 255 {
      assert [0] + Zeros(|s| - i) == Zeros(|s| - (i - 1));
    }
  }

  /** Increment the bytes from lo on as one number, from the last one down until there is no carry. */
  method IncTail(y: array<byte>, lo: nat)
    requires lo <= y.Length
    modifies y
    ensures y[..] == old(y[..lo]) + IncBytes(old(y[lo..]))
  {
    ghost var s := y[..];
    var i := y.Length;
    assert s[lo..] == s[lo..i] && s == s[..i] + Zeros(0);
    while i > lo
      invariant Carried(s, y[..], lo, i)
    {
      CarryOn(s, y[..], lo, i);
      y[i - 1] := if y[i - 1] == 255 then 0 else y[i - 1] + 1;
      if y[i - 1] != 0 {
        return;
      }
      i := i - 1;
    }
  }

  lemma {:induction false} BeOfZero(k: nat)
    ensures Be(0, k) == Zeros(k)
  {
    if k > 0 {
      BeOfZero(k - 1);
    }
  }

  function Pow256(k: nat): (p: nat)
    ensures p > 0
  {
    if k == 0 then 1 else 256 * Pow256(k - 1)
  }

  lemma {:induction false} BeIsZero(n: nat, k: nat)
    requires Be(n, k) == Zeros(k) && n < Pow256(k)
    ensures n == 0
  {
    if k > 0 {
      assert Be(n, k)[k - 1] == 0 && Be(n, k)[..k - 1] == Zeros(k)[..k - 1] == Zeros(k - 1);
      BeIsZero(n / 256, k - 1);
    }
  }

  lemma {:induction false} FromBeOfBe(v: nat, n: nat)
    requires v < Pow256(n)
    ensures FromBe(Be(v, n)) == v
  {
    if n > 0 {
      assert Be(v, n)[..n - 1] == Be(v / 256, n - 1);
      FromBeOfBe(v / 256, n - 1);
    }
  }

  /** pntoh16, pntoh24, pntoh32 and pntoh64: the n bytes from pos on as a big-endian number. */
  function UintAt(data: seq<byte>, pos: nat, n: nat): nat
    requires pos + n <= |data|
  {
    if n == 0 then 0 else 256 * UintAt(data, pos, n - 1) + data[pos + n - 1]
  }

  lemma {:induction false} UintIsFromBe(data: seq<byte>, pos: nat, n: nat)
    requires pos + n <= |data|
    ensures UintAt(data, pos, n) == FromBe(data[pos..pos + n])
  {
    if n > 0 {
      UintIsFromBe(data, pos, n - 1);
      assert data[pos..pos + n][..n - 1] == data[pos..pos + (n - 1)];
    }
  }

  /** What bytes can say. */
  lemma {:induction false} FromBeBound(b: seq<byte>)
    ensures FromBe(b) < Pow256(|b|)
  {
    if b != [] {
      FromBeBound(b[..|b| - 1]);
    }
  }

  /** Where a number is written in full, it is read back. */
  lemma {:induction false} UintOfBe(data: seq<byte>, pos: nat, n: nat, v: nat)
    requires pos + n <= |data| && data[pos..pos + n] == Be(v, n) && v < Pow256(n)
    ensures UintAt(data, pos, n) == v
  {
    UintIsFromBe(data, pos, n);
    FromBeOfBe(v, n);
  }

  lemma {:induction false} UintOfSlice(data: seq<byte>, a: nat, b: nat, pos: nat, n: nat)
    requires a <= b <= |data| && pos + n <= b - a
    ensures UintAt(data[a..b], pos, n) == UintAt(data, a + pos, n)
  {
    if n > 0 {
      UintOfSlice(data, a, b, pos, n - 1);
    }
  }

  /** Only the low k bytes of a number are written. */
  lemma {:induction false} BeWraps(n: nat, k: nat, m: nat)
    requires m == n + Pow256(k)
    ensures Be(m, k) == Be(n, k)
  {
    if k > 0 {
      BeWraps(n / 256, k - 1, m / 256);
    }
  }

  /** Marks the byte strings for which a hidden definition is told. */
  predicate Shown(s: seq<byte>) {
    true
  }
}

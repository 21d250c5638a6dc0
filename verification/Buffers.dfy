/** Buffers that are filled from the front, and the sequences in them. */
module Buffers {
  import opened Words

  /** Store t at p. */
  method Put(buf: array<byte>, p: nat, t: seq<byte>)
    requires p + |t| <= buf.Length
    modifies buf
    ensures buf[..p] == old(buf[..p]) && buf[p..p + |t|] == t
  {
    forall i | 0 <= i < |t| {
      buf[p + i] := t[i];
    }
  }

  lemma {:induction false} JoinSlices<T>(d: seq<T>, d': seq<T>, a: nat, b: nat, c: nat, t: seq<T>)
    requires a <= b <= |d| && b <= c <= |d'| && d'[..b] == d[..b] && d'[b..c] == t
    ensures d'[a..c] == d[a..b] + t
  {
    assert d'[a..c] == d'[..b][a..] + d'[b..c];
    assert d[a..b] == d[..b][a..];
  }

  lemma {:induction false} Regroup<T>(w: seq<T>, a: seq<T>, b: seq<T>, e: seq<T>, c: seq<T>, g: seq<T>)
    requires w == a + b && b == e + c && g == a + e
    ensures w == g + c
  {
  }

  lemma {:induction false} SplitFirst<T>(d: seq<T>, pre: seq<T>, e: seq<T>, rest: seq<T>, x: seq<T>, post: seq<T>,
      n: nat)
    requires d == pre + x + post && x == e + rest && n == |e|
    ensures |pre| + n <= |d| && d[|pre|..|pre| + n] == e && d == (pre + e) + rest + post && |pre + e| == |pre| + n
  {
  }
}

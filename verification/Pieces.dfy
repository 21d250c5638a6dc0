/** Messages as lists of fields laid end to end. */
module Pieces {
  import opened Blocks
  import opened Words

  function Flat(p: seq<seq<byte>>): seq<byte> {
    if p == [] then [] else p[0] + Flat(p[1..])
  }

  lemma {:induction false} SubSlice<T>(d: seq<T>, pos: nat, x: seq<T>, a: nat, b: nat)
    requires pos + |x| <= |d| && d[pos..pos + |x|] == x && a <= b <= |x|
    ensures d[pos + a..pos + b] == x[a..b]
  {
    forall i | 0 <= i < b - a
      ensures d[pos + a..pos + b][i] == x[a..b][i]
    {
      assert d[pos..pos + |x|][a + i] == x[a + i];
    }
  }

  /** Where field j starts. */
  function Offset(p: seq<seq<byte>>, j: nat): nat
    requires j <= |p|
  {
    if j == 0 then 0 else Offset(p, j - 1) + |p[j - 1]|
  }

  lemma {:induction false} FlatAppend(p: seq<seq<byte>>, q: seq<seq<byte>>)
    ensures Flat(p + q) == Flat(p) + Flat(q)
  {
    if p == [] {
      assert p + q == q;
    } else {
      assert (p + q)[1..] == p[1..] + q;
      FlatAppend(p[1..], q);
    }
  }

  lemma {:induction false} OffsetIsLength(p: seq<seq<byte>>, j: nat)
    requires j <= |p|
    ensures Offset(p, j) == |Flat(p[..j])|
  {
    if j > 0 {
      OffsetIsLength(p, j - 1);
      assert p[..j] == p[..j - 1] + [p[j - 1]];
      FlatAppend(p[..j - 1], [p[j - 1]]);
    }
  }

  /** What is before field j, the field, and what is after it. */
  lemma {:induction false} FlatAt(p: seq<seq<byte>>, j: nat)
    requires j < |p|
    ensures Flat(p) == Flat(p[..j]) + p[j] + Flat(p[j + 1..]) && |Flat(p[..j])| == Offset(p, j)
  {
    assert p == p[..j] + p[j..];
    FlatAppend(p[..j], p[j..]);
    assert p[j..][1..] == p[j + 1..];
    OffsetIsLength(p, j);
  }

  /** Field j, where a reader at its offset finds it. */
  lemma {:induction false} FieldAt(p: seq<seq<byte>>, j: nat)
    requires j < |p|
    ensures Offset(p, j) + |p[j]| <= |Flat(p)| && Flat(p)[Offset(p, j)..Offset(p, j) + |p[j]|] == p[j]
  {
    FlatAt(p, j);
  }

  lemma {:induction false} ByteField(p: seq<seq<byte>>, j: nat, at: nat, x: seq<byte>, i: nat)
    requires j < |p| && p[j] == x && at == Offset(p, j) && i < |x|
    ensures at + i < |Flat(p)| && Flat(p)[at + i] == x[i]
  {
    FlatAt(p, j);
  }

  lemma {:induction false} NumberField(p: seq<seq<byte>>, j: nat, at: nat, v: nat, k: nat)
    requires j < |p| && p[j] == Be(v, k) && at == Offset(p, j) && v < Pow256(k)
    ensures at + k <= |Flat(p)| && UintAt(Flat(p), at, k) == v
  {
    FieldAt(p, j);
    UintOfBe(Flat(p), at, k, v);
  }

  /** Bytes p on replaced by those of t. */
  function Overwrite(s: seq<byte>, p: nat, t: seq<byte>): (r: seq<byte>)
    requires p + |t| <= |s|
    ensures |r| == |s|
  {
    s[..p] + t + s[p + |t|..]
  }

  /** Bytes p to p + n replaced by those of t, which may be more or fewer. */
  function Splice(s: seq<byte>, p: nat, n: nat, t: seq<byte>): (r: seq<byte>)
    requires p + n <= |s|
    ensures |r| == |s| - n + |t|
  {
    s[..p] + t + s[p + n..]
  }

  lemma {:induction false} SpliceField(p: seq<seq<byte>>, j: nat, t: seq<byte>)
    requires j < |p|
    ensures Offset(p, j) + |p[j]| <= |Flat(p)| && Splice(Flat(p), Offset(p, j), |p[j]|, t) == Flat(p[j := t])
    ensures forall i :: 0 <= i <= j ==> Offset(p[j := t], i) == Offset(p, i)
  {
    FlatAt(p, j);
    FlatAt(p[j := t], j);
    assert p[j := t][..j] == p[..j] && p[j := t][j + 1..] == p[j + 1..];
    forall i | 0 <= i <= j
      ensures Offset(p[j := t], i) == Offset(p, i)
    {
      OffsetBefore(p, p[j := t], i);
    }
  }

  lemma {:induction false} OffsetBefore(p: seq<seq<byte>>, q: seq<seq<byte>>, i: nat)
    requires i <= |p| && i <= |q| && forall k :: 0 <= k < i ==> |p[k]| == |q[k]|
    ensures Offset(p, i) == Offset(q, i)
  {
    if i > 0 {
      OffsetBefore(p, q, i - 1);
    }
  }

  // ---------------------------------------------------------------------------------------
  // Length fields
  // ---------------------------------------------------------------------------------------

  /** A sum as it is stored in k bytes: a negative one wraps, and Be drops what does not fit. */
  function Cut(v: int, k: nat): nat
    decreases if v < 0 then -v else 0
  {
    if v < 0 then Cut(v + Pow256(k), k) else v
  }

  /** The k-byte number at p, with d added. */
  function AddAt(s: seq<byte>, p: nat, k: nat, d: int): (r: seq<byte>)
    requires p + k <= |s|
    ensures |r| == |s|
  {
    Overwrite(s, p, Be(Cut(UintAt(s, p, k) + d, k), k))
  }

  /** Adding nothing changes nothing. */
  lemma {:induction false} AddNothing(s: seq<byte>, p: nat, k: nat)
    requires p + k <= |s|
    ensures AddAt(s, p, k, 0) == s
  {
    UintIsFromBe(s, p, k);
    FromBeBound(s[p..p + k]);
    BeFromBe(s[p..p + k]);
  }

  /** Where a length is, and how many bytes it takes. */
  datatype Len = Len(at: nat, size: nat)

  predicate Within(fs: seq<Len>, n: nat) {
    forall i :: 0 <= i < |fs| ==> fs[i].at + fs[i].size <= n
  }

  /** The same number added to several lengths. */
  function AddAll(s: seq<byte>, fs: seq<Len>, d: int): (r: seq<byte>)
    requires Within(fs, |s|)
    ensures |r| == |s|
    decreases |fs|
  {
    if fs == [] then s else AddAll(AddAt(s, fs[0].at, fs[0].size, d), fs[1..], d)
  }

  /** Other bytes stay. */
  lemma {:induction false} AddAllKeeps(s: seq<byte>, fs: seq<Len>, d: int, i: nat)
    requires Within(fs, |s|) && i < |s| && forall k :: 0 <= k < |fs| ==> i < fs[k].at || fs[k].at + fs[k].size <= i
    ensures AddAll(s, fs, d)[i] == s[i]
    decreases |fs|
  {
    if fs != [] {
      AddAllKeeps(AddAt(s, fs[0].at, fs[0].size, d), fs[1..], d, i);
    }
  }

  lemma {:induction false} AddAllNothing(s: seq<byte>, fs: seq<Len>)
    requires Within(fs, |s|)
    ensures AddAll(s, fs, 0) == s
    decreases |fs|
  {
    if fs != [] {
      AddNothing(s, fs[0].at, fs[0].size);
      AddAllNothing(s, fs[1..]);
    }
  }

  /** A length field with d added, cut to its size. */
  function GrownField(f: seq<byte>, d: int): (r: seq<byte>)
    ensures |r| == |f|
  {
    Be(Cut(FromBe(f) + d, |f|), |f|)
  }

  /** How a field changes. */
  type Change = seq<byte> -> seq<byte>

  /** g adds d to fields; told only for those that are Shown. */
  ghost predicate Adds(g: Change, d: int) {
    forall f {:trigger Shown(f)} :: Shown(f) ==> g(f) == GrownField(f, d)
  }

  lemma {:induction false} Adder(d: int) returns (g: Change)
    ensures Adds(g, d)
  {
    g := f => GrownField(f, d);
  }

  /** A length with d added, cut to its size. */
  lemma {:induction false} CutNumber(g: Change, v: nat, k: nat, d: int)
    requires Adds(g, d) && v < Pow256(k)
    ensures g(Be(v, k)) == Be(Cut(v + d, k), k)
  {
    FromBeOfBe(v, k);
    assert Shown(Be(v, k));
  }

  /** A length that has room takes its new value. */
  lemma {:induction false} GrownNumber(g: Change, v: nat, k: nat, d: int, w: nat)
    requires Adds(g, d) && v < Pow256(k) && w == v + d < Pow256(k)
    ensures g(Be(v, k)) == Be(w, k)
  {
    CutNumber(g, v, k, d);
  }

  /** The fields at the given places changed by g. */
  function Grow(p: seq<seq<byte>>, js: seq<nat>, g: Change): (q: seq<seq<byte>>)
    requires forall i :: 0 <= i < |js| ==> js[i] < |p|
    ensures |q| == |p|
    decreases |js|
  {
    if js == [] then p else Grow(p[js[0] := g(p[js[0]])], js[1..], g)
  }

  predicate Distinct(js: seq<nat>) {
    forall i, j :: 0 <= i < j < |js| ==> js[i] != js[j]
  }

  lemma {:induction false} GrowAt(p: seq<seq<byte>>, js: seq<nat>, g: Change, j: nat)
    requires Distinct(js) && j < |p| && forall i :: 0 <= i < |js| ==> js[i] < |p|
    ensures Grow(p, js, g)[j] == if j in js then g(p[j]) else p[j]
    decreases |js|
  {
    if js != [] {
      assert forall i :: 0 <= i < |js[1..]| ==> js[1..][i] == js[i + 1];
      GrowAt(p[js[0] := g(p[js[0]])], js[1..], g, j);
    }
  }

  /** The lengths fs are the fields js. */
  ghost predicate PlacedAt(p: seq<seq<byte>>, js: seq<nat>, fs: seq<Len>) {
    |js| == |fs| && forall i :: 0 <= i < |js| ==> js[i] < |p| && fs[i] == Len(Offset(p, js[i]), |p[js[i]]|)
  }

  lemma {:induction false} GrowOne(p: seq<seq<byte>>, j: nat, d: int, at: nat)
    requires j < |p| && at == Offset(p, j)
    ensures at + |p[j]| <= |Flat(p)| && AddAt(Flat(p), at, |p[j]|, d) == Flat(p[j := GrownField(p[j], d)])
    ensures forall i :: 0 <= i <= |p| ==> Offset(p[j := GrownField(p[j], d)], i) == Offset(p, i)
  {
    FieldAt(p, j);
    UintIsFromBe(Flat(p), at, |p[j]|);
    SpliceField(p, j, GrownField(p[j], d));
    SameOffsets(p, p[j := GrownField(p[j], d)]);
  }

  /** Adding at the places of some fields makes those fields grow. */
  lemma {:induction false} AddAllIsGrow(p: seq<seq<byte>>, js: seq<nat>, fs: seq<Len>, d: int, g: Change)
    requires PlacedAt(p, js, fs) && Adds(g, d)
    ensures Within(fs, |Flat(p)|) && AddAll(Flat(p), fs, d) == Flat(Grow(p, js, g))
    decreases |js|
  {
    if js != [] {
      var j := js[0];
      var q := p[j := GrownField(p[j], d)];
      assert fs[0] == Len(Offset(p, j), |p[j]|);
      assert Shown(p[j]);
      GrowOne(p, j, d, fs[0].at);
      assert PlacedAt(q, js[1..], fs[1..]) by {
        forall i | 0 <= i < |js| - 1
          ensures js[1..][i] < |q| && fs[1..][i] == Len(Offset(q, js[1..][i]), |q[js[1..][i]]|)
        {
          assert fs[i + 1] == Len(Offset(p, js[i + 1]), |p[js[i + 1]]|);
        }
      }
      AddAllIsGrow(q, js[1..], fs[1..], d, g);
      assert Flat(q) == AddAt(Flat(p), fs[0].at, fs[0].size, d);
      WithinTail(fs, |Flat(p)|);
    }
  }

  lemma {:induction false} WithinTail(fs: seq<Len>, n: nat)
    requires fs != [] && fs[0].at + fs[0].size <= n && Within(fs[1..], n)
    ensures Within(fs, n)
  {
    assert forall i :: 1 <= i < |fs| ==> fs[i] == fs[1..][i - 1];
  }

  /** Fields of the same lengths start at the same places. */
  lemma {:induction false} SameOffsets(p: seq<seq<byte>>, q: seq<seq<byte>>)
    requires |p| == |q| && forall k :: 0 <= k < |p| ==> |p[k]| == |q[k]|
    ensures forall i :: 0 <= i <= |p| ==> Offset(q, i) == Offset(p, i)
  {
    forall i | 0 <= i <= |p|
      ensures Offset(q, i) == Offset(p, i)
    {
      OffsetBefore(p, q, i);
    }
  }
}

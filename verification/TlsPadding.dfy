/** The padencap modification of TLSMod: a payload wrapped in the padding extension (RFC 7685, section 3). */
module TlsPadding {
  import opened Blocks
  import opened Pieces
  import opened Tls
  import opened TlsMeaning
  import opened TlsMod
  import opened Words

  /** Is the padding extension absent, or the last one? */
  predicate PaddingAtEnd(exts: seq<Ext>) {
    Lookup(exts, PADDING) + 1 >= |exts|
  }

  /** The hello with data added to its padding. */
  function Padded(h: ClientHello, data: seq<byte>): ClientHello {
    h.(exts := PaddedExts(h.exts, data))
  }

  function PaddedExts(exts: seq<Ext>, data: seq<byte>): seq<Ext> {
    var i := Lookup(exts, PADDING);
    if i == |exts| then exts + [Ext(PADDING, data)] else exts[i := Ext(PADDING, exts[i].body + data)]
  }

  /** The extensions when the last one has more data. */
  lemma {:induction false} LongerLast(exts: seq<Ext>, data: seq<byte>, i: nat, x: seq<Ext>)
    requires i + 1 == |exts| && exts[i].etype == PADDING && x == exts[i := Ext(PADDING, exts[i].body + data)]
    ensures |EncodeExts(x)| == |EncodeExts(exts)| + |data|
    ensures EncodeExts(x) ==
      EncodeExts(exts[..i]) + Be(PADDING, 2) + Be(|exts[i].body| + |data|, 2) + exts[i].body + data
  {
    ExtsAround(x, i);
    ExtsAround(exts, i);
    assert x[..i] == exts[..i] && x[i + 1..] == exts[i + 1..] == [];
    LastExt(EncodeExts(exts[..i]), Be(PADDING, 2), Be(|exts[i].body| + |data|, 2), exts[i].body, data);
  }

  lemma {:induction false} PaddedSize(exts: seq<Ext>, data: seq<byte>)
    requires PaddingAtEnd(exts)
    ensures |EncodeExts(PaddedExts(exts, data))| ==
      |EncodeExts(exts)| + |data| + (if Lookup(exts, PADDING) == |exts| then 4 else 0)
    ensures Lookup(exts, PADDING) < |exts| ==>
      var n := |exts| - 1;
      EncodeExts(PaddedExts(exts, data)) ==
        EncodeExts(exts[..n]) + Be(PADDING, 2) + Be(|exts[n].body| + |data|, 2) + exts[n].body + data
  {
    var i := Lookup(exts, PADDING);
    if i == |exts| {
      ExtsAppend(exts, [Ext(PADDING, data)]);
      assert EncodeExts([Ext(PADDING, data)]) == EncodeExt(Ext(PADDING, data));
    } else {
      LongerLast(exts, data, i, PaddedExts(exts, data));
    }
  }

  lemma {:induction false} LastExt(a: seq<byte>, b: seq<byte>, c: seq<byte>, d: seq<byte>, e: seq<byte>)
    ensures a + (b + c + (d + e)) + [] == a + b + c + d + e
  {
  }

  /** Only the total length can be too much for the fields. */
  lemma {:induction false} PaddedFits(h: ClientHello, data: seq<byte>)
    requires Fits(h) && PaddingAtEnd(h.exts)
    ensures Fits(Padded(h, data)) <==> HandshakeSize(Padded(h, data)) + 4 < 0x1_0000
  {
    var h' := Padded(h, data);
    PaddedSize(h.exts, data);
    var i := Lookup(h.exts, PADDING);
    if HandshakeSize(h') + 4 < 0x1_0000 {
      forall j | 0 <= j < |h'.exts|
        ensures FitsExt(h'.exts[j])
      {
        if j < |h.exts| {
          assert FitsExt(h.exts[j]);
        }
      }
    }
  }

  /** The hello cut into fields around the length of its padding. */
  lemma {:induction false} CutAtPadding(h: ClientHello, i: nat) returns (p: seq<seq<byte>>)
    requires Fits(h) && i + 1 == |h.exts| && h.exts[i].etype == PADDING
    ensures Starts(p, h, HandshakeSize(h), |EncodeExts(h.exts)|) && Flat(p) == Encode(h)
    ensures p[12..] == [EncodeExts(h.exts[..i]), Be(PADDING, 2), Be(|h.exts[i].body|, 2), h.exts[i].body]
    ensures Offset(p, 14) == LengthAt(h) + BodyAt(h.exts, i)
      && |Flat(p)| == LengthAt(h) + 2 + BodyAt(h.exts, i) + |h.exts[i].body|
  {
    var size, e := HandshakeSize(h), |EncodeExts(h.exts)|;
    var a, b, c, d := EncodeExts(h.exts[..i]), Be(PADDING, 2), Be(|h.exts[i].body|, 2), h.exts[i].body;
    p := Head(h, size, e) + [a, b, c, d];
    FieldsStart(h, p, [a, b, c, d], size, e);
    ExtsAround(h.exts, i);
    assert h.exts[i + 1..] == [];
    FlatOfFour(a, b, c, d);
    EncodeFrom(h, p);
    HelloOffsets(h, p, size, e);
    assert p[12] == a && p[13] == b && p[14] == c && p[15] == d;
    EndOffsets(p);
  }

  lemma {:induction false} EndOffsets(p: seq<seq<byte>>)
    requires |p| == 16
    ensures Offset(p, 14) == Offset(p, 12) + |p[12]| + |p[13]| && |Flat(p)| == Offset(p, 14) + |p[14]| + |p[15]|
  {
    assert Offset(p, 13) == Offset(p, 12) + |p[12]|;
    assert Offset(p, 14) == Offset(p, 13) + |p[13]|;
    OffsetIsLength(p, 16);
    assert p[..16] == p;
    assert Offset(p, 16) == Offset(p, 15) + |p[15]|;
    assert Offset(p, 15) == Offset(p, 14) + |p[14]|;
  }

  lemma {:induction false} FlatOfFour(a: seq<byte>, b: seq<byte>, c: seq<byte>, d: seq<byte>)
    ensures Flat([a, b, c, d]) == a + (b + c + d) + []
  {
    FlatAppend([a, b], [c, d]);
    assert [a, b] + [c, d] == [a, b, c, d];
    FlatOfTwo(a, b);
    FlatOfTwo(c, d);
  }

  lemma {:induction false} GrowFour(p: seq<seq<byte>>, a: nat, b: nat, c: nat, d: nat, g: Change)
    requires a < b < c < d < |p|
    ensures Grow(p, [a, b, c, d], g) == p[a := g(p[a])][b := g(p[b])][c := g(p[c])][d := g(p[d])]
  {
    var js, q := [a, b, c, d], p[a := g(p[a])][b := g(p[b])][c := g(p[c])][d := g(p[d])];
    forall j | 0 <= j < |p|
      ensures Grow(p, js, g)[j] == q[j]
    {
      GrowAt(p, js, g, j);
    }
  }

  /** The bytes after the four lengths have grown, as fields. */
  lemma {:induction false} GrowPaddingFields(p: seq<seq<byte>>, eo: nat, padlen: nat, n: nat, g: Change)
    returns (q: seq<seq<byte>>)
    requires Adds(g, n) && |p| == 16 && |p[1]| == 2 && |p[3]| == 3 && |p[11]| == 2 && |p[14]| == 2
    requires Offset(p, 1) == 3 && Offset(p, 3) == 6 && Offset(p, 11) == eo && Offset(p, 14) == padlen
    ensures Within(HelloLens(eo) + [Len(padlen, 2)], |Flat(p)|)
      && AddAll(Flat(p), HelloLens(eo) + [Len(padlen, 2)], n) == Flat(q)
    ensures |q| == 16 && HeadChanged(p, q, g) && q[12] == p[12] && q[13] == p[13] && q[14] == g(p[14]) && q[15] == p[15]
  {
    assert PlacedAt(p, [1, 3, 11, 14], HelloLens(eo) + [Len(padlen, 2)]);
    AddAllIsGrow(p, [1, 3, 11, 14], HelloLens(eo) + [Len(padlen, 2)], n, g);
    q := Grow(p, [1, 3, 11, 14], g);
    GrowFour(p, 1, 3, 11, 14, g);
  }

  /** The lengths that GrowPadding reads. */
  lemma {:induction false} PaddingLengths(h: ClientHello, p: seq<seq<byte>>, size: nat, e: nat, b: nat, padlen: nat)
    requires |h.sid| < 256 && |h.compression| < 256 && |h.random| == 32 && Starts(p, h, size, e) && |p| == 16
    requires size + 4 < 0x1_0000 && e < 0x1_0000 && b < 0x1_0000 && p[14] == Be(b, 2) && Offset(p, 14) == padlen
    ensures LengthAt(h) + 2 <= |Flat(p)| && padlen + 2 <= |Flat(p)|
    ensures UintAt(Flat(p), 3, 2) == size + 4 && UintAt(Flat(p), 6, 3) == size && UintAt(Flat(p), LengthAt(h), 2) == e
      && UintAt(Flat(p), padlen, 2) == b
  {
    assert Pow256(2) == 0x1_0000 && Pow256(3) == 0x100_0000;
    HelloOffsets(h, p, size, e);
    NumberField(p, 1, 3, size + 4, 2);
    NumberField(p, 3, 6, size, 3);
    NumberField(p, 11, LengthAt(h), e, 2);
    NumberField(p, 14, padlen, b, 2);
  }

  /** The extensions with a longer padding, as fields. */
  lemma {:induction false} PaddedTail(h: ClientHello, i: nat, data: seq<byte>, p: seq<seq<byte>>, q: seq<seq<byte>>,
      g: Change)
    requires i + 1 == |h.exts| && Lookup(h.exts, PADDING) == i && Adds(g, |data|)
      && |h.exts[i].body| + |data| < 0x1_0000
    requires |q| == |p| == 16
      && p[12..] == [EncodeExts(h.exts[..i]), Be(PADDING, 2), Be(|h.exts[i].body|, 2), h.exts[i].body]
    requires q[12] == p[12] && q[13] == p[13] && q[14] == g(p[14]) && q[15] == p[15]
    ensures Flat((q + [data])[12..]) == EncodeExts(PaddedExts(h.exts, data))
  {
    var n, b := |data|, |h.exts[i].body|;
    PaddedSize(h.exts, data);
    assert Pow256(2) == 0x1_0000;
    PaddingTail(p, EncodeExts(h.exts[..i]), Be(PADDING, 2), Be(b, 2), h.exts[i].body);
    GrownNumber(g, b, 2, n, b + n);
    FiveTail(q, data, EncodeExts(h.exts[..i]), Be(PADDING, 2), Be(b + n, 2), h.exts[i].body);
  }

  /** The fields and the data after them are the padded hello. */
  lemma {:induction false} PaddedFields(h: ClientHello, i: nat, data: seq<byte>, p: seq<seq<byte>>, q: seq<seq<byte>>,
      g: Change)
    requires Fits(h) && i + 1 == |h.exts| && Lookup(h.exts, PADDING) == i && Adds(g, |data|) && Fits(Padded(h, data))
    requires Starts(p, h, HandshakeSize(h), |EncodeExts(h.exts)|) && |q| == |p| == 16
    requires p[12..] == [EncodeExts(h.exts[..i]), Be(PADDING, 2), Be(|h.exts[i].body|, 2), h.exts[i].body]
    requires HeadChanged(p, q, g) && q[12] == p[12] && q[13] == p[13] && q[14] == g(p[14]) && q[15] == p[15]
    ensures Flat(q) + data == Encode(Padded(h, data))
  {
    var r := q + [data];
    PaddedSize(h.exts, data);
    StartsGrown(h, p, q, HandshakeSize(h), |EncodeExts(h.exts)|, |data|, g);
    assert FitsExt(Padded(h, data).exts[i]);
    PaddedTail(h, i, data, p, q, g);
    EncodeFrom(Padded(h, data), r);
    FlatAppend(q, [data]);
    FlatAt([data], 0);
  }

  lemma {:induction false} PaddingTail<T>(p: seq<T>, a: T, b: T, c: T, d: T)
    requires |p| >= 12 && p[12..] == [a, b, c, d]
    ensures |p| == 16 && p[12] == a && p[13] == b && p[14] == c && p[15] == d
  {
  }

  lemma {:induction false} FiveTail(q: seq<seq<byte>>, data: seq<byte>, a: seq<byte>, b: seq<byte>, c: seq<byte>,
      d: seq<byte>)
    requires |q| == 16 && q[12] == a && q[13] == b && q[14] == c && q[15] == d
    ensures Flat((q + [data])[12..]) == a + b + c + d + data
  {
    assert (q + [data])[12..] == [a, b, c, d] + [data];
    FlatAppend([a, b, c, d], [data]);
    FlatOfFour(a, b, c, d);
    FlatAt([data], 0);
  }

  /** GrowPadding succeeds exactly when everything fits, and then makes room for the payload. */
  lemma {:induction false} GrowPaddingMeaning(h: ClientHello, i: nat, data: seq<byte>, padlen: nat, r: Modded)
    requires Fits(h) && i + 1 == |h.exts| && Lookup(h.exts, PADDING) == i && padlen == LengthAt(h) + BodyAt(h.exts, i)
    requires padlen + 2 <= |Encode(h)| && LengthAt(h) + 2 <= |Encode(h)|
      && r == GrowPadding(Encode(h), LengthAt(h), padlen, |data|)
    ensures r.ok <==> Fits(Padded(h, data))
    ensures if r.ok then r.data + data == Encode(Padded(h, data)) else r.data == Encode(h)
  {
    var p := CutAtPadding(h, i);
    var size, e := HandshakeSize(h), |EncodeExts(h.exts)|;
    PaddingTail(p, EncodeExts(h.exts[..i]), Be(PADDING, 2), Be(|h.exts[i].body|, 2), h.exts[i].body);
    assert FitsExt(h.exts[i]);
    PaddingLengths(h, p, size, e, |h.exts[i].body|, padlen);
    PaddedSize(h.exts, data);
    PaddedFits(h, data);
    ExtsAround(h.exts, i);
    if r.ok {
      HelloOffsets(h, p, size, e);
      var g := Adder(|data|);
      var q := GrowPaddingFields(p, LengthAt(h), padlen, |data|, g);
      PaddedFields(h, i, data, p, q, g);
    }
  }

  // ---------------------------------------------------------------------------------------
  // No padding yet
  // ---------------------------------------------------------------------------------------

  lemma {:induction false} GrowThree(p: seq<seq<byte>>, a: nat, b: nat, c: nat, g: Change)
    requires a < b < c < |p|
    ensures Grow(p, [a, b, c], g) == p[a := g(p[a])][b := g(p[b])][c := g(p[c])]
  {
    var js, q := [a, b, c], p[a := g(p[a])][b := g(p[b])][c := g(p[c])];
    forall j | 0 <= j < |p|
      ensures Grow(p, js, g)[j] == q[j]
    {
      GrowAt(p, js, g, j);
    }
  }

  lemma {:induction false} FlatOfThree(a: seq<byte>, b: seq<byte>, c: seq<byte>)
    ensures Flat([a, b, c]) == a + (b + c)
  {
    FlatAppend([a], [b, c]);
    assert [a] + [b, c] == [a, b, c];
    FlatAt([a], 0);
    FlatOfTwo(b, c);
  }

  /** An empty padding extension, written but not yet counted. */
  lemma {:induction false} CutBeforePadding(h: ClientHello) returns (p: seq<seq<byte>>)
    requires Fits(h)
    ensures Starts(p, h, HandshakeSize(h), |EncodeExts(h.exts)|) && Flat(p) == Encode(h) + Be(PADDING, 2) + Be(0, 2)
    ensures |p| == 15 && p[12..] == [EncodeExts(h.exts), Be(PADDING, 2), Be(0, 2)]
  {
    var size, e := HandshakeSize(h), EncodeExts(h.exts);
    var b, c := Be(PADDING, 2), Be(0, 2);
    p := Head(h, size, |e|) + [e, b, c];
    FieldsStart(h, p, [e, b, c], size, |e|);
    assert p == Fields(h) + [b, c];
    FlatAppend(Fields(h), [b, c]);
    FlatOfTwo(b, c);
  }

  lemma {:induction false} LastThree<T>(p: seq<T>, q: seq<T>, a: T, b: T, c: T)
    requires |p| == |q| == 15 && p[12..] == [a, b, c] && q[12] == p[12] && q[13] == p[13] && q[14] == p[14]
    ensures q[12..] == [a, b, c]
  {
    assert p[12] == p[12..][0] && p[13] == p[12..][1] && p[14] == p[12..][2];
  }

  /** The bytes after an empty padding extension was added, as fields. */
  lemma {:induction false} AddPaddingFields(h: ClientHello, g: Change) returns (p: seq<seq<byte>>, q: seq<seq<byte>>)
    requires Fits(h) && Adds(g, 4)
    ensures LengthAt(h) + 2 <= |Encode(h)| && AddPadding(Encode(h), LengthAt(h)) == Flat(q)
    ensures Starts(p, h, HandshakeSize(h), |EncodeExts(h.exts)|) && |p| == 15
    ensures p[12..] == [EncodeExts(h.exts), Be(PADDING, 2), Be(0, 2)]
      && q == p[1 := g(p[1])][3 := g(p[3])][11 := g(p[11])]
  {
    p := CutBeforePadding(h);
    HelloBytes(h, Encode(h));
    HelloOffsets(h, p, HandshakeSize(h), |EncodeExts(h.exts)|);
    assert PlacedAt(p, [1, 3, 11], HelloLens(LengthAt(h)));
    AddAllIsGrow(p, [1, 3, 11], HelloLens(LengthAt(h)), 4, g);
    q := Grow(p, [1, 3, 11], g);
    GrowThree(p, 1, 3, 11, g);
  }

  /** The hello with an empty padding extension at its end. */
  lemma {:induction false} AddPaddingMeaning(h: ClientHello)
    requires Fits(h) && Lookup(h.exts, PADDING) == |h.exts| && Fits(Padded(h, []))
    ensures LengthAt(h) + 2 <= |Encode(h)| && AddPadding(Encode(h), LengthAt(h)) == Encode(Padded(h, []))
  {
    var e := EncodeExts(h.exts);
    var g := Adder(4);
    var p, q := AddPaddingFields(h, g);
    PaddedSize(h.exts, []);
    StartsGrown(h, p, q, HandshakeSize(h), |e|, 4, g);
    LastThree(p, q, e, Be(PADDING, 2), Be(0, 2));
    EncodeNewPadding(h.exts);
    EncodeFrom(Padded(h, []), q);
  }

  lemma {:induction false} EncodeNewPadding(exts: seq<Ext>)
    requires Lookup(exts, PADDING) == |exts|
    ensures Flat([EncodeExts(exts), Be(PADDING, 2), Be(0, 2)]) == EncodeExts(PaddedExts(exts, []))
  {
    FlatOfThree(EncodeExts(exts), Be(PADDING, 2), Be(0, 2));
    ExtsAppend(exts, [Ext(PADDING, [])]);
    assert EncodeExts([Ext(PADDING, [])]) == EncodeExt(Ext(PADDING, []));
    assert Be(PADDING, 2) + Be(0, 2) + [] == Be(PADDING, 2) + Be(0, 2);
  }

  // ---------------------------------------------------------------------------------------
  // The modification as a whole
  // ---------------------------------------------------------------------------------------

  /** Padding twice is padding once. */
  lemma {:induction false} PaddedAgain(h: ClientHello, data: seq<byte>)
    requires Lookup(h.exts, PADDING) == |h.exts|
    ensures Padded(Padded(h, []), data) == Padded(h, data) && Lookup(Padded(h, []).exts, PADDING) == |h.exts|
    ensures LengthAt(Padded(h, [])) == LengthAt(h)
  {
    var x := PaddedExts(h.exts, []);
    assert x[|h.exts|].etype == PADDING;
    assert x[|h.exts| := Ext(PADDING, [] + data)] == PaddedExts(h.exts, data) by {
      assert [] + data == data;
    }
  }

  lemma {:induction false} PaddingPlace(h: ClientHello, i: nat)
    requires Fits(h) && i < |h.exts|
    ensures |Encode(h)| >= LengthAt(h) + 2 + BodyAt(h.exts, i) + |h.exts[i].body|
    ensures |Encode(h)| == LengthAt(h) + 2 + BodyAt(h.exts, i) + |h.exts[i].body| <==> i + 1 == |h.exts|
  {
    HelloBytes(h, Encode(h));
    ExtsAround(h.exts, i);
    assert i + 1 < |h.exts| ==> |EncodeExts(h.exts[i + 1..])| >= 4;
  }

  /** Padding data that is the last thing in the record grows, and other padding data is refused. */
  lemma {:induction false} PadFound(s: seq<byte>, n: nat, eo: nat, cap: nat, f: Found, r: Modded, padlen: nat,
      last: bool)
    requires f == TLSFindExt(s, PADDING, false) && f.FoundAt? && 43 < eo && eo + 2 <= |s| && f.pos <= |s|
    requires f.pos == padlen + 2 && last == (f.pos + f.len == |s|) && r == ModPad(s, n, eo, cap)
    ensures r == if last then GrowPadding(s, eo, padlen, n) else Modded(false, s)
  {
  }

  lemma {:induction false} PresentPlace(h: ClientHello, s: seq<byte>, i: nat, f: Found)
    requires Fits(h) && s == Encode(h) && i == Lookup(h.exts, PADDING) < |h.exts| && f == TLSFindExt(s, PADDING, false)
    ensures f.FoundAt? && f.pos == LengthAt(h) + BodyAt(h.exts, i) + 2 && 43 < LengthAt(h) && f.pos <= |s|
    ensures f.pos + f.len == |s| <==> i + 1 == |h.exts|
  {
    FindExtOfEncode(h, s, PADDING, false);
    PaddingPlace(h, i);
  }

  /** Padding that is there and last grows; padding that is there and not last is refused. */
  lemma {:induction false} ModPresentPadding(h: ClientHello, s: seq<byte>, data: seq<byte>, cap: nat, r: Modded)
    requires Fits(h) && s == Encode(h) && Lookup(h.exts, PADDING) < |h.exts|
    requires LengthAt(h) + 2 <= |s| && r == ModPad(s, |data|, LengthAt(h), cap)
    ensures r.ok <==> PaddingAtEnd(h.exts) && Fits(Padded(h, data))
    ensures if r.ok then r.data + data == Encode(Padded(h, data)) else r.data == s
  {
    var i := Lookup(h.exts, PADDING);
    var f, padlen := TLSFindExt(s, PADDING, false), LengthAt(h) + BodyAt(h.exts, i);
    PresentPlace(h, s, i, f);
    PadFound(s, |data|, LengthAt(h), cap, f, r, padlen, i + 1 == |h.exts|);
    if i + 1 == |h.exts| {
      GrowPaddingMeaning(h, i, data, padlen, r);
    }
  }

  /** No padding, and room for an empty one: it is added and grown, if the payload fits too. */
  lemma {:induction false} ModNewPadding(h: ClientHello, s: seq<byte>, data: seq<byte>, cap: nat, r: Modded)
    requires Fits(h) && s == Encode(h) && Lookup(h.exts, PADDING) == |h.exts| && Fits(Padded(h, [])) && |s| + 4 <= cap
    requires LengthAt(h) + 2 <= |s| && r == ModPad(s, |data|, LengthAt(h), cap)
    ensures r.ok <==> Fits(Padded(h, data))
    ensures if r.ok then r.data + data == Encode(Padded(h, data)) else r.data == Encode(Padded(h, []))
  {
    var h0, i := Padded(h, []), |h.exts|;
    FindExtOfEncode(h, s, PADDING, false);
    AddPaddingMeaning(h);
    PaddedAgain(h, data);
    PaddingPlace(h0, i);
    assert h0.exts[..i] == h.exts;
    HelloBytes(h, s);
    GrowPaddingMeaning(h0, i, data, |s| + 2, r);
  }

  // ---------------------------------------------------------------------------------------
  // Lengths that wrap
  // ---------------------------------------------------------------------------------------

  /** A record never says that it is longer than its length field can tell. */
  lemma {:induction false} RecordLenBound(s: seq<byte>)
    requires |s| >= 5
    ensures RecordLen(s) < 0x1_0005
  {
    BytesOfUint(s, 3, 2);
    assert Pow256(2) == 0x1_0000;
  }

  /**
    The lengths after an empty padding was added to a hello that has no room for it: that of the
    record has wrapped.
   */
  lemma {:induction false} WrappedLengths(h: ClientHello, s: seq<byte>)
    requires Fits(h) && Lookup(h.exts, PADDING) == |h.exts| && !Fits(Padded(h, []))
    requires LengthAt(h) + 2 <= |Encode(h)| && s == AddPadding(Encode(h), LengthAt(h))
    ensures UintAt(s, 3, 2) == HandshakeSize(h) + 8 - 0x1_0000 && UintAt(s, 6, 3) == HandshakeSize(h) + 4
    ensures UintAt(s, LengthAt(h), 2) == |EncodeExts(h.exts)| + 4 && UintAt(s, |s| - 2, 2) == 0
  {
    var size, e := HandshakeSize(h), |EncodeExts(h.exts)|;
    PaddedSize(h.exts, []);
    PaddedFits(h, []);
    var g := Adder(4);
    var p, q := AddPaddingFields(h, g);
    WrappedNumbers(p, q, g, size, e);
    HelloOffsets(h, p, size, e);
    SameSizes(p, q);
    assert p[14] == p[12..][2];
    WrappedFields(q, LengthAt(h), size, e);
  }

  /** Of the three lengths only that of the record has no room for four more bytes. */
  lemma {:induction false} WrappedNumbers(p: seq<seq<byte>>, q: seq<seq<byte>>, g: Change, size: nat, e: nat)
    requires |p| == 15 && p[1] == Be(size + 4, 2) && p[3] == Be(size, 3) && p[11] == Be(e, 2) && Adds(g, 4)
    requires q == p[1 := g(p[1])][3 := g(p[3])][11 := g(p[11])] && 0xFFFC <= size + 4 < 0x1_0000 && e + 4 < 0x1_0000
    ensures q[1] == Be(size + 8 - 0x1_0000, 2) && q[3] == Be(size + 4, 3) && q[11] == Be(e + 4, 2)
    ensures |q[1]| == |p[1]| && |q[3]| == |p[3]| && |q[11]| == |p[11]|
  {
    assert Pow256(2) == 0x1_0000 && Pow256(3) == 0x100_0000;
    CutNumber(g, size + 4, 2, 4);
    BeWraps(size + 8 - 0x1_0000, 2, size + 8);
    GrownNumber(g, size, 3, 4, size + 4);
    GrownNumber(g, e, 2, 4, e + 4);
  }

  lemma {:induction false} SameSizes(p: seq<seq<byte>>, q: seq<seq<byte>>)
    requires |p| == |q| == 15 && q == p[1 := q[1]][3 := q[3]][11 := q[11]]
    requires |q[1]| == |p[1]| && |q[3]| == |p[3]| && |q[11]| == |p[11]|
    ensures forall i :: 0 <= i <= |p| ==> Offset(q, i) == Offset(p, i)
  {
    SameOffsets(p, q);
  }

  /** Where a reader finds the four lengths. */
  lemma {:induction false} WrappedFields(q: seq<seq<byte>>, eo: nat, size: nat, e: nat)
    requires |q| == 15 && Offset(q, 1) == 3 && Offset(q, 3) == 6 && Offset(q, 11) == eo && q[14] == Be(0, 2)
    requires 0xFFFC <= size + 4 < 0x1_0000 && e + 4 < 0x1_0000
    requires q[1] == Be(size + 8 - 0x1_0000, 2) && q[3] == Be(size + 4, 3) && q[11] == Be(e + 4, 2)
    ensures |Flat(q)| >= eo + 2 && |Flat(q)| >= 9 && UintAt(Flat(q), 3, 2) == size + 8 - 0x1_0000
      && UintAt(Flat(q), 6, 3) == size + 4
    ensures UintAt(Flat(q), eo, 2) == e + 4 && UintAt(Flat(q), |Flat(q)| - 2, 2) == 0
  {
    assert Pow256(2) == 0x1_0000 && Pow256(3) == 0x100_0000;
    NumberField(q, 1, 3, size + 8 - 0x1_0000, 2);
    NumberField(q, 3, 6, size + 4, 3);
    NumberField(q, 11, eo, e + 4, 2);
    NumberField(q, 14, Offset(q, 14), 0, 2);
    FlatAt(q, 14);
    assert q[15..] == [];
  }

  /**
    The stored record length wraps without a word when the hello is within four bytes of the
    longest, and the payload is short.
   */
  lemma {:induction false} ModWrappedPadding(h: ClientHello, s: seq<byte>, data: seq<byte>, cap: nat, r: Modded)
    requires Fits(h) && s == Encode(h) && Lookup(h.exts, PADDING) == |h.exts| && !Fits(Padded(h, [])) && |s| + 4 <= cap
    requires LengthAt(h) + 2 <= |s| && r == ModPad(s, |data|, LengthAt(h), cap)
    ensures r.ok <==> |EncodeExts(h.exts)| + 4 + |data| < 0x1_0000
    ensures RecordLen(r.data + data) < |r.data + data|
  {
    FindExtOfEncode(h, s, PADDING, false);
    WrappedLengths(h, AddPadding(s, LengthAt(h)));
    PaddedSize(h.exts, []);
    PaddedFits(h, []);
    HelloBytes(h, s);
    RecordLenBound(r.data + data);
  }

  /**
    padencap is right, for every hello, exactly when the padding is absent or last, the buffer
    has room for a new padding header, and the padded hello fits its length fields.
   */
  lemma {:induction false} PadencapIff(h: ClientHello, s: seq<byte>, data: seq<byte>, cap: nat, r: Modded)
    requires Fits(h) && s == Encode(h) && LengthAt(h) + 2 <= |s| && r == ModPad(s, |data|, LengthAt(h), cap)
    ensures r.ok && RecordLen(r.data + data) == |r.data + data| <==>
      PaddingAtEnd(h.exts) && Fits(Padded(h, data)) && (Lookup(h.exts, PADDING) == |h.exts| ==> |s| + 4 <= cap)
    ensures r.ok && RecordLen(r.data + data) == |r.data + data| ==> r.data + data == Encode(Padded(h, data))
  {
    if Lookup(h.exts, PADDING) < |h.exts| {
      ModPresentPadding(h, s, data, cap, r);
    } else if |s| + 4 > cap {
      FindExtOfEncode(h, s, PADDING, false);
    } else if Fits(Padded(h, [])) {
      ModNewPadding(h, s, data, cap, r);
    } else {
      ModWrappedPadding(h, s, data, cap, r);
      SizesGrow(h, data);
    }
    if PaddingAtEnd(h.exts) && Fits(Padded(h, data)) {
      HelloOfEncode(Padded(h, data), Encode(Padded(h, data)));
    }
  }

  lemma {:induction false} SizesGrow(h: ClientHello, data: seq<byte>)
    requires Fits(h) && PaddingAtEnd(h.exts) && !Fits(Padded(h, []))
    ensures !Fits(Padded(h, data))
  {
    PaddedSize(h.exts, []);
    PaddedSize(h.exts, data);
    PaddedFits(h, []);
    PaddedFits(h, data);
  }

  /** A hello for which padencap reports success and leaves a record length that has wrapped to 0. */
  lemma {:induction false} PadencapWraps() returns (h: ClientHello, r: Modded)
    ensures Fits(h) && LengthAt(h) + 2 <= |Encode(h)| && r == ModPad(Encode(h), 0, LengthAt(h), |Encode(h)| + 4)
    ensures r.ok && RecordLen(r.data) < |r.data|
  {
    h := ClientHello(1, 3, Zeros(32), [], Zeros(0xFFCF), [0], []);
    HelloBytes(h, Encode(h));
    r := ModPad(Encode(h), 0, LengthAt(h), |Encode(h)| + 4);
    PaddedSize(h.exts, []);
    ModWrappedPadding(h, Encode(h), [], |Encode(h)| + 4, r);
    assert r.data + [] == r.data;
  }

  // ---------------------------------------------------------------------------------------
  // What the receiver finds
  // ---------------------------------------------------------------------------------------

  /** The data of an extension is where it is found. */
  lemma {:induction false} BodyOfExt(h: ClientHello, i: nat, pos: nat)
    requires Fits(h) && i < |h.exts| && pos == LengthAt(h) + 2 + BodyAt(h.exts, i)
    ensures pos + |h.exts[i].body| <= |Encode(h)| && Encode(h)[pos..pos + |h.exts[i].body|] == h.exts[i].body
  {
    var s, e := Encode(h), h.exts[i];
    HelloBytes(h, s);
    ExtsAround(h.exts, i);
    TailSlice(s, LengthAt(h) + 2, EncodeExts(h.exts[..i]), Be(e.etype, 2) + Be(|e.body|, 2), e.body,
      EncodeExts(h.exts[i + 1..]));
  }

  lemma {:induction false} TailSlice<T>(s: seq<T>, at: nat, a: seq<T>, b: seq<T>, c: seq<T>, d: seq<T>)
    requires at <= |s| && s[at..] == a + (b + c) + d
    ensures s[at + |a| + |b|..at + |a| + |b| + |c|] == c
  {
    SubSlice(s, at, s[at..], |a| + |b|, |a| + |b| + |c|);
  }

  /** The receiver of fake and payload finds the payload behind the old padding. */
  lemma {:induction false} PaddingCarriesPayload(h: ClientHello, data: seq<byte>, f: Found)
    requires Fits(h) && PaddingAtEnd(h.exts) && Fits(Padded(h, data))
      && f == TLSFindExt(Encode(Padded(h, data)), PADDING, false)
    ensures f.FoundAt? && f.pos + f.len == |Encode(Padded(h, data))|
    ensures Encode(Padded(h, data))[f.pos..] ==
      (if Lookup(h.exts, PADDING) == |h.exts| then [] else h.exts[|h.exts| - 1].body) + data
  {
    var h', i := Padded(h, data), Lookup(h.exts, PADDING);
    assert h'.exts[i].etype == PADDING && forall j :: 0 <= j < i ==> h'.exts[j] == h.exts[j];
    assert Lookup(h'.exts, PADDING) == i;
    FindExtOfEncode(h', Encode(h'), PADDING, false);
    PaddingPlace(h', i);
    BodyOfExt(h', i, f.pos);
    assert Encode(h')[f.pos..f.pos + f.len] == Encode(h')[f.pos..];
    assert [] + data == data;
  }

  /** Every other extension is found where it was. */
  lemma {:induction false} OthersStay(h: ClientHello, data: seq<byte>, etype: nat)
    requires Fits(h) && PaddingAtEnd(h.exts) && Fits(Padded(h, data)) && etype != PADDING
    ensures TLSFindExt(Encode(Padded(h, data)), etype, false) == TLSFindExt(Encode(h), etype, false)
  {
    var h' := Padded(h, data);
    var i, j := Lookup(h.exts, etype), Lookup(h'.exts, etype);
    FindExtOfEncode(h, Encode(h), etype, false);
    FindExtOfEncode(h', Encode(h'), etype, false);
    assert forall k :: 0 <= k < |h.exts| ==> h'.exts[k].etype == h.exts[k].etype;
    if i < |h.exts| {
      assert i == j;
      assert h'.exts[..i] == h.exts[..i];
    } else {
      assert j == |h'.exts|;
    }
  }
}

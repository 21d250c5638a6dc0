/** What TLSMod makes of a well-formed ClientHello: again a well-formed ClientHello. */
module TlsMeaning {
  import opened Blocks
  import opened Pieces
  import opened Tls
  import opened TlsMod
  import opened Words

  // ---------------------------------------------------------------------------------------
  // Fields of a hello that change
  // ---------------------------------------------------------------------------------------

  /** Fields that start like those of a hello, and go on with its extensions, are the hello. */
  lemma {:induction false} EncodeFrom(h: ClientHello, p: seq<seq<byte>>)
    requires Fits(h) && Starts(p, h, HandshakeSize(h), |EncodeExts(h.exts)|) && Flat(p[12..]) == EncodeExts(h.exts)
    ensures Flat(p) == Encode(h)
  {
    var head := Head(h, HandshakeSize(h), |EncodeExts(h.exts)|);
    assert p[..12] == head;
    assert p == p[..12] + p[12..];
    FlatAppend(head, p[12..]);
    FlatAppend(head, [EncodeExts(h.exts)]);
    FlatAt([EncodeExts(h.exts)], 0);
  }

  /**
    The lengths of the record, the handshake and the extensions are changed by g, the other fields
    before the extensions are not.
   */
  ghost predicate HeadChanged(p: seq<seq<byte>>, q: seq<seq<byte>>, g: Change)
    requires |p| == |q| >= 13
  {
    && q[0] == p[0] && q[1] == g(p[1]) && q[2] == p[2] && q[3] == g(p[3]) && q[4] == p[4] && q[5] == p[5]
    && q[6] == p[6] && q[7] == p[7] && q[8] == p[8] && q[9] == p[9] && q[10] == p[10] && q[11] == g(p[11])
  }

  /** When the three lengths grow by d, the fields start like those of a hello that is d bytes longer. */
  lemma {:induction false} StartsGrown(h: ClientHello, p: seq<seq<byte>>, q: seq<seq<byte>>, size: nat, e: nat, d: int,
      g: Change)
    requires |h.sid| < 256 && |h.compression| < 256 && Starts(p, h, size, e) && |q| == |p| && Adds(g, d)
      && HeadChanged(p, q, g)
    requires 0 <= size + d && size + 4 < 0x1_0000 && size + 4 + d < 0x1_0000 && 0 <= e + d < 0x1_0000 && e < 0x1_0000
    ensures Starts(q, h, size + d, e + d)
  {
    assert Pow256(2) == 0x1_0000 && Pow256(3) == 0x100_0000;
    GrownNumber(g, size + 4, 2, d, size + d + 4);
    GrownNumber(g, size, 3, d, size + d);
    GrownNumber(g, e, 2, d, e + d);
  }

  // ---------------------------------------------------------------------------------------
  // A new host name
  // ---------------------------------------------------------------------------------------

  /** SNI data: the length of the name list, the name type, the length of the name, the name, and what follows it. */
  function SniBody(l: nat, name: seq<byte>, rest: seq<byte>): seq<byte> {
    Be(l, 2) + [0] + Be(|name|, 2) + name + rest
  }

  /** SNI data with another name; the length of the list changes as much as that of the name. */
  function WithHost(body: seq<byte>, host: seq<byte>): seq<byte>
    requires HostInSni(body).FoundAt?
  {
    var n := HostInSni(body).len;
    SniBody(Cut(UintAt(body, 0, 2) + |host| - n, 2), host, body[5 + n..])
  }

  lemma {:induction false} BodyParts(body: seq<byte>, n: nat)
    requires HostInSni(body) == FoundAt(5, n)
    ensures body == SniBody(UintAt(body, 0, 2), body[5..5 + n], body[5 + n..]) && UintAt(body, 0, 2) < 0x1_0000
      && n < 0x1_0000
  {
    BytesOfUint(body, 0, 2);
    BytesOfUint(body, 3, 2);
    assert Pow256(2) == 0x1_0000;
    assert body == body[0..2] + [0] + body[3..5] + body[5..5 + n] + body[5 + n..];
  }

  lemma {:induction false} BytesOfUint(s: seq<byte>, p: nat, k: nat)
    requires p + k <= |s|
    ensures s[p..p + k] == Be(UintAt(s, p, k), k) && UintAt(s, p, k) < Pow256(k)
  {
    UintIsFromBe(s, p, k);
    BeFromBe(s[p..p + k]);
    FromBeBound(s[p..p + k]);
  }

  /** The extensions as fields, with those of the SNI extension at i set apart. */
  function SniFields(exts: seq<Ext>, i: nat, l: nat, name: seq<byte>, rest: seq<byte>): seq<seq<byte>>
    requires i < |exts|
  {
    [EncodeExts(exts[..i]), Be(0, 2), Be(5 + |name| + |rest|, 2), Be(l, 2), [0], Be(|name|, 2), name, rest,
      EncodeExts(exts[i + 1..])]
  }

  lemma {:induction false} FlatOfNine(a: seq<byte>, b: seq<byte>, c: seq<byte>, d: seq<byte>, e: seq<byte>,
      f: seq<byte>, g: seq<byte>, h: seq<byte>, i: seq<byte>)
    ensures Flat([a, b, c, d, e, f, g, h, i]) == a + (b + c + (d + e + f + g + h)) + i
  {
    FlatAppend([a], [b, c, d, e, f, g, h, i]);
    FlatAppend([b, c], [d, e, f, g, h, i]);
    FlatAppend([d, e], [f, g, h, i]);
    FlatAppend([f, g], [h, i]);
    assert [a] + [b, c, d, e, f, g, h, i] == [a, b, c, d, e, f, g, h, i];
    assert [b, c] + [d, e, f, g, h, i] == [b, c, d, e, f, g, h, i];
    assert [d, e] + [f, g, h, i] == [d, e, f, g, h, i];
    assert [f, g] + [h, i] == [f, g, h, i];
    FlatOfTwo(b, c);
    FlatOfTwo(d, e);
    FlatOfTwo(f, g);
    FlatOfTwo(h, i);
    FlatAt([a], 0);
    NineInThree(a, b, c, d, e, f, g, h, i);
  }

  lemma {:induction false} NineInThree<T>(a: seq<T>, b: seq<T>, c: seq<T>, d: seq<T>, e: seq<T>, f: seq<T>, g: seq<T>,
      h: seq<T>, i: seq<T>)
    ensures a + ((b + c) + ((d + e) + ((f + g) + (h + i)))) == a + (b + c + (d + e + f + g + h)) + i
  {
  }

  lemma {:induction false} FlatOfTwo(a: seq<byte>, b: seq<byte>)
    ensures Flat([a, b]) == a + b
  {
    FlatAppend([a], [b]);
    FlatAt([a], 0);
    FlatAt([b], 0);
  }

  lemma {:induction false} SniFieldsFlat(exts: seq<Ext>, i: nat, l: nat, name: seq<byte>, rest: seq<byte>)
    requires i < |exts| && exts[i] == Ext(0, SniBody(l, name, rest))
    ensures Flat(SniFields(exts, i, l, name, rest)) == EncodeExts(exts)
  {
    FlatOfNine(EncodeExts(exts[..i]), Be(0, 2), Be(5 + |name| + |rest|, 2), Be(l, 2), [0], Be(|name|, 2), name, rest,
      EncodeExts(exts[i + 1..]));
    ExtsAround(exts, i);
  }

  lemma {:induction false} ExtsAround(exts: seq<Ext>, i: nat)
    requires i < |exts|
    ensures EncodeExts(exts) == EncodeExts(exts[..i]) + EncodeExt(exts[i]) + EncodeExts(exts[i + 1..])
  {
    assert exts == exts[..i] + exts[i..] && exts[i..][1..] == exts[i + 1..];
    ExtsAppend(exts[..i], exts[i..]);
  }

  lemma {:induction false} TailOffsets(p: seq<seq<byte>>)
    requires |p| == 21
    ensures Offset(p, 13) == Offset(p, 12) + |p[12]| && Offset(p, 14) == Offset(p, 13) + |p[13]|
      && Offset(p, 15) == Offset(p, 14) + |p[14]|
    ensures Offset(p, 16) == Offset(p, 15) + |p[15]| && Offset(p, 17) == Offset(p, 16) + |p[16]|
      && Offset(p, 18) == Offset(p, 17) + |p[17]|
  {
  }

  /** The hello with another host name in its SNI extension at i. */
  function HelloWithHost(h: ClientHello, i: nat, host: seq<byte>): ClientHello
    requires i < |h.exts| && HostInSni(h.exts[i].body).FoundAt?
  {
    h.(exts := h.exts[i := Ext(h.exts[i].etype, WithHost(h.exts[i].body, host))])
  }

  lemma {:induction false} SizesWithHost(h: ClientHello, i: nat, host: seq<byte>, n: nat)
    requires i < |h.exts| && HostInSni(h.exts[i].body) == FoundAt(5, n)
    ensures |EncodeExts(HelloWithHost(h, i, host).exts)| == |EncodeExts(h.exts)| + |host| - n
    ensures HandshakeSize(HelloWithHost(h, i, host)) == HandshakeSize(h) + |host| - n
  {
    var x := HelloWithHost(h, i, host).exts;
    BodyParts(h.exts[i].body, n);
    ExtsAround(h.exts, i);
    ExtsAround(x, i);
    assert x[..i] == h.exts[..i] && x[i + 1..] == h.exts[i + 1..];
  }

  /** The hello cut into fields around its host name. */
  lemma {:induction false} CutAtHost(h: ClientHello, i: nat, n: nat, l: nat, name: seq<byte>, rest: seq<byte>)
    returns (p: seq<seq<byte>>)
    requires Fits(h) && i < |h.exts| && h.exts[i] == Ext(0, SniBody(l, name, rest))
    ensures Starts(p, h, HandshakeSize(h), |EncodeExts(h.exts)|) && p[12..] == SniFields(h.exts, i, l, name, rest)
      && Flat(p) == Encode(h)
    ensures var ext := LengthAt(h) + 2 + BodyAt(h.exts, i);
      |p| == 21 && Offset(p, 14) == ext - 2 && Offset(p, 15) == ext && Offset(p, 17) == ext + 3
        && Offset(p, 18) == ext + 5
  {
    var size, e := HandshakeSize(h), |EncodeExts(h.exts)|;
    p := Head(h, size, e) + SniFields(h.exts, i, l, name, rest);
    FieldsStart(h, p, SniFields(h.exts, i, l, name, rest), size, e);
    SniFieldsFlat(h.exts, i, l, name, rest);
    EncodeFrom(h, p);
    HelloOffsets(h, p, size, e);
    TailOffsets(p);
    TailFields(p, SniFields(h.exts, i, l, name, rest));
  }

  lemma {:induction false} TailFields(p: seq<seq<byte>>, t: seq<seq<byte>>)
    requires |p| == 21 && p[12..] == t
    ensures p[12] == t[0] && p[13] == t[1] && p[14] == t[2] && p[15] == t[3] && p[16] == t[4] && p[17] == t[5]
      && p[18] == t[6]
    ensures p[19] == t[7] && p[20] == t[8]
  {
  }

  /** The length of the SNI extension and the two lengths in it are changed by g, and the name is host. */
  ghost predicate TailChanged(p: seq<seq<byte>>, q: seq<seq<byte>>, host: seq<byte>, g: Change)
    requires |p| == |q| == 21
  {
    && q[12] == p[12] && q[13] == p[13] && q[14] == g(p[14]) && q[15] == g(p[15]) && q[16] == p[16] && q[17] == g(p[17])
    && q[18] == host && q[19] == p[19] && q[20] == p[20]
  }

  lemma {:induction false} TailOf<T>(q: seq<T>, a: T, b: T, c: T, d: T, e: T, f: T, g: T, h: T, i: T)
    requires |q| == 21 && q[12] == a && q[13] == b && q[14] == c && q[15] == d && q[16] == e && q[17] == f && q[18] == g
      && q[19] == h && q[20] == i
    ensures q[12..] == [a, b, c, d, e, f, g, h, i]
  {
  }

  /** The fields after the extensions length, once the host name and the lengths around it have changed. */
  lemma {:induction false} TailGrown(p: seq<seq<byte>>, q: seq<seq<byte>>, exts: seq<Ext>, exts': seq<Ext>, i: nat,
      l: nat, name: seq<byte>, host: seq<byte>, rest: seq<byte>, d: int, g: Change)
    requires Adds(g, d) && i < |exts| && |p| == |q| == 21 && p[12..] == SniFields(exts, i, l, name, rest)
      && d == |host| - |name|
    requires 5 + |host| + |rest| < 0x1_0000 && 5 + |name| + |rest| < 0x1_0000 && l < 0x1_0000
      && TailChanged(p, q, host, g)
    requires |exts'| == |exts| && exts'[..i] == exts[..i] && exts'[i + 1..] == exts[i + 1..]
    ensures q[12..] == SniFields(exts', i, Cut(l + d, 2), host, rest)
  {
    assert Pow256(2) == 0x1_0000;
    TailFields(p, SniFields(exts, i, l, name, rest));
    GrownNumber(g, 5 + |name| + |rest|, 2, d, 5 + |host| + |rest|);
    CutNumber(g, l, 2, d);
    GrownNumber(g, |name|, 2, d, |host|);
    TailOf(q, EncodeExts(exts[..i]), Be(0, 2), Be(5 + |host| + |rest|, 2), Be(Cut(l + d, 2), 2), [0], Be(|host|, 2),
      host, rest, EncodeExts(exts[i + 1..]));
  }

  /** The bytes after the modification, as fields. */
  lemma {:induction false} ReplaceHostFields(p: seq<seq<byte>>, eo: nat, ext: nat, name: seq<byte>, host: seq<byte>,
      g: Change) returns (q: seq<seq<byte>>)
    requires Adds(g, |host| - |name|)
    requires |p| == 21 && |p[1]| == 2 && |p[3]| == 3 && |p[11]| == 2 && |p[14]| == 2 && |p[15]| == 2 && |p[17]| == 2
      && p[18] == name
    requires 43 < eo && eo + 6 <= ext && Offset(p, 1) == 3 && Offset(p, 3) == 6 && Offset(p, 11) == eo
    requires Offset(p, 14) == ext - 2 && Offset(p, 15) == ext && Offset(p, 17) == ext + 3 && Offset(p, 18) == ext + 5
    ensures ext + 5 + |name| <= |Flat(p)| && ReplaceHost(Flat(p), host, eo, ext, |name|) == Flat(q)
    ensures |q| == 21 && HeadChanged(p, q, g) && TailChanged(p, q, host, g)
  {
    var p1, d := p[18 := host], |host| - |name|;
    SpliceField(p, 18, host);
    SniPlaces(p1, eo, ext);
    AddAllIsGrow(p1, [1, 3, 11, 14, 15, 17], HelloLens(eo) + SniLens(ext), d, g);
    q := Grow(p1, [1, 3, 11, 14, 15, 17], g);
    GrowSix(p1, 1, 3, 11, 14, 15, 17, g);
  }

  lemma {:induction false} SniPlaces(p: seq<seq<byte>>, eo: nat, ext: nat)
    requires |p| == 21 && |p[1]| == 2 && |p[3]| == 3 && |p[11]| == 2 && |p[14]| == 2 && |p[15]| == 2 && |p[17]| == 2
    requires Offset(p, 1) == 3 && Offset(p, 3) == 6 && Offset(p, 11) == eo
    requires 2 <= ext && Offset(p, 14) == ext - 2 && Offset(p, 15) == ext && Offset(p, 17) == ext + 3
    ensures PlacedAt(p, [1, 3, 11, 14, 15, 17], HelloLens(eo) + SniLens(ext))
  {
  }

  lemma {:induction false} GrowSix(p: seq<seq<byte>>, a: nat, b: nat, c: nat, d: nat, e: nat, f: nat, g: Change)
    requires a < b < c < d < e < f < |p|
    ensures Grow(p, [a, b, c, d, e, f], g) ==
      p[a := g(p[a])][b := g(p[b])][c := g(p[c])][d := g(p[d])][e := g(p[e])][f := g(p[f])]
  {
    var js, q := [a, b, c, d, e, f],
      p[a := g(p[a])][b := g(p[b])][c := g(p[c])][d := g(p[d])][e := g(p[e])][f := g(p[f])];
    forall j | 0 <= j < |p|
      ensures Grow(p, js, g)[j] == q[j]
    {
      GrowAt(p, js, g, j);
    }
  }

  /** The fields after the extensions length are the extensions with the new name. */
  lemma {:induction false} TailEncodes(p: seq<seq<byte>>, q: seq<seq<byte>>, exts: seq<Ext>, exts': seq<Ext>, i: nat,
      l: nat, name: seq<byte>, host: seq<byte>, rest: seq<byte>, d: int, g: Change)
    requires Adds(g, d) && i < |exts| && |p| == |q| == 21 && p[12..] == SniFields(exts, i, l, name, rest)
      && d == |host| - |name|
    requires 5 + |host| + |rest| < 0x1_0000 && 5 + |name| + |rest| < 0x1_0000 && l < 0x1_0000
      && TailChanged(p, q, host, g)
    requires exts' == exts[i := Ext(0, SniBody(Cut(l + d, 2), host, rest))]
    ensures Flat(q[12..]) == EncodeExts(exts')
  {
    TailGrown(p, q, exts, exts', i, l, name, host, rest, d, g);
    SniFieldsFlat(exts', i, Cut(l + d, 2), host, rest);
  }

  /** The same for a hello whose SNI data is given by its parts. */
  lemma {:induction false} ReplaceHostParts(h: ClientHello, i: nat, l: nat, name: seq<byte>, rest: seq<byte>,
      host: seq<byte>, h': ClientHello, ext: nat, p: seq<seq<byte>>, size: nat, e: nat, d: int)
    requires Fits(h) && i < |h.exts| && d == |host| - |name| && l < 0x1_0000 && 5 + |name| + |rest| < 0x1_0000
      && 5 + |host| + |rest| < 0x1_0000
    requires h' == h.(exts := h.exts[i := Ext(0, SniBody(Cut(l + d, 2), host, rest))]) && Fits(h')
    requires size == HandshakeSize(h) && e == |EncodeExts(h.exts)| && HandshakeSize(h') == size + d
      && |EncodeExts(h'.exts)| == e + d
    requires Starts(p, h, size, e) && |p| == 21 && p[12..] == SniFields(h.exts, i, l, name, rest)
    requires ext >= LengthAt(h) + 6 && Offset(p, 14) == ext - 2 && Offset(p, 15) == ext && Offset(p, 17) == ext + 3
      && Offset(p, 18) == ext + 5
    ensures ext + 5 + |name| <= |Flat(p)| && ReplaceHost(Flat(p), host, LengthAt(h), ext, |name|) == Encode(h')
  {
    HelloOffsets(h, p, size, e);
    TailFields(p, SniFields(h.exts, i, l, name, rest));
    var g := Adder(d);
    var q := ReplaceHostFields(p, LengthAt(h), ext, name, host, g);
    StartsGrown(h, p, q, size, e, d, g);
    TailEncodes(p, q, h.exts, h'.exts, i, l, name, host, rest, d, g);
    EncodeFrom(h', q);
  }

  /** The sni modification gives the hello with the new name, when the lengths fit their fields. */
  lemma {:induction false} ReplaceHostMeaning(h: ClientHello, i: nat, n: nat, host: seq<byte>, h': ClientHello,
      ext: nat)
    requires Fits(h) && i < |h.exts| && h.exts[i].etype == 0 && HostInSni(h.exts[i].body) == FoundAt(5, n)
    requires h' == HelloWithHost(h, i, host) && Fits(h') && ext == LengthAt(h) + 2 + BodyAt(h.exts, i)
    ensures ext + 5 + n <= |Encode(h)| && ReplaceHost(Encode(h), host, LengthAt(h), ext, n) == Encode(h')
  {
    var body, d := h.exts[i].body, |host| - n;
    var l, name, rest := UintAt(body, 0, 2), body[5..5 + n], body[5 + n..];
    BodyParts(body, n);
    SizesWithHost(h, i, host, n);
    var p := CutAtHost(h, i, n, l, name, rest);
    assert FitsExt(h.exts[i]) && FitsExt(h'.exts[i]) && h'.exts[i].body == WithHost(body, host);
    ReplaceHostParts(h, i, l, name, rest, host, h', ext, p, HandshakeSize(h), |EncodeExts(h.exts)|, d);
  }
}

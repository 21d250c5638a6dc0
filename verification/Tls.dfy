/** The TLS ClientHello as nfq2/protocol.c reads it (RFC 8446, sections 4.1.2, 4.2 and 5.1; RFC 6066, section 3). */
module Tls {
  import opened Blocks
  import opened Pieces
  import opened Words

  // ---------------------------------------------------------------------------------------
  // Reading
  // ---------------------------------------------------------------------------------------

  /** TLSHandshakeLen */
  function HandshakeLen(d: seq<byte>): nat
    requires |d| >= 4
  {
    UintAt(d, 1, 3) + 4
  }

  /** TLSRecordLen */
  function RecordLen(d: seq<byte>): nat
    requires |d| >= 5
  {
    UintAt(d, 3, 2) + 5
  }

  /** IsTLSHandshakeHello; type 0 stands for either kind of hello */
  predicate IsTLSHandshakeHello(d: seq<byte>, hello: byte, partial: bool) {
    && |d| >= 6 && (if hello != 0 then d[0] == hello else d[0] == 1 || d[0] == 2)
    && d[4] == 3 && d[5] <= 3 && (partial || HandshakeLen(d) <= |d|)
  }

  predicate IsTLSHello(d: seq<byte>, hello: byte, partial: bool) {
    && |d| >= 6 && d[0] == 0x16 && d[1] == 3 && d[2] <= 3 && (partial || RecordLen(d) <= |d|)
    && IsTLSHandshakeHello(d[5..], hello, partial)
  }

  predicate IsTLSClientHello(d: seq<byte>, partial: bool) {
    IsTLSHello(d, 1, partial)
  }

  datatype Position = Nowhere | At(pos: nat)

  const SESSION_ID := 38

  /** Where the session id of a hello in a record starts. */
  const SID_AT := 44

  function TLSFindExtLenOffsetInHandshake(d: seq<byte>): (r: Position)
    ensures r.At? ==> |d| > SESSION_ID && SESSION_ID + 1 + d[SESSION_ID] < r.pos && r.pos + 2 <= |d|
  {
    if |d| < SESSION_ID + 1 then Nowhere
    else
      var ciphers := SESSION_ID + d[SESSION_ID] + 1;
      if |d| < ciphers + 2 then Nowhere
      else
        var compression := ciphers + (if d[0] == 1 then UintAt(d, ciphers, 2) else 0) + 2;
        if |d| < compression + 1 then Nowhere
        else
          var off := compression + (if d[0] == 1 then d[compression] else 0) + 1;
          if |d| < off + 2 then Nowhere else At(off)
  }

  function TLSFindExtLen(d: seq<byte>): (r: Position)
    ensures r.At? ==> |d| > 43 && 44 + d[43] < r.pos && r.pos + 2 <= |d|
  {
    if |d| < 5 then Nowhere
    else
      var r := TLSFindExtLenOffsetInHandshake(d[5..]);
      if r.At? then At(r.pos + 5) else Nowhere
  }

  /** The data of an extension. */
  datatype Found = NotFound | FoundAt(pos: nat, len: nat)

  /** The first extension of a type among those in the left bytes from pos on. */
  function ScanExts(d: seq<byte>, pos: nat, left: nat, etype: nat): (r: Found)
    requires pos + left <= |d|
    ensures r.FoundAt? ==> pos + 4 <= r.pos && r.pos + r.len <= pos + left
    decreases left
  {
    if left < 4 then NotFound
    else
      var elen := UintAt(d, pos + 2, 2);
      if left - 4 < elen then NotFound
      else if UintAt(d, pos, 2) == etype then FoundAt(pos + 4, elen)
      else ScanExts(d, pos + 4 + elen, left - 4 - elen, etype)
  }

  /** The extension of a type, once the place of the extensions length is known. */
  function FindFrom(d: seq<byte>, off: Position, etype: nat, partial: bool): (r: Found)
    requires off.At? ==> off.pos + 2 <= |d|
    ensures r.FoundAt? ==> off.At? && off.pos + 6 <= r.pos && r.pos + r.len <= |d|
  {
    if off.Nowhere? then NotFound
    else
      var l, rest := UintAt(d, off.pos, 2), |d| - (off.pos + 2);
      if !partial && rest < l then NotFound else ScanExts(d, off.pos + 2, Least(rest, l), etype)
  }

  function TLSFindExtInHandshake(d: seq<byte>, etype: nat, partial: bool): (r: Found)
    ensures r.FoundAt? ==>
      TLSFindExtLenOffsetInHandshake(d).At? && TLSFindExtLenOffsetInHandshake(d).pos + 6 <= r.pos
        && r.pos + r.len <= |d|
  {
    if !partial && (|d| < 4 || HandshakeLen(d) > |d|) then NotFound
    else FindFrom(d, TLSFindExtLenOffsetInHandshake(d), etype, partial)
  }

  /** The loop over the extensions. */
  method ScanExtensions(d: seq<byte>, pos0: nat, left0: nat, etype: nat) returns (r: Found)
    requires pos0 + left0 <= |d|
    ensures r == ScanExts(d, pos0, left0, etype)
  {
    var pos: nat, l: nat := pos0, left0;
    while l >= 4
      invariant pos + l <= |d| && ScanExts(d, pos0, left0, etype) == ScanExts(d, pos, l, etype)
    {
      var t, elen := UintAt(d, pos, 2), UintAt(d, pos + 2, 2);
      pos, l := pos + 4, l - 4;
      if l < elen {
        break;
      }
      if t == etype {
        return FoundAt(pos, elen);
      }
      pos, l := pos + elen, l - elen;
    }
    return NotFound;
  }

  function TLSFindExt(d: seq<byte>, etype: nat, partial: bool): (r: Found)
    ensures r.FoundAt? ==> 11 <= r.pos && r.pos + r.len <= |d|
  {
    if !IsTLSHello(d, 0, partial) then NotFound
    else
      var r := TLSFindExtInHandshake(d[5..Least(RecordLen(d), |d|)], etype, partial);
      if r.FoundAt? then FoundAt(r.pos + 5, r.len) else NotFound
  }

  /** TLSAdvanceToHostInSNI: where the host name is, in the data of an SNI extension. */
  function HostInSni(ext: seq<byte>): (r: Found)
    ensures r.FoundAt? ==> r.pos == 5 && r.pos + r.len <= |ext|
  {
    if |ext| < 5 || ext[2] != 0 then NotFound
    else
      var slen := UintAt(ext, 3, 2);
      if slen > |ext| - 5 then NotFound else FoundAt(5, slen)
  }

  function ToLower(c: byte): byte {
    if 65 <= c <= 90 then c + 32 else c
  }

  function Lower(s: seq<byte>): (l: seq<byte>)
    ensures |l| == |s|
  {
    seq(|s|, i requires 0 <= i < |s| => ToLower(s[i]))
  }

  /** No capital letter is left, and only capital letters are changed, each to the small one 32 further on. */
  lemma {:induction false} LowerIs(s: seq<byte>)
    ensures forall i :: 0 <= i < |s| ==>
      var c := Lower(s)[i];
      !(65 <= c <= 90) && (c == s[i] || (65 <= s[i] <= 90 && c == s[i] + 32))
    ensures Lower(Lower(s)) == Lower(s)
  {
    assert forall i :: 0 <= i < |s| ==> Lower(s)[i] == ToLower(s[i]);
  }

  datatype Name = NoName | Name(host: seq<byte>)

  /** TLSExtractHostFromExt into a buffer of size > 0 bytes, the last of which ends the string */
  function TLSExtractHostFromExt(ext: seq<byte>, size: nat): Name
    requires size > 0
  {
    var h := HostInSni(ext);
    if h.NotFound? then NoName else Name(Lower(ext[h.pos..h.pos + Least(h.len, size - 1)]))
  }

  /** TLSHelloExtractHost */
  function TLSHelloExtractHost(d: seq<byte>, size: nat, partial: bool): Name
    requires size > 0
  {
    var e := TLSFindExt(d, 0, partial);
    if e.NotFound? then NoName else TLSExtractHostFromExt(d[e.pos..e.pos + e.len], size)
  }

  // ---------------------------------------------------------------------------------------
  // Writing
  // ---------------------------------------------------------------------------------------

  datatype Ext = Ext(etype: nat, body: seq<byte>)

  datatype ClientHello = ClientHello(
    recordMinor: byte, minor: byte, random: seq<byte>, sid: seq<byte>, ciphers: seq<byte>, compression: seq<byte>,
    exts: seq<Ext>)

  function EncodeExt(e: Ext): seq<byte> {
    Be(e.etype, 2) + Be(|e.body|, 2) + e.body
  }

  function EncodeExts(exts: seq<Ext>): seq<byte> {
    if exts == [] then [] else EncodeExt(exts[0]) + EncodeExts(exts[1..])
  }

  /** The bytes that the handshake length counts. */
  function HandshakeSize(h: ClientHello): nat {
    2 + |h.random| + 1 + |h.sid| + 2 + |h.ciphers| + 1 + |h.compression| + 2 + |EncodeExts(h.exts)|
  }

  predicate FitsExt(e: Ext) {
    e.etype < 0x1_0000 && |e.body| < 0x1_0000
  }

  /** Every length fits its field. */
  predicate Fits(h: ClientHello) {
    && h.recordMinor <= 3 && h.minor <= 3 && |h.random| == 32 && |h.sid| < 256 && |h.ciphers| < 0x1_0000
    && |h.compression| < 256 && |EncodeExts(h.exts)| < 0x1_0000 && HandshakeSize(h) + 4 < 0x1_0000
    && forall i :: 0 <= i < |h.exts| ==> FitsExt(h.exts[i])
  }

  /** The fields of a hello whose extensions, of e bytes, come after them. */
  function Head(h: ClientHello, size: nat, e: nat): seq<seq<byte>>
    requires |h.sid| < 256 && |h.compression| < 256
  {
    [
      [0x16, 3, h.recordMinor], Be(size + 4, 2), [1], Be(size, 3), [3, h.minor] + h.random, [|h.sid|], h.sid,
      Be(|h.ciphers|, 2), h.ciphers, [|h.compression|], h.compression, Be(e, 2)
    ]
  }

  /** One TLS record with one ClientHello, all nested lengths consistent. */
  function Encode(h: ClientHello): seq<byte>
    requires Fits(h)
  {
    Flat(Head(h, HandshakeSize(h), |EncodeExts(h.exts)|) + [EncodeExts(h.exts)])
  }

  /** The first extension of a type; |exts| when there is none. */
  function Lookup(exts: seq<Ext>, etype: nat): (i: nat)
    ensures i <= |exts| && (i < |exts| ==> exts[i].etype == etype) && forall j :: 0 <= j < i ==> exts[j].etype != etype
  {
    if exts == [] || exts[0].etype == etype then 0 else 1 + Lookup(exts[1..], etype)
  }

  // ---------------------------------------------------------------------------------------
  // What is written is read
  // ---------------------------------------------------------------------------------------

  lemma {:induction false} ExtsAppend(a: seq<Ext>, b: seq<Ext>)
    ensures EncodeExts(a + b) == EncodeExts(a) + EncodeExts(b)
  {
    if a == [] {
      assert a + b == b;
    } else {
      assert (a + b)[1..] == a[1..] + b;
      ExtsAppend(a[1..], b);
    }
  }

  /** Where the data of extension i starts, counted from the first extension. */
  function BodyAt(exts: seq<Ext>, i: nat): nat
    requires i < |exts|
  {
    |EncodeExts(exts[..i])| + 4
  }

  function LookedUp(exts: seq<Ext>, etype: nat, pos: nat): Found {
    var i := Lookup(exts, etype);
    if i == |exts| then NotFound else FoundAt(pos + BodyAt(exts, i), |exts[i].body|)
  }

  /** An extension is read back from its header. */
  lemma {:induction false} ExtHeader(d: seq<byte>, pos: nat, e: Ext)
    requires FitsExt(e) && pos + |EncodeExt(e)| <= |d| && d[pos..pos + |EncodeExt(e)|] == EncodeExt(e)
    ensures UintAt(d, pos, 2) == e.etype && UintAt(d, pos + 2, 2) == |e.body|
  {
    var x := EncodeExt(e);
    assert Pow256(2) == 0x1_0000;
    SubSlice(d, pos, x, 0, 2);
    SubSlice(d, pos, x, 2, 4);
    UintOfBe(d, pos, 2, e.etype);
    UintOfBe(d, pos + 2, 2, |e.body|);
  }

  lemma {:induction false} LookedUpNext(exts: seq<Ext>, etype: nat, pos: nat, n: nat)
    requires exts != [] && exts[0].etype != etype && n == pos + |EncodeExt(exts[0])|
    ensures LookedUp(exts, etype, pos) == LookedUp(exts[1..], etype, n)
  {
    var i := Lookup(exts[1..], etype);
    if i < |exts| - 1 {
      assert exts[..i + 1][1..] == exts[1..][..i];
    }
  }

  /** The extension at pos is the one, or the scan goes on after it. */
  lemma {:induction false} ScanOne(d: seq<byte>, pos: nat, e: Ext, etype: nat, size: nat, n: nat)
    requires FitsExt(e) && n == |EncodeExt(e)| && n <= size && pos + size <= |d| && d[pos..pos + n] == EncodeExt(e)
    ensures ScanExts(d, pos, size, etype) == if e.etype == etype then FoundAt(pos + 4, |e.body|)
      else ScanExts(d, pos + n, size - n, etype)
  {
    ExtHeader(d, pos, e);
  }

  lemma {:induction false} FirstOfExts(exts: seq<Ext>, x: seq<byte>, n: nat)
    requires exts != [] && x == EncodeExts(exts) && n == |EncodeExt(exts[0])|
    ensures n <= |x| && x[0..n] == EncodeExt(exts[0]) && x[n..|x|] == EncodeExts(exts[1..])
  {
  }

  lemma {:induction false} LookedUpFirst(exts: seq<Ext>, etype: nat, pos: nat)
    requires exts != [] && exts[0].etype == etype
    ensures LookedUp(exts, etype, pos) == FoundAt(pos + 4, |exts[0].body|)
  {
    assert exts[..0] == [];
  }

  /** The first of some extensions, and where the others are. */
  lemma {:induction false} ScanFirst(d: seq<byte>, pos: nat, exts: seq<Ext>, etype: nat, size: nat, n: nat)
    requires exts != [] && FitsExt(exts[0]) && n == |EncodeExt(exts[0])|
    requires size == |EncodeExts(exts)| && pos + size <= |d| && d[pos..pos + size] == EncodeExts(exts)
    ensures n <= size && d[pos + n..pos + size] == EncodeExts(exts[1..]) && size - n == |EncodeExts(exts[1..])|
    ensures ScanExts(d, pos, size, etype) ==
      if exts[0].etype == etype then FoundAt(pos + 4, |exts[0].body|) else ScanExts(d, pos + n, size - n, etype)
  {
    var x := EncodeExts(exts);
    FirstOfExts(exts, x, n);
    SubSlice(d, pos, x, 0, n);
    SubSlice(d, pos, x, n, size);
    ScanOne(d, pos, exts[0], etype, size, n);
  }

  lemma {:induction false} ScanOfEncode(d: seq<byte>, pos: nat, exts: seq<Ext>, etype: nat, size: nat)
    requires forall i :: 0 <= i < |exts| ==> FitsExt(exts[i])
    requires size == |EncodeExts(exts)| && pos + size <= |d| && d[pos..pos + size] == EncodeExts(exts)
    ensures ScanExts(d, pos, size, etype) == LookedUp(exts, etype, pos)
    decreases |exts|
  {
    if exts != [] {
      var n := |EncodeExt(exts[0])|;
      ScanFirst(d, pos, exts, etype, size, n);
      if exts[0].etype == etype {
        LookedUpFirst(exts, etype, pos);
      } else {
        ScanOfEncode(d, pos + n, exts[1..], etype, size - n);
        LookedUpNext(exts, etype, pos, pos + n);
      }
    }
  }

  /** The fields of a hello. */
  ghost function Fields(h: ClientHello): seq<seq<byte>>
    requires Fits(h)
  {
    Head(h, HandshakeSize(h), |EncodeExts(h.exts)|) + [EncodeExts(h.exts)]
  }

  /** Where the extensions length is. */
  function LengthAt(h: ClientHello): nat {
    9 + 34 + 1 + |h.sid| + 2 + |h.ciphers| + 1 + |h.compression|
  }

  lemma {:induction false} HeadOffsets(p: seq<seq<byte>>)
    requires |p| >= 13
    ensures Offset(p, 1) == |p[0]| && Offset(p, 2) == Offset(p, 1) + |p[1]| && Offset(p, 3) == Offset(p, 2) + |p[2]|
    ensures Offset(p, 4) == Offset(p, 3) + |p[3]| && Offset(p, 5) == Offset(p, 4) + |p[4]|
      && Offset(p, 6) == Offset(p, 5) + |p[5]|
    ensures Offset(p, 7) == Offset(p, 6) + |p[6]| && Offset(p, 8) == Offset(p, 7) + |p[7]|
      && Offset(p, 9) == Offset(p, 8) + |p[8]|
    ensures Offset(p, 10) == Offset(p, 9) + |p[9]| && Offset(p, 11) == Offset(p, 10) + |p[10]|
      && Offset(p, 12) == Offset(p, 11) + |p[11]|
  {
  }

  /** The first twelve fields are those of Head. */
  ghost predicate Starts(p: seq<seq<byte>>, h: ClientHello, size: nat, e: nat)
    requires |h.sid| < 256 && |h.compression| < 256
  {
    && |p| >= 13 && p[0] == [0x16, 3, h.recordMinor] && p[1] == Be(size + 4, 2) && p[2] == [1] && p[3] == Be(size, 3)
    && p[4] == [3, h.minor] + h.random && p[5] == [|h.sid|] && p[6] == h.sid && p[7] == Be(|h.ciphers|, 2)
      && p[8] == h.ciphers
    && p[9] == [|h.compression|] && p[10] == h.compression && p[11] == Be(e, 2)
  }

  /** Where the fields before the extensions start. */
  lemma {:induction false} HelloOffsets(h: ClientHello, p: seq<seq<byte>>, size: nat, e: nat)
    requires |h.sid| < 256 && |h.compression| < 256 && |h.random| == 32 && Starts(p, h, size, e)
    ensures Offset(p, 1) == 3 && Offset(p, 2) == 5 && Offset(p, 3) == 6 && Offset(p, 4) == 9 && Offset(p, 5) == 43
    ensures Offset(p, 6) == 44 && Offset(p, 7) == 44 + |h.sid| && Offset(p, 9) == 46 + |h.sid| + |h.ciphers|
    ensures Offset(p, 11) == LengthAt(h) && Offset(p, 12) == LengthAt(h) + 2
  {
    HeadOffsets(p);
  }

  lemma {:induction false} FieldsStart(h: ClientHello, p: seq<seq<byte>>, tail: seq<seq<byte>>, size: nat, e: nat)
    requires |h.sid| < 256 && |h.compression| < 256 && tail != [] && p == Head(h, size, e) + tail
    ensures Starts(p, h, size, e) && p[12..] == tail
  {
  }

  lemma {:induction false} HelloIntro(h: ClientHello, p: seq<seq<byte>>, s: seq<byte>, size: nat, e: nat)
    requires |h.sid| < 256 && |h.compression| < 256 && |h.random| == 32 && Starts(p, h, size, e) && s == Flat(p)
    requires size + 4 < 0x1_0000
    ensures |s| > 10 && s[0] == 0x16 && s[1] == 3 && s[2] == h.recordMinor && s[5] == 1 && s[9] == 3 && s[10] == h.minor
    ensures UintAt(s, 3, 2) == size + 4 && UintAt(s, 6, 3) == size
  {
    assert Pow256(2) == 0x1_0000 && Pow256(3) == 0x100_0000;
    HelloOffsets(h, p, size, e);
    ByteField(p, 0, 0, p[0], 0);
    ByteField(p, 0, 0, p[0], 1);
    ByteField(p, 0, 0, p[0], 2);
    NumberField(p, 1, 3, size + 4, 2);
    ByteField(p, 2, 5, p[2], 0);
    NumberField(p, 3, 6, size, 3);
    ByteField(p, 4, 9, p[4], 0);
    ByteField(p, 4, 9, p[4], 1);
  }

  lemma {:induction false} HelloLengths(h: ClientHello, p: seq<seq<byte>>, s: seq<byte>, size: nat, e: nat)
    requires |h.sid| < 256 && |h.compression| < 256 && |h.random| == 32 && Starts(p, h, size, e) && s == Flat(p)
    requires |h.ciphers| < 0x1_0000 && e < 0x1_0000
    ensures LengthAt(h) + 2 <= |s| && UintAt(s, LengthAt(h), 2) == e
    ensures s[43] == |h.sid| && UintAt(s, 44 + |h.sid|, 2) == |h.ciphers|
      && s[46 + |h.sid| + |h.ciphers|] == |h.compression|
  {
    assert Pow256(2) == 0x1_0000;
    HelloOffsets(h, p, size, e);
    ByteField(p, 5, 43, p[5], 0);
    NumberField(p, 7, 44 + |h.sid|, |h.ciphers|, 2);
    ByteField(p, 9, 46 + |h.sid| + |h.ciphers|, p[9], 0);
    NumberField(p, 11, LengthAt(h), e, 2);
  }

  /** The fields that the reader looks at, at the places where it looks. */
  ghost predicate Readable(h: ClientHello, s: seq<byte>) {
    && |s| == HandshakeSize(h) + 9 == LengthAt(h) + 2 + |EncodeExts(h.exts)|
    && s[0] == 0x16 && s[1] == 3 && s[2] == h.recordMinor && s[5] == 1 && s[9] == 3 && s[10] == h.minor
    && UintAt(s, 3, 2) == HandshakeSize(h) + 4 && UintAt(s, 6, 3) == HandshakeSize(h)
    && s[43] == |h.sid| && UintAt(s, 44 + |h.sid|, 2) == |h.ciphers| && s[46 + |h.sid| + |h.ciphers|] == |h.compression|
    && UintAt(s, LengthAt(h), 2) == |EncodeExts(h.exts)|
    && s[LengthAt(h) + 2..] == EncodeExts(h.exts)
  }

  lemma {:induction false} HelloBytes(h: ClientHello, s: seq<byte>)
    requires Fits(h) && s == Encode(h)
    ensures |h.random| == 32 && Readable(h, s)
  {
    var p, size, e := Fields(h), HandshakeSize(h), |EncodeExts(h.exts)|;
    FieldsStart(h, p, [EncodeExts(h.exts)], size, e);
    HelloIntro(h, p, s, size, e);
    HelloLengths(h, p, s, size, e);
    HelloEnd(h, p, s);
  }

  lemma {:induction false} EncodeSizes(h: ClientHello, s: seq<byte>)
    requires Fits(h) && s == Encode(h)
    ensures |s| >= SID_AT && |s| >= SID_AT + s[43] && LengthAt(h) + 2 <= |s| && LengthAt(h) > 43
  {
    HelloBytes(h, s);
  }

  lemma {:induction false} HelloEnd(h: ClientHello, p: seq<seq<byte>>, s: seq<byte>)
    requires Fits(h) && |p| == 13 && Starts(p, h, HandshakeSize(h), |EncodeExts(h.exts)|) && p[12] == EncodeExts(h.exts)
      && s == Flat(p)
    ensures |s| == LengthAt(h) + 2 + |EncodeExts(h.exts)| && s[LengthAt(h) + 2..] == EncodeExts(h.exts)
  {
    HelloOffsets(h, p, HandshakeSize(h), |EncodeExts(h.exts)|);
    FlatAt(p, 12);
    assert p[13..] == [];
  }

  /** The reader gets past session id, cipher suites and compression methods to the extensions length. */
  lemma {:induction false} FindExtLenOfEncode(h: ClientHello, s: seq<byte>, n: nat)
    requires |h.random| == 32 && Readable(h, s) && LengthAt(h) + 2 <= n <= |s|
    ensures TLSFindExtLenOffsetInHandshake(s[5..n]) == At(LengthAt(h) - 5)
  {
    UintOfSlice(s, 5, n, 39 + |h.sid|, 2);
  }

  lemma {:induction false} HelloOfEncode(h: ClientHello, s: seq<byte>)
    requires Fits(h) && s == Encode(h)
    ensures IsTLSHello(s, 0, false) && IsTLSClientHello(s, false) && TLSFindExtLen(s) == At(LengthAt(h))
      && RecordLen(s) == |s|
  {
    HelloBytes(h, s);
    HelloOfReadable(h, s);
  }

  lemma {:induction false} HelloOfReadable(h: ClientHello, s: seq<byte>)
    requires Readable(h, s) && h.recordMinor <= 3 && h.minor <= 3 && |h.random| == 32
    ensures IsTLSHello(s, 0, false) && IsTLSClientHello(s, false) && TLSFindExtLen(s) == At(LengthAt(h))
      && RecordLen(s) == |s|
  {
    UintOfSlice(s, 5, |s|, 1, 3);
    assert s[5..|s|] == s[5..];
    FindExtLenOfEncode(h, s, |s|);
  }

  /** The handshake message in the record, as the scan starts. */
  lemma {:induction false} HandshakeOfReadable(h: ClientHello, s: seq<byte>, d: seq<byte>, at: nat)
    requires |h.random| == 32 && Readable(h, s) && d == s[5..|s|] && at == LengthAt(h) - 5
    ensures |d| >= 4 && HandshakeLen(d) == |d| && TLSFindExtLenOffsetInHandshake(d) == At(at)
    ensures UintAt(d, at, 2) == |EncodeExts(h.exts)| && d[at + 2..] == EncodeExts(h.exts)
  {
    FindExtLenOfEncode(h, s, |s|);
    UintOfSlice(s, 5, |s|, 1, 3);
    UintOfSlice(s, 5, |s|, at, 2);
    TailOfTail(s, 5, at + 2);
  }

  lemma {:induction false} TailOfTail<T>(s: seq<T>, a: nat, b: nat)
    requires a + b <= |s|
    ensures s[a..|s|][b..] == s[a + b..]
  {
  }

  lemma {:induction false} FindFromLength(d: seq<byte>, exts: seq<Ext>, etype: nat, at: nat, size: nat, partial: bool)
    requires at + 2 + size == |d| && size == |EncodeExts(exts)|
    requires UintAt(d, at, 2) == size && d[at + 2..] == EncodeExts(exts)
    requires forall i :: 0 <= i < |exts| ==> FitsExt(exts[i])
    ensures FindFrom(d, At(at), etype, partial) == LookedUp(exts, etype, at + 2)
  {
    assert d[at + 2..at + 2 + size] == d[at + 2..];
    ScanOfEncode(d, at + 2, exts, etype, size);
  }

  /**
    Every extension is found where it was written, the first of its type, and no other; the strict
    and the partial reader agree.
   */
  lemma {:induction false} FindExtOfEncode(h: ClientHello, s: seq<byte>, etype: nat, partial: bool)
    requires Fits(h) && s == Encode(h)
    ensures TLSFindExt(s, etype, partial) == LookedUp(h.exts, etype, LengthAt(h) + 2)
  {
    HelloBytes(h, s);
    HelloOfEncode(h, s);
    var d, at := s[5..|s|], LengthAt(h) - 5;
    HandshakeOfReadable(h, s, d, at);
    FindFromLength(d, h.exts, etype, at, |EncodeExts(h.exts)|, partial);
  }
}

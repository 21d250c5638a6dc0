/** What the readers of a ClientHello make of a message of which only the beginning has arrived. */
module TlsPartial {
  import opened Blocks
  import opened Pieces
  import opened Tls
  import opened TlsHost
  import opened TlsPadding
  import opened Words

  // ---------------------------------------------------------------------------------------
  // Extensions that are cut off
  // ---------------------------------------------------------------------------------------

  /** What is found, when all of it lies before end. */
  function Until(f: Found, end: nat): Found {
    if f.FoundAt? && f.pos + f.len <= end then f else NotFound
  }

  /** The same place, counted from n bytes earlier. */
  function Moved(f: Found, n: nat): Found {
    if f.FoundAt? then FoundAt(f.pos + n, f.len) else NotFound
  }

  lemma {:induction false} LookedUpBehind(exts: seq<Ext>, etype: nat, pos: nat)
    ensures var f := LookedUp(exts, etype, pos); f.FoundAt? ==> f.pos >= pos + 4
  {
  }

  lemma {:induction false} HeaderSlices<T>(a: seq<T>, b: seq<T>, c: seq<T>, rest: seq<T>, left: nat, y: seq<T>, n: nat)
    requires |a| == 2 && |b| == 2 && 4 <= left <= |a + b + c + rest| && y == (a + b + c + rest)[..left]
    requires n == |a + b + c|
    ensures y[0..2] == a && y[2..4] == b && (n <= left ==> left - n <= |rest| && y[n..left] == rest[..left - n])
  {
    var x := a + b + c;
    assert x[0..2] == a && x[2..4] == b;
  }

  /** The header of the first extension, when it has arrived, and what has arrived behind it. */
  lemma {:induction false} CutFirst(d: seq<byte>, pos: nat, exts: seq<Ext>, left: nat, n: nat)
    requires exts != [] && FitsExt(exts[0]) && n == |EncodeExt(exts[0])|
    requires 4 <= left <= |EncodeExts(exts)| && pos + left <= |d| && d[pos..pos + left] == EncodeExts(exts)[..left]
    ensures UintAt(d, pos, 2) == exts[0].etype && UintAt(d, pos + 2, 2) == |exts[0].body|
    ensures n <= left ==>
      left - n <= |EncodeExts(exts[1..])| && d[pos + n..pos + left] == EncodeExts(exts[1..])[..left - n]
  {
    var e, y := exts[0], EncodeExts(exts)[..left];
    HeaderSlices(Be(e.etype, 2), Be(|e.body|, 2), e.body, EncodeExts(exts[1..]), left, y, n);
    assert Pow256(2) == 0x1_0000;
    SubSlice(d, pos, y, 0, 2);
    SubSlice(d, pos, y, 2, 4);
    UintOfBe(d, pos, 2, e.etype);
    UintOfBe(d, pos + 2, 2, |e.body|);
    if n <= left {
      SubSlice(d, pos, y, n, left);
    }
  }

  /** The first extension of a type, when it ends before end, looked for one by one. */
  function Wanted(exts: seq<Ext>, etype: nat, pos: nat, end: nat): Found {
    if exts == [] then NotFound
    else if exts[0].etype == etype then Until(FoundAt(pos + 4, |exts[0].body|), end)
    else Wanted(exts[1..], etype, pos + 4 + |exts[0].body|, end)
  }

  lemma {:induction false} WantedIs(exts: seq<Ext>, etype: nat, pos: nat, end: nat)
    ensures Wanted(exts, etype, pos, end) == Until(LookedUp(exts, etype, pos), end)
    decreases |exts|
  {
    if exts != [] {
      if exts[0].etype == etype {
        LookedUpFirst(exts, etype, pos);
      } else {
        var n := pos + |EncodeExt(exts[0])|;
        WantedIs(exts[1..], etype, n, end);
        LookedUpNext(exts, etype, pos, n);
      }
    }
  }

  /** What begins at the end or behind it is not wanted. */
  lemma {:induction false} NoneWanted(exts: seq<Ext>, etype: nat, pos: nat, end: nat)
    requires end < pos + 4
    ensures Wanted(exts, etype, pos, end) == NotFound
    decreases |exts|
  {
    if exts != [] {
      NoneWanted(exts[1..], etype, pos + 4 + |exts[0].body|, end);
    }
  }

  /** One round of the scan, the header being there. */
  lemma {:induction false} ScanOnce(d: seq<byte>, pos: nat, left: nat, etype: nat, e: Ext, n: nat)
    requires 4 <= left && pos + left <= |d| && n == 4 + |e.body|
    requires UintAt(d, pos, 2) == e.etype && UintAt(d, pos + 2, 2) == |e.body|
    ensures ScanExts(d, pos, left, etype) ==
      if left < n then NotFound
      else if e.etype == etype then FoundAt(pos + 4, |e.body|)
      else ScanExts(d, pos + n, left - n, etype)
  {
  }

  /** One round over extensions that are cut off. */
  lemma {:induction false} CutRound(d: seq<byte>, pos: nat, exts: seq<Ext>, etype: nat, left: nat, n: nat, r: Found)
    requires exts != [] && FitsExt(exts[0]) && n == |EncodeExt(exts[0])|
    requires left <= |EncodeExts(exts)| && pos + left <= |d| && d[pos..pos + left] == EncodeExts(exts)[..left]
    requires r == ScanExts(d, pos, left, etype)
    ensures n <= left ==>
      left - n <= |EncodeExts(exts[1..])| && d[pos + n..pos + left] == EncodeExts(exts[1..])[..left - n]
    ensures r ==
      if left < 4 || left < n then NotFound
      else if exts[0].etype == etype then FoundAt(pos + 4, |exts[0].body|)
      else ScanExts(d, pos + n, left - n, etype)
  {
    if left >= 4 {
      CutFirst(d, pos, exts, left, n);
      ScanOnce(d, pos, left, etype, exts[0], n);
    }
  }

  /** The first bytes of the extensions, of which left have arrived, are at pos. */
  ghost predicate CutAt(d: seq<byte>, pos: nat, exts: seq<Ext>, left: nat) {
    && (forall i :: 0 <= i < |exts| ==> FitsExt(exts[i]))
    && left <= |EncodeExts(exts)| && pos + left <= |d| && d[pos..pos + left] == EncodeExts(exts)[..left]
  }

  lemma {:induction false} RestCut(d: seq<byte>, pos: nat, exts: seq<Ext>, left: nat, n: nat)
    requires CutAt(d, pos, exts, left) && exts != [] && n == |EncodeExt(exts[0])| <= left
    ensures CutAt(d, pos + n, exts[1..], left - n)
  {
    CutRound(d, pos, exts, 0, left, n, ScanExts(d, pos, left, 0));
  }

  lemma {:induction false} FirstCut(d: seq<byte>, pos: nat, exts: seq<Ext>, etype: nat, left: nat, n: nat, r: Found)
    requires CutAt(d, pos, exts, left) && exts != [] && n == |EncodeExt(exts[0])| && r == ScanExts(d, pos, left, etype)
    ensures r ==
      if left < 4 || left < n then NotFound
      else if exts[0].etype == etype then FoundAt(pos + 4, |exts[0].body|)
      else ScanExts(d, pos + n, left - n, etype)
  {
    CutRound(d, pos, exts, etype, left, n, r);
  }

  lemma {:induction false} WantedNext(exts: seq<Ext>, etype: nat, pos: nat, n: nat, end: nat)
    requires exts != [] && n == |EncodeExt(exts[0])|
    ensures Wanted(exts, etype, pos, end) ==
      if end < pos + n then NotFound
      else if exts[0].etype == etype then FoundAt(pos + 4, |exts[0].body|)
      else Wanted(exts[1..], etype, pos + n, end)
  {
    if end < pos + n {
      NoneWanted(exts[1..], etype, pos + n, end);
    }
  }

  /** The scan over the first bytes of some extensions finds what is complete in them. */
  lemma {:induction false} ScanOfCut(d: seq<byte>, pos: nat, exts: seq<Ext>, etype: nat, left: nat, r: Found)
    requires CutAt(d, pos, exts, left) && r == ScanExts(d, pos, left, etype)
    ensures r == Wanted(exts, etype, pos, pos + left)
    decreases |exts|
  {
    if exts != [] {
      var n := |EncodeExt(exts[0])|;
      FirstCut(d, pos, exts, etype, left, n, r);
      WantedNext(exts, etype, pos, n, pos + left);
      if n <= left && exts[0].etype != etype {
        RestCut(d, pos, exts, left, n);
        ScanOfCut(d, pos + n, exts[1..], etype, left - n, r);
      }
    }
  }

  // ---------------------------------------------------------------------------------------
  // A hello that is cut off
  // ---------------------------------------------------------------------------------------

  /** The length of the extensions is found once it has arrived. */
  lemma {:induction false} LengthOfCut(h: ClientHello, s: seq<byte>, n: nat, d: seq<byte>)
    requires |h.random| == 32 && Readable(h, s) && 11 <= n <= |s| && d == s[5..n]
    ensures TLSFindExtLenOffsetInHandshake(d) == if n >= LengthAt(h) + 2 then At(LengthAt(h) - 5) else Nowhere
  {
    if n >= LengthAt(h) + 2 {
      FindExtLenOfEncode(h, s, n);
    } else if n >= 46 + |h.sid| {
      UintOfSlice(s, 5, n, 39 + |h.sid|, 2);
    }
  }

  lemma {:induction false} SliceOfSlice<T>(s: seq<T>, a: nat, n: nat, b: nat, k: nat, p: nat)
    requires a + b + k == n <= |s| && p == a + b
    ensures s[a..n][b..b + k] == s[p..][..k]
  {
  }

  /** What of the extensions has arrived. */
  lemma {:induction false} ExtensionsOfCut(h: ClientHello, s: seq<byte>, n: nat, d: seq<byte>, at: nat, left: nat)
    requires |h.random| == 32 && Readable(h, s) && LengthAt(h) + 2 <= n <= |s| && d == s[5..n]
    requires at == LengthAt(h) - 5 && left == n - (LengthAt(h) + 2)
    ensures UintAt(d, at, 2) == |EncodeExts(h.exts)| && at + 2 + left == |d|
    ensures left <= |EncodeExts(h.exts)| && d[at + 2..at + 2 + left] == EncodeExts(h.exts)[..left]
  {
    UintOfSlice(s, 5, n, at, 2);
    SliceOfSlice(s, 5, n, at + 2, left, LengthAt(h) + 2);
  }

  /** The search from the extensions length on, when left bytes of the extensions have arrived. */
  lemma {:induction false} FindFromCut(d: seq<byte>, exts: seq<Ext>, etype: nat, at: nat, left: nat, partial: bool)
    requires forall i :: 0 <= i < |exts| ==> FitsExt(exts[i])
    requires at + 2 + left == |d| && left <= |EncodeExts(exts)| == UintAt(d, at, 2)
    requires d[at + 2..at + 2 + left] == EncodeExts(exts)[..left]
    ensures FindFrom(d, At(at), etype, partial) ==
      if partial || left == |EncodeExts(exts)| then Until(LookedUp(exts, etype, at + 2), |d|) else NotFound
  {
    ScanOfCut(d, at + 2, exts, etype, left, ScanExts(d, at + 2, left, etype));
    WantedIs(exts, etype, at + 2, |d|);
  }

  lemma {:induction false} InHandshake(d: seq<byte>, etype: nat, partial: bool, off: Position)
    requires |d| >= 4 && off == TLSFindExtLenOffsetInHandshake(d)
    ensures TLSFindExtInHandshake(d, etype, partial) ==
      if !partial && HandshakeLen(d) > |d| then NotFound else FindFrom(d, off, etype, partial)
  {
  }

  /** What the reader learns before it comes to the extensions. */
  lemma {:induction false} HandshakeOfCut(h: ClientHello, s: seq<byte>, n: nat, d: seq<byte>) returns (off: Position)
    requires Fits(h) && s == Encode(h) && 11 <= n <= |s| && d == s[5..n]
    ensures HandshakeLen(d) + 5 == |s| == LengthAt(h) + 2 + |EncodeExts(h.exts)|
    ensures off == TLSFindExtLenOffsetInHandshake(d)
    ensures off == if n >= LengthAt(h) + 2 then At(LengthAt(h) - 5) else Nowhere
  {
    HelloBytes(h, s);
    UintOfSlice(s, 5, n, 1, 3);
    LengthOfCut(h, s, n, d);
    off := TLSFindExtLenOffsetInHandshake(d);
  }

  /**
    The handshake message up to byte n of the record: what is complete in it is found, by the
    strict reader only when all of the message is there.
   */
  lemma {:induction false} FindInCut(h: ClientHello, s: seq<byte>, n: nat, d: seq<byte>, etype: nat, partial: bool)
    requires Fits(h) && s == Encode(h) && 11 <= n <= |s| && d == s[5..n]
    ensures
      var f := LookedUp(h.exts, etype, LengthAt(h) - 3);
      TLSFindExtInHandshake(d, etype, partial) == if partial || n == |s| then Until(f, n - 5) else NotFound
  {
    var off := HandshakeOfCut(h, s, n, d);
    InHandshake(d, etype, partial, off);
    LookedUpBehind(h.exts, etype, LengthAt(h) - 3);
    if n >= LengthAt(h) + 2 {
      FindBehindLength(h, s, n, d, etype, partial);
    }
  }

  lemma {:induction false} FindBehindLength(h: ClientHello, s: seq<byte>, n: nat, d: seq<byte>, etype: nat,
      partial: bool)
    requires Fits(h) && s == Encode(h) && LengthAt(h) + 2 <= n <= |s| && d == s[5..n]
    ensures LengthAt(h) >= 11 && |d| >= LengthAt(h) - 3 && |s| == LengthAt(h) + 2 + |EncodeExts(h.exts)|
    ensures FindFrom(d, At(LengthAt(h) - 5), etype, partial) ==
      if partial || n == |s| then Until(LookedUp(h.exts, etype, LengthAt(h) - 3), n - 5) else NotFound
  {
    HelloBytes(h, s);
    var at, left := LengthAt(h) - 5, n - (LengthAt(h) + 2);
    ExtensionsOfCut(h, s, n, d, at, left);
    FindFromCut(d, h.exts, etype, at, left, partial);
  }

  /** From eleven bytes on a hello is told by its beginning; the strict recogniser wants all of it. */
  lemma {:induction false} CutIsHello(h: ClientHello, s: seq<byte>, n: nat, d: seq<byte>, hello: byte, partial: bool)
    requires Fits(h) && s == Encode(h) && n <= |s| && d == s[..n] && hello <= 1
    ensures IsTLSHello(d, hello, partial) <==> n >= 11 && (partial || n == |s|)
    ensures n >= 5 ==> RecordLen(d) == |s|
  {
    HelloBytes(h, s);
    assert d == s[0..n];
    if n >= 5 {
      UintOfSlice(s, 0, n, 3, 2);
    }
    if n >= 11 {
      UintOfSlice(d, 5, n, 1, 3);
      UintOfSlice(s, 0, n, 6, 3);
      assert d[5..] == d[5..n];
    }
  }

  lemma {:induction false} HelloGoesOn(s: seq<byte>, more: seq<byte>, d: seq<byte>, hello: byte)
    requires IsTLSHello(s, hello, false) && |s| >= 11 && d == s + more
    ensures IsTLSHello(d, hello, false) && RecordLen(d) == RecordLen(s)
  {
    UintOfSlice(d, 0, |s|, 3, 2);
    UintOfSlice(d, 0, |s|, 6, 3);
    assert d[0..|s|] == s;
    UintOfSlice(s, 5, |s|, 1, 3);
    UintOfSlice(d, 5, |d|, 1, 3);
    assert s[5..] == s[5..|s|] && d[5..] == d[5..|d|];
  }

  /** The first n bytes of a stream that starts with a hello: a part of it, or all of it and more. */
  ghost predicate Arrived(h: ClientHello, more: seq<byte>, n: nat, d: seq<byte>) {
    Fits(h) && n <= |Encode(h)| + |more| && d == (Encode(h) + more)[..n]
  }

  /** Is there enough for the reader? */
  predicate Enough(h: ClientHello, n: nat, partial: bool)
    requires Fits(h)
  {
    n >= if partial then 11 else |Encode(h)|
  }

  /** What has arrived is seen as a ClientHello from its eleventh byte on, and strictly when it is whole. */
  lemma {:induction false} SeenAsHello(h: ClientHello, more: seq<byte>, n: nat, d: seq<byte>, hello: byte,
      partial: bool)
    requires Arrived(h, more, n, d) && hello <= 1
    ensures IsTLSHello(d, hello, partial) <==> Enough(h, n, partial)
    ensures n >= 5 ==> RecordLen(d) == |Encode(h)|
  {
    var s := Encode(h);
    HelloBytes(h, s);
    if n <= |s| {
      assert d == s[..n];
      CutIsHello(h, s, n, d, hello, partial);
    } else {
      assert d == s + more[..n - |s|];
      HelloOfEncode(h, s);
      HelloGoesOn(s, more[..n - |s|], d, hello);
    }
  }

  /** The reader looks at the first record only. */
  lemma {:induction false} RecordOnly(d: seq<byte>, k: nat, p: seq<byte>, etype: nat, partial: bool)
    requires IsTLSHello(d, 0, partial) && k == Least(RecordLen(d), |d|) && p == d[5..k]
    ensures TLSFindExt(d, etype, partial) == Moved(TLSFindExtInHandshake(p, etype, partial), 5)
  {
  }

  lemma {:induction false} WithinHello(h: ClientHello, etype: nat)
    requires Fits(h)
    ensures var f := LookedUp(h.exts, etype, LengthAt(h) + 2); f.FoundAt? ==> f.pos + f.len <= |Encode(h)|
    ensures LengthAt(h) >= 3
      && LookedUp(h.exts, etype, LengthAt(h) + 2) == Moved(LookedUp(h.exts, etype, LengthAt(h) - 3), 5)
  {
    FindExtOfEncode(h, Encode(h), etype, true);
  }

  /**
    Of a hello of which n bytes have arrived, the partial reader finds the first extension of a
    type exactly when all of it is there; the strict reader finds it when the whole hello is there.
    What comes behind the hello is not looked at.
   */
  lemma {:induction false} FindExtOfArrived(h: ClientHello, more: seq<byte>, n: nat, d: seq<byte>, etype: nat,
      partial: bool)
    requires Arrived(h, more, n, d)
    ensures TLSFindExt(d, etype, partial) ==
      if Enough(h, n, partial) then Until(LookedUp(h.exts, etype, LengthAt(h) + 2), n) else NotFound
  {
    SeenAsHello(h, more, n, d, 0, partial);
    if Enough(h, n, partial) {
      var s := Encode(h);
      var k := Least(|s|, n);
      HelloBytes(h, s);
      assert d[5..k] == s[5..k];
      RecordOnly(d, k, s[5..k], etype, partial);
      FindInCut(h, s, k, s[5..k], etype, partial);
      WithinHello(h, etype);
    }
  }

  /** Where the SNI extension ends. */
  function SniEnd(h: ClientHello): nat
    requires HasHost(h)
  {
    var i := Lookup(h.exts, 0);
    LengthAt(h) + 2 + BodyAt(h.exts, i) + |h.exts[i].body|
  }

  /**
    The host name is read, in lower case and up to the size of the buffer, exactly when all of the
    SNI extension is there.
   */
  lemma {:induction false} HostOfArrived(h: ClientHello, more: seq<byte>, n: nat, d: seq<byte>, size: nat,
      partial: bool)
    requires Arrived(h, more, n, d) && size > 0
    ensures TLSHelloExtractHost(d, size, partial) ==
      if HasHost(h) && SniEnd(h) <= n && Enough(h, n, partial)
      then Name(Lower(HostOf(h)[..Least(|HostOf(h)|, size - 1)]))
      else NoName
  {
    FindExtOfArrived(h, more, n, d, 0, partial);
    var i := Lookup(h.exts, 0);
    if i < |h.exts| && TLSFindExt(d, 0, partial).FoundAt? {
      var pos := LengthAt(h) + 2 + BodyAt(h.exts, i);
      BodyArrived(h, more, n, d, i, pos);
      ExtractFrom(d, size, partial, pos, h.exts[i].body);
      if HasHost(h) {
        HostFromExt(h, size);
      }
    }
  }

  lemma {:induction false} BodyArrived(h: ClientHello, more: seq<byte>, n: nat, d: seq<byte>, i: nat, pos: nat)
    requires Arrived(h, more, n, d) && i < |h.exts| && pos == LengthAt(h) + 2 + BodyAt(h.exts, i)
    requires pos + |h.exts[i].body| <= n
    ensures pos + |h.exts[i].body| <= |d| && d[pos..pos + |h.exts[i].body|] == h.exts[i].body
  {
    BodyOfExt(h, i, pos);
    var s := Encode(h);
    assert d[pos..pos + |h.exts[i].body|] == s[pos..pos + |h.exts[i].body|];
  }
}

/** The other modifications of TLSMod, and all of them together. */
module TlsHost {
  import opened Blocks
  import opened Pieces
  import opened Tls
  import opened TlsMeaning
  import opened TlsMod
  import opened TlsPadding
  import opened Words

  // ---------------------------------------------------------------------------------------
  // The host name
  // ---------------------------------------------------------------------------------------

  /** Does the hello name a host? */
  predicate HasHost(h: ClientHello) {
    Lookup(h.exts, 0) < |h.exts| && HostInSni(h.exts[Lookup(h.exts, 0)].body).FoundAt?
  }

  /** The name that the hello carries. */
  function HostOf(h: ClientHello): seq<byte>
    requires HasHost(h)
  {
    var body := h.exts[Lookup(h.exts, 0)].body;
    body[5..5 + HostInSni(body).len]
  }

  /** The hello with another name. */
  function Renamed(h: ClientHello, host: seq<byte>): ClientHello
    requires HasHost(h)
  {
    HelloWithHost(h, Lookup(h.exts, 0), host)
  }

  lemma {:induction false} WithHostReads(body: seq<byte>, host: seq<byte>)
    requires HostInSni(body).FoundAt? && |host| < 0x1_0000
    ensures HostInSni(WithHost(body, host)) == FoundAt(5, |host|) && WithHost(body, host)[5..5 + |host|] == host
    ensures WithHost(body, host)[5 + |host|..] == body[5 + HostInSni(body).len..]
  {
    var b := WithHost(body, host);
    assert b[3..3 + 2] == Be(|host|, 2);
    assert Pow256(2) == 0x1_0000;
    UintOfBe(b, 3, 2, |host|);
  }

  /** The new hello names the new host. */
  lemma {:induction false} RenamedHost(h: ClientHello, host: seq<byte>)
    requires HasHost(h) && |host| < 0x1_0000
    ensures Lookup(Renamed(h, host).exts, 0) == Lookup(h.exts, 0) && HasHost(Renamed(h, host))
      && HostOf(Renamed(h, host)) == host
  {
    var i, h' := Lookup(h.exts, 0), Renamed(h, host);
    WithHostReads(h.exts[i].body, host);
    assert h'.exts[i].etype == 0 && forall j :: 0 <= j < i ==> h'.exts[j] == h.exts[j];
    assert Lookup(h'.exts, 0) == i;
  }

  /** The name in the data of the SNI extension, as far as it fits the buffer. */
  lemma {:induction false} HostFromExt(h: ClientHello, size: nat)
    requires HasHost(h) && size > 0
    ensures TLSExtractHostFromExt(h.exts[Lookup(h.exts, 0)].body, size) ==
      Name(Lower(HostOf(h)[..Least(|HostOf(h)|, size - 1)]))
  {
    var body, n := h.exts[Lookup(h.exts, 0)].body, |HostOf(h)|;
    assert HostOf(h)[..Least(n, size - 1)] == body[5..5 + Least(n, size - 1)];
  }

  /** Once the data of the SNI extension is found, only it matters. */
  lemma {:induction false} ExtractFrom(s: seq<byte>, size: nat, partial: bool, pos: nat, body: seq<byte>)
    requires size > 0 && TLSFindExt(s, 0, partial) == FoundAt(pos, |body|)
    requires pos + |body| <= |s| && s[pos..pos + |body|] == body
    ensures TLSHelloExtractHost(s, size, partial) == TLSExtractHostFromExt(body, size)
  {
  }

  /** The receiver reads the host name that the hello carries, in lower case, as far as it fits the buffer. */
  lemma {:induction false} ExtractedHost(h: ClientHello, size: nat, partial: bool)
    requires Fits(h) && size > 0
    ensures TLSHelloExtractHost(Encode(h), size, partial) ==
      if HasHost(h) then Name(Lower(HostOf(h)[..Least(|HostOf(h)|, size - 1)])) else NoName
  {
    var i, s := Lookup(h.exts, 0), Encode(h);
    FindExtOfEncode(h, s, 0, partial);
    if i < |h.exts| {
      var pos := LengthAt(h) + 2 + BodyAt(h.exts, i);
      BodyOfExt(h, i, pos);
      ExtractFrom(s, size, partial, pos, h.exts[i].body);
      if HasHost(h) {
        HostFromExt(h, size);
      }
    }
  }

  /** Does the length of the name list say where the SNI data ends? */
  predicate ListRight(body: seq<byte>) {
    |body| >= 2 && UintAt(body, 0, 2) + 2 == |body|
  }

  /** A right length of the name list stays right, when the new data can be counted. */
  lemma {:induction false} ListStaysRight(body: seq<byte>, host: seq<byte>)
    requires HostInSni(body).FoundAt? && ListRight(body) && |WithHost(body, host)| < 0x1_0000
    ensures ListRight(WithHost(body, host))
  {
    var n, w := HostInSni(body).len, WithHost(body, host);
    var l := |body| - 2 + |host| - n;
    assert |w| == l + 2 && w[0..2] == Be(l, 2);
    assert Pow256(2) == 0x1_0000;
    UintOfBe(w, 0, 2, l);
  }

  /** The renamed hello has a right list length, when the hello has one and the renamed one fits. */
  lemma {:induction false} RenamedList(h: ClientHello, host: seq<byte>)
    requires HasHost(h) && ListRight(h.exts[Lookup(h.exts, 0)].body) && Fits(Renamed(h, host)) && |host| < 0x1_0000
    ensures Lookup(Renamed(h, host).exts, 0) == Lookup(h.exts, 0)
    ensures ListRight(Renamed(h, host).exts[Lookup(h.exts, 0)].body)
  {
    var i, h' := Lookup(h.exts, 0), Renamed(h, host);
    RenamedHost(h, host);
    assert FitsExt(h'.exts[i]);
    ListStaysRight(h.exts[i].body, host);
  }

  /** Only the length of the SNI extension and those around it can be too much for their fields. */
  lemma {:induction false} RenamedFits(h: ClientHello, host: seq<byte>)
    requires Fits(h) && HasHost(h)
    ensures Fits(Renamed(h, host)) <==> HandshakeSize(Renamed(h, host)) + 4 < 0x1_0000
  {
    var h', i := Renamed(h, host), Lookup(h.exts, 0);
    SizesWithHost(h, i, host, |HostOf(h)|);
    ExtsAround(h'.exts, i);
    if HandshakeSize(h') + 4 < 0x1_0000 {
      forall j | 0 <= j < |h'.exts|
        ensures FitsExt(h'.exts[j])
      {
        assert FitsExt(h.exts[j]);
      }
    }
  }

  /**
    The sni modification is right, for every hello that names a host, exactly when the renamed
    hello fits its length fields.
   */
  lemma {:induction false} RenameIff(h: ClientHello, host: seq<byte>, r: seq<byte>, ext: nat)
    requires Fits(h) && HasHost(h) && ext == LengthAt(h) + 2 + BodyAt(h.exts, Lookup(h.exts, 0))
    requires ext + 5 + |HostOf(h)| <= |Encode(h)| && r == ReplaceHost(Encode(h), host, LengthAt(h), ext, |HostOf(h)|)
    ensures RecordLen(r) == |r| <==> Fits(Renamed(h, host))
    ensures Fits(Renamed(h, host)) ==> r == Encode(Renamed(h, host))
  {
    var i, h', n := Lookup(h.exts, 0), Renamed(h, host), |HostOf(h)|;
    RenamedFits(h, host);
    SizesWithHost(h, i, host, n);
    HelloBytes(h, Encode(h));
    if Fits(h') {
      ReplaceHostMeaning(h, i, n, host, h', ext);
      HelloOfEncode(h', Encode(h'));
    } else {
      RecordLenBound(r);
    }
  }

  /** A name of the same length, written over the old one. */
  lemma {:induction false} OverwrittenHost(h: ClientHello, name: seq<byte>, ext: nat)
    requires Fits(h) && HasHost(h) && |name| == |HostOf(h)|
      && ext == LengthAt(h) + 2 + BodyAt(h.exts, Lookup(h.exts, 0))
    ensures Fits(Renamed(h, name)) && ext + 5 + |name| <= |Encode(h)|
    ensures Overwrite(Encode(h), ext + 5, name) == Encode(Renamed(h, name))
  {
    var i, h', n := Lookup(h.exts, 0), Renamed(h, name), |name|;
    SizesWithHost(h, i, name, n);
    RenamedFits(h, name);
    ReplaceHostMeaning(h, i, n, name, h', ext);
    AddAllNothing(Splice(Encode(h), ext + 5, n, name), HelloLens(LengthAt(h)) + SniLens(ext));
  }

  /** What the sni and rndsni modifications mean for a hello that names a host. */
  function HostStep(h: ClientHello, m: Mods, dice: Dice): (bool, ClientHello)
    requires HasHost(h) && (m.sni ==> |m.host| < 0x1_0000)
  {
    var h1 := AfterSni(h, m);
    AfterSniHost(h, m);
    if !m.rndSni then (true, h1)
    else if HostOf(h1) == [] then (false, h1)
    else (true, Renamed(h1, RandomName(dice, |HostOf(h1)|)))
  }

  function AfterSni(h: ClientHello, m: Mods): ClientHello
    requires HasHost(h)
  {
    if m.sni then Renamed(h, m.host) else h
  }

  lemma {:induction false} AfterSniHost(h: ClientHello, m: Mods)
    requires HasHost(h) && (m.sni ==> |m.host| < 0x1_0000)
    ensures HasHost(AfterSni(h, m)) && HostOf(AfterSni(h, m)) == if m.sni then m.host else HostOf(h)
    ensures Lookup(AfterSni(h, m).exts, 0) == Lookup(h.exts, 0)
  {
    if m.sni {
      RenamedHost(h, m.host);
    }
  }

  /** The new name is longer or shorter than the old one, and there is no room for it. */
  predicate NoRoom(h: ClientHello, m: Mods, cap: nat)
    requires Fits(h) && HasHost(h)
  {
    m.sni && |m.host| != |HostOf(h)| && |Encode(h)| - |HostOf(h)| + |m.host| > cap
  }

  /** f is where the SNI data of the hello is. */
  ghost predicate SniAt(h: ClientHello, s: seq<byte>, f: Found) {
    var i := Lookup(h.exts, 0);
    if i == |h.exts| then f == NotFound
    else
      f == FoundAt(LengthAt(h) + 2 + BodyAt(h.exts, i), |h.exts[i].body|) && f.pos + f.len <= |s|
        && s[f.pos..f.pos + f.len] == h.exts[i].body
  }

  /** The reader finds the SNI data that the hello carries. */
  lemma {:induction false} HostFound(h: ClientHello, s: seq<byte>, f: Found)
    requires Fits(h) && s == Encode(h) && f == TLSFindExt(s, 0, false)
    ensures SniAt(h, s, f)
  {
    FindExtOfEncode(h, s, 0, false);
    if f.FoundAt? {
      BodyOfExt(h, Lookup(h.exts, 0), f.pos);
    }
  }

  /** Renaming does not move the SNI extension. */
  lemma {:induction false} SamePlace(h: ClientHello, h1: ClientHello)
    requires HasHost(h) && (h1 == h || exists host :: h1 == Renamed(h, host)) && Lookup(h1.exts, 0) == Lookup(h.exts, 0)
    ensures LengthAt(h1) == LengthAt(h) && BodyAt(h1.exts, Lookup(h1.exts, 0)) == BodyAt(h.exts, Lookup(h.exts, 0))
  {
    var i := Lookup(h.exts, 0);
    assert h1.exts[..i] == h.exts[..i];
  }

  lemma {:induction false} SniMeaning(h: ClientHello, s: seq<byte>, m: Mods, ext: nat)
    requires Fits(h) && s == Encode(h) && HasHost(h) && ext == LengthAt(h) + 2 + BodyAt(h.exts, Lookup(h.exts, 0))
    requires (m.sni ==> |m.host| < 0x1_0000) && Fits(AfterSni(h, m)) && ext + 5 + |HostOf(h)| <= |s|
    ensures (if m.sni then ReplaceHost(s, m.host, LengthAt(h), ext, |HostOf(h)|) else s) == Encode(AfterSni(h, m))
  {
    if m.sni {
      RenameIff(h, m.host, ReplaceHost(s, m.host, LengthAt(h), ext, |HostOf(h)|), ext);
    }
  }

  lemma {:induction false} RandomHostMeaning(h: ClientHello, s: seq<byte>, dice: Dice, ext: nat)
    requires Fits(h) && s == Encode(h) && HasHost(h) && ext == LengthAt(h) + 2 + BodyAt(h.exts, Lookup(h.exts, 0))
    requires ext + 5 + |HostOf(h)| <= |s|
    ensures HostOf(h) == [] ==> RandomHost(s, ext, 0, dice) == Go(false, s)
    ensures HostOf(h) != [] ==>
      var h' := Renamed(h, RandomName(dice, |HostOf(h)|));
      Fits(h') && RandomHost(s, ext, |HostOf(h)|, dice) == Go(true, Encode(h'))
  {
    if HostOf(h) != [] {
      OverwrittenHost(h, RandomName(dice, |HostOf(h)|), ext);
    }
  }

  lemma {:induction false} SetHostMeaning(h: ClientHello, s: seq<byte>, m: Mods, dice: Dice, ext: nat)
    requires Fits(h) && s == Encode(h) && HasHost(h) && ext == LengthAt(h) + 2 + BodyAt(h.exts, Lookup(h.exts, 0))
    requires (m.sni ==> |m.host| < 0x1_0000) && Fits(AfterSni(h, m)) && ext + 5 + |HostOf(h)| <= |s|
    ensures
      var t := HostStep(h, m, dice);
      Fits(t.1) && SetHost(s, m, LengthAt(h), ext, |HostOf(h)|, dice) == Go(t.0, Encode(t.1))
  {
    var h1 := AfterSni(h, m);
    AfterSniHost(h, m);
    SamePlace(h, h1);
    SniMeaning(h, s, m, ext);
    if m.rndSni {
      RandomHostMeaning(h1, Encode(h1), dice, ext);
    }
  }

  /** A name that does not fit makes the hello too long for any record length. */
  lemma {:induction false} SetHostTooLong(h: ClientHello, s: seq<byte>, m: Mods, dice: Dice, ext: nat)
    requires Fits(h) && s == Encode(h) && HasHost(h) && m.sni && !Fits(Renamed(h, m.host))
    requires 43 < LengthAt(h) && LengthAt(h) + 6 <= ext && ext + 5 + |HostOf(h)| <= |s|
    ensures SetHost(s, m, LengthAt(h), ext, |HostOf(h)|, dice).Go?
    ensures |SetHost(s, m, LengthAt(h), ext, |HostOf(h)|, dice).data| >= 0x1_0005
  {
    RenamedFits(h, m.host);
    SizesWithHost(h, Lookup(h.exts, 0), m.host, |HostOf(h)|);
    HelloBytes(h, s);
  }

  /** Once the old name is found and there is room for the new one, the name is set. */
  lemma {:induction false} ModHostSets(s: seq<byte>, m: Mods, eo: nat, cap: nat, dice: Dice, f: Found, n: nat)
    requires 43 < eo && eo + 2 <= |s| && f.FoundAt? && eo + 6 <= f.pos && f.pos + f.len <= |s|
    requires HostInSni(s[f.pos..f.pos + f.len]) == FoundAt(5, n)
    requires m.sni && |m.host| != n ==> |s| - n + |m.host| <= cap
    ensures ModHost(s, m, eo, cap, dice, f) == SetHost(s, m, eo, f.pos, n, dice)
  {
  }

  /** The sni and rndsni modifications, for every hello: refused, right, or too long for any record length. */
  lemma {:induction false} ModHostMeaning(h: ClientHello, s: seq<byte>, m: Mods, cap: nat, dice: Dice, f: Found)
    requires Fits(h) && s == Encode(h) && (m.sni ==> |m.host| < 0x1_0000) && SniAt(h, s, f)
    requires 43 < LengthAt(h) && LengthAt(h) + 2 <= |s|
    ensures !HasHost(h) || NoRoom(h, m, cap) ==> ModHost(s, m, LengthAt(h), cap, dice, f) == Stop(s)
    ensures HasHost(h) && !NoRoom(h, m, cap) && Fits(AfterSni(h, m)) ==>
      var t := HostStep(h, m, dice);
      Fits(t.1) && ModHost(s, m, LengthAt(h), cap, dice, f) == Go(t.0, Encode(t.1))
    ensures HasHost(h) && !NoRoom(h, m, cap) && !Fits(AfterSni(h, m)) ==>
      var a := ModHost(s, m, LengthAt(h), cap, dice, f);
      a.Go? && |a.data| >= 0x1_0005
  {
    if HasHost(h) && !NoRoom(h, m, cap) {
      ModHostSets(s, m, LengthAt(h), cap, dice, f, |HostOf(h)|);
      if Fits(AfterSni(h, m)) {
        SetHostMeaning(h, s, m, dice, f.pos);
      } else {
        SetHostTooLong(h, s, m, dice, f.pos);
      }
    }
  }

  // ---------------------------------------------------------------------------------------
  // Random bytes and session ids
  // ---------------------------------------------------------------------------------------

  /** The hello with another random and another session id of the same length. */
  function WithRandom(h: ClientHello, random: seq<byte>, sid: seq<byte>): ClientHello {
    h.(random := random, sid := sid)
  }

  lemma {:induction false} OverwriteIsSplice(s: seq<byte>, at: nat, intro: seq<byte>, t: seq<byte>)
    requires at + |intro| + |t| <= |s| && s[at..at + |intro|] == intro
    ensures Overwrite(s, at + |intro|, t) == Splice(s, at, |intro| + |t|, intro + t)
  {
    assert s[..at + |intro|] == s[..at] + intro;
  }

  lemma {:induction false} WithSidFields(h: ClientHello, sid: seq<byte>)
    requires Fits(h) && |sid| == |h.sid|
    ensures Fits(WithRandom(h, h.random, sid)) && SID_AT + |sid| <= |Encode(h)|
    ensures Overwrite(Encode(h), SID_AT, sid) == Encode(WithRandom(h, h.random, sid))
  {
    var p, h' := Fields(h), WithRandom(h, h.random, sid);
    FieldsStart(h, p, [EncodeExts(h.exts)], HandshakeSize(h), |EncodeExts(h.exts)|);
    HelloOffsets(h, p, HandshakeSize(h), |EncodeExts(h.exts)|);
    SpliceField(p, 6, sid);
    var q := p[6 := sid];
    assert q[12..] == p[12..];
    FlatAt(p[12..], 0);
    EncodeFrom(h', q);
  }

  lemma {:induction false} WithRandomFields(h: ClientHello, random: seq<byte>)
    requires Fits(h) && |random| == 32
    ensures Fits(WithRandom(h, random, h.sid)) && RANDOM_AT + 32 <= |Encode(h)|
    ensures Overwrite(Encode(h), RANDOM_AT, random) == Encode(WithRandom(h, random, h.sid))
  {
    var p, h' := Fields(h), WithRandom(h, random, h.sid);
    FieldsStart(h, p, [EncodeExts(h.exts)], HandshakeSize(h), |EncodeExts(h.exts)|);
    HelloOffsets(h, p, HandshakeSize(h), |EncodeExts(h.exts)|);
    var intro: seq<byte> := [3, h.minor];
    SpliceField(p, 4, intro + random);
    FieldAt(p, 4);
    SubSlice(Flat(p), 9, intro + h.random, 0, 2);
    OverwriteIsSplice(Flat(p), 9, intro, random);
    var q := p[4 := intro + random];
    assert q[12..] == p[12..];
    FlatAt(p[12..], 0);
    EncodeFrom(h', q);
  }

  /** The rnd modification replaces the random and the session id, and nothing else. */
  lemma {:induction false} ModRandomMeaning(h: ClientHello, s: seq<byte>, dice: Dice)
    requires Fits(h) && s == Encode(h)
    ensures |s| >= SID_AT && |s| >= SID_AT + s[43]
    ensures
      var h' := WithRandom(h, Throw(dice.random, 32), Throw(dice.sid, |h.sid|));
      Fits(h') && ModRandom(s, dice) == Encode(h')
  {
    HelloBytes(h, s);
    var h1 := WithRandom(h, Throw(dice.random, 32), h.sid);
    WithRandomFields(h, Throw(dice.random, 32));
    WithSidFields(h1, Throw(dice.sid, |h.sid|));
  }

  /** Has the payload a session id that can replace that of the hello? */
  predicate SidFits(h: ClientHello, payload: seq<byte>) {
    IsTLSClientHello(payload, true) && |payload| >= SID_AT + |h.sid| && payload[43] == |h.sid|
  }

  /** The dupsid modification takes the session id of the payload when it has the same length, and else does nothing. */
  lemma {:induction false} ModSidMeaning(h: ClientHello, s: seq<byte>, payload: seq<byte>)
    requires Fits(h) && s == Encode(h)
    ensures |s| >= SID_AT && |s| >= SID_AT + s[43]
    ensures ModSid(s, payload).ok <==> SidFits(h, payload)
    ensures !SidFits(h, payload) ==> ModSid(s, payload).data == s
    ensures SidFits(h, payload) ==>
      var h' := WithRandom(h, h.random, payload[SID_AT..SID_AT + |h.sid|]);
      Fits(h') && ModSid(s, payload).data == Encode(h')
  {
    HelloBytes(h, s);
    if SidFits(h, payload) {
      WithSidFields(h, payload[SID_AT..SID_AT + |h.sid|]);
    }
  }
}

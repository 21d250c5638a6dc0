/** What TLSHelloExtractHost reads from the hello that TLSMod made, and a hello that TLSMod spoils. */
module TlsReceiver {
  import opened Blocks
  import opened Pieces
  import opened Tls
  import opened TlsHost
  import TlsMeaning
  import opened TlsMod
  import opened TlsOutcome
  import opened TlsPadding
  import opened Words

  // ---------------------------------------------------------------------------------------
  // The name that is read
  // ---------------------------------------------------------------------------------------

  /** The name before it is randomised. */
  function GivenName(h: ClientHello, m: Mods): seq<byte>
    requires HasHost(h)
  {
    if m.sni then m.host else HostOf(h)
  }

  /** The name that the modifications ask for. */
  function NewName(h: ClientHello, m: Mods, dice: Dice): seq<byte>
    requires HasHost(h) && (m.rndSni ==> GivenName(h, m) != [])
  {
    if m.rndSni then RandomName(dice, |GivenName(h, m)|) else GivenName(h, m)
  }

  /** The hello that is wanted carries the name that is asked for. */
  lemma {:induction false} WantedHost(h: ClientHello, m: Mods, cap: nat, dice: Dice, f: ClientHello)
    requires Fits(h) && HasHost(h) && (m.sni ==> |m.host| < 0x1_0000) && NameCanChange(h, m, cap, dice)
    requires f == WantedName(h, m, dice)
    ensures m.rndSni ==> GivenName(h, m) != []
    ensures HasHost(f) && HostOf(f) == NewName(h, m, dice)
  {
    AfterSniHost(h, m);
    if m.rndSni {
      HostBound(AfterSni(h, m));
      RenamedHost(AfterSni(h, m), RandomName(dice, |GivenName(h, m)|));
    }
  }

  lemma {:induction false} HostBound(h: ClientHello)
    requires HasHost(h)
    ensures |HostOf(h)| < 0x1_0000
  {
    TlsMeaning.BodyParts(h.exts[Lookup(h.exts, 0)].body, |HostOf(h)|);
  }

  /** A payload in the padding does not touch the name. */
  lemma {:induction false} PaddedHost(h: ClientHello, data: seq<byte>)
    requires PaddingAtEnd(h.exts)
    ensures HasHost(Padded(h, data)) == HasHost(h) && (HasHost(h) ==> HostOf(Padded(h, data)) == HostOf(h))
  {
    var h' := Padded(h, data);
    var i, j := Lookup(h.exts, 0), Lookup(h'.exts, 0);
    assert forall k :: 0 <= k < |h.exts| ==> h'.exts[k].etype == h.exts[k].etype;
    if i < |h.exts| {
      assert i == j;
    } else {
      assert j == |h'.exts|;
    }
  }

  lemma {:induction false} NameOfMade(r: Modded, w: ClientHello, m: Mods, payload: Payload, size: nat, name: seq<byte>,
      partial: bool)
    requires Makes(r, w, m, payload) && size > 0 && HasHost(w) && HostOf(w) == name
    requires m.padEncap && payload.Payload? ==> PaddingAtEnd(w.exts)
    ensures TLSHelloExtractHost(Sent(r, m, payload), size, partial) == Name(Lower(name[..Least(|name|, size - 1)]))
  {
    if m.padEncap && payload.Payload? {
      PaddedHost(w, payload.data);
      ExtractedHost(Padded(w, payload.data), size, partial);
    } else {
      ExtractedHost(w, size, partial);
    }
  }

  lemma {:induction false} SameName(f: ClientHello, w: ClientHello, name: seq<byte>)
    requires w.exts == f.exts && HasHost(f) && HostOf(f) == name
    ensures HasHost(w) && HostOf(w) == name
  {
  }

  /**
    Whatever else is modified, the host name that is read from what is sent, by the strict or
    by the partial reader, is the one that was asked for.
   */
  lemma {:induction false} NewNameIsRead(h: ClientHello, m: Mods, payload: Payload, cap: nat, dice: Dice, r: Modded,
      size: nat, partial: bool)
    requires Fits(h) && HasHost(h) && size > 0 && (m.sni ==> |m.host| < 0x1_0000)
    requires r == Modify(Encode(h), m, payload, cap, dice) && r.ok && Right(Sent(r, m, payload))
    ensures m.rndSni ==> GivenName(h, m) != []
    ensures
      var name := NewName(h, m, dice);
      TLSHelloExtractHost(Sent(r, m, payload), size, partial) == Name(Lower(name[..Least(|name|, size - 1)]))
  {
    TlsModIff(h, m, payload, cap, dice, r);
    var f := WantedName(h, m, dice);
    var w := Wanted(h, m, payload, dice);
    WantedHost(h, m, cap, dice, f);
    SameName(f, w, NewName(h, m, dice));
    NameOfMade(r, w, m, payload, size, NewName(h, m, dice), partial);
  }

  /** The shape of a random name: a letter first, and from 7 bytes on a dot and the top-level domain at the end. */
  ghost predicate RandomShape(name: seq<byte>, dice: Dice) {
    var n := |name|;
    && n > 0 && name[0] == ToLower(dice.letter)
    && (n >= 7 ==>
      && name[n - 4] == 46 && name[n - 3] == ToLower(dice.tld.0)
      && name[n - 2] == ToLower(dice.tld.1) && name[n - 1] == ToLower(dice.tld.2))
    && forall k :: 1 <= k < (if n >= 7 then n - 4 else n) ==> name[k] == ToLower(dice.letters(k - 1))
  }

  lemma {:induction false} RandomNameIs(dice: Dice, n: nat)
    requires n > 0
    ensures RandomShape(Lower(RandomName(dice, n)), dice)
  {
  }

  /** With rndsni a receiver with room for it reads a name of the old length and of that shape. */
  lemma {:induction false} RandomNameIsRead(h: ClientHello, m: Mods, payload: Payload, cap: nat, dice: Dice, r: Modded,
      size: nat, partial: bool)
    requires Fits(h) && HasHost(h) && (m.sni ==> |m.host| < 0x1_0000) && m.rndSni && size > |GivenName(h, m)|
    requires r == Modify(Encode(h), m, payload, cap, dice) && r.ok && Right(Sent(r, m, payload))
    ensures
      var name := TLSHelloExtractHost(Sent(r, m, payload), size, partial);
      name.Name? && |name.host| == |GivenName(h, m)| && RandomShape(name.host, dice)
  {
    NewNameIsRead(h, m, payload, cap, dice, r, size, partial);
    var name := NewName(h, m, dice);
    assert name[..|name|] == name;
    RandomNameIs(dice, |GivenName(h, m)|);
  }

  // ---------------------------------------------------------------------------------------
  // A name that does not fit
  // ---------------------------------------------------------------------------------------

  /** The sni modification and no other. */
  function OnlySni(host: seq<byte>): Mods {
    Mods(false, false, true, host, false, false)
  }

  lemma {:induction false} OnlySniStage(h: ClientHello, s: seq<byte>, host: seq<byte>, cap: nat, dice: Dice,
      sni: Found, ext: nat)
    requires HasHost(h) && SniAt(h, s, sni) && 43 < LengthAt(h) && LengthAt(h) + 2 <= |s|
    requires |s| - |HostOf(h)| + |host| <= cap && ext == LengthAt(h) + 2 + BodyAt(h.exts, Lookup(h.exts, 0))
    ensures LengthAt(h) + 6 <= ext && ext + 5 + |HostOf(h)| <= |s| && sni.FoundAt? && LengthAt(h) + 6 <= sni.pos
    ensures ModHost(s, OnlySni(host), LengthAt(h), cap, dice, sni) ==
      Go(true, ReplaceHost(s, host, LengthAt(h), ext, |HostOf(h)|))
  {
    ModHostSets(s, OnlySni(host), LengthAt(h), cap, dice, sni, |HostOf(h)|);
  }

  /**
    With the sni modification alone, TLSMod replaces the name and reports success, whether or not
    the lengths have room.
   */
  lemma {:induction false} OnlySniReplaces(h: ClientHello, host: seq<byte>, cap: nat, dice: Dice, ext: nat)
    requires Fits(h) && HasHost(h) && |Encode(h)| - |HostOf(h)| + |host| <= cap
      && ext == LengthAt(h) + 2 + BodyAt(h.exts, Lookup(h.exts, 0))
    ensures 43 < LengthAt(h) && LengthAt(h) + 6 <= ext && ext + 5 + |HostOf(h)| <= |Encode(h)|
    ensures Modify(Encode(h), OnlySni(host), NoPayload, cap, dice) ==
      Modded(true, ReplaceHost(Encode(h), host, LengthAt(h), ext, |HostOf(h)|))
  {
    var s, sni := Encode(h), TLSFindExt(Encode(h), 0, false);
    HelloOfEncode(h, s);
    EncodeSizes(h, s);
    HostFound(h, s, sni);
    OnlySniStage(h, s, host, cap, dice, sni, ext);
    var t := ReplaceHost(s, host, LengthAt(h), ext, |HostOf(h)|);
    ModifyGoesOn(s, OnlySni(host), NoPayload, cap, dice, LengthAt(h), sni, Go(true, t));
  }

  /** A hello whose record is as long as its length field can tell, with an empty host name. */
  lemma {:induction false} LongHello() returns (h: ClientHello)
    ensures Fits(h) && HasHost(h) && HostOf(h) == [] && Lookup(h.exts, 0) == 0 && HandshakeSize(h) + 4 == 0xFFFF
  {
    var e := Ext(0, [0, 3, 0, 0, 0]);
    h := ClientHello(1, 3, Zeros(32), [], Zeros(0xFFC9), [0], [e]);
    assert EncodeExts(h.exts) == EncodeExt(e) + [];
    assert HostInSni(e.body) == FoundAt(5, 0);
  }

  /**
    A hello that is too long for one more byte of host name: TLSMod reports success, and the record
    length has wrapped.
   */
  lemma {:induction false} RenameWraps(cap: nat, dice: Dice) returns (h: ClientHello, r: Modded)
    requires cap > 0x1_0004
    ensures Fits(h) && HasHost(h) && r == Modify(Encode(h), OnlySni([97]), NoPayload, cap, dice)
    ensures r.ok && RecordLen(r.data) < |r.data|
  {
    h := LongHello();
    HelloBytes(h, Encode(h));
    var ext := LengthAt(h) + 2 + BodyAt(h.exts, 0);
    OnlySniReplaces(h, [97], cap, dice, ext);
    r := Modify(Encode(h), OnlySni([97]), NoPayload, cap, dice);
    RenamedFits(h, [97]);
    TlsMeaning.SizesWithHost(h, 0, [97], 0);
    RenameIff(h, [97], r.data, ext);
    RecordLenBound(r.data);
  }
}

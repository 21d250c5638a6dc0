/** All modifications of TLSMod together: exactly when the result is right, and what it is then. */
module TlsOutcome {
  import opened Tls
  import opened TlsHost
  import opened TlsMod
  import opened TlsPadding
  import opened Words

  // ---------------------------------------------------------------------------------------
  // What is wanted
  // ---------------------------------------------------------------------------------------

  /** A host is there, the new name has room and fits, and there is something to randomise. */
  predicate NameCanChange(h: ClientHello, m: Mods, cap: nat, dice: Dice)
    requires Fits(h) && (m.sni ==> |m.host| < 0x1_0000)
  {
    m.sni || m.rndSni ==> HasHost(h) && !NoRoom(h, m, cap) && Fits(AfterSni(h, m)) && HostStep(h, m, dice).0
  }

  function WantedName(h: ClientHello, m: Mods, dice: Dice): ClientHello
    requires (m.sni || m.rndSni ==> HasHost(h)) && (m.sni ==> |m.host| < 0x1_0000)
  {
    if m.sni || m.rndSni then HostStep(h, m, dice).1 else h
  }

  function WantedRandom(h: ClientHello, m: Mods, dice: Dice): ClientHello {
    if m.rnd then WithRandom(h, Throw(dice.random, 32), Throw(dice.sid, |h.sid|)) else h
  }

  function WantedSid(h: ClientHello, m: Mods, payload: Payload): ClientHello {
    if payload.Payload? && m.dupSid && SidFits(h, payload.data)
    then WithRandom(h, h.random, payload.data[SID_AT..SID_AT + |h.sid|])
    else h
  }

  /** The hello with the changes that are asked for, apart from the payload in its padding. */
  function Wanted(h: ClientHello, m: Mods, payload: Payload, dice: Dice): ClientHello
    requires (m.sni || m.rndSni ==> HasHost(h)) && (m.sni ==> |m.host| < 0x1_0000)
  {
    WantedSid(WantedRandom(WantedName(h, m, dice), m, dice), m, payload)
  }

  /** The padding is absent or last, there is room for a new one, and the payload fits. */
  predicate PayloadFits(h: ClientHello, data: seq<byte>, cap: nat) {
    && Fits(h) && PaddingAtEnd(h.exts) && Fits(Padded(h, data))
    && (Lookup(h.exts, PADDING) == |h.exts| ==> |Encode(h)| + 4 <= cap)
  }

  /** Can everything that is asked for be done? */
  predicate Possible(h: ClientHello, m: Mods, payload: Payload, cap: nat, dice: Dice)
    requires Fits(h) && (m.sni ==> |m.host| < 0x1_0000)
  {
    && NameCanChange(h, m, cap, dice)
    && (payload.Payload? && m.dupSid ==> SidFits(h, payload.data))
    && (payload.Payload? && m.padEncap ==> PayloadFits(Wanted(h, m, payload, dice), payload.data, cap))
  }

  /** What is sent: the result, and the payload when that is wrapped. */
  function Sent(r: Modded, m: Mods, payload: Payload): seq<byte> {
    if m.padEncap && payload.Payload? then r.data + payload.data else r.data
  }

  /** Is what is sent the hello w, or when there is a payload to wrap, w with the payload in its padding? */
  ghost predicate Makes(r: Modded, w: ClientHello, m: Mods, payload: Payload) {
    var v := if m.padEncap && payload.Payload? then Padded(w, payload.data) else w;
    r.ok && Fits(v) && Sent(r, m, payload) == Encode(v)
  }

  /** The record length says where the record ends. */
  predicate Right(d: seq<byte>) {
    |d| >= 5 && RecordLen(d) == |d|
  }

  // ---------------------------------------------------------------------------------------
  // After the name
  // ---------------------------------------------------------------------------------------

  lemma {:induction false} RandomStage(f: ClientHello, s: seq<byte>, m: Mods, dice: Dice, g: ClientHello)
    requires Fits(f) && s == Encode(f) && g == WantedRandom(f, m, dice)
    ensures |s| >= SID_AT && |s| >= SID_AT + s[43]
    ensures Fits(g) && (if m.rnd then ModRandom(s, dice) else s) == Encode(g)
    ensures |Encode(g)| == |s| && LengthAt(g) == LengthAt(f) && g.exts == f.exts && |g.sid| == |f.sid|
  {
    EncodeSizes(f, s);
    if m.rnd {
      ModRandomMeaning(f, s, dice);
    }
  }

  lemma {:induction false} SidStage(g: ClientHello, s: seq<byte>, m: Mods, payload: Payload, w: ClientHello)
    requires Fits(g) && s == Encode(g) && payload.Payload? && w == WantedSid(g, m, payload)
    requires |s| >= SID_AT && |s| >= SID_AT + s[43]
    ensures Fits(w) && LengthAt(w) == LengthAt(g) && w.exts == g.exts && |Encode(w)| == |s|
    ensures (if m.dupSid then ModSid(s, payload.data) else Modded(true, s)) ==
      Modded(m.dupSid ==> SidFits(g, payload.data), Encode(w))
  {
    if m.dupSid {
      ModSidMeaning(g, s, payload.data);
    }
  }

  /** What is left to do after the name is to pad w. */
  lemma {:induction false} AfterHostIs(f: ClientHello, s: seq<byte>, ok: bool, m: Mods, payload: Payload, eo: Position,
      cap: nat, dice: Dice, g: ClientHello, w: ClientHello)
    requires Fits(f) && s == Encode(f) && g == WantedRandom(f, m, dice) && w == WantedSid(g, m, payload)
    requires 43 < LengthAt(f) && LengthAt(f) + 2 <= |s| && (m.padEncap ==> eo == At(LengthAt(f)))
    requires |s| >= SID_AT && |s| >= SID_AT + s[43]
    ensures Fits(w) && LengthAt(w) == LengthAt(f) && w.exts == f.exts && |Encode(w)| == |s|
    ensures
      var fine := ok && (payload.Payload? && m.dupSid ==> SidFits(f, payload.data));
      AfterHost(Go(ok, s), m, payload, eo, cap, dice) ==
        if payload.Payload? && m.padEncap then WithPadding(fine, Encode(w), |payload.data|, LengthAt(w), cap)
        else Modded(fine, Encode(w))
  {
    RandomStage(f, s, m, dice, g);
    EncodeSizes(g, Encode(g));
    if payload.Payload? {
      SidStage(g, Encode(g), m, payload, w);
    }
  }

  /** Nothing after the name shortens what is sent, or mends a failure. */
  lemma {:induction false} AfterHostKeeps(a: Stage, m: Mods, payload: Payload, eo: Position, cap: nat, dice: Dice)
    requires a.Go? && |a.data| >= SID_AT && |a.data| >= SID_AT + a.data[43]
    requires m.padEncap ==> eo.At? && 43 < eo.pos && eo.pos + 2 <= |a.data|
    ensures
      var r := AfterHost(a, m, payload, eo, cap, dice);
      |Sent(r, m, payload)| >= |a.data| && (!a.ok ==> !r.ok)
  {
  }

  // ---------------------------------------------------------------------------------------
  // The whole of TLSMod
  // ---------------------------------------------------------------------------------------

  /** The first part of Modify. */
  lemma {:induction false} ModifyGoesOn(s: seq<byte>, m: Mods, payload: Payload, cap: nat, dice: Dice, eo: nat,
      f: Found, a: Stage)
    requires IsTLSClientHello(s, false) && |s| >= SID_AT && |s| >= SID_AT + s[43] && TLSFindExtLen(s) == At(eo)
    requires f == TLSFindExt(s, 0, false) && 43 < eo && eo + 2 <= |s|
      && (f.FoundAt? ==> eo + 6 <= f.pos && f.pos + f.len <= |s|)
    requires a == if m.sni || m.rndSni then ModHost(s, m, eo, cap, dice, f) else Go(true, s)
    ensures |a.data| >= SID_AT && |a.data| >= SID_AT + a.data[43] && eo + 2 <= |a.data|
    ensures Modify(s, m, payload, cap, dice) ==
      if a.Stop? then Modded(false, a.data) else AfterHost(a, m, payload, At(eo), cap, dice)
  {
  }

  /** What the first part comes to. */
  lemma {:induction false} NameStage(h: ClientHello, s: seq<byte>, m: Mods, cap: nat, dice: Dice, f: Found)
    returns (a: Stage)
    requires Fits(h) && s == Encode(h) && (m.sni ==> |m.host| < 0x1_0000)
    requires SniAt(h, s, f) && 43 < LengthAt(h) && LengthAt(h) + 2 <= |s|
    ensures a == if m.sni || m.rndSni then ModHost(s, m, LengthAt(h), cap, dice, f) else Go(true, s)
    ensures NameCanChange(h, m, cap, dice) ==>
      var w := WantedName(h, m, dice);
      Fits(w) && LengthAt(w) == LengthAt(h) && a == Go(true, Encode(w)) && |w.sid| == |h.sid|
    ensures !NameCanChange(h, m, cap, dice) ==> a.Stop? || !a.ok || |a.data| >= 0x1_0005
  {
    if m.sni || m.rndSni {
      ModHostMeaning(h, s, m, cap, dice, f);
      a := ModHost(s, m, LengthAt(h), cap, dice, f);
    } else {
      a := Go(true, s);
    }
  }

  lemma {:induction false} TooLongIsWrong(d: seq<byte>)
    requires |d| >= 0x1_0005
    ensures !Right(d)
  {
    RecordLenBound(d);
  }

  /** Padding, once everything else is done. */
  lemma {:induction false} PaddedIff(w: ClientHello, s: seq<byte>, data: seq<byte>, cap: nat, r: Modded)
    requires Fits(w) && s == Encode(w) && 43 < LengthAt(w) && LengthAt(w) + 2 <= |s|
    requires r == WithPadding(true, s, |data|, LengthAt(w), cap)
    ensures r.ok && Right(r.data + data) <==> PayloadFits(w, data, cap)
    ensures PayloadFits(w, data, cap) ==> r.data + data == Encode(Padded(w, data))
  {
    PadencapIff(w, s, data, cap, ModPad(s, |data|, LengthAt(w), cap));
    AfterPaddingLength(s, |data|, LengthAt(w), cap);
  }

  lemma {:induction false} AfterPaddingLength(s: seq<byte>, n: nat, eo: nat, cap: nat)
    requires 43 < eo && eo + 2 <= |s|
    ensures |ModPad(s, n, eo, cap).data| >= |s|
  {
  }

  /** The part of the theorem after the name. */
  lemma {:induction false} RestIff(h: ClientHello, f: ClientHello, s: seq<byte>, m: Mods, payload: Payload, cap: nat,
      dice: Dice, w: ClientHello, r: Modded)
    requires Fits(f) && s == Encode(f) && |f.sid| == |h.sid| && w == WantedSid(WantedRandom(f, m, dice), m, payload)
    requires 43 < LengthAt(f) && LengthAt(f) + 2 <= |s| && |s| >= SID_AT && |s| >= SID_AT + s[43]
    requires r == AfterHost(Go(true, s), m, payload, At(LengthAt(f)), cap, dice)
    ensures Fits(w)
    ensures
      var possible := (payload.Payload? && m.dupSid ==> SidFits(h, payload.data))
        && (payload.Payload? && m.padEncap ==> PayloadFits(w, payload.data, cap));
      (r.ok && Right(Sent(r, m, payload)) <==> possible) && (possible ==> Makes(r, w, m, payload))
  {
    AfterHostIs(f, s, true, m, payload, At(LengthAt(f)), cap, dice, WantedRandom(f, m, dice), w);
    if payload.Payload? && m.padEncap {
      if m.dupSid ==> SidFits(h, payload.data) {
        PaddedIff(w, Encode(w), payload.data, cap, r);
      }
    } else {
      HelloOfEncode(w, Encode(w));
    }
  }

  /**
    TLSMod with any of its modifications, for every hello: it succeeds with a right record
    length exactly when everything that is asked for can be done, and then what is sent is the
    hello with exactly those changes.
   */
  lemma {:induction false} TlsModIff(h: ClientHello, m: Mods, payload: Payload, cap: nat, dice: Dice, r: Modded)
    requires Fits(h) && (m.sni ==> |m.host| < 0x1_0000) && r == Modify(Encode(h), m, payload, cap, dice)
    ensures r.ok && Right(Sent(r, m, payload)) <==> Possible(h, m, payload, cap, dice)
    ensures Possible(h, m, payload, cap, dice) ==> Makes(r, Wanted(h, m, payload, dice), m, payload)
  {
    var s, sni := Encode(h), TLSFindExt(Encode(h), 0, false);
    HelloOfEncode(h, s);
    EncodeSizes(h, s);
    HostFound(h, s, sni);
    var a := NameStage(h, s, m, cap, dice, sni);
    ModifyGoesOn(s, m, payload, cap, dice, LengthAt(h), sni, a);
    if NameCanChange(h, m, cap, dice) {
      var f := WantedName(h, m, dice);
      RestIff(h, f, a.data, m, payload, cap, dice, Wanted(h, m, payload, dice), r);
    } else if a.Go? {
      AfterHostKeeps(a, m, payload, At(LengthAt(h)), cap, dice);
      if |a.data| >= 0x1_0005 {
        TooLongIsWrong(Sent(r, m, payload));
      }
    }
  }
}

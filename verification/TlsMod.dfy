/** TLSMod of nfq2/protocol.c: a fake ClientHello rewritten in place, its nested lengths kept consistent. */
module TlsMod {
  import opened Blocks
  import opened Pieces
  import opened Tls
  import opened Words

  // ---------------------------------------------------------------------------------------
  // What the modifications do to the bytes
  // ---------------------------------------------------------------------------------------

  /** struct fake_tls_mod: the flags, and the name for the sni modification. */
  datatype Mods = Mods(rnd: bool, rndSni: bool, sni: bool, host: seq<byte>, dupSid: bool, padEncap: bool)

  /** What the random generators return. */
  datatype Dice = Dice(random: nat -> byte, sid: nat -> byte, letter: byte, letters: nat -> byte,
    tld: (byte, byte, byte))

  datatype Payload = NoPayload | Payload(data: seq<byte>)

  datatype Modded = Modded(ok: bool, data: seq<byte>)

  /** A step of TLSMod: it may end the function, with false, or let it go on. */
  datatype Stage = Stop(data: seq<byte>) | Go(ok: bool, data: seq<byte>)

  const RANDOM_AT := 11
  const PADDING := 21

  function Throw(f: nat -> byte, n: nat): (s: seq<byte>)
    ensures |s| == n
  {
    seq(n, i requires i >= 0 => f(i))
  }

  /** A name of n random characters, with a real top-level domain when there is room. */
  function RandomName(dice: Dice, n: nat): (s: seq<byte>)
    requires n > 0
    ensures |s| == n
  {
    if n >= 7 then [dice.letter] + Throw(dice.letters, n - 5) + [46] + [dice.tld.0, dice.tld.1, dice.tld.2]
    else [dice.letter] + Throw(dice.letters, n - 1)
  }

  /** The lengths of the record, the handshake and the extensions. */
  function HelloLens(eo: nat): seq<Len> {
    [Len(3, 2), Len(6, 3), Len(eo, 2)]
  }

  /** The lengths of the SNI extension, of the name list in it, and of the name. */
  function SniLens(ext: nat): seq<Len>
    requires ext >= 2
  {
    [Len(ext - 2, 2), Len(ext, 2), Len(ext + 3, 2)]
  }

  /** The host name of slen bytes, 5 bytes into the SNI data at ext, replaced; the six lengths around it follow. */
  function ReplaceHost(s: seq<byte>, host: seq<byte>, eo: nat, ext: nat, slen: nat): (r: seq<byte>)
    requires 43 < eo && eo + 6 <= ext && ext + 5 + slen <= |s|
    ensures |r| == |s| - slen + |host| && r[43] == s[43]
  {
    var t, fs, d := Splice(s, ext + 5, slen, host), HelloLens(eo) + SniLens(ext), |host| - slen;
    AddAllKeeps(t, fs, d, 43);
    AddAll(t, fs, d)
  }

  /** The rndsni modification of a name of slen bytes, 5 bytes into the SNI data at ext. */
  function RandomHost(s: seq<byte>, ext: nat, slen: nat, dice: Dice): (r: Stage)
    requires 43 < ext && ext + 5 + slen <= |s|
    ensures r.Go? && |r.data| == |s| && r.data[43] == s[43]
  {
    if slen == 0 then Go(false, s) else Go(true, Overwrite(s, ext + 5, RandomName(dice, slen)))
  }

  /** The sni and rndsni modifications, once the name of slen bytes has been found and the new one fits the buffer. */
  function SetHost(s: seq<byte>, m: Mods, eo: nat, ext: nat, slen: nat, dice: Dice): (r: Stage)
    requires 43 < eo && eo + 6 <= ext && ext + 5 + slen <= |s|
    ensures r.Go? && |r.data| >= eo + 2 && r.data[43] == s[43]
  {
    var t := if m.sni then ReplaceHost(s, m.host, eo, ext, slen) else s;
    if m.rndSni then RandomHost(t, ext, if m.sni then |m.host| else slen, dice) else Go(true, t)
  }

  /** The sni and rndsni modifications; f is where the data of the SNI extension is. */
  function ModHost(s: seq<byte>, m: Mods, eo: nat, cap: nat, dice: Dice, f: Found): (r: Stage)
    requires 43 < eo && eo + 2 <= |s| && (f.FoundAt? ==> eo + 6 <= f.pos && f.pos + f.len <= |s|)
    ensures |r.data| >= eo + 2 && r.data[43] == s[43]
  {
    var at := if f.FoundAt? then HostInSni(s[f.pos..f.pos + f.len]) else f;
    if at.NotFound? || (m.sni && |m.host| != at.len && |s| - at.len + |m.host| > cap) then Stop(s)
    else SetHost(s, m, eo, f.pos, at.len, dice)
  }

  /** The data of an extension lies behind the extensions length. */
  lemma {:induction false} FoundAfterLength(s: seq<byte>, etype: nat, eo: nat, f: Found)
    requires TLSFindExtLen(s) == At(eo) && f == TLSFindExt(s, etype, false) && f.FoundAt?
    ensures eo + 6 <= f.pos && f.pos + f.len <= |s|
  {
    LengthOfPrefix(s[5..], s[5..Least(RecordLen(s), |s|)]);
  }

  /** The place of the extensions length does not depend on what follows it. */
  lemma {:induction false} LengthOfPrefix(d: seq<byte>, p: seq<byte>)
    requires p <= d && TLSFindExtLenOffsetInHandshake(p).At?
    ensures TLSFindExtLenOffsetInHandshake(d) == TLSFindExtLenOffsetInHandshake(p)
  {
    var ciphers := SESSION_ID + d[SESSION_ID] + 1;
    assert p == d[0..|p|];
    UintOfSlice(d, 0, |p|, ciphers, 2);
  }

  /** The rnd modification. */
  function ModRandom(s: seq<byte>, dice: Dice): (r: seq<byte>)
    requires |s| >= SID_AT && |s| >= SID_AT + s[43]
    ensures |r| == |s| && r[43] == s[43]
  {
    Overwrite(Overwrite(s, RANDOM_AT, Throw(dice.random, 32)), SID_AT, Throw(dice.sid, s[43]))
  }

  /** The dupsid modification. */
  function ModSid(s: seq<byte>, payload: seq<byte>): (r: Modded)
    requires |s| >= SID_AT && |s| >= SID_AT + s[43]
    ensures |r.data| == |s|
  {
    if !IsTLSClientHello(payload, true) || |payload| < SID_AT || s[43] != payload[43]
      || |payload| < SID_AT + payload[43] then Modded(false, s)
    else Modded(true, Overwrite(s, SID_AT, payload[SID_AT..SID_AT + s[43]]))
  }

  /** An empty padding extension at the end, and the three lengths around it. */
  function AddPadding(s: seq<byte>, eo: nat): (r: seq<byte>)
    requires 43 < eo && eo + 2 <= |s|
    ensures |r| == |s| + 4
  {
    AddAll(s + Be(PADDING, 2) + Be(0, 2), HelloLens(eo), 4)
  }

  /** n more bytes after the padding whose length is at padlen; not when a length would not fit. */
  function GrowPadding(s: seq<byte>, eo: nat, padlen: nat, n: nat): (r: Modded)
    requires 43 < eo && eo + 2 <= |s| && padlen + 2 <= |s|
    ensures |r.data| == |s|
  {
    if UintAt(s, 3, 2) + n >= 0x1_0000 || UintAt(s, 6, 3) + n >= 0x100_0000 || UintAt(s, eo, 2) + n >= 0x1_0000
      || UintAt(s, padlen, 2) + n >= 0x1_0000
    then Modded(false, s)
    else Modded(true, AddAll(s, HelloLens(eo) + [Len(padlen, 2)], n))
  }

  /** The padencap modification, for a payload of n bytes. */
  function ModPad(s: seq<byte>, n: nat, eo: nat, cap: nat): (r: Modded)
    requires 43 < eo && eo + 2 <= |s|
  {
    var f := TLSFindExt(s, PADDING, false);
    if f.FoundAt? then
      if f.pos + f.len != |s| then Modded(false, s) else GrowPadding(s, eo, f.pos - 2, n)
    else if |s| + 4 > cap then Modded(false, s)
    else GrowPadding(AddPadding(s, eo), eo, |s| + 2, n)
  }

  /** All of TLSMod: s is the fake hello in a buffer of cap bytes. */
  function Modify(s: seq<byte>, m: Mods, payload: Payload, cap: nat, dice: Dice): Modded {
    if !IsTLSClientHello(s, false) || |s| < SID_AT || |s| < SID_AT + s[43] then Modded(false, s)
    else
      var eo := TLSFindExtLen(s);
      if (m.rndSni || m.sni || m.padEncap) && eo.Nowhere? then Modded(false, s)
      else
        var f := TLSFindExt(s, 0, false);
        assert (m.sni || m.rndSni) && f.FoundAt? ==> eo.pos + 6 <= f.pos && f.pos + f.len <= |s| by {
          if (m.sni || m.rndSni) && f.FoundAt? {
            FoundAfterLength(s, 0, eo.pos, f);
          }
        }
        var a := if m.sni || m.rndSni then ModHost(s, m, eo.pos, cap, dice, f) else Go(true, s);
        if a.Stop? then Modded(false, a.data) else AfterHost(a, m, payload, eo, cap, dice)
  }

  /** What is left of TLSMod after the name. */
  function AfterHost(a: Stage, m: Mods, payload: Payload, eo: Position, cap: nat, dice: Dice): Modded
    requires a.Go? && |a.data| >= SID_AT && |a.data| >= SID_AT + a.data[43]
    requires m.padEncap ==> eo.At? && 43 < eo.pos && eo.pos + 2 <= |a.data|
  {
    var b := if m.rnd then ModRandom(a.data, dice) else a.data;
    if payload.NoPayload? then Modded(a.ok, b) else WithPayload(a.ok, b, m, payload.data, eo, cap)
  }

  /** The modifications that need the payload. */
  function WithPayload(ok: bool, s: seq<byte>, m: Mods, payload: seq<byte>, eo: Position, cap: nat): Modded
    requires |s| >= SID_AT && |s| >= SID_AT + s[43] && (m.padEncap ==> eo.At? && 43 < eo.pos && eo.pos + 2 <= |s|)
  {
    var c := if m.dupSid then ModSid(s, payload) else Modded(true, s);
    if m.padEncap then WithPadding(ok && c.ok, c.data, |payload|, eo.pos, cap) else Modded(ok && c.ok, c.data)
  }

  function WithPadding(ok: bool, s: seq<byte>, n: nat, eo: nat, cap: nat): Modded
    requires 43 < eo && eo + 2 <= |s|
  {
    var d := ModPad(s, n, eo, cap);
    Modded(ok && d.ok, d.data)
  }
}

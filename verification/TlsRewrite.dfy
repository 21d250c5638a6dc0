/** TLSMod of nfq2/protocol.c on the buffer that it rewrites in place. */
module TlsRewrite {
  import opened Blocks
  import opened Pieces
  import opened Tls
  import opened TlsMod
  import opened Words

  // ---------------------------------------------------------------------------------------
  // Stores
  // ---------------------------------------------------------------------------------------

  /** Copy t to position p of the size bytes in use. */
  method Store(buf: array<byte>, size: nat, p: nat, t: seq<byte>)
    requires p + |t| <= size <= buf.Length
    modifies buf
    ensures buf[..size] == Overwrite(old(buf[..size]), p, t)
  {
    forall i | 0 <= i < |t| {
      buf[p + i] := t[i];
    }
    ghost var was := old(buf[..size]);
    forall i | 0 <= i < size
      ensures buf[..size][i] == Overwrite(was, p, t)[i]
    {
      if p <= i < p + |t| {
        assert buf[p + (i - p)] == t[i - p];
      }
    }
  }

  lemma {:induction false} AddAllFirst(s: seq<byte>, f: Len, rest: seq<Len>, d: int)
    requires f.at + f.size <= |s| && Within(rest, |s|)
    ensures Within([f] + rest, |s|) && AddAll(s, [f] + rest, d) == AddAll(AddAt(s, f.at, f.size, d), rest, d)
  {
    assert ([f] + rest)[1..] == rest;
  }

  /** One of the lengths that still have to grow: read it, add d, and store it again. */
  method AddTo(buf: array<byte>, size: nat, f: Len, d: int, ghost rest: seq<Len>)
    requires f.at + f.size <= size <= buf.Length && Within(rest, size)
    modifies buf
    ensures Within([f] + rest, size) && AddAll(old(buf[..size]), [f] + rest, d) == AddAll(buf[..size], rest, d)
  {
    AddAllFirst(buf[..size], f, rest, d);
    var v := UintAt(buf[..size], f.at, f.size);
    Store(buf, size, f.at, Be(Cut(v + d, f.size), f.size));
  }

  /** The three lengths around the extensions. */
  method AddHelloLens(buf: array<byte>, size: nat, eo: nat, d: int, ghost rest: seq<Len>)
    requires 43 < eo && eo + 2 <= size <= buf.Length && Within(rest, size)
    modifies buf
    ensures Within(HelloLens(eo) + rest, size)
      && AddAll(old(buf[..size]), HelloLens(eo) + rest, d) == AddAll(buf[..size], rest, d)
  {
    ghost var two := [Len(eo, 2)] + rest;
    ghost var three := [Len(6, 3)] + two;
    assert [Len(3, 2)] + three == HelloLens(eo) + rest;
    AddTo(buf, size, Len(3, 2), d, three);
    AddTo(buf, size, Len(6, 3), d, two);
    AddTo(buf, size, Len(eo, 2), d, rest);
  }

  /** The three lengths of the SNI extension. */
  method AddSniLens(buf: array<byte>, size: nat, ext: nat, d: int)
    requires 2 <= ext && ext + 5 <= size <= buf.Length
    modifies buf
    ensures Within(SniLens(ext), size) && buf[..size] == AddAll(old(buf[..size]), SniLens(ext), d)
  {
    ghost var one := [Len(ext + 3, 2)] + [];
    ghost var two := [Len(ext, 2)] + one;
    assert [Len(ext - 2, 2)] + two == SniLens(ext);
    AddTo(buf, size, Len(ext - 2, 2), d, two);
    AddTo(buf, size, Len(ext, 2), d, one);
    AddTo(buf, size, Len(ext + 3, 2), d, []);
  }

  // ---------------------------------------------------------------------------------------
  // sni
  // ---------------------------------------------------------------------------------------

  /** Lengths in front of a place do not depend on what is stored there. */
  lemma {:induction false} AddAllBefore(s: seq<byte>, fs: seq<Len>, d: int, p: nat, t: seq<byte>)
    requires p + |t| <= |s| && Within(fs, p)
    ensures Within(fs, |s|) && Overwrite(AddAll(s, fs, d), p, t) == AddAll(Overwrite(s, p, t), fs, d)
    decreases |fs|
  {
    if fs != [] {
      AddBefore(s, fs[0], d, p, t);
      AddAllBefore(AddAt(s, fs[0].at, fs[0].size, d), fs[1..], d, p, t);
    }
  }

  lemma {:induction false} AddBefore(s: seq<byte>, f: Len, d: int, p: nat, t: seq<byte>)
    requires p + |t| <= |s| && f.at + f.size <= p
    ensures AddAt(Overwrite(s, p, t), f.at, f.size, d) == Overwrite(AddAt(s, f.at, f.size, d), p, t)
  {
    var o := Overwrite(s, p, t);
    UintOfSlice(o, 0, p, f.at, f.size);
    UintOfSlice(s, 0, p, f.at, f.size);
    assert o[0..p] == s[0..p];
    OverwriteTwice(s, f.at, Be(Cut(UintAt(s, f.at, f.size) + d, f.size), f.size), p, t);
  }

  lemma {:induction false} OverwriteTwice(s: seq<byte>, a: nat, u: seq<byte>, p: nat, t: seq<byte>)
    requires p + |t| <= |s| && a + |u| <= p
    ensures Overwrite(Overwrite(s, p, t), a, u) == Overwrite(Overwrite(s, a, u), p, t)
  {
  }

  /** Move what follows the old name to where the new one will end. */
  method MoveTail(buf: array<byte>, size: nat, from: nat, to: nat)
    requires from <= size <= buf.Length && to + (size - from) <= buf.Length
    modifies buf
    ensures buf[to..to + (size - from)] == old(buf[from..size])
    ensures forall i :: 0 <= i < from && i < to ==> buf[i] == old(buf[i])
  {
    forall i | 0 <= i < size - from {
      buf[to + i] := buf[from + i];
    }
    forall i | 0 <= i < size - from
      ensures buf[to..to + (size - from)][i] == old(buf[from..size])[i]
    {
      assert buf[to + i] == old(buf[from + i]);
    }
  }

  /** Once the tail has moved, the new name in its place completes the splice. */
  lemma {:induction false} SpliceInPlace(s: seq<byte>, t: seq<byte>, p: nat, n: nat, host: seq<byte>)
    requires p + n <= |s| && |t| == |s| - n + |host| && t[..p] == s[..p] && t[p + |host|..] == s[p + n..]
    ensures Overwrite(t, p, host) == Splice(s, p, n, host)
  {
  }

  /** The six lengths around the name. */
  method AddSixLens(buf: array<byte>, size: nat, eo: nat, ext: nat, d: int)
    requires 43 < eo && eo + 6 <= ext && ext + 5 <= size <= buf.Length
    modifies buf
    ensures Within(HelloLens(eo) + SniLens(ext), size)
      && buf[..size] == AddAll(old(buf[..size]), HelloLens(eo) + SniLens(ext), d)
  {
    AddHelloLens(buf, size, eo, d, SniLens(ext));
    AddSniLens(buf, size, ext, d);
  }

  /** The bytes in use after the tail has moved: those before and after the name are where they belong. */
  method MoveToFit(buf: array<byte>, size0: nat, p: nat, slen: nat, n: nat, size: nat)
    requires p + slen <= size0 <= buf.Length && size == size0 - slen + n <= buf.Length
    modifies buf
    ensures buf[..size][..p] == old(buf[..size0][..p]) && buf[..size][p + n..] == old(buf[..size0][p + slen..])
  {
    MoveTail(buf, size0, p + slen, p + n);
    assert buf[p + n..size] == old(buf[p + slen..size0]);
  }

  /** The lengths around a moved tail, and the name in its place, complete the replacement. */
  lemma {:induction false} ReplaceInPlace(s: seq<byte>, t: seq<byte>, u: seq<byte>, host: seq<byte>, eo: nat, ext: nat,
      slen: nat, p: nat)
    requires 43 < eo && eo + 6 <= ext && p == ext + 5 && p + slen <= |s| && |t| == |s| - slen + |host|
    requires t[..p] == s[..p] && t[p + |host|..] == s[p + slen..]
    requires u == AddAll(t, HelloLens(eo) + SniLens(ext), |host| - slen)
    ensures Overwrite(u, p, host) == ReplaceHost(s, host, eo, ext, slen)
  {
    SpliceInPlace(s, t, p, slen, host);
    AddAllBefore(t, HelloLens(eo) + SniLens(ext), |host| - slen, p, host);
  }

  /** A name of another length: the tail moves, the lengths change, and then the name is stored. */
  method ResizeHost(buf: array<byte>, size0: nat, host: seq<byte>, eo: nat, ext: nat, slen: nat, size: nat, p: nat)
    requires 43 < eo && eo + 6 <= ext && p == ext + 5 && p + slen <= size0 <= buf.Length
      && size == size0 - slen + |host| <= buf.Length
    modifies buf
    ensures buf[..size] == ReplaceHost(old(buf[..size0]), host, eo, ext, slen)
  {
    ghost var s := buf[..size0];
    MoveToFit(buf, size0, p, slen, |host|, size);
    ghost var t := buf[..size];
    AddSixLens(buf, size, eo, ext, |host| - slen);
    ReplaceInPlace(s, t, buf[..size], host, eo, ext, slen, p);
    Store(buf, size, p, host);
  }

  method NewHost(buf: array<byte>, size0: nat, host: seq<byte>, eo: nat, ext: nat, slen: nat) returns (size: nat)
    requires 43 < eo && eo + 6 <= ext && ext + 5 + slen <= size0 <= buf.Length
    requires size0 - slen + |host| <= buf.Length
    modifies buf
    ensures size == size0 - slen + |host| && buf[..size] == ReplaceHost(old(buf[..size0]), host, eo, ext, slen)
  {
    size := size0 - slen + |host|;
    if |host| != slen {
      ResizeHost(buf, size0, host, eo, ext, slen, size, ext + 5);
    } else {
      ghost var s := buf[..size0];
      SpliceInPlace(s, s, ext + 5, slen, host);
      AddAllNothing(Splice(s, ext + 5, slen, host), HelloLens(eo) + SniLens(ext));
      Store(buf, size, ext + 5, host);
    }
  }

  /** The sni and rndsni modifications, once the old name has been found and there is room for the new one. */
  method ApplyHost(buf: array<byte>, size0: nat, m: Mods, eo: nat, ext: nat, slen0: nat, dice: Dice)
    returns (ok: bool, size: nat)
    requires 43 < eo && eo + 6 <= ext && ext + 5 + slen0 <= size0 <= buf.Length
    requires m.sni ==> size0 - slen0 + |m.host| <= buf.Length
    modifies buf
    ensures size <= buf.Length && Go(ok, buf[..size]) == SetHost(old(buf[..size0]), m, eo, ext, slen0, dice)
  {
    var slen := slen0;
    ok, size := true, size0;
    if m.sni {
      size := NewHost(buf, size0, m.host, eo, ext, slen);
      slen := |m.host|;
    }
    if m.rndSni {
      if slen == 0 {
        ok := false;
      } else {
        Store(buf, size, ext + 5, RandomName(dice, slen));
      }
    }
  }

  /** The sni and rndsni modifications; stop tells that TLSMod ends there. */
  method ChangeHost(buf: array<byte>, size0: nat, m: Mods, eo: nat, dice: Dice, f: Found)
    returns (stop: bool, ok: bool, size: nat)
    requires 43 < eo && eo + 2 <= size0 <= buf.Length && (f.FoundAt? ==> eo + 6 <= f.pos && f.pos + f.len <= size0)
    modifies buf
    ensures size <= buf.Length
    ensures ModHost(old(buf[..size0]), m, eo, buf.Length, dice, f) == if stop then Stop(buf[..size])
      else Go(ok, buf[..size])
  {
    if f.NotFound? {
      return true, false, size0;
    }
    var at := HostInSni(buf[..size0][f.pos..f.pos + f.len]);
    if at.NotFound? || (m.sni && |m.host| != at.len && size0 - at.len + |m.host| > buf.Length) {
      return true, false, size0;
    }
    stop := false;
    ok, size := ApplyHost(buf, size0, m, eo, f.pos, at.len, dice);
  }

  // ---------------------------------------------------------------------------------------
  // rnd, dupsid and padencap
  // ---------------------------------------------------------------------------------------

  method TakeSid(buf: array<byte>, size: nat, payload: seq<byte>) returns (ok: bool)
    requires SID_AT <= size <= buf.Length && SID_AT + buf[43] <= size
    modifies buf
    ensures Modded(ok, buf[..size]) == ModSid(old(buf[..size]), payload)
  {
    if !IsTLSClientHello(payload, true) || |payload| < SID_AT || buf[43] != payload[43]
      || |payload| < SID_AT + payload[43] {
      return false;
    }
    Store(buf, size, SID_AT, payload[SID_AT..SID_AT + buf[43]]);
    return true;
  }

  /** The lengths grow by n, unless one of them would not fit. */
  method GrowLengths(buf: array<byte>, size: nat, eo: nat, padlen: nat, n: nat) returns (ok: bool)
    requires 43 < eo && eo + 2 <= size <= buf.Length && padlen + 2 <= size
    modifies buf
    ensures Modded(ok, buf[..size]) == GrowPadding(old(buf[..size]), eo, padlen, n)
  {
    var s := buf[..size];
    var szRec, szHandshake, szExt, szPad :=
      UintAt(s, 3, 2) + n, UintAt(s, 6, 3) + n, UintAt(s, eo, 2) + n, UintAt(s, padlen, 2) + n;
    if szRec >= 0x1_0000 || szHandshake >= 0x100_0000 || szExt >= 0x1_0000 || szPad >= 0x1_0000 {
      return false;
    }
    assert [Len(padlen, 2)] + [] == [Len(padlen, 2)];
    AddHelloLens(buf, size, eo, n, [Len(padlen, 2)]);
    AddTo(buf, size, Len(padlen, 2), n, []);
    return true;
  }

  /** Append an empty padding extension. */
  method NewPadding(buf: array<byte>, size0: nat, eo: nat) returns (size: nat)
    requires 43 < eo && eo + 2 <= size0 && size0 + 4 <= buf.Length
    modifies buf
    ensures size == size0 + 4 && buf[..size] == AddPadding(old(buf[..size0]), eo)
  {
    ghost var s := buf[..size0];
    size := size0 + 4;
    Store(buf, size, size0, Be(PADDING, 2));
    Store(buf, size, size0 + 2, Be(0, 2));
    assert buf[..size] == s + Be(PADDING, 2) + Be(0, 2);
    assert HelloLens(eo) + [] == HelloLens(eo);
    AddHelloLens(buf, size, eo, 4, []);
  }

  method EncapsulatePayload(buf: array<byte>, size0: nat, n: nat, eo: nat) returns (ok: bool, size: nat)
    requires 43 < eo && eo + 2 <= size0 <= buf.Length
    modifies buf
    ensures size <= buf.Length && Modded(ok, buf[..size]) == ModPad(old(buf[..size0]), n, eo, buf.Length)
  {
    size := size0;
    var padlen: nat;
    var f := TLSFindExt(buf[..size], PADDING, false);
    if f.FoundAt? {
      if f.pos + f.len != size {
        return false, size;
      }
      padlen := f.pos - 2;
    } else {
      if size + 4 > buf.Length {
        return false, size;
      }
      padlen := size + 2;
      size := NewPadding(buf, size, eo);
    }
    ok := GrowLengths(buf, size, eo, padlen, n);
  }

  /** TLSMod: buf is the buffer with its first size0 bytes in use, payload the hello that was received. */
  method TLSMod(buf: array<byte>, size0: nat, m: Mods, payload: Payload, dice: Dice) returns (ok: bool, size: nat)
    requires size0 <= buf.Length
    modifies buf
    ensures size <= buf.Length && Modded(ok, buf[..size]) == Modify(old(buf[..size0]), m, payload, buf.Length, dice)
  {
    ok, size := true, size0;
    if !IsTLSClientHello(buf[..size], false) || size < SID_AT || size < SID_AT + buf[43] {
      return false, size;
    }
    var eo := TLSFindExtLen(buf[..size]);
    if (m.rndSni || m.sni || m.padEncap) && eo.Nowhere? {
      return false, size;
    }
    if m.rndSni || m.sni {
      var f := TLSFindExt(buf[..size], 0, false);
      if f.FoundAt? {
        FoundAfterLength(buf[..size], 0, eo.pos, f);
      }
      var stop;
      stop, ok, size := ChangeHost(buf, size, m, eo.pos, dice, f);
      if stop {
        return false, size;
      }
    }
    ok, size := Finish(buf, size, ok, m, payload, eo, dice);
  }

  /** The part of TLSMod after the name. */
  method Finish(buf: array<byte>, size0: nat, ok0: bool, m: Mods, payload: Payload, eo: Position, dice: Dice)
    returns (ok: bool, size: nat)
    requires SID_AT <= size0 <= buf.Length && SID_AT + buf[43] <= size0
    requires m.padEncap ==> eo.At? && 43 < eo.pos && eo.pos + 2 <= size0
    modifies buf
    ensures size <= buf.Length
    ensures Modded(ok, buf[..size]) == AfterHost(Go(ok0, old(buf[..size0])), m, payload, eo, buf.Length, dice)
  {
    ok, size := ok0, size0;
    if m.rnd {
      Store(buf, size, RANDOM_AT, Throw(dice.random, 32));
      Store(buf, size, SID_AT, Throw(dice.sid, buf[43]));
    }
    if payload.Payload? {
      if m.dupSid {
        var took := TakeSid(buf, size, payload.data);
        ok := ok && took;
      }
      if m.padEncap {
        var padded;
        padded, size := EncapsulatePayload(buf, size, |payload.data|, eo.pos);
        ok := ok && padded;
      }
    }
  }
}

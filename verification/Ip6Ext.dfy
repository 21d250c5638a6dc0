/**
  IPv6 extension headers: built by nfq2/lua.c, read by nfq2/lua.c and nfq2/darkmagic.c (RFC 8200,
  section 4; RFC 4302, section 2.2).
 */
module Ip6Ext {
  import opened Blocks
  import opened Buffers
  import opened Words

  const HOPOPTS := 0
  const ROUTING := 43
  const FRAGMENT := 44
  const AH := 51
  const NONE := 59
  const DSTOPTS := 60
  const MH := 135
  const HIP := 139
  const SHIM6 := 140

  const IP6_HEADER := 40
  const NEXT_HEADER := 6

  /** A table with a type, a next header, NONE if it is missing, and data. */
  datatype Ext = Ext(etype: byte, next: byte, data: seq<byte>)

  /** Headers whose length byte counts 8-byte units after the first. */
  predicate HasOctets(t: byte) {
    t == HOPOPTS || t == ROUTING || t == DSTOPTS || t == MH || t == HIP || t == SHIM6
  }

  predicate IsExt(t: byte) {
    HasOctets(t) || t == FRAGMENT || t == AH
  }

  /** Data that can be written: whole units, and not more than the length byte can count. */
  predicate Buildable(h: Ext) {
    |h.data| >= 6 && if h.etype == AH then |h.data| < 1024 && (|h.data| + 2) % 4 == 0
      else |h.data| < 2048 && (|h.data| + 2) % 8 == 0
  }

  /** The length byte of a header of n bytes, AH counting 4-byte units and leaving out two of them. */
  function LengthByte(t: byte, n: nat): byte {
    (if t == AH then n / 4 - 2 else n / 8 - 1) % 256
  }

  function EncodeExt(h: Ext): (b: seq<byte>)
    ensures |b| == |h.data| + 2
  {
    [h.next, LengthByte(h.etype, |h.data| + 2)] + h.data
  }

  predicate AllBuildable(hs: seq<Ext>) {
    forall i :: 0 <= i < |hs| ==> Buildable(hs[i])
  }

  function Encode(hs: seq<Ext>): seq<byte> {
    if hs == [] then [] else EncodeExt(hs[0]) + Encode(hs[1..])
  }

  function Size(hs: seq<Ext>): nat {
    if hs == [] then 0 else |hs[0].data| + 2 + Size(hs[1..])
  }

  /** The type of the first header, or of what comes when there is none. */
  function First(hs: seq<Ext>, proto: byte): byte {
    if hs == [] then proto else hs[0].etype
  }

  /** The headers with their next fields set to what really follows. */
  function Linked(hs: seq<Ext>, proto: byte): (r: seq<Ext>)
    ensures |r| == |hs|
  {
    if hs == [] then [] else [hs[0].(next := First(hs[1..], proto))] + Linked(hs[1..], proto)
  }

  // ---------------------------------------------------------------------------------------
  // Reading
  // ---------------------------------------------------------------------------------------

  /** The fragment offset in a fragment header, in the units of the field. */
  function FragmentOffset(d: seq<byte>): nat
    requires |d| >= 4
  {
    UintAt(d, 2, 2) / 8 * 8
  }

  predicate IsFragment(d: seq<byte>)
    requires |d| >= 4
  {
    FragmentOffset(d) != 0 || UintAt(d, 2, 2) % 2 == 1
  }

  /** A fragment that is not the first; nothing that follows it is a header. */
  predicate LaterFragment(t: byte, d: seq<byte>) {
    t == FRAGMENT && |d| >= 4 && FragmentOffset(d) != 0
  }

  datatype Length = NoHeader | Header(size: nat)

  /** The size of a header of type t at the start of d, when there is one and all of it is there. */
  function HeaderSize(t: byte, d: seq<byte>): (n: Length)
    ensures n.Header? ==> 8 <= n.size <= |d|
  {
    if !IsExt(t) || |d| < 2 then NoHeader
    else
      var units: nat := d[1];
      var n := if t == FRAGMENT then 8 else if t == AH then 8 + units * 4 else 8 + units * 8;
      if |d| < n then NoHeader else Header(n)
  }

  /** lua_pushf_ip6exthdr, for the bytes d after the base header, clipped to the payload length */
  function ParseExts(t: byte, d: seq<byte>): seq<Ext>
    decreases |d|
  {
    var n := HeaderSize(t, d);
    if n.NoHeader? then []
    else
      var h := Ext(t, d[0], d[2..n.size]);
      [h] + if LaterFragment(t, d) then [] else ParseExts(d[0], d[n.size..])
  }

  /** What proto_skip_ipv6 reports: the transport protocol, where its data starts, and the fragment fields. */
  datatype Skipped = Skipped(proto: byte, pos: nat, frag: bool, offset: nat)

  /** proto_skip_ipv6 from a header of type t at pos on; first is the type of the very first header. */
  function SkipFrom(d: seq<byte>, t: byte, pos: nat, first: byte, frag: bool, offset: nat): (r: Skipped)
    requires pos <= |d|
    decreases |d| - pos
  {
    if pos == |d| then Skipped(first, pos, frag, offset)
    else if !IsExt(t) then Skipped(if t == NONE then first else t, pos, frag, offset)
    else
      var rest := d[pos..];
      var read := t == FRAGMENT && |rest| >= 8;
      var frag', offset' := if read then IsFragment(rest) else frag, if read then FragmentOffset(rest) else offset;
      var n := HeaderSize(t, rest);
      if n.NoHeader? then Skipped(first, pos, frag', offset')
      else if LaterFragment(t, rest) then Skipped(first, pos + n.size, frag', offset')
      else SkipFrom(d, rest[0], pos + n.size, first, frag', offset')
  }

  /** Does the walk over the headers come to a transport header, with a byte of it there? */
  predicate Reaches(d: seq<byte>, t: byte, pos: nat)
    requires pos <= |d|
    decreases |d| - pos
  {
    pos < |d| &&
    if !IsExt(t) then t != NONE
    else
      var n := HeaderSize(t, d[pos..]);
      n.Header? && !LaterFragment(t, d[pos..]) && Reaches(d, d[pos], pos + n.size)
  }

  /** What is reported is the transport protocol when one is reached, and else the type of the first header. */
  lemma {:induction false} SkipReports(d: seq<byte>, t: byte, pos: nat, first: byte, frag: bool, offset: nat)
    requires pos <= |d|
    ensures
      var proto := SkipFrom(d, t, pos, first, frag, offset).proto;
      if Reaches(d, t, pos) then !IsExt(proto) && proto != NONE else proto == first
    decreases |d| - pos
  {
    if pos < |d| && IsExt(t) {
      var rest := d[pos..];
      var n := HeaderSize(t, rest);
      if n.Header? && !LaterFragment(t, rest) {
        var read := t == FRAGMENT && |rest| >= 8;
        var frag' := if read then IsFragment(rest) else frag;
        var offset' := if read then FragmentOffset(rest) else offset;
        SkipReports(d, rest[0], pos + n.size, first, frag', offset');
      }
    }
  }

  /** The protocol that proto_skip_ipv6 reports for the bytes d behind a base header with next field t. */
  function Reported(t: byte, d: seq<byte>): byte {
    SkipFrom(d, t, 0, t, false, 0).proto
  }

  /**
    0 is promised for an error. A success is never reported as 0, and an error is reported as 0
    exactly when the first header is a hop-by-hop header.
   */
  lemma {:induction false} ErrorIsZeroIff(t: byte, d: seq<byte>)
    ensures Reaches(d, t, 0) ==> Reported(t, d) != 0
    ensures !Reaches(d, t, 0) ==> Reported(t, d) == t && (Reported(t, d) == 0 <==> t == HOPOPTS)
  {
    SkipReports(d, t, 0, t, false, 0);
  }

  /** For one next field and all that may follow it, the promise is kept exactly when that field is hop-by-hop. */
  lemma {:induction false} PromiseKeptIff(t: byte)
    ensures (forall d :: Reported(t, d) == 0 <==> !Reaches(d, t, 0)) <==> t == HOPOPTS
  {
    forall d
      ensures t == HOPOPTS ==> (Reported(t, d) == 0 <==> !Reaches(d, t, 0))
    {
      ErrorIsZeroIff(t, d);
    }
    assert Reported(t, []) == t && !Reaches([], t, 0);
  }

  /**
    A packet that ends after its base header, and one that ends inside a routing header, are not
    reported as errors.
   */
  lemma {:induction false} ErrorsReportedAsProtocols()
    ensures !Reaches([], 6, 0) && Reported(6, []) == 6
    ensures !Reaches([6, 1, 0, 0], ROUTING, 0) && Reported(ROUTING, [6, 1, 0, 0]) == ROUTING
  {
    assert [6, 1, 0, 0][0..] == [6, 1, 0, 0];
  }

  datatype Found = NotFound | FoundAt(pos: nat)

  /** proto_find_ip6_exthdr */
  function FindExt(d: seq<byte>, t: byte, pos: nat, proto: byte): (r: Found)
    requires pos <= |d|
    decreases |d| - pos
  {
    if pos == |d| then NotFound
    else if t == proto then FoundAt(pos)
    else
      var n := HeaderSize(t, d[pos..]);
      if n.NoHeader? || LaterFragment(t, d[pos..]) then NotFound else FindExt(d, d[pos], pos + n.size, proto)
  }

  // ---------------------------------------------------------------------------------------
  // Writing
  // ---------------------------------------------------------------------------------------

  lemma {:induction false} EncodeAppend(a: seq<Ext>, b: seq<Ext>)
    ensures Encode(a + b) == Encode(a) + Encode(b)
  {
    if a == [] {
      assert a + b == b;
    } else {
      assert (a + b)[1..] == a[1..] + b;
      EncodeAppend(a[1..], b);
    }
  }

  lemma {:induction false} SizeIs(hs: seq<Ext>)
    ensures |Encode(hs)| == Size(hs)
  {
    if hs != [] {
      SizeIs(hs[1..]);
    }
  }

  lemma {:induction false} SizeSum(a: seq<Ext>, b: seq<Ext>)
    ensures Size(a + b) == Size(a) + Size(b)
  {
    if a == [] {
      assert a + b == b;
    } else {
      assert (a + b)[1..] == a[1..] + b;
      SizeSum(a[1..], b);
    }
  }

  /** Links touch the next fields only. */
  lemma {:induction false} LinkedKeeps(hs: seq<Ext>, proto: byte)
    ensures forall i :: 0 <= i < |hs| ==> Linked(hs, proto)[i] == hs[i].(next := First(hs[i + 1..], proto))
    ensures Size(Linked(hs, proto)) == Size(hs)
  {
    if hs != [] {
      LinkedKeeps(hs[1..], proto);
      forall i | 0 <= i < |hs|
        ensures Linked(hs, proto)[i] == hs[i].(next := First(hs[i + 1..], proto))
      {
        if i > 0 {
          assert hs[1..][i..] == hs[i + 1..];
          assert Linked(hs, proto)[i] == Linked(hs[1..], proto)[i - 1];
        }
      }
    }
  }

  lemma {:induction false} LinkedAppend(a: seq<Ext>, h: Ext, proto: byte)
    ensures Linked(a + [h], proto) == Linked(a, h.etype) + [h.(next := proto)]
  {
    if a == [] {
      assert a + [h] == [h];
    } else {
      assert (a + [h])[1..] == a[1..] + [h];
      assert First(a[1..] + [h], proto) == First(a[1..], h.etype);
      LinkedAppend(a[1..], h, proto);
    }
  }

  /** The last header of a chain, as it is written. */
  lemma {:induction false} LastWritten(a: seq<Ext>, h: Ext, proto: byte)
    ensures Encode(Linked(a + [h], proto)) == Encode(Linked(a, h.etype)) + EncodeExt(h.(next := proto))
  {
    LinkedAppend(a, h, proto);
    var last := h.(next := proto);
    EncodeAppend(Linked(a, h.etype), [last]);
    assert Encode([last]) == EncodeExt(last) + [];
  }

  /** What the table lists, or with its next fields set when they are not to be preserved. */
  function Wanted(hs: seq<Ext>, proto: byte, preserve: bool): seq<Ext> {
    if preserve then hs else Linked(hs, proto)
  }

  /** The headers that have been written so far: the next field of the last one is still the one it was given. */
  function SoFar(a: seq<Ext>, preserve: bool): seq<Ext> {
    if a == [] then [] else Wanted(a, a[|a| - 1].next, preserve)
  }

  /** Where the next field of the last header is. */
  function LastAt(a: seq<Ext>): nat {
    if a == [] then NEXT_HEADER else IP6_HEADER + Size(a[..|a| - 1])
  }

  /** The buffer after the headers a. */
  ghost predicate Written(a: seq<Ext>, preserve: bool, d: seq<byte>, d0: seq<byte>) {
    && |d| == |d0| && IP6_HEADER + Size(a) <= |d|
    && Base(d, d0, if preserve then d0[NEXT_HEADER] else First(a, d0[NEXT_HEADER]))
    && d[IP6_HEADER..IP6_HEADER + Size(a)] == Encode(SoFar(a, preserve))
  }

  /** The base header is the one that was there, with next as its next field. */
  ghost predicate Base(d: seq<byte>, d0: seq<byte>, next: byte) {
    |d| >= IP6_HEADER && |d0| >= IP6_HEADER && d[..IP6_HEADER] == d0[..IP6_HEADER][NEXT_HEADER := next]
  }

  /** A chain is what is before its last header, and that one; x does not depend on what follows the chain. */
  lemma {:induction false} LastPart(a: seq<Ext>, h: Ext, proto: byte, x: seq<byte>, n: nat)
    requires a != [] && n == |a| - 1 && h == a[n] && x == Encode(Linked(a[..n], h.etype))
    ensures |x| == Size(a[..n]) && Size(a) == |x| + |h.data| + 2
    ensures Encode(Linked(a, proto)) == x + EncodeExt(h.(next := proto))
  {
    assert a == a[..n] + [h];
    LastWritten(a[..n], h, proto);
    SizeSum(a[..n], [h]);
    assert Size([h]) == |h.data| + 2;
    SizeIs(Linked(a[..n], h.etype));
    LinkedKeeps(a[..n], h.etype);
  }

  lemma {:induction false} Relink(d: seq<byte>, e: seq<byte>, at: nat, x: seq<byte>, y: seq<byte>, v: byte, n: nat)
    requires IP6_HEADER + n <= |d| && at + |y| == n && |x| == at && y != [] && d[IP6_HEADER..IP6_HEADER + n] == x + y
    requires e == d[IP6_HEADER + at := v]
    ensures e[IP6_HEADER..IP6_HEADER + n] == x + y[0 := v] && e[..IP6_HEADER] == d[..IP6_HEADER]
  {
  }

  lemma {:induction false} NextIsFirst(h: Ext, p: byte, q: byte)
    ensures EncodeExt(h.(next := p))[0 := q] == EncodeExt(h.(next := q))
  {
  }

  /** Writing proto where the last next field is completes the chain. */
  lemma {:induction false} CloseChain(a: seq<Ext>, d: seq<byte>, d0: seq<byte>, proto: byte, e: seq<byte>)
    requires Written(a, false, d, d0) && LastAt(a) < |d| && e == d[LastAt(a) := proto]
    ensures Base(e, d0, First(a, proto))
    ensures e[IP6_HEADER..IP6_HEADER + Size(a)] == Encode(Linked(a, proto))
  {
    if a != [] {
      var n := |a| - 1;
      var h := a[n];
      var x := Encode(Linked(a[..n], h.etype));
      LastPart(a, h, h.next, x, n);
      LastPart(a, h, proto, x, n);
      Relink(d, e, |x|, x, EncodeExt(h.(next := h.next)), proto, Size(a));
      NextIsFirst(h, h.next, proto);
    }
  }

  /** What was there up to m, and t after it. */
  lemma {:induction false} AppendBytes(e: seq<byte>, d': seq<byte>, m: nat, n: nat, t: seq<byte>)
    requires IP6_HEADER <= m <= n <= |e| == |d'| && d'[..m] == e[..m] && d'[m..n] == t
    ensures d'[IP6_HEADER..n] == e[IP6_HEADER..m] + t && d'[..IP6_HEADER] == e[..IP6_HEADER]
  {
    JoinSlices(e, d', IP6_HEADER, m, n, t);
    assert d'[..IP6_HEADER] == d'[..m][..IP6_HEADER];
    assert e[..IP6_HEADER] == e[..m][..IP6_HEADER];
  }

  /** The chain with one header more, its own next field as given. */
  lemma {:induction false} ChainOn(a: seq<Ext>, h: Ext, preserve: bool, b: seq<Ext>)
    requires b == a + [h]
    ensures Size(b) == Size(a) + |h.data| + 2
      && Encode(SoFar(b, preserve)) == Encode(Wanted(a, h.etype, preserve)) + EncodeExt(h)
    ensures forall t :: First(b, t) == First(a, h.etype)
  {
    SizeSum(a, [h]);
    assert Size([h]) == |h.data| + 2;
    if preserve {
      EncodeAppend(a, [h]);
      assert Encode([h]) == EncodeExt(h) + [];
    } else {
      LastWritten(a, h, h.next);
      assert h.(next := h.next) == h;
    }
  }

  /** One header more: e has the link before it closed, and in d' it is appended. */
  lemma {:induction false} AppendHeader(a: seq<Ext>, h: Ext, preserve: bool, d: seq<byte>, d0: seq<byte>, e: seq<byte>,
      d': seq<byte>, b: seq<Ext>, m: nat, n: nat)
    requires Written(a, preserve, d, d0) && b == a + [h] && m == IP6_HEADER + Size(a)
      && n == m + |h.data| + 2 <= |d| == |d'|
    requires LastAt(a) < m && e == (if preserve then d else d[LastAt(a) := h.etype]) && d'[..m] == e[..m]
      && d'[m..n] == EncodeExt(h)
    ensures Written(b, preserve, d', d0) && IP6_HEADER + Size(b) == n
  {
    AppendBytes(e, d', m, n, EncodeExt(h));
    ChainOn(a, h, preserve, b);
    if !preserve {
      CloseChain(a, d, d0, h.etype, e);
    }
  }

  /** Are the headers so far, and is the next one, within what can be written? */
  lemma {:induction false} PrefixSizes(hs: seq<Ext>, i: nat)
    requires i < |hs|
    ensures hs[..i + 1] == hs[..i] + [hs[i]] && Size(hs[..i + 1]) == Size(hs[..i]) + |hs[i].data| + 2 <= Size(hs)
  {
    assert hs == hs[..i + 1] + hs[i + 1..];
    SizeSum(hs[..i + 1], hs[i + 1..]);
    SizeSum(hs[..i], [hs[i]]);
    assert Size([hs[i]]) == |hs[i].data| + 2;
  }

  /** Store the bytes of one header, and close the link before it. */
  method StoreHeader(buf: array<byte>, h: Ext, last: nat, filled: nat, preserve: bool)
    requires last < filled && filled + |h.data| + 2 <= buf.Length
    modifies buf
    ensures buf[..filled] == (if preserve then old(buf[..]) else old(buf[..])[last := h.etype])[..filled]
    ensures buf[filled..filled + |h.data| + 2] == EncodeExt(h)
  {
    ghost var d := buf[..];
    Put(buf, filled, EncodeExt(h));
    ghost var put := buf[..];
    assert put[..filled] == d[..filled] && put[filled..filled + |h.data| + 2] == EncodeExt(h);
    if !preserve {
      buf[last] := h.etype;
      StoreBefore(d, put, buf[..], last, h.etype, filled, filled + |h.data| + 2);
    }
  }

  /** Write one header. */
  method WriteHeader(buf: array<byte>, hs: seq<Ext>, i: nat, last: nat, filled: nat, preserve: bool,
      ghost d0: seq<byte>)
    requires i < |hs| && Written(hs[..i], preserve, buf[..], d0)
      && last == LastAt(hs[..i]) < filled == IP6_HEADER + Size(hs[..i])
    requires filled + |hs[i].data| + 2 <= buf.Length
    modifies buf
    ensures Written(hs[..i + 1], preserve, buf[..], d0)
  {
    var h := hs[i];
    ghost var d, n := buf[..], filled + |h.data| + 2;
    ghost var e := if preserve then d else d[last := h.etype];
    PrefixSizes(hs, i);
    ghost var a, b := hs[..i], hs[..i + 1];
    StoreHeader(buf, h, last, filled, preserve);
    AppendHeader(a, h, preserve, d, d0, e, buf[..], b, filled, n);
  }

  /** A store before position m changes what is before m, and not what is after it. */
  lemma {:induction false} StoreBefore(d: seq<byte>, p: seq<byte>, q: seq<byte>, at: nat, v: byte, m: nat, n: nat)
    requires at < m <= n <= |d| == |p| && p[..m] == d[..m] && q == p[at := v]
    ensures q[..m] == d[at := v][..m] && q[m..n] == p[m..n]
  {
    assert q[..m] == p[..m][at := v];
    assert d[at := v][..m] == d[..m][at := v];
  }

  /** The checks of one header, with room for left bytes. */
  method CanWrite(h: Ext, left: nat) returns (ok: bool)
    ensures ok <==> Buildable(h) && |h.data| + 2 <= left
  {
    var l := |h.data|;
    if l < 6 || l + 2 > left {
      return false;
    }
    if h.etype == AH {
      if l >= 1024 || (l + 2) % 4 != 0 {
        return false;
      }
    } else if l >= 2048 || (l + 2) % 8 != 0 {
      return false;
    }
    return true;
  }

  /** The loop over the headers; last is where the last next field is. */
  method WriteHeaders(hs: seq<Ext>, buf: array<byte>, preserve: bool, ghost d0: seq<byte>)
    returns (ok: bool, last: nat, filled: nat)
    requires Written([], preserve, buf[..], d0)
    modifies buf
    ensures ok <==> AllBuildable(hs) && IP6_HEADER + Size(hs) <= buf.Length
    ensures ok ==> Written(hs, preserve, buf[..], d0) && last == LastAt(hs) < filled == IP6_HEADER + Size(hs)
  {
    var i := 0;
    last, filled := NEXT_HEADER, IP6_HEADER;
    assert hs[..0] == [];
    while i < |hs|
      invariant 0 <= i <= |hs| && filled == IP6_HEADER + Size(hs[..i]) <= buf.Length && last == LastAt(hs[..i]) < filled
      invariant Written(hs[..i], preserve, buf[..], d0) && AllBuildable(hs[..i])
    {
      PrefixSizes(hs, i);
      ok := CanWrite(hs[i], buf.Length - filled);
      if !ok {
        return;
      }
      WriteHeader(buf, hs, i, last, filled, preserve, d0);
      last, filled := filled, filled + |hs[i].data| + 2;
      assert hs[..i + 1][..|hs[..i + 1]| - 1] == hs[..i];
      i := i + 1;
    }
    assert hs[..i] == hs;
    ok := true;
  }

  /** The buffer d0 with the headers behind its base header: what lua_reconstruct_ip6exthdr leaves, up to len. */
  ghost predicate Built(hs: seq<Ext>, proto: byte, preserve: bool, d0: seq<byte>, d: seq<byte>, len: nat) {
    && len == IP6_HEADER + Size(hs) <= |d| && d[IP6_HEADER..len] == Encode(Wanted(hs, proto, preserve))
    && Base(d, d0, if |d0| > NEXT_HEADER && preserve then d0[NEXT_HEADER] else First(hs, proto))
  }

  /** lua_reconstruct_ip6exthdr: buf holds the base header, the extension headers go after it. */
  method ReconstructExts(hs: seq<Ext>, buf: array<byte>, proto: byte, preserve: bool) returns (ok: bool, len: nat)
    modifies buf
    ensures ok <==> AllBuildable(hs) && IP6_HEADER + Size(hs) <= buf.Length
    ensures ok ==> Built(hs, proto, preserve, old(buf[..]), buf[..], len)
  {
    if buf.Length < IP6_HEADER {
      return false, 0;
    }
    ghost var d0 := buf[..];
    assert d0[..IP6_HEADER] == d0[..IP6_HEADER][NEXT_HEADER := d0[NEXT_HEADER]];
    var last;
    ok, last, len := WriteHeaders(hs, buf, preserve, d0);
    if ok && !preserve {
      CloseChain(hs, buf[..], d0, proto, buf[..][last := proto]);
      buf[last] := proto;
    }
  }

  // ---------------------------------------------------------------------------------------
  // Loops of the readers
  // ---------------------------------------------------------------------------------------

  lemma {:induction false} PushOne(all: seq<Ext>, r: seq<Ext>, t: byte, d: seq<byte>, n: nat, later: bool,
      rest: seq<byte>)
    requires all == r + ParseExts(t, d) && HeaderSize(t, d) == Header(n) && later == LaterFragment(t, d)
      && rest == d[n..]
    ensures all == (r + [Ext(t, d[0], d[2..n])]) + if later then [] else ParseExts(d[0], rest)
  {
    var h := Ext(t, d[0], d[2..n]);
    Regroup(all, r, ParseExts(t, d), [h], if later then [] else ParseExts(d[0], rest), r + [h]);
  }

  method PushExts(nxt: byte, d: seq<byte>) returns (r: seq<Ext>)
    ensures r == ParseExts(nxt, d)
  {
    var t, rest, later := nxt, d, false;
    r := [];
    ghost var all := ParseExts(nxt, d);
    while rest != [] && !later
      invariant all == r + (if later then [] else ParseExts(t, rest))
      decreases |rest|
    {
      var n := HeaderSize(t, rest);
      if n.NoHeader? {
        return;
      }
      ghost var before, t0, seen := r, t, rest;
      r := r + [Ext(t, rest[0], rest[2..n.size])];
      later := LaterFragment(t, rest);
      t, rest := rest[0], rest[n.size..];
      PushOne(all, before, t0, seen, n.size, later, rest);
    }
  }

  lemma {:induction false} SkipStep(d: seq<byte>, t: byte, pos: nat, first: byte, frag: bool, offset: nat,
      e: seq<byte>, n: nat, next: nat)
    requires pos <= |d| && e == d[pos..] && IsExt(t) && HeaderSize(t, e) == Header(n) && next == pos + n
    ensures
      var frag' := if t == FRAGMENT then IsFragment(e) else frag;
      var offset' := if t == FRAGMENT then FragmentOffset(e) else offset;
      SkipFrom(d, t, pos, first, frag, offset) ==
        if LaterFragment(t, e) then Skipped(first, next, frag', offset')
        else SkipFrom(d, e[0], next, first, frag', offset')
  {
  }

  method ProtoSkipIpv6(nxt: byte, d: seq<byte>) returns (r: Skipped)
    ensures r == SkipFrom(d, nxt, 0, nxt, false, 0)
  {
    var protoType, frag, offset := nxt, false, 0;
    var t, pos: nat := nxt, 0;
    while pos < |d| && !(frag && offset != 0)
      invariant pos <= |d| && (offset != 0 ==> frag) && protoType == nxt
      invariant SkipFrom(d, nxt, 0, nxt, false, 0) ==
        if frag && offset != 0 then Skipped(nxt, pos, frag, offset) else SkipFrom(d, t, pos, nxt, frag, offset)
      decreases |d| - pos
    {
      var rest := d[pos..];
      if !IsExt(t) {
        if t != NONE {
          protoType := t;
        }
        return Skipped(protoType, pos, frag, offset);
      }
      ghost var wasFrag, wasOffset := frag, offset;
      if t == FRAGMENT && |rest| >= 8 {
        frag, offset := IsFragment(rest), FragmentOffset(rest);
      }
      var n := HeaderSize(t, rest);
      if n.NoHeader? {
        return Skipped(protoType, pos, frag, offset);
      }
      SkipStep(d, t, pos, nxt, wasFrag, wasOffset, rest, n.size, pos + n.size);
      t, pos := rest[0], pos + n.size;
    }
    return Skipped(protoType, pos, frag, offset);
  }

  method ProtoFindIp6Exthdr(nxt: byte, d: seq<byte>, proto: byte) returns (r: Found)
    ensures r == FindExt(d, nxt, 0, proto)
  {
    var t, pos: nat, later := nxt, 0, false;
    while pos < |d| && !later
      invariant pos <= |d| && FindExt(d, nxt, 0, proto) == if later then NotFound else FindExt(d, t, pos, proto)
      decreases |d| - pos
    {
      if t == proto {
        return FoundAt(pos);
      }
      var rest := d[pos..];
      var n := HeaderSize(t, rest);
      if n.NoHeader? {
        return NotFound;
      }
      later := LaterFragment(t, rest);
      t, pos := d[pos], pos + n.size;
    }
    return NotFound;
  }

  // ---------------------------------------------------------------------------------------
  // Round trip
  // ---------------------------------------------------------------------------------------

  /** Is the header a fragment that is not the first? */
  predicate IsLater(h: Ext) {
    h.etype == FRAGMENT && |h.data| >= 2 && UintAt(h.data, 0, 2) / 8 * 8 != 0
  }

  /**
    Extension headers only, fragments with their 6 bytes of data, and no fragment but a first one
    before the last header.
   */
  predicate IsChain(hs: seq<Ext>) {
    hs != [] ==>
      && IsExt(hs[0].etype) && Buildable(hs[0]) && (hs[0].etype == FRAGMENT ==> |hs[0].data| == 6)
      && (IsLater(hs[0]) ==> |hs| == 1) && IsChain(hs[1..])
  }

  lemma {:induction false} LengthByteIs(t: byte, n: nat)
    requires n >= 8 && if t == AH then n < 1026 && n % 4 == 0 else n < 2050 && n % 8 == 0
    ensures n == if t == AH then 8 + LengthByte(t, n) * 4 else 8 + LengthByte(t, n) * 8
  {
  }

  /** A header is read for what it is. */
  lemma {:induction false} ReadHeader(h: Ext, d: seq<byte>, rest: seq<byte>, n: nat)
    requires IsExt(h.etype) && Buildable(h) && (h.etype == FRAGMENT ==> |h.data| == 6) && d == EncodeExt(h) + rest
      && n == |h.data| + 2
    ensures HeaderSize(h.etype, d) == Header(n) && d[0] == h.next && d[2..n] == h.data && d[n..] == rest
    ensures LaterFragment(h.etype, d) <==> IsLater(h)
  {
    LengthByteIs(h.etype, n);
    assert d[1] == LengthByte(h.etype, n);
    assert d[2..n] == h.data;
    UintOfSlice(d, 2, n, 0, 2);
  }

  lemma {:induction false} ParseStep(t: byte, d: seq<byte>, h: Ext, rest: seq<byte>, n: nat)
    requires HeaderSize(t, d) == Header(n) && h == Ext(t, d[0], d[2..n]) && rest == d[n..]
    ensures ParseExts(t, d) == [h] + if LaterFragment(t, d) then [] else ParseExts(d[0], rest)
  {
  }

  /** The first header of a linked chain, and what follows it. */
  lemma {:induction false} FirstLinked(hs: seq<Ext>, proto: byte, payload: seq<byte>, d: seq<byte>, h: Ext,
      rest: seq<byte>)
    requires hs != [] && d == Encode(Linked(hs, proto)) + payload
    requires h == hs[0].(next := First(hs[1..], proto)) && rest == Encode(Linked(hs[1..], proto)) + payload
    ensures Linked(hs, proto) == [h] + Linked(hs[1..], proto) && d == EncodeExt(h) + rest
  {
    var l := Linked(hs, proto);
    assert l[0] == h && l[1..] == Linked(hs[1..], proto);
    assert Encode(l) == EncodeExt(h) + Encode(l[1..]);
  }

  /** The first header of a chain as a reader sees it, and the rest of the chain. */
  lemma {:induction false} HeadOfChain(hs: seq<Ext>, proto: byte, payload: seq<byte>, e: seq<byte>)
    returns (h: Ext, rest: seq<byte>, n: nat)
    requires IsChain(hs) && hs != [] && e == Encode(Linked(hs, proto)) + payload
    ensures h == hs[0].(next := First(hs[1..], proto)) && Linked(hs, proto) == [h] + Linked(hs[1..], proto)
    ensures n == |h.data| + 2 <= |e| && HeaderSize(h.etype, e) == Header(n) && h == Ext(h.etype, e[0], e[2..n])
    ensures rest == e[n..] == Encode(Linked(hs[1..], proto)) + payload
    ensures LaterFragment(h.etype, e) <==> IsLater(hs[0])
  {
    h, rest, n := hs[0].(next := First(hs[1..], proto)), Encode(Linked(hs[1..], proto)) + payload, |hs[0].data| + 2;
    FirstLinked(hs, proto, payload, e, h, rest);
    ReadHeader(h, e, rest, n);
  }

  /** Does the chain end with a later fragment? */
  predicate EndsLater(hs: seq<Ext>) {
    hs != [] && IsLater(hs[|hs| - 1])
  }

  lemma {:induction false} TailEnds(hs: seq<Ext>)
    requires IsChain(hs) && hs != []
    ensures if IsLater(hs[0]) then hs[1..] == [] && EndsLater(hs) else EndsLater(hs[1..]) == EndsLater(hs)
  {
    if |hs| > 1 {
      assert hs[1..][|hs| - 2] == hs[|hs| - 1];
    }
  }

  /** Reading the headers that were written gives the same headers, with the next fields of the chain. */
  lemma {:induction false} ParseOfEncode(hs: seq<Ext>, proto: byte, payload: seq<byte>, e: seq<byte>)
    requires IsChain(hs) && e == Encode(Linked(hs, proto)) + payload
      && (payload == [] || !IsExt(proto) || EndsLater(hs))
    ensures ParseExts(First(hs, proto), e) == Linked(hs, proto)
    decreases |hs|
  {
    if hs != [] {
      var h, rest, n := HeadOfChain(hs, proto, payload, e);
      ParseStep(h.etype, e, h, rest, n);
      TailEnds(hs);
      if !IsLater(hs[0]) {
        ParseOfEncode(hs[1..], proto, payload, rest);
      }
    } else {
      assert e == payload;
    }
  }

  lemma {:induction false} TailAt<T>(d: seq<T>, pos: nat, e: seq<T>, n: nat, rest: seq<T>, next: nat)
    requires pos <= |d| && e == d[pos..] && n <= |e| && rest == e[n..] && next == pos + n
    ensures next <= |d| && rest == d[next..]
  {
  }

  /** proto_skip_ipv6 lands on the payload and names its protocol, or, after a later fragment, on what follows it. */
  lemma {:induction false} SkipOfEncode(hs: seq<Ext>, proto: byte, payload: seq<byte>, d: seq<byte>, pos: nat,
      first: byte, frag: bool, offset: nat, e: seq<byte>)
    requires IsChain(hs) && !IsExt(proto) && pos <= |d| && e == d[pos..] && e == Encode(Linked(hs, proto)) + payload
    ensures
      var r := SkipFrom(d, First(hs, proto), pos, first, frag, offset);
      && r.pos == pos + Size(hs) <= |d| && d[r.pos..] == payload
      && r.proto == if payload == [] || proto == NONE || EndsLater(hs) then first else proto
    decreases |hs|
  {
    if hs != [] {
      var h, rest, n := HeadOfChain(hs, proto, payload, e);
      var next := pos + n;
      SkipStep(d, h.etype, pos, first, frag, offset, e, n, next);
      TailAt(d, pos, e, n, rest, next);
      TailEnds(hs);
      if IsLater(hs[0]) {
        assert rest == payload;
      } else {
        var frag' := if h.etype == FRAGMENT then IsFragment(e) else frag;
        var offset' := if h.etype == FRAGMENT then FragmentOffset(e) else offset;
        SkipOfEncode(hs[1..], proto, payload, d, next, first, frag', offset', rest);
      }
    } else {
      assert e == payload;
    }
  }

  // ---------------------------------------------------------------------------------------
  // What is reported of fragments
  // ---------------------------------------------------------------------------------------

  /** The last header of a type; |hs| when there is none. */
  function LastOf(hs: seq<Ext>, t: byte): (i: nat)
    ensures i <= |hs| && (i < |hs| ==> hs[i].etype == t)
    ensures forall j :: 0 <= j < |hs| && (j > i || i == |hs|) ==> hs[j].etype != t
  {
    if hs == [] then 0
    else
      var n := |hs| - 1;
      if hs[n].etype == t then n
      else
        var i := LastOf(hs[..n], t);
        if i == n then |hs| else i
  }

  /** The two flags of a fragment header: its offset in bytes, and whether it belongs to a fragmented packet. */
  predicate TellsFragment(h: Ext, frag: bool, offset: nat) {
    |h.data| >= 2 &&
    var field := UintAt(h.data, 0, 2);
    offset == field - field % 8 && (frag <==> offset != 0 || field % 2 == 1)
  }

  /** What is reported is what the last fragment header says; without one the packet is not fragmented. */
  predicate FragmentFields(hs: seq<Ext>, frag: bool, offset: nat) {
    var i := LastOf(hs, FRAGMENT);
    if i == |hs| then !frag && offset == 0 else TellsFragment(hs[i], frag, offset)
  }

  /** The headers of a packet that proto_skip_ipv6 walks over, after those before. */
  lemma {:induction false} OneMore(before: seq<Ext>, h: Ext, frag: bool, offset: nat, frag': bool, offset': nat)
    requires FragmentFields(before, frag, offset)
    requires if h.etype == FRAGMENT then TellsFragment(h, frag', offset') else frag' == frag && offset' == offset
    ensures FragmentFields(before + [h], frag', offset')
  {
    assert (before + [h])[..|before|] == before;
  }

  lemma {:induction false} FieldOf(e: seq<byte>, h: Ext, n: nat)
    requires 8 <= n <= |e| && h == Ext(FRAGMENT, e[0], e[2..n])
    ensures TellsFragment(h, IsFragment(e), FragmentOffset(e))
  {
    UintOfSlice(e, 2, n, 0, 2);
  }

  lemma {:induction false} SkipEnds(d: seq<byte>, t: byte, pos: nat, first: byte, frag: bool, offset: nat,
      e: seq<byte>)
    requires pos <= |d| && e == d[pos..] && HeaderSize(t, e).NoHeader?
    ensures
      var r := SkipFrom(d, t, pos, first, frag, offset);
      r.pos == pos && r.frag == frag && r.offset == offset && ParseExts(t, e) == []
  {
  }

  /** The header at the start of e, as the lister gives it, and the fragment fields behind it. */
  lemma {:induction false} ListedHeader(t: byte, e: seq<byte>, n: nat, rest: seq<byte>, before: seq<Ext>, frag: bool,
      offset: nat, frag': bool, offset': nat) returns (h: Ext)
    requires HeaderSize(t, e) == Header(n) && rest == e[n..] && FragmentFields(before, frag, offset)
    requires frag' == (if t == FRAGMENT then IsFragment(e) else frag)
      && offset' == if t == FRAGMENT then FragmentOffset(e) else offset
    ensures ParseExts(t, e) == [h] + (if LaterFragment(t, e) then [] else ParseExts(e[0], rest))
    ensures |h.data| + 2 == n && FragmentFields(before + [h], frag', offset')
  {
    h := Ext(t, e[0], e[2..n]);
    ParseStep(t, e, h, rest, n);
    if t == FRAGMENT {
      FieldOf(e, h, n);
    }
    OneMore(before, h, frag, offset, frag', offset');
  }

  /** The walk from pos on went over the headers hs, and the fields are those after them. */
  predicate WalkedOver(r: Skipped, pos: nat, before: seq<Ext>, hs: seq<Ext>) {
    r.pos == pos + Size(hs) && FragmentFields(before + hs, r.frag, r.offset)
  }

  lemma {:induction false} WalkedOne(r: Skipped, pos: nat, before: seq<Ext>, h: Ext, rest: seq<Ext>, hs: seq<Ext>,
      next: nat)
    requires hs == [h] + rest && next == pos + |h.data| + 2 && WalkedOver(r, next, before + [h], rest)
    ensures WalkedOver(r, pos, before, hs)
  {
    assert before + [h] + rest == before + hs;
  }

  /**
    For every packet, whatever it holds: proto_skip_ipv6 walks over the headers that the other
    reader lists, and reports what the last fragment header among them says.
   */
  lemma {:induction false} SkipTellsFragment(d: seq<byte>, t: byte, pos: nat, first: byte, frag: bool, offset: nat,
      e: seq<byte>, before: seq<Ext>, r: Skipped, hs: seq<Ext>)
    requires pos <= |d| && e == d[pos..] && FragmentFields(before, frag, offset)
    requires r == SkipFrom(d, t, pos, first, frag, offset) && hs == ParseExts(t, e)
    ensures WalkedOver(r, pos, before, hs)
    decreases |d| - pos
  {
    var n := HeaderSize(t, e);
    if n.NoHeader? {
      SkipEnds(d, t, pos, first, frag, offset, e);
      assert before + [] == before;
    } else {
      var next, rest := pos + n.size, e[n.size..];
      var frag' := if t == FRAGMENT then IsFragment(e) else frag;
      var offset' := if t == FRAGMENT then FragmentOffset(e) else offset;
      var h := ListedHeader(t, e, n.size, rest, before, frag, offset, frag', offset');
      SkipStep(d, t, pos, first, frag, offset, e, n.size, next);
      if LaterFragment(t, e) {
        assert before + [h] + [] == before + [h];
        WalkedOne(r, pos, before, h, [], hs, next);
      } else {
        TailAt(d, pos, e, n.size, rest, next);
        SkipTellsFragment(d, e[0], next, first, frag', offset', rest, before + [h], r, ParseExts(e[0], rest));
        WalkedOne(r, pos, before, h, ParseExts(e[0], rest), hs, next);
      }
    }
  }

  /** The first header of a type; |hs| when there is none. */
  function FirstOf(hs: seq<Ext>, t: byte): (i: nat)
    ensures i <= |hs| && (i < |hs| ==> hs[i].etype == t) && forall j :: 0 <= j < i ==> hs[j].etype != t
  {
    if hs == [] || hs[0].etype == t then 0 else 1 + FirstOf(hs[1..], t)
  }

  /** Where a reader that looks for type t stops, in the chain at pos. */
  function Target(hs: seq<Ext>, proto: byte, payload: seq<byte>, pos: nat, t: byte): Found {
    var i := FirstOf(hs, t);
    if i < |hs| then FoundAt(pos + Size(hs[..i]))
    else if proto == t && payload != [] && !EndsLater(hs) then FoundAt(pos + Size(hs))
    else NotFound
  }

  lemma {:induction false} TargetNext(hs: seq<Ext>, proto: byte, payload: seq<byte>, pos: nat, t: byte, next: nat)
    requires IsChain(hs) && hs != [] && hs[0].etype != t && !IsLater(hs[0]) && next == pos + |hs[0].data| + 2
    ensures Target(hs, proto, payload, pos, t) == Target(hs[1..], proto, payload, next, t)
  {
    TailEnds(hs);
    var i := FirstOf(hs[1..], t);
    assert hs[..i + 1][0] == hs[0] && hs[..i + 1][1..] == hs[1..][..i];
  }

  lemma {:induction false} FindStep(d: seq<byte>, t: byte, pos: nat, proto: byte, e: seq<byte>, n: nat, next: nat)
    requires pos <= |d| && e == d[pos..] && HeaderSize(t, e) == Header(n) && next == pos + n
    ensures FindExt(d, t, pos, proto) ==
      if t == proto then FoundAt(pos) else if LaterFragment(t, e) then NotFound else FindExt(d, e[0], next, proto)
  {
  }

  /** proto_find_ip6_exthdr finds the first header of a type, and the payload by its protocol, and nothing else. */
  lemma {:induction false} FindOfEncode(hs: seq<Ext>, proto: byte, payload: seq<byte>, d: seq<byte>, pos: nat, t: byte,
      e: seq<byte>)
    requires IsChain(hs) && !IsExt(proto) && pos <= |d| && e == d[pos..] && e == Encode(Linked(hs, proto)) + payload
    ensures FindExt(d, First(hs, proto), pos, t) == Target(hs, proto, payload, pos, t)
    decreases |hs|
  {
    if hs != [] {
      var h, rest, n := HeadOfChain(hs, proto, payload, e);
      var next := pos + n;
      FindStep(d, h.etype, pos, t, e, n, next);
      TailAt(d, pos, e, n, rest, next);
      assert hs[..0] == [];
      if h.etype != t {
        TailEnds(hs);
        if !IsLater(hs[0]) {
          FindOfEncode(hs[1..], proto, payload, d, next, t, rest);
          TargetNext(hs, proto, payload, pos, t, next);
        }
      }
    } else {
      assert e == payload;
    }
  }

  // ---------------------------------------------------------------------------------------
  // The readers agree on any bytes at all
  // ---------------------------------------------------------------------------------------

  /** The type of what follows some headers. */
  function TypeAfter(t: byte, hs: seq<Ext>): byte {
    if hs == [] then t else hs[|hs| - 1].next
  }

  /** The bytes of a header of type t whose second byte is c. */
  function ByteSize(t: byte, c: byte): nat {
    if t == FRAGMENT then 8 else if t == AH then 8 + 4 * c else 8 + 8 * c
  }

  /** A whole extension header of type t is at p. */
  predicate WholeAt(t: byte, d: seq<byte>, p: nat) {
    IsExt(t) && p + 2 <= |d| && p + ByteSize(t, d[p + 1]) <= |d|
  }

  /** The header h, of type t, is at p. */
  predicate StandsAt(t: byte, d: seq<byte>, p: nat, h: Ext) {
    && WholeAt(t, d, p) && h.etype == t && h.next == d[p] && h.data == d[p + 2..p + ByteSize(t, d[p + 1])]
  }

  /**
    The headers stand one behind the other from p on, each of the type that the one before it
    announces, up to a later fragment or to where no whole header is.
   */
  predicate ListsFrom(t: byte, d: seq<byte>, p: nat, hs: seq<Ext>)
    decreases |hs|
  {
    if hs == [] then !WholeAt(t, d, p)
    else
      && StandsAt(t, d, p, hs[0])
      && if IsLater(hs[0]) then |hs| == 1 else ListsFrom(hs[0].next, d, p + |hs[0].data| + 2, hs[1..])
  }

  /** The first listed header is a later fragment when the reader takes it for one. */
  lemma {:induction false} ListedLater(t: byte, e: seq<byte>, n: nat, h: Ext)
    requires HeaderSize(t, e) == Header(n) && h == Ext(t, e[0], e[2..n])
    ensures LaterFragment(t, e) <==> IsLater(h)
  {
    UintOfSlice(e, 2, n, 0, 2);
  }

  lemma {:induction false} ListedHeaderStands(t: byte, d: seq<byte>, p: nat, e: seq<byte>)
    requires p <= |d| && e == d[p..]
    ensures WholeAt(t, d, p) <==> HeaderSize(t, e).Header?
    ensures HeaderSize(t, e).Header? ==>
      var n := HeaderSize(t, e).size;
      n == ByteSize(t, d[p + 1]) && StandsAt(t, d, p, Ext(t, e[0], e[2..n]))
  {
  }

  lemma {:induction false} ListsOneMore(t: byte, d: seq<byte>, p: nat, h: Ext, rest: seq<Ext>, hs: seq<Ext>, next: nat)
    requires StandsAt(t, d, p, h) && hs == [h] + rest && next == p + |h.data| + 2
    requires if IsLater(h) then rest == [] else ListsFrom(h.next, d, next, rest)
    ensures ListsFrom(t, d, p, hs)
  {
    assert hs[0] == h && hs[1..] == rest;
  }

  /** Whatever the packet holds, what is listed is what stands there. */
  lemma {:induction false} ListedStandsThere(t: byte, d: seq<byte>, p: nat, e: seq<byte>, hs: seq<Ext>)
    requires p <= |d| && e == d[p..] && hs == ParseExts(t, e)
    ensures ListsFrom(t, d, p, hs)
    decreases |e|
  {
    var n := HeaderSize(t, e);
    ListedHeaderStands(t, d, p, e);
    if n.Header? {
      var h, rest, next := Ext(t, e[0], e[2..n.size]), e[n.size..], p + n.size;
      ParseStep(t, e, h, rest, n.size);
      ListedLater(t, e, n.size, h);
      TailAt(d, p, e, n.size, rest, next);
      if IsLater(h) {
        ListsOneMore(t, d, p, h, [], hs, next);
      } else {
        ListedStandsThere(e[0], d, next, rest, ParseExts(e[0], rest));
        ListsOneMore(t, d, p, h, ParseExts(e[0], rest), hs, next);
      }
    }
  }

  /** Where a reader that looks for a type stops, in a packet of n bytes whose headers are hs. */
  function TargetIn(t: byte, hs: seq<Ext>, n: nat, pos: nat, proto: byte): Found {
    var i := FirstOf(hs, proto);
    if i < |hs| then FoundAt(pos + Size(hs[..i]))
    else if Size(hs) < n && !EndsLater(hs) && TypeAfter(t, hs) == proto then FoundAt(pos + Size(hs))
    else NotFound
  }

  lemma {:induction false} TargetInNext(t: byte, h: Ext, rest: seq<Ext>, hs: seq<Ext>, n: nat, pos: nat, proto: byte)
    requires hs == [h] + rest && h.etype != proto && |h.data| + 2 <= n && (IsLater(h) ==> rest == [])
    ensures TargetIn(t, hs, n, pos, proto) ==
      if IsLater(h) then NotFound else TargetIn(h.next, rest, n - (|h.data| + 2), pos + (|h.data| + 2), proto)
  {
    assert hs[1..] == rest;
    var i := FirstOf(rest, proto);
    assert hs[..i + 1][0] == h && hs[..i + 1][1..] == rest[..i];
    if rest != [] {
      assert hs[|hs| - 1] == rest[|rest| - 1];
    }
  }

  /**
    For every packet, whatever it holds: proto_find_ip6_exthdr finds the first listed header of a
    type, or what follows the last of them when that has the type and is no later fragment.
   */
  lemma {:induction false} FindsListed(d: seq<byte>, t: byte, pos: nat, proto: byte, e: seq<byte>, hs: seq<Ext>)
    requires pos <= |d| && e == d[pos..] && hs == ParseExts(t, e)
    ensures FindExt(d, t, pos, proto) == TargetIn(t, hs, |e|, pos, proto)
    decreases |d| - pos
  {
    var n := HeaderSize(t, e);
    assert hs[..0] == [];
    if n.Header? {
      var h, rest, next := Ext(t, e[0], e[2..n.size]), e[n.size..], pos + n.size;
      ParseStep(t, e, h, rest, n.size);
      FindStep(d, t, pos, proto, e, n.size, next);
      if t != proto {
        ListedLater(t, e, n.size, h);
        TailAt(d, pos, e, n.size, rest, next);
        if IsLater(h) {
          TargetInNext(t, h, [], hs, |e|, pos, proto);
        } else {
          FindsListed(d, e[0], next, proto, rest, ParseExts(e[0], rest));
          TargetInNext(t, h, ParseExts(e[0], rest), hs, |e|, pos, proto);
        }
      }
    }
  }

  /** The walk reaches a transport header: one byte of something that is no extension header. */
  predicate ReachesIn(t: byte, hs: seq<Ext>, n: nat) {
    Size(hs) < n && !EndsLater(hs) && !IsExt(TypeAfter(t, hs)) && TypeAfter(t, hs) != NONE
  }

  lemma {:induction false} ReachesNext(t: byte, h: Ext, rest: seq<Ext>, hs: seq<Ext>, n: nat)
    requires hs == [h] + rest && |h.data| + 2 <= n && (IsLater(h) ==> rest == [])
    ensures ReachesIn(t, hs, n) == (!IsLater(h) && ReachesIn(h.next, rest, n - (|h.data| + 2)))
    ensures TypeAfter(t, hs) == TypeAfter(h.next, rest)
  {
    assert hs[1..] == rest;
    if rest != [] {
      assert hs[|hs| - 1] == rest[|rest| - 1];
    }
  }

  /**
    For every packet, whatever it holds: the protocol that proto_skip_ipv6 reports is the type
    behind the listed headers when that is a transport header, and else the first type of all.
   */
  lemma {:induction false} SkipNamesNext(d: seq<byte>, t: byte, pos: nat, first: byte, frag: bool, offset: nat,
      e: seq<byte>, hs: seq<Ext>)
    requires pos <= |d| && e == d[pos..] && hs == ParseExts(t, e)
    ensures SkipFrom(d, t, pos, first, frag, offset).proto ==
      if ReachesIn(t, hs, |e|) then TypeAfter(t, hs) else first
    decreases |d| - pos
  {
    var n := HeaderSize(t, e);
    if n.Header? {
      var h, rest, next := Ext(t, e[0], e[2..n.size]), e[n.size..], pos + n.size;
      ParseStep(t, e, h, rest, n.size);
      SkipStep(d, t, pos, first, frag, offset, e, n.size, next);
      ListedLater(t, e, n.size, h);
      TailAt(d, pos, e, n.size, rest, next);
      if IsLater(h) {
        ReachesNext(t, h, [], hs, |e|);
      } else {
        SkipNamesNext(d, e[0], next, first, if t == FRAGMENT then IsFragment(e) else frag,
          if t == FRAGMENT then FragmentOffset(e) else offset, rest, ParseExts(e[0], rest));
        ReachesNext(t, h, ParseExts(e[0], rest), hs, |e|);
      }
    }
  }

  /** All that proto_skip_ipv6 reports, told by the list of headers. */
  lemma {:induction false} SkipsListed(t: byte, d: seq<byte>)
    ensures
      var r, hs := SkipFrom(d, t, 0, t, false, 0), ParseExts(t, d);
      && r.pos == Size(hs) && FragmentFields(hs, r.frag, r.offset)
      && r.proto == if ReachesIn(t, hs, |d|) then TypeAfter(t, hs) else t
  {
    var r, hs := SkipFrom(d, t, 0, t, false, 0), ParseExts(t, d);
    assert d[0..] == d && [] + hs == hs;
    SkipTellsFragment(d, t, 0, t, false, 0, d, [], r, hs);
    SkipNamesNext(d, t, 0, t, false, 0, d, hs);
  }

  /** The next fields that the tables list are those of the chain. */
  predicate Agree(hs: seq<Ext>, proto: byte) {
    forall i :: 0 <= i < |hs| ==> hs[i].next == First(hs[i + 1..], proto)
  }

  /** Next fields that agree with the chain are those that linking sets. */
  lemma {:induction false} PreservedChain(hs: seq<Ext>, proto: byte)
    requires Agree(hs, proto)
    ensures Linked(hs, proto) == hs
  {
    LinkedKeeps(hs, proto);
  }

  /** The base header d0 and the tables agree with the chain, or what they say is not preserved. */
  predicate Preservable(hs: seq<Ext>, proto: byte, preserve: bool, d0: seq<byte>) {
    preserve ==> Agree(hs, proto) && |d0| > NEXT_HEADER && d0[NEXT_HEADER] == First(hs, proto)
  }

  /** A packet that starts with what was built, as a reader sees it behind the base header. */
  lemma {:induction false} BuiltPacket(hs: seq<Ext>, proto: byte, preserve: bool, d0: seq<byte>, d: seq<byte>, len: nat,
      payload: seq<byte>, p: seq<byte>)
    requires Built(hs, proto, preserve, d0, d, len) && Preservable(hs, proto, preserve, d0) && p == d[..len] + payload
    ensures |p| >= IP6_HEADER && p[NEXT_HEADER] == First(hs, proto)
      && p[IP6_HEADER..] == Encode(Linked(hs, proto)) + payload
  {
    WantedIsLinked(hs, proto, preserve);
    BehindBase(d, len, payload, p, d[IP6_HEADER..len]);
    assert d[..IP6_HEADER][NEXT_HEADER] == d[NEXT_HEADER];
  }

  lemma {:induction false} WantedIsLinked(hs: seq<Ext>, proto: byte, preserve: bool)
    requires preserve ==> Agree(hs, proto)
    ensures Wanted(hs, proto, preserve) == Linked(hs, proto)
  {
    if preserve {
      PreservedChain(hs, proto);
    }
  }

  lemma {:induction false} BehindBase(d: seq<byte>, len: nat, payload: seq<byte>, p: seq<byte>, x: seq<byte>)
    requires IP6_HEADER <= len <= |d| && p == d[..len] + payload && x == d[IP6_HEADER..len]
    ensures |p| >= IP6_HEADER && p[NEXT_HEADER] == d[NEXT_HEADER] && p[IP6_HEADER..] == x + payload
  {
  }

  lemma {:induction false} LinkedSame(hs: seq<Ext>, proto: byte, i: nat)
    requires i < |hs|
    ensures Linked(hs, proto)[i].etype == hs[i].etype && Linked(hs, proto)[i].data == hs[i].data
  {
    if i > 0 {
      LinkedSame(hs[1..], proto, i - 1);
    }
  }

  /** Linking changes neither the types nor the data. */
  lemma {:induction false} LinkedFields(hs: seq<Ext>, proto: byte, frag: bool, offset: nat)
    requires FragmentFields(Linked(hs, proto), frag, offset)
    ensures FragmentFields(hs, frag, offset)
  {
    var l := Linked(hs, proto);
    forall i | 0 <= i < |hs|
      ensures l[i].etype == hs[i].etype && l[i].data == hs[i].data
    {
      LinkedSame(hs, proto, i);
    }
    assert LastOf(l, FRAGMENT) == LastOf(hs, FRAGMENT);
  }

  lemma {:induction false} BuiltTellsFragment(hs: seq<Ext>, proto: byte, b: seq<byte>)
    requires ParseExts(First(hs, proto), b) == Linked(hs, proto)
    ensures
      var r := SkipFrom(b, First(hs, proto), 0, First(hs, proto), false, 0);
      FragmentFields(hs, r.frag, r.offset)
  {
    var t := First(hs, proto);
    var r := SkipFrom(b, t, 0, t, false, 0);
    assert b[0..] == b && [] + Linked(hs, proto) == Linked(hs, proto);
    SkipTellsFragment(b, t, 0, t, false, 0, b, [], r, Linked(hs, proto));
    LinkedFields(hs, proto, r.frag, r.offset);
  }

  /**
    Built and then read: for every chain of headers that can be built, with the next fields
    set or preserved, the readers get the headers back, linked, land on the payload, and find each
    header and the payload by type.
   */
  lemma {:induction false} BuiltIsRead(hs: seq<Ext>, proto: byte, preserve: bool, d0: seq<byte>, d: seq<byte>, len: nat,
      payload: seq<byte>, p: seq<byte>, b: seq<byte>)
    requires Built(hs, proto, preserve, d0, d, len) && Preservable(hs, proto, preserve, d0)
    requires IsChain(hs) && !IsExt(proto) && p == d[..len] + payload && (|p| >= IP6_HEADER ==> b == p[IP6_HEADER..])
    ensures |p| >= IP6_HEADER && ParseExts(p[NEXT_HEADER], b) == Linked(hs, proto)
    ensures
      var r := SkipFrom(b, p[NEXT_HEADER], 0, p[NEXT_HEADER], false, 0);
      && IP6_HEADER + r.pos == len && b[r.pos..] == payload
      && r.proto == if payload == [] || proto == NONE || EndsLater(hs) then First(hs, proto) else proto
    ensures
      var r := SkipFrom(b, p[NEXT_HEADER], 0, p[NEXT_HEADER], false, 0);
      FragmentFields(hs, r.frag, r.offset)
    ensures forall t :: FindExt(b, p[NEXT_HEADER], 0, t) == Target(hs, proto, payload, 0, t)
  {
    BuiltPacket(hs, proto, preserve, d0, d, len, payload, p);
    ParseOfEncode(hs, proto, payload, b);
    SkipOfEncode(hs, proto, payload, b, 0, First(hs, proto), false, 0, b);
    BuiltTellsFragment(hs, proto, b);
    forall t: byte
      ensures FindExt(b, p[NEXT_HEADER], 0, t) == Target(hs, proto, payload, 0, t)
    {
      FindOfEncode(hs, proto, payload, b, 0, t, b);
    }
  }
}

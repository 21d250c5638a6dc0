/**
  What each packet does to a track, said of the queue, the buffer and the departures, and what a
  whole message leads to.
 */
module DelayOutcome {
  import opened Blocks
  import opened DelayQueue
  import opened Reassembly
  import opened Tls
  import opened Words

  // ---------------------------------------------------------------------------------------
  // The three things that can happen to what waits
  // ---------------------------------------------------------------------------------------

  /** The packet joins the queue, and r is then the reassembly. */
  predicate Waits(t: Track, u: Track, p: Delayed, r: Reasm) {
    u.left == t.left && u.delayed == t.delayed + [p] && u.reasm == r
  }

  /** Nothing waits, nothing is being reassembled, and what has left since is d. */
  predicate Leaves(t: Track, u: Track, d: seq<Departure>) {
    u.delayed == [] && u.reasm.IsEmpty() && u.left == t.left + d
  }

  /** What waited was sent as it was. */
  predicate Freed(t: Track, u: Track) {
    Leaves(t, u, Unchanged(t.delayed))
  }

  function Unchanged(q: seq<Delayed>): (d: seq<Departure>)
    ensures |d| == |q| && forall k :: 0 <= k < |q| ==> d[k] == Resent(q[k])
  {
    seq(|q|, k requires 0 <= k < |q| => Resent(q[k]))
  }

  /** Every packet of q is replayed, in order, against the whole message. */
  predicate AllPieces(d: seq<Departure>, q: seq<Delayed>, message: seq<byte>, desync: Desync) {
    |d| == |q| && forall k :: 0 <= k < |q| ==> IsPiece(d[k], q, k, message, desync)
  }

  predicate Delivered(t: Track, u: Track, q: seq<Delayed>, message: seq<byte>, desync: Desync) {
    |u.left| >= |t.left| && Leaves(t, u, u.left[|t.left|..]) && AllPieces(u.left[|t.left|..], q, message, desync)
  }

  lemma {:induction false} ResentIs(q: seq<Delayed>)
    ensures ResentAll(q) == Unchanged(q)
  {
    if q != [] {
      ResentIs(q[1..]);
    }
  }

  lemma {:induction false} StopFrees(t: Track)
    requires t.reasm.Valid()
    ensures Freed(t, Stop(t))
  {
    ResentIs(t.delayed);
  }

  lemma {:induction false} ReplayDelivers(t: Track, d: Delayed, desync: Desync)
    requires t.reasm.Valid()
    ensures Delivered(t, Delay(t, d, true, desync), t.delayed + [d], t.reasm.data, desync)
  {
    var q := t.delayed + [d];
    assert q[0..] == q;
    var r := Replay(q, 0, |q|, 0, 0, t.reasm.data, desync);
    assert Delay(t, d, true, desync).left == t.left + r + [];
    assert (t.left + r)[|t.left|..] == r;
    forall k | 0 <= k < |q|
      ensures IsPiece(r[k], q, k, t.reasm.data, desync)
    {
      ReplayPieces(q, q, 0, 0, 0, t.reasm.data, desync, k, r);
    }
  }

  // ---------------------------------------------------------------------------------------
  // TCP
  // ---------------------------------------------------------------------------------------

  /** Data of the client in a connection that has a profile. */
  predicate IsClientData(i: TcpInput) {
    i.profile && !i.bReverse && !i.syn && i.packet.payload != []
  }

  /** Is the connection known to be TLS, and is the reassembly of a ClientHello not switched off? */
  predicate StillTls(i: TcpInput) {
    i.protoTls && !i.reasmOff
  }

  /** The window the server announced, if any is known, has room for the message. */
  predicate HasRoom(w: Window, size: nat) {
    w.NoWindow? || w.size >= size
  }

  /** The packet has the beginning of a ClientHello, and the rest of its record is worth waiting for. */
  predicate BeginsHello(i: TcpInput) {
    && !i.payloadOff && !i.reasmOff && !i.retransmission && IsTLSClientHello(i.packet.payload, true)
    && |i.packet.payload| < RecordLen(i.packet.payload) <= TCP_MAX_REASM
    && HasRoom(i.window, RecordLen(i.packet.payload))
  }

  /** The reassembly of a ClientHello after its first packet. */
  function FirstOf(p: Delayed): Reasm
    requires |p.payload| >= 5
  {
    Reasm(RecordLen(p.payload), p.payload, Wrap(p.sn + |p.payload|))
  }

  /** What is not client data leaves the track alone, or ends what runs when there is no profile any more. */
  lemma {:induction false} OtherPacket(t: Track, i: TcpInput, desync: Desync)
    requires Sound(t) && !IsClientData(i)
    ensures var u := TcpStep(t, i, desync); if !i.profile || i.rediscovered then u == t else Freed(t, u)
  {
    StopFrees(t);
  }

  lemma {:induction false} StartHolds(t: Track, sn: uint32, size: nat, max: nat, payload: seq<byte>)
    requires size <= max && 0 < |payload| <= size
    ensures Start(t, sn, size, max, payload) == (true, t.(reasm := Reasm(size, payload, Wrap(sn + |payload|))))
  {
    FeedInOrder(Reasm(size, [], sn), sn, payload);
    assert [] + payload == payload;
  }

  lemma {:induction false} HelloBegun(t: Track, i: TcpInput, desync: Desync, s: Track)
    requires t.reasm.IsEmpty() && BeginsHello(i)
    requires Start(t, i.packet.sn, RecordLen(i.packet.payload), TCP_MAX_REASM, i.packet.payload) == (true, s)
    ensures HelloStep(t, i, i.packet.payload, desync) == Delay(s, i.packet, s.reasm.IsFull(), desync)
  {
  }

  /** A ClientHello that is not all there. */
  lemma {:induction false} HelloStarts(t: Track, i: TcpInput, desync: Desync)
    requires t.reasm.IsEmpty() && i.packet.payload != [] && BeginsHello(i)
    ensures Waits(t, HelloStep(t, i, i.packet.payload, desync), i.packet, FirstOf(i.packet))
  {
    StartHolds(t, i.packet.sn, RecordLen(i.packet.payload), TCP_MAX_REASM, i.packet.payload);
    HelloBegun(t, i, desync, t.(reasm := FirstOf(i.packet)));
  }

  /** Any other packet that is taken for one goes on. */
  lemma {:induction false} HelloPasses(t: Track, i: TcpInput, desync: Desync)
    requires Sound(t) && t.reasm.IsEmpty() && TakenForHello(t, i, i.packet.payload) && !BeginsHello(i)
    ensures Leaves(t, HelloStep(t, i, i.packet.payload, desync), [])
  {
    StopFrees(t);
    assert t.left + [] == t.left;
  }

  /** The packet that is the first of its message. */
  lemma {:induction false} FirstPacket(t: Track, i: TcpInput, desync: Desync)
    requires Sound(t) && t.reasm.IsEmpty() && IsClientData(i)
    ensures
      var u := TcpStep(t, i, desync);
      var p := i.packet;
      if BeginsHello(i) then Waits(t, u, p, FirstOf(p)) else Leaves(t, u, [])
  {
    StopFrees(t);
    assert t.left + [] == t.left;
    if BeginsHello(i) {
      HelloStarts(t, i, desync);
    } else if TakenForHello(t, i, i.packet.payload) {
      HelloPasses(t, i, desync);
    }
  }

  lemma {:induction false} FeedInOrder(r: Reasm, sn: uint32, payload: seq<byte>)
    requires r.Valid() && r.next == sn && payload != [] && |r.data| + |payload| <= r.size
    ensures Feed(r, sn, payload) == (true, Reasm(r.size, r.data + payload, Wrap(sn + |payload|)))
  {
    WrapSmall(0);
    assert r.data[..|r.data|] == r.data && payload[0..] == payload;
    assert (|r.data| + |payload|) - |r.data| == |payload|;
  }

  /** A packet that the running reassembly refuses ends it; the packet is then seen as if none had been. */
  lemma {:induction false} RefusedPacket(t: Track, i: TcpInput, desync: Desync) returns (m: Track)
    requires Sound(t) && !t.reasm.IsEmpty() && IsClientData(i) && !Feed(t.reasm, i.packet.sn, i.packet.payload).0
    ensures Sound(m) && Freed(t, m) && TcpStep(t, i, desync) == TcpStep(m, i, desync)
  {
    m := FeedTrack(t, i.packet.sn, i.packet.payload).1;
    ResentIs(t.delayed);
  }

  /**
    A packet that the running reassembly takes waits; and when it is the one that completes the
    message, every packet that waits, itself included, is replayed against the whole message.
   */
  lemma {:induction false} TakenPacket(t: Track, i: TcpInput, desync: Desync, r: Reasm)
    requires Sound(t) && !t.reasm.IsEmpty() && IsClientData(i)
      && Feed(t.reasm, i.packet.sn, i.packet.payload) == (true, r)
    ensures
      var u := TcpStep(t, i, desync);
      if StillTls(i) then
        if r.IsFull() then Delivered(t, u, t.delayed + [i.packet], r.data, desync)
        else Waits(t, u, i.packet, r)
      else if i.rediscovered then u == t.(reasm := r)
      else Freed(t, u)
  {
    var m := t.(reasm := r);
    StopFrees(m);
    ReplayDelivers(m, i.packet, desync);
  }

  /** What a TCP packet does to a track, told by the track, the packet and the buffer alone. */
  predicate TcpOutcome(t: Track, i: TcpInput, desync: Desync, u: Track)
    requires t.reasm.Valid()
  {
    var p := i.packet;
    if !IsClientData(i) then
      if !i.profile || i.rediscovered then u == t else Freed(t, u)
    else
      var f := Feed(t.reasm, p.sn, p.payload);
      if t.reasm.IsEmpty() || !f.0 then
        if BeginsHello(i) then u == Track(FirstOf(p), [p], t.left + Unchanged(t.delayed)) else Freed(t, u)
      else if StillTls(i) then
        if f.1.IsFull() then Delivered(t, u, t.delayed + [p], f.1.data, desync) else Waits(t, u, p, f.1)
      else if i.rediscovered then u == t.(reasm := f.1)
      else Freed(t, u)
  }

  lemma {:induction false} IdleOutcome(t: Track, m: Track, i: TcpInput, desync: Desync, u: Track)
    requires Sound(t) && Sound(m) && IsClientData(i)
      && (t.reasm.IsEmpty() || !Feed(t.reasm, i.packet.sn, i.packet.payload).0)
    requires Freed(t, m) && u == TcpStep(m, i, desync)
    ensures TcpOutcome(t, i, desync, u)
  {
    FirstPacket(m, i, desync);
    assert m.left + [] == m.left && [] + [i.packet] == [i.packet];
  }

  /** Every TCP packet, on every track. */
  lemma {:induction false} TcpStepOutcome(t: Track, i: TcpInput, desync: Desync)
    requires Sound(t)
    ensures Sound(TcpStep(t, i, desync)) && TcpOutcome(t, i, desync, TcpStep(t, i, desync))
  {
    TcpStepGoes(t, i, desync);
    if !IsClientData(i) {
      OtherPacket(t, i, desync);
    } else if t.reasm.IsEmpty() {
      assert t.left + Unchanged([]) == t.left;
      IdleOutcome(t, t, i, desync, TcpStep(t, i, desync));
    } else {
      var f := Feed(t.reasm, i.packet.sn, i.packet.payload);
      if f.0 {
        TakenPacket(t, i, desync, f.1);
      } else {
        var m := RefusedPacket(t, i, desync);
        IdleOutcome(t, m, i, desync, TcpStep(t, i, desync));
      }
    }
  }

  /**
    Nothing that is complete is kept waiting: a full buffer is left only when the connection is no
    longer taken for TLS, or the reassembly was switched off under it.
   */
  lemma {:induction false} LeftFullIff(t: Track, i: TcpInput, desync: Desync)
    requires Sound(t) && !t.reasm.IsFull()
    ensures TcpStep(t, i, desync).reasm.IsFull() <==>
      && !t.reasm.IsEmpty() && IsClientData(i) && !StillTls(i) && i.rediscovered
      && Feed(t.reasm, i.packet.sn, i.packet.payload).0 && Feed(t.reasm, i.packet.sn, i.packet.payload).1.IsFull()
  {
    TcpStepOutcome(t, i, desync);
  }

  // ---------------------------------------------------------------------------------------
  // A ClientHello in several segments
  // ---------------------------------------------------------------------------------------

  /** One record with a ClientHello in it, not too long to be reassembled. */
  predicate IsHelloRecord(message: seq<byte>) {
    IsTLSClientHello(message, true) && |message| == RecordLen(message) <= TCP_MAX_REASM
  }

  /** The packet carries the message from byte at on; the first one has enough of it to tell, and not all of it. */
  predicate IsSegment(i: TcpInput, start: uint32, message: seq<byte>, at: nat) {
    && i.packet.tcp && i.packet.sn == Wrap(start + at) && at + |i.packet.payload| <= |message|
    && i.packet.payload == message[at..at + |i.packet.payload|]
    && (at > 0 ==> StillTls(i))
    && (at == 0 ==>
      && !i.payloadOff && !i.reasmOff && !i.retransmission && HasRoom(i.window, |message|)
      && INTRO <= |i.packet.payload| < |message|)
  }

  /** The client sends the rest of the message, in order; what comes in between does not end the reassembly. */
  predicate Sends(events: seq<Event>, start: uint32, message: seq<byte>, at: nat)
    decreases |events|
  {
    if events == [] then at == |message|
    else
      var i := events[0].input;
      if IsClientData(i) then
        IsSegment(i, start, message, at) && Sends(events[1..], start, message, at + |i.packet.payload|)
      else (!i.profile || i.rediscovered) && Sends(events[1..], start, message, at)
  }

  /** The packets with data. */
  function DataOf(events: seq<Event>): seq<Delayed>
    decreases |events|
  {
    if events == [] then []
    else (if IsClientData(events[0].input) then [events[0].input.packet] else []) + DataOf(events[1..])
  }

  /** The payloads of some packets, one after the other. */
  function Payloads(q: seq<Delayed>): seq<byte> {
    if q == [] then [] else q[0].payload + Payloads(q[1..])
  }

  /** The packets of such a run carry the message and nothing else. */
  lemma {:induction false} DataIsMessage(events: seq<Event>, start: uint32, message: seq<byte>, at: nat)
    requires at <= |message| && Sends(events, start, message, at)
    ensures AllTcp(DataOf(events)) && Payloads(DataOf(events)) == message[at..]
    decreases |events|
  {
    if events != [] {
      var i, rest := events[0].input, DataOf(events[1..]);
      if IsClientData(i) {
        DataIsMessage(events[1..], start, message, at + |i.packet.payload|);
        assert ([i.packet] + rest)[1..] == rest;
      } else {
        DataIsMessage(events[1..], start, message, at);
        assert [] + rest == rest;
      }
    }
  }

  /** How the track t has become u when the packets q, with the first bytes of the message, have come. */
  predicate Halfway(t: Track, u: Track, q: seq<Delayed>, start: uint32, message: seq<byte>, at: nat, desync: Desync) {
    Sound(u) && at <= |message| &&
    if at == 0 then Leaves(t, u, []) && q == []
    else if at == |message| then Delivered(t, u, q, message, desync)
    else u == Track(Reasm(|message|, message[..at], Wrap(start + at)), q, t.left)
  }

  /** The first segment starts the reassembly. */
  lemma {:induction false} FirstSegment(t: Track, u: Track, q: seq<Delayed>, v: Track, i: TcpInput, start: uint32,
      message: seq<byte>, desync: Desync)
    requires IsHelloRecord(message) && Halfway(t, u, q, start, message, 0, desync)
    requires IsClientData(i) && IsSegment(i, start, message, 0) && Sound(v) && TcpOutcome(u, i, desync, v)
    ensures Halfway(t, v, q + [i.packet], start, message, |i.packet.payload|, desync)
  {
    HelloBegins(i, start, message);
    WrapSmall(start);
    assert q + [i.packet] == [i.packet] && t.left + [] == t.left && u.left + Unchanged([]) == u.left;
  }

  /** The first segment has enough of the record to tell a ClientHello and its size. */
  lemma {:induction false} HelloBegins(i: TcpInput, start: uint32, message: seq<byte>)
    requires IsHelloRecord(message) && IsSegment(i, start, message, 0)
    ensures BeginsHello(i) && RecordLen(i.packet.payload) == |message|
  {
    var p := i.packet.payload;
    assert p[0..INTRO] == message[0..INTRO];
    IntroTells(p[0..INTRO], p);
    IntroTells(message[0..INTRO], message);
  }

  lemma {:induction false} FeedsNext(u: Track, i: TcpInput, start: uint32, message: seq<byte>, at: nat, r: Reasm)
    requires at <= |message| && u.reasm == Reasm(|message|, message[..at], Wrap(start + at)) && IsClientData(i)
      && IsSegment(i, start, message, at)
    requires
      var n := at + |i.packet.payload|;
      r == Reasm(|message|, message[..n], Wrap(start + n))
    ensures Feed(u.reasm, i.packet.sn, i.packet.payload) == (true, r)
  {
    var p := i.packet.payload;
    WrapSub(start + at, |p|);
    assert message[..at] + p == message[..at + |p|];
    FeedInOrder(u.reasm, i.packet.sn, p);
  }

  lemma {:induction false} JoinedOrDone(t: Track, u: Track, q: seq<Delayed>, v: Track, p: Delayed, start: uint32,
      message: seq<byte>, at: nat, n: nat, desync: Desync, r: Reasm)
    requires Halfway(t, u, q, start, message, at, desync) && 0 < at < n <= |message| && Sound(v)
    requires r == Reasm(|message|, message[..n], Wrap(start + n))
    requires if r.IsFull() then Delivered(u, v, q + [p], r.data, desync) else Waits(u, v, p, r)
    ensures Halfway(t, v, q + [p], start, message, n, desync)
  {
    assert message[..|message|] == message;
  }

  /** A further segment joins, and with the last one the message is complete. */
  lemma {:induction false} NextSegment(t: Track, u: Track, q: seq<Delayed>, v: Track, i: TcpInput, start: uint32,
      message: seq<byte>, at: nat, desync: Desync)
    requires Halfway(t, u, q, start, message, at, desync) && 0 < at
    requires IsClientData(i) && IsSegment(i, start, message, at) && Sound(v) && TcpOutcome(u, i, desync, v)
    ensures Halfway(t, v, q + [i.packet], start, message, at + |i.packet.payload|, desync)
  {
    var n := at + |i.packet.payload|;
    var r := Reasm(|message|, message[..n], Wrap(start + n));
    FeedsNext(u, i, start, message, at, r);
    JoinedOrDone(t, u, q, v, i.packet, start, message, at, n, desync, r);
  }

  lemma {:induction false} SendsNext(events: seq<Event>, start: uint32, message: seq<byte>, at: nat)
    requires events != [] && Sends(events, start, message, at)
    ensures
      var i := events[0].input;
      if IsClientData(i) then
        IsSegment(i, start, message, at) && Sends(events[1..], start, message, at + |i.packet.payload|)
      else (!i.profile || i.rediscovered) && Sends(events[1..], start, message, at)
  {
  }

  lemma {:induction false} DataNext(events: seq<Event>, q: seq<Delayed>)
    requires events != []
    ensures
      var i := events[0].input;
      q + DataOf(events) == (if IsClientData(i) then q + [i.packet] else q) + DataOf(events[1..])
  {
    var i, rest := events[0].input, DataOf(events[1..]);
    assert [] + rest == rest && q + ([i.packet] + rest) == q + [i.packet] + rest;
  }

  lemma {:induction false} RunNext(u: Track, events: seq<Event>, desync: Desync) returns (v: Track)
    requires Sound(u) && events != []
    ensures Sound(v) && TcpOutcome(u, events[0].input, desync, v)
    ensures TcpRun(u, events, desync) == TcpRun(v, events[1..], desync)
  {
    v := TcpStep(u, events[0].input, desync);
    TcpStepOutcome(u, events[0].input, desync);
  }

  lemma {:induction false} RestIsReplayed(t: Track, u: Track, q: seq<Delayed>, events: seq<Event>, start: uint32,
      message: seq<byte>, at: nat, desync: Desync, w: Track, all: seq<Delayed>)
    requires IsHelloRecord(message) && Halfway(t, u, q, start, message, at, desync) && Sends(events, start, message, at)
    requires w == TcpRun(u, events, desync) && all == q + DataOf(events)
    ensures Delivered(t, w, all, message, desync)
    decreases |events|
  {
    if events == [] {
      assert all == q;
    } else {
      var i, rest := events[0].input, events[1..];
      var v := RunNext(u, events, desync);
      DataNext(events, q);
      SendsNext(events, start, message, at);
      if IsClientData(i) {
        if at == 0 {
          FirstSegment(t, u, q, v, i, start, message, desync);
        } else {
          NextSegment(t, u, q, v, i, start, message, at, desync);
        }
        RestIsReplayed(t, v, q + [i.packet], rest, start, message, at + |i.packet.payload|, desync, w, all);
      } else {
        RestIsReplayed(t, v, q, rest, start, message, at, desync, w, all);
      }
    }
  }

  /**
    A client that sends a ClientHello in order, in two or more segments of any size: when the last
    one has come, every packet of it has been replayed, in order and at its place, against the
    whole message, and nothing waits.
   */
  lemma {:induction false} HelloIsReplayed(t: Track, events: seq<Event>, start: uint32, message: seq<byte>,
      desync: Desync)
    requires Sound(t) && t.reasm.IsEmpty() && IsHelloRecord(message) && Sends(events, start, message, 0)
    ensures Delivered(t, TcpRun(t, events, desync), DataOf(events), message, desync)
    ensures AllTcp(DataOf(events)) && Payloads(DataOf(events)) == message
  {
    DataIsMessage(events, start, message, 0);
    assert t.left + [] == t.left;
    assert [] + DataOf(events) == DataOf(events);
    RestIsReplayed(t, t, [], events, start, message, 0, desync, TcpRun(t, events, desync), DataOf(events));
  }

  // ---------------------------------------------------------------------------------------
  // UDP
  // ---------------------------------------------------------------------------------------

  /** A QUIC Initial packet of the client that can be decrypted, in a connection that has a profile. */
  predicate IsInitial(i: UdpInput) {
    i.profile && i.packet.payload != [] && !i.bReverse && i.clean.Clean?
  }

  /** The reassembly of CRYPTO data that is in order from its start. */
  function Filled(data: seq<byte>): Reasm {
    Reasm(UDP_MAX_REASM, data, Wrap(|data|))
  }

  /** Anything else ends what runs. */
  lemma {:induction false} OtherDatagram(t: Track, i: UdpInput, crypto: seq<byte> -> Crypto, desync: Desync)
    requires Sound(t) && (!IsInitial(i) || i.reasmOff)
    ensures var u := UdpStep(t, i, crypto, desync); if i.profile then Freed(t, u) else u == t
  {
    StopFrees(t);
  }

  /** The first packet waits exactly when its CRYPTO data has a hole or is the beginning of a ClientHello. */
  lemma {:induction false} FirstDatagram(t: Track, i: UdpInput, crypto: seq<byte> -> Crypto, desync: Desync)
    requires Sound(t) && t.reasm.IsEmpty() && IsInitial(i) && !i.reasmOff && |i.clean.data| <= UDP_MAX_REASM
    ensures
      var u, c := UdpStep(t, i, crypto, desync), crypto(i.clean.data);
      if c == Holes || c == Covered(true, false) then Waits(t, u, i.packet, Filled(i.clean.data))
      else Leaves(t, u, [])
  {
    StopFrees(t);
    WrapSmall(0);
    FeedNext(Reasm(UDP_MAX_REASM, [], 0), i.clean.data);
    assert [] + i.clean.data == i.clean.data && t.left + [] == t.left;
  }

  /**
    A further packet: when there is no room for it, or no CRYPTO data any more, what waits goes out
    as it is; when the data is now a whole ClientHello, every packet is replayed against it;
    otherwise the packet waits too.
   */
  lemma {:induction false} NextDatagram(t: Track, i: UdpInput, crypto: seq<byte> -> Crypto, desync: Desync,
      data: seq<byte>)
    requires Sound(t) && !t.reasm.IsEmpty() && t.reasm == Filled(t.reasm.data) && IsInitial(i) && !i.reasmOff
    requires data == t.reasm.data + i.clean.data
    ensures
      var u := UdpStep(t, i, crypto, desync);
      if |data| > UDP_MAX_REASM || crypto(data) == NoCrypto then Freed(t, u)
      else if crypto(data) == Covered(true, true) then Delivered(t, u, t.delayed + [i.packet], data, desync)
      else Waits(t, u, i.packet, Filled(data))
  {
    StopFrees(t);
    if |data| <= UDP_MAX_REASM {
      FeedNext(t.reasm, i.clean.data);
      var f := FeedTrack(t, Wrap(|t.reasm.data|), i.clean.data).1;
      assert f == t.(reasm := Filled(data));
      StopFrees(f);
      ReplayDelivers(f, i.packet, desync);
    }
  }

  // ---------------------------------------------------------------------------------------
  // Verdicts
  // ---------------------------------------------------------------------------------------

  /** A replayed packet has the verdict of the scripts on that packet, piece and offset. */
  predicate Judged(d: Departure, desync: Desync) {
    d.Replayed? ==> d.verdict == desync(d.packet, d.piece, d.count, d.offset)
  }

  predicate AllJudged(d: seq<Departure>, desync: Desync) {
    forall k :: 0 <= k < |d| ==> Judged(d[k], desync)
  }

  lemma {:induction false} ReplayJudged(q: seq<Delayed>, i: nat, count: nat, offset: nat, seq0: uint32,
      message: seq<byte>, desync: Desync)
    ensures AllJudged(Replay(q, i, count, offset, seq0, message, desync), desync)
    decreases |q|
  {
    if q != [] {
      var p := q[0];
      var at := if p.tcp && i > 0 then Wrap(p.sn - seq0) else offset;
      ReplayJudged(q[1..], i + 1, count, if p.tcp then at else at + |p.payload|, if p.tcp && i == 0 then p.sn else seq0,
        message, desync);
    }
  }

  lemma {:induction false} StopJudged(t: Track, desync: Desync)
    requires AllJudged(t.left, desync)
    ensures AllJudged(Stop(t).left, desync)
  {
    ResentIs(t.delayed);
  }

  lemma {:induction false} DelayJudged(t: Track, d: Delayed, full: bool, desync: Desync)
    requires AllJudged(t.left, desync)
    ensures AllJudged(Delay(t, d, full, desync).left, desync)
  {
    var q := Enqueue(t, d);
    if full {
      ReplayJudged(q.delayed, 0, |q.delayed|, 0, 0, q.reasm.data, desync);
      StopJudged(ReplayQueue(q, desync), desync);
    }
  }

  lemma {:induction false} TcpStepJudged(t: Track, i: TcpInput, desync: Desync)
    requires t.reasm.Valid() && AllJudged(t.left, desync)
    ensures AllJudged(TcpStep(t, i, desync).left, desync)
  {
    StopJudged(t, desync);
    if IsClientData(i) {
      var f := FeedTrack(t, i.packet.sn, i.packet.payload);
      var rdata := if f.0 then f.1.reasm.data else i.packet.payload;
      ResentIs(t.delayed);
      StopJudged(f.1, desync);
      if TakenForHello(f.1, i, rdata) {
        DelayJudged(f.1, i.packet, f.1.reasm.IsFull(), desync);
        if StartsReasm(f.1, i, rdata) {
          var s := Start(f.1, i.packet.sn, RecordLen(i.packet.payload), TCP_MAX_REASM, i.packet.payload).1;
          DelayJudged(s, i.packet, s.reasm.IsFull(), desync);
          StopJudged(s, desync);
        }
      }
    }
  }

  lemma {:induction false} UdpStepJudged(t: Track, i: UdpInput, crypto: seq<byte> -> Crypto, desync: Desync)
    requires t.reasm.Valid() && AllJudged(t.left, desync)
    ensures AllJudged(UdpStep(t, i, crypto, desync).left, desync)
  {
    StopJudged(t, desync);
    if IsInitial(i) {
      var s := Start(t, 0, UDP_MAX_REASM, UDP_MAX_REASM, i.clean.data).1;
      DelayJudged(s, i.packet, false, desync);
      var f := FeedTrack(t, Wrap(|t.reasm.data|), i.clean.data).1;
      ResentIs(t.delayed);
      StopJudged(f, desync);
      DelayJudged(f, i.packet, true, desync);
    }
  }

  /** Over any run, every replayed packet has the verdict of the scripts on what they were shown of it. */
  lemma {:induction false} RunJudged(t: Track, inputs: seq<Input>, crypto: seq<byte> -> Crypto, desync: Desync)
    requires Sound(t) && AllJudged(t.left, desync)
    ensures AllJudged(DelayQueue.Run(t, inputs, crypto, desync).left, desync)
    decreases |inputs|
  {
    if inputs != [] {
      var n := |inputs| - 1;
      RunJudged(t, inputs[..n], crypto, desync);
      var u := DelayQueue.Run(t, inputs[..n], crypto, desync);
      match inputs[n] {
        case Tcp(j) => TcpStepJudged(u, j, desync);
        case Udp(j) => UdpStepJudged(u, j, crypto, desync);
      }
    }
  }
}

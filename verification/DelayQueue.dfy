/**
  Packets that are held back until a message is reassembled: nfq2/packet_queue.c and the reassembly
  parts of nfq2/desync.c.
 */
module DelayQueue {
  import opened Blocks
  import opened Reassembly
  import opened Tls
  import opened Words

  // ---------------------------------------------------------------------------------------
  // A track
  // ---------------------------------------------------------------------------------------

  /** struct rawpacket: sn is the client's sequence number when it was queued. */
  datatype Delayed = Delayed(id: nat, payload: seq<byte>, tcp: bool, sn: uint32)

  datatype Verdict = Pass | Modify | Drop

  /** How a delayed packet left the queue: sent as it was, or replayed against the reassembled message. */
  datatype Departure =
    | Resent(packet: Delayed)
    | Replayed(packet: Delayed, piece: nat, count: nat, offset: nat, message: seq<byte>, verdict: Verdict)

  /** The reassembly, the queue, and the departures so far. */
  datatype Track = Track(reasm: Reasm, delayed: seq<Delayed>, left: seq<Departure>)

  /** What the user's scripts decide about a replayed packet: any function of what they see. */
  type Desync = (Delayed, nat, nat, nat) -> Verdict

  function ResentAll(q: seq<Delayed>): (d: seq<Departure>)
    ensures |d| == |q|
  {
    if q == [] then [] else [Resent(q[0])] + ResentAll(q[1..])
  }

  /** send_delayed */
  function SendDelayed(t: Track): Track {
    t.(delayed := [], left := t.left + ResentAll(t.delayed))
  }

  function Cleared(r: Reasm): Reasm {
    Reasm(0, [], r.next)
  }

  /** reasm_client_stop, as reasm_client_cancel and reasm_client_fin call it */
  function Stop(t: Track): Track {
    SendDelayed(if t.reasm.IsEmpty() then t else t.(reasm := Cleared(t.reasm)))
  }

  /** reasm_start */
  function Start(t: Track, sn: uint32, size: nat, max: nat, payload: seq<byte>): (bool, Track) {
    if size > max then (false, t.(reasm := Cleared(t.reasm)))
    else (true, t.(reasm := Feed(Reasm(size, [], sn), sn, payload).1))
  }

  /** reasm_feed */
  function FeedTrack(t: Track, sn: uint32, payload: seq<byte>): (bool, Track)
    requires t.reasm.Valid()
  {
    if t.reasm.IsEmpty() then (false, t)
    else
      var f := Feed(t.reasm, sn, payload);
      if f.0 then (true, t.(reasm := f.1)) else (false, SendDelayed(t.(reasm := Cleared(f.1))))
  }

  function Enqueue(t: Track, d: Delayed): Track {
    t.(delayed := t.delayed + [d])
  }

  /** The departures of replay_queue, from piece i of count on. */
  function Replay(q: seq<Delayed>, i: nat, count: nat, offset: nat, seq0: uint32, message: seq<byte>,
      desync: Desync): (d: seq<Departure>)
    ensures |d| == |q|
    decreases |q|
  {
    if q == [] then []
    else
      var p := q[0];
      var at := if p.tcp && i > 0 then Wrap(p.sn - seq0) else offset;
      [Replayed(p, i, count, at, message, desync(p, i, count, at))] +
      Replay(q[1..], i + 1, count, if p.tcp then at else at + |p.payload|, if p.tcp && i == 0 then p.sn else seq0,
        message, desync)
  }

  /** replay_queue */
  function ReplayQueue(t: Track, desync: Desync): Track {
    t.(delayed := [], left := t.left + Replay(t.delayed, 0, |t.delayed|, 0, 0, t.reasm.data, desync))
  }

  // ---------------------------------------------------------------------------------------
  // One TCP packet
  // ---------------------------------------------------------------------------------------

  const TCP_MAX_REASM := 16384
  const UDP_MAX_REASM := 16384

  /** A packet of the connection and everything else that decides what happens to it. */
  datatype TcpInput = TcpInput(
    packet: Delayed, profile: bool, bReverse: bool, syn: bool, protoTls: bool, payloadOff: bool, reasmOff: bool,
    retransmission: bool, window: Window, rediscovered: bool)

  /** The server's receive window, when a packet of the server has been seen. */
  datatype Window = NoWindow | Window(size: nat)

  predicate TooSmall(w: Window, size: nat) {
    w.Window? && w.size < size
  }

  /** Is the data that was gathered handled as a TLS ClientHello? While a reassembly runs, nothing is detected again. */
  predicate TakenForHello(t: Track, i: TcpInput, rdata: seq<byte>) {
    if t.reasm.IsEmpty() then !i.payloadOff && IsTLSClientHello(rdata, true) else i.protoTls
  }

  /** IsTLSRecordFull */
  predicate RecordFull(rdata: seq<byte>) {
    |rdata| >= 5 && RecordLen(rdata) <= |rdata|
  }

  /** Does the packet start a reassembly? */
  predicate StartsReasm(t: Track, i: TcpInput, rdata: seq<byte>) {
    !i.reasmOff && !RecordFull(rdata) && t.reasm.IsEmpty() && !i.retransmission
  }

  /** After the packet was queued: replay everything when the message is there. */
  function Delay(t: Track, d: Delayed, full: bool, desync: Desync): Track {
    var q := Enqueue(t, d);
    if full then Stop(ReplayQueue(q, desync)) else q
  }

  /** The packet goes on to the profile search, which may end with a cancelled reassembly. */
  function Rediscover(t: Track, i: TcpInput): Track {
    if i.rediscovered then t else Stop(t)
  }

  /** dpi_desync_tcp_packet_play, for a packet that is not being replayed */
  function TcpStep(t: Track, i: TcpInput, desync: Desync): Track
    requires t.reasm.Valid()
  {
    if !i.profile then t
    else if i.bReverse || i.syn || i.packet.payload == [] then Rediscover(t, i)
    else
      var f := FeedTrack(t, i.packet.sn, i.packet.payload);
      var rdata := if f.0 then f.1.reasm.data else i.packet.payload;
      if TakenForHello(f.1, i, rdata) then HelloStep(f.1, i, rdata, desync) else Rediscover(f.1, i)
  }

  /** What is done with a ClientHello, whole or not. */
  function HelloStep(t: Track, i: TcpInput, rdata: seq<byte>, desync: Desync): Track
    requires t.reasm.IsEmpty() ==> rdata == i.packet.payload && IsTLSClientHello(rdata, true)
  {
    if i.reasmOff then Rediscover(t, i)
    else if StartsReasm(t, i, rdata) then
      var size := RecordLen(i.packet.payload);
      if TooSmall(i.window, size) then Rediscover(t, i)
      else
        var s := Start(t, i.packet.sn, size, TCP_MAX_REASM, i.packet.payload);
        if s.0 then Delay(s.1, i.packet, s.1.reasm.IsFull(), desync) else Rediscover(s.1, i)
    else if !t.reasm.IsEmpty() then Delay(t, i.packet, t.reasm.IsFull(), desync)
    else Rediscover(t, i)
  }

  // ---------------------------------------------------------------------------------------
  // One UDP packet
  // ---------------------------------------------------------------------------------------

  /** What QUICDefragCrypto and the recognisers say about decrypted data. */
  datatype Crypto = NoCrypto | Holes | Covered(hello: bool, whole: bool)

  datatype Clean = NotQuic | NotDecrypted | Clean(data: seq<byte>)

  datatype UdpInput = UdpInput(packet: Delayed, profile: bool, bReverse: bool, clean: Clean, reasmOff: bool)

  /** dpi_desync_udp_packet_play, for a packet that is not being replayed */
  function UdpStep(t: Track, i: UdpInput, crypto: seq<byte> -> Crypto, desync: Desync): Track
    requires t.reasm.Valid()
  {
    if !i.profile then t
    else if i.packet.payload == [] || i.bReverse || !i.clean.Clean? then Stop(t)
    else if i.reasmOff || t.reasm.IsEmpty() then
      QuicStep(t, i.packet, i.clean.data, i.reasmOff, crypto(i.clean.data), desync)
    else if |t.reasm.data| + |i.clean.data| > t.reasm.size then Stop(t)
    else
      var f := FeedTrack(t, Wrap(|t.reasm.data|), i.clean.data).1;
      QuicStep(f, i.packet, i.clean.data, i.reasmOff, crypto(f.reasm.data), desync)
  }

  /** What is done with the CRYPTO data of a QUIC Initial packet. */
  function QuicStep(t: Track, d: Delayed, clean: seq<byte>, reasmOff: bool, c: Crypto, desync: Desync): Track {
    if reasmOff || c.NoCrypto? || (c.Covered? && t.reasm.IsEmpty() && (!c.hello || c.whole)) then Stop(t)
    else if t.reasm.IsEmpty() then
      Delay(Start(t, 0, UDP_MAX_REASM, UDP_MAX_REASM, clean).1, d, false, desync)
    else Delay(t, d, c.Covered? && c.hello && c.whole, desync)
  }

  // ---------------------------------------------------------------------------------------
  // Nothing is lost, doubled or overtaken
  // ---------------------------------------------------------------------------------------

  function Packets(d: seq<Departure>): (p: seq<Delayed>)
    ensures |p| == |d|
  {
    seq(|d|, i requires 0 <= i < |d| => d[i].packet)
  }

  /** Everything that was ever queued, in the order of arrival: what has left, and then what still waits. */
  function Arrived(t: Track): seq<Delayed> {
    Packets(t.left) + t.delayed
  }

  lemma {:induction false} PacketsOfSum(a: seq<Departure>, b: seq<Departure>)
    ensures Packets(a + b) == Packets(a) + Packets(b)
  {
  }

  lemma {:induction false} PacketsOfResent(q: seq<Delayed>)
    ensures Packets(ResentAll(q)) == q
  {
    if q != [] {
      PacketsOfResent(q[1..]);
      PacketsOfFirst(Resent(q[0]), ResentAll(q[1..]));
    }
  }

  lemma {:induction false} PacketsOfFirst(d: Departure, rest: seq<Departure>)
    ensures Packets([d] + rest) == [d.packet] + Packets(rest)
  {
  }

  /** The first round of a replay. */
  lemma {:induction false} ReplayFirst(q: seq<Delayed>, i: nat, count: nat, offset: nat, seq0: uint32,
      message: seq<byte>, desync: Desync) returns (first: Departure, next: nat, seq1: uint32)
    requires q != []
    ensures Replay(q, i, count, offset, seq0, message, desync) ==
      [first] + Replay(q[1..], i + 1, count, next, seq1, message, desync)
    ensures first.Replayed? && first.packet == q[0] && first.piece == i && first.count == count
      && first.message == message && first.verdict == desync(q[0], i, count, first.offset)
    ensures !q[0].tcp ==> first.offset == offset && next == offset + |q[0].payload| && seq1 == seq0
    ensures q[0].tcp ==> first.offset == if i > 0 then Wrap(q[0].sn - seq0) else offset
    ensures q[0].tcp ==> seq1 == if i == 0 then q[0].sn else seq0
  {
    var p := q[0];
    var at := if p.tcp && i > 0 then Wrap(p.sn - seq0) else offset;
    first := Replayed(p, i, count, at, message, desync(p, i, count, at));
    next, seq1 := if p.tcp then at else at + |p.payload|, if p.tcp && i == 0 then p.sn else seq0;
  }

  lemma {:induction false} PacketsOfReplay(q: seq<Delayed>, i: nat, count: nat, offset: nat, seq0: uint32,
      message: seq<byte>, desync: Desync)
    ensures Packets(Replay(q, i, count, offset, seq0, message, desync)) == q
    decreases |q|
  {
    if q != [] {
      var first, next, seq1 := ReplayFirst(q, i, count, offset, seq0, message, desync);
      PacketsOfReplay(q[1..], i + 1, count, next, seq1, message, desync);
      PacketsOfFirst(first, Replay(q[1..], i + 1, count, next, seq1, message, desync));
    }
  }

  /** A track in order: packets wait exactly while a reassembly runs. */
  predicate Sound(t: Track) {
    t.reasm.Valid() && (t.delayed != [] <==> !t.reasm.IsEmpty())
  }

  /** u is later than t, and what arrived in between is d. */
  predicate Goes(t: Track, u: Track, d: seq<Delayed>) {
    Sound(u) && t.left <= u.left && Arrived(u) == Arrived(t) + d
  }

  lemma {:induction false} StopGoes(t: Track)
    requires t.reasm.Valid()
    ensures Goes(t, Stop(t), []) && Stop(t).delayed == [] && Stop(t).reasm.IsEmpty()
  {
    PacketsOfSum(t.left, ResentAll(t.delayed));
    PacketsOfResent(t.delayed);
  }

  lemma {:induction false} ReplayGoes(t: Track, desync: Desync)
    ensures ReplayQueue(t, desync).delayed == [] && t.left <= ReplayQueue(t, desync).left
      && Arrived(ReplayQueue(t, desync)) == Arrived(t)
  {
    var d := Replay(t.delayed, 0, |t.delayed|, 0, 0, t.reasm.data, desync);
    PacketsOfSum(t.left, d);
    PacketsOfReplay(t.delayed, 0, |t.delayed|, 0, 0, t.reasm.data, desync);
  }

  lemma {:induction false} DelayGoes(t: Track, d: Delayed, full: bool, desync: Desync)
    requires t.reasm.Valid() && !t.reasm.IsEmpty()
    ensures Goes(t, Delay(t, d, full, desync), [d])
  {
    var q := Enqueue(t, d);
    assert Arrived(q) == Arrived(t) + [d];
    if full {
      ReplayGoes(q, desync);
      StopGoes(ReplayQueue(q, desync));
    }
  }

  lemma {:induction false} FeedTrackGoes(t: Track, sn: uint32, payload: seq<byte>)
    requires Sound(t)
    ensures Goes(t, FeedTrack(t, sn, payload).1, [])
      && (FeedTrack(t, sn, payload).0 ==> !FeedTrack(t, sn, payload).1.reasm.IsEmpty())
    ensures FeedTrack(t, sn, payload).0 || FeedTrack(t, sn, payload).1.delayed == []
  {
    if !t.reasm.IsEmpty() {
      var f := Feed(t.reasm, sn, payload);
      if !f.0 {
        PacketsOfSum(t.left, ResentAll(t.delayed));
        PacketsOfResent(t.delayed);
      }
    }
  }

  /** A TCP packet is queued or goes on at once; in either case nothing else changes places. */
  lemma {:induction false} TcpStepGoes(t: Track, i: TcpInput, desync: Desync)
    requires Sound(t)
    ensures Goes(t, TcpStep(t, i, desync), []) || Goes(t, TcpStep(t, i, desync), [i.packet])
  {
    if i.profile && !i.bReverse && !i.syn && i.packet.payload != [] {
      var f := FeedTrack(t, i.packet.sn, i.packet.payload);
      FeedTrackGoes(t, i.packet.sn, i.packet.payload);
      var rdata := if f.0 then f.1.reasm.data else i.packet.payload;
      if TakenForHello(f.1, i, rdata) {
        HelloStepGoes(f.1, i, rdata, desync);
      } else {
        StopGoes(f.1);
      }
    } else {
      StopGoes(t);
    }
  }

  lemma {:induction false} HelloStepGoes(t: Track, i: TcpInput, rdata: seq<byte>, desync: Desync)
    requires Sound(t) && (t.reasm.IsEmpty() ==> rdata == i.packet.payload && IsTLSClientHello(rdata, true))
    ensures Goes(t, HelloStep(t, i, rdata, desync), []) || Goes(t, HelloStep(t, i, rdata, desync), [i.packet])
  {
    StopGoes(t);
    if !i.reasmOff && StartsReasm(t, i, rdata) {
      var s := Start(t, i.packet.sn, RecordLen(i.packet.payload), TCP_MAX_REASM, i.packet.payload);
      if s.0 {
        DelayGoes(s.1, i.packet, s.1.reasm.IsFull(), desync);
      } else {
        StopGoes(s.1);
      }
    } else if !t.reasm.IsEmpty() {
      DelayGoes(t, i.packet, t.reasm.IsFull(), desync);
    }
  }

  lemma {:induction false} UdpStepGoes(t: Track, i: UdpInput, crypto: seq<byte> -> Crypto, desync: Desync)
    requires Sound(t)
    ensures Goes(t, UdpStep(t, i, crypto, desync), []) || Goes(t, UdpStep(t, i, crypto, desync), [i.packet])
  {
    StopGoes(t);
    if i.profile && i.packet.payload != [] && !i.bReverse && i.clean.Clean? {
      if i.reasmOff || t.reasm.IsEmpty() {
        QuicStepGoes(t, i.packet, i.clean.data, i.reasmOff, crypto(i.clean.data), desync);
      } else {
        var f := FeedTrack(t, Wrap(|t.reasm.data|), i.clean.data).1;
        FeedTrackGoes(t, Wrap(|t.reasm.data|), i.clean.data);
        QuicStepGoes(f, i.packet, i.clean.data, i.reasmOff, crypto(f.reasm.data), desync);
      }
    }
  }

  lemma {:induction false} QuicStepGoes(t: Track, d: Delayed, clean: seq<byte>, reasmOff: bool, c: Crypto,
      desync: Desync)
    requires Sound(t)
    ensures Goes(t, QuicStep(t, d, clean, reasmOff, c, desync), [])
      || Goes(t, QuicStep(t, d, clean, reasmOff, c, desync), [d])
  {
    StopGoes(t);
    if t.reasm.IsEmpty() {
      DelayGoes(Start(t, 0, UDP_MAX_REASM, UDP_MAX_REASM, clean).1, d, false, desync);
    } else {
      DelayGoes(t, d, c.Covered? && c.hello && c.whole, desync);
    }
  }

  // ---------------------------------------------------------------------------------------
  // Runs
  // ---------------------------------------------------------------------------------------

  datatype Input = Tcp(tcp: TcpInput) | Udp(udp: UdpInput)

  function Step(t: Track, i: Input, crypto: seq<byte> -> Crypto, desync: Desync): Track
    requires t.reasm.Valid()
  {
    match i
    case Tcp(j) => TcpStep(t, j, desync)
    case Udp(j) => UdpStep(t, j, crypto, desync)
  }

  function PacketOf(i: Input): Delayed {
    match i
    case Tcp(j) => j.packet
    case Udp(j) => j.packet
  }

  lemma {:induction false} StepGoes(t: Track, i: Input, crypto: seq<byte> -> Crypto, desync: Desync)
    requires Sound(t)
    ensures Goes(t, Step(t, i, crypto, desync), []) || Goes(t, Step(t, i, crypto, desync), [PacketOf(i)])
  {
    match i {
      case Tcp(j) => TcpStepGoes(t, j, desync);
      case Udp(j) => UdpStepGoes(t, j, crypto, desync);
    }
  }

  /** A run: packets one after the other, as long as the track is not started again or removed. */
  function Run(t: Track, inputs: seq<Input>, crypto: seq<byte> -> Crypto, desync: Desync): (u: Track)
    requires Sound(t)
    ensures Sound(u)
    decreases |inputs|
  {
    if inputs == [] then t
    else
      var n := |inputs| - 1;
      var u := Run(t, inputs[..n], crypto, desync);
      StepGoes(u, inputs[n], crypto, desync);
      Step(u, inputs[n], crypto, desync)
  }

  ghost predicate Increasing(ix: seq<nat>, n: nat) {
    (forall k :: 0 <= k < |ix| ==> ix[k] < n) && forall k, l :: 0 <= k < l < |ix| ==> ix[k] < ix[l]
  }

  ghost function Chosen(inputs: seq<Input>, ix: seq<nat>): seq<Delayed>
    requires Increasing(ix, |inputs|)
  {
    seq(|ix|, k requires 0 <= k < |ix| => PacketOf(inputs[ix[k]]))
  }

  /**
    Over any run, the packets that left the queue, followed by those that wait in it, are
    exactly those that were ever queued, each once and in the order in which they came; and
    packets wait exactly while a reassembly runs.
   */
  lemma {:induction false} RunKeepsOrder(t: Track, inputs: seq<Input>, crypto: seq<byte> -> Crypto, desync: Desync)
    returns (ix: seq<nat>)
    requires Sound(t)
    ensures Increasing(ix, |inputs|) && Goes(t, Run(t, inputs, crypto, desync), Chosen(inputs, ix))
    decreases |inputs|
  {
    if inputs == [] {
      ix := [];
      assert Chosen(inputs, ix) == [];
    } else {
      var n := |inputs| - 1;
      var u := Run(t, inputs[..n], crypto, desync);
      ix := RunKeepsOrder(t, inputs[..n], crypto, desync);
      StepGoes(u, inputs[n], crypto, desync);
      var v := Step(u, inputs[n], crypto, desync);
      assert Chosen(inputs, ix) == Chosen(inputs[..n], ix);
      if Goes(u, v, []) {
        GoesOn(t, u, v, Chosen(inputs, ix), []);
        assert Chosen(inputs, ix) + [] == Chosen(inputs, ix);
      } else {
        GoesOn(t, u, v, Chosen(inputs, ix), [PacketOf(inputs[n])]);
        ix := ix + [n];
        assert Chosen(inputs, ix) == Chosen(inputs[..n], ix[..|ix| - 1]) + [PacketOf(inputs[n])];
      }
    }
  }

  lemma {:induction false} GoesOn(t: Track, u: Track, v: Track, d: seq<Delayed>, e: seq<Delayed>)
    requires Goes(t, u, d) && Goes(u, v, e)
    ensures Goes(t, v, d + e)
  {
    assert Arrived(t) + d + e == Arrived(t) + (d + e);
  }

  // ---------------------------------------------------------------------------------------
  // The pieces of a replay
  // ---------------------------------------------------------------------------------------

  /** The payload bytes of the first n packets. */
  function PayloadBefore(q: seq<Delayed>, n: nat): nat
    requires n <= |q|
  {
    if n == 0 then 0 else PayloadBefore(q, n - 1) + |q[n - 1].payload|
  }

  predicate AllUdp(q: seq<Delayed>) {
    forall k :: 0 <= k < |q| ==> !q[k].tcp
  }

  predicate AllTcp(q: seq<Delayed>) {
    forall k :: 0 <= k < |q| ==> q[k].tcp
  }

  /** The departure is piece k of the packets q, replayed against the message, and the verdict is that on this piece. */
  predicate IsPiece(d: Departure, q: seq<Delayed>, k: nat, message: seq<byte>, desync: Desync)
    requires k < |q|
  {
    && d.Replayed? && d.packet == q[k] && d.piece == k && d.count == |q| && d.message == message
    && d.verdict == desync(q[k], k, |q|, d.offset)
    && (AllTcp(q) ==> d.offset == Wrap(q[k].sn - q[0].sn))
    && (AllUdp(q) ==> d.offset == PayloadBefore(q, k))
  }

  /** What the loop of replay_queue has in its variables at piece i. */
  predicate Replaying(q: seq<Delayed>, i: nat, offset: nat, seq0: uint32)
    requires i <= |q|
  {
    && (AllTcp(q) && i > 0 ==> seq0 == q[0].sn) && (AllTcp(q) && i == 0 ==> offset == 0)
    && (AllUdp(q) ==> offset == PayloadBefore(q, i))
  }

  /** Piece i, when it is the next one, and the state after it. */
  lemma {:induction false} NextPiece(q: seq<Delayed>, i: nat, offset: nat, seq0: uint32, first: Departure, next: nat,
      seq1: uint32, message: seq<byte>, desync: Desync)
    requires i < |q| && Replaying(q, i, offset, seq0)
    requires first.Replayed? && first.packet == q[i] && first.piece == i && first.count == |q|
      && first.message == message
      && first.verdict == desync(q[i], i, |q|, first.offset)
    requires !q[i].tcp ==> first.offset == offset && next == offset + |q[i].payload| && seq1 == seq0
    requires q[i].tcp ==> first.offset == if i > 0 then Wrap(q[i].sn - seq0) else offset
    requires q[i].tcp ==> seq1 == if i == 0 then q[i].sn else seq0
    ensures IsPiece(first, q, i, message, desync) && Replaying(q, i + 1, next, seq1)
  {
    WrapSmall(0);
  }

  lemma {:induction false} ReplayPieces(q: seq<Delayed>, rest: seq<Delayed>, i: nat, offset: nat, seq0: uint32,
      message: seq<byte>, desync: Desync, k: nat, r: seq<Departure>)
    requires i <= k < |q| && rest == q[i..] && Replaying(q, i, offset, seq0)
    requires r == Replay(rest, i, |q|, offset, seq0, message, desync)
    ensures IsPiece(r[k - i], q, k, message, desync)
    decreases |rest|
  {
    var tail := rest[1..];
    assert rest[0] == q[i] && tail == q[i + 1..];
    var first, next, seq1 := ReplayFirst(rest, i, |q|, offset, seq0, message, desync);
    NextPiece(q, i, offset, seq0, first, next, seq1, message, desync);
    if k > i {
      var r1 := Replay(tail, i + 1, |q|, next, seq1, message, desync);
      assert r[k - i] == r1[k - (i + 1)];
      ReplayPieces(q, tail, i + 1, next, seq1, message, desync, k, r1);
    }
  }

  // ---------------------------------------------------------------------------------------
  // Replayed pieces are where they belong
  // ---------------------------------------------------------------------------------------

  /**
    The packet carries a piece of the stream, which lies at off in the message that starts at
    sequence number start.
   */
  ghost predicate PieceAt(d: Delayed, off: int, r: Reasm, start: uint32, stream: Stream) {
    && d.tcp && d.sn == Wrap(start + off) && Segment(off, d.payload).Of(stream)
    && -REASM_MAX_NEG <= off && off + |d.payload| <= |r.data|
  }

  ghost predicate Piece(d: Delayed, r: Reasm, start: uint32, stream: Stream) {
    exists off :: PieceAt(d, off, r, start, stream)
  }

  /** The client's stream seen from position p0 on. */
  function Shift(stream: Stream, p0: int): Stream {
    i => stream(p0 + i)
  }

  /** The bytes that tell a ClientHello. */
  const INTRO := 11

  function Intro(stream: Stream): (d: seq<byte>)
    ensures |d| == INTRO && forall k :: 0 <= k < INTRO ==> d[k] == stream(k)
  {
    seq(INTRO, k requires 0 <= k < INTRO => stream(k))
  }

  /** The stream starts with a record of that size, which starts with a ClientHello. */
  ghost predicate StartsHello(stream: Stream, size: nat) {
    size >= INTRO && IsTLSClientHello(Intro(stream), true) && RecordLen(Intro(stream)) == size
  }

  /** What tells a ClientHello is in its first bytes. */
  lemma {:induction false} IntroTells(d: seq<byte>, e: seq<byte>)
    requires |d| == INTRO <= |e| && d == e[0..INTRO]
    ensures RecordLen(d) == RecordLen(e) && (IsTLSClientHello(d, true) <==> IsTLSClientHello(e, true))
  {
    UintOfSlice(e, 0, INTRO, 3, 2);
  }

  /** The message is the client's stream from p0 on: one whole record, with a ClientHello at its start. */
  ghost predicate RecordAt(message: seq<byte>, stream: Stream, p0: int) {
    && IsTLSClientHello(message, true) && RecordLen(message) == |message|
    && forall k :: 0 <= k < |message| ==> message[k] == stream(p0 + k)
  }

  lemma {:induction false} FullIsRecord(r: Reasm, start: uint32, stream: Stream, p0: int)
    requires Follows(r, start, Shift(stream, p0)) && r.IsFull() && StartsHello(Shift(stream, p0), r.size)
    ensures RecordAt(r.data, stream, p0)
  {
    assert r.data[0..INTRO] == Intro(Shift(stream, p0));
    IntroTells(Intro(Shift(stream, p0)), r.data);
  }

  /**
    While a reassembly runs, its buffer follows the stream, the size asked for is that of the
    stream's first record, and every waiting packet is a piece of what is there; the first one is
    where the message starts.
   */
  ghost predicate Aligned(t: Track, start: uint32, stream: Stream) {
    && Follows(t.reasm, start, stream) && t.reasm.size < 0x8000_0000 && StartsHello(stream, t.reasm.size)
    && (forall k :: 0 <= k < |t.delayed| ==> Piece(t.delayed[k], t.reasm, start, stream))
    && (t.delayed != [] ==> t.delayed[0].sn == start)
  }

  /** A replayed TCP piece that does not start before the first one has its payload at its offset in the message. */
  ghost predicate AtOffset(d: Departure) {
    d.Replayed? && d.packet.tcp && d.offset < 0x8000_0000 ==>
      d.offset + |d.packet.payload| <= |d.message|
        && d.message[d.offset..d.offset + |d.packet.payload|] == d.packet.payload
  }

  /** So it does, and the message is a record of the client's stream. */
  ghost predicate InPlace(d: Departure, stream: Stream) {
    AtOffset(d) && (d.Replayed? && d.packet.tcp ==> exists p0 :: RecordAt(d.message, stream, p0))
  }

  ghost predicate AllInPlace(d: seq<Departure>, stream: Stream) {
    forall k :: 0 <= k < |d| ==> InPlace(d[k], stream)
  }

  /** The distance of two sequence numbers, as long as it is no wrapped negative one. */
  lemma {:induction false} OffsetOf(start: uint32, off: int, at: nat)
    requires -REASM_MAX_NEG <= off < 0x8000_0000 && at == Wrap(Wrap(start + off) - start)
    ensures at < 0x8000_0000 ==> at == off
  {
    WrapSmall(start);
    WrapSub(start + off, start);
    WrapSmall(off);
  }

  lemma {:induction false} PieceInPlace(d: Delayed, r: Reasm, start: uint32, stream: Stream, i: nat, count: nat,
      v: Verdict, at: nat)
    requires Piece(d, r, start, stream) && Follows(r, start, stream) && r.size < 0x8000_0000 && at == Wrap(d.sn - start)
    ensures AtOffset(Replayed(d, i, count, at, r.data, v))
  {
    var off :| PieceAt(d, off, r, start, stream);
    OffsetOf(start, off, at);
    if at < 0x8000_0000 {
      forall k | 0 <= k < |d.payload|
        ensures r.data[at + k] == d.payload[k]
      {
        assert d.payload[k] == stream(off + k);
      }
    }
  }

  /** Every piece of a replay is in place, the first one being where the message starts. */
  lemma {:induction false} ReplayInPlace(q: seq<Delayed>, r: Reasm, start: uint32, stream: Stream, p0: int,
      desync: Desync, d: seq<Departure>)
    requires Follows(r, start, Shift(stream, p0)) && r.size < 0x8000_0000 && RecordAt(r.data, stream, p0)
    requires forall k :: 0 <= k < |q| ==> Piece(q[k], r, start, Shift(stream, p0))
    requires (q != [] ==> q[0].sn == start) && d == Replay(q, 0, |q|, 0, 0, r.data, desync)
    ensures AllInPlace(d, stream)
  {
    assert q[0..] == q;
    forall k | 0 <= k < |q|
      ensures q[k].tcp
    {
      assert Piece(q[k], r, start, Shift(stream, p0));
    }
    forall k | 0 <= k < |d|
      ensures InPlace(d[k], stream)
    {
      ReplayPieces(q, q, 0, 0, 0, r.data, desync, k, d);
      PieceInPlace(q[k], r, start, Shift(stream, p0), k, |q|, d[k].verdict, d[k].offset);
    }
  }

  /** A piece stays a piece while the message grows. */
  lemma {:induction false} PieceStays(d: Delayed, r: Reasm, r': Reasm, start: uint32, stream: Stream)
    requires Piece(d, r, start, stream) && |r.data| <= |r'.data|
    ensures Piece(d, r', start, stream)
  {
    var off :| PieceAt(d, off, r, start, stream);
    assert PieceAt(d, off, r', start, stream);
  }

  lemma {:induction false} ResentInPlace(q: seq<Delayed>, stream: Stream)
    ensures AllInPlace(ResentAll(q), stream)
  {
    if q != [] {
      ResentInPlace(q[1..], stream);
    }
  }

  /**
    A track whose reassembly, if one runs, started at position p0 of the client's stream; position
    0 has sequence number base.
   */
  ghost predicate AlignedAt(t: Track, base: uint32, stream: Stream, p0: int) {
    && t.reasm.Valid() && AllInPlace(t.left, stream)
    && (!t.reasm.IsEmpty() ==> Aligned(t, Wrap(base + p0), Shift(stream, p0)))
  }

  /** A client packet that carries the stream's bytes from pos on, near the end of what is being reassembled. */
  ghost predicate Carries(t: Track, d: Delayed, pos: int, base: uint32, stream: Stream, p0: int) {
    && d.tcp && d.sn == Wrap(base + pos) && Segment(pos, d.payload).Of(stream)
    && (!t.reasm.IsEmpty() ==> Near(Segment(pos - p0, d.payload), |t.reasm.data|))
  }

  lemma {:induction false} StopAligned(t: Track, base: uint32, stream: Stream, p0: int)
    requires t.reasm.Valid() && AllInPlace(t.left, stream)
    ensures AlignedAt(Stop(t), base, stream, p0)
  {
    ResentInPlace(t.delayed, stream);
  }

  lemma {:induction false} ShiftedPiece(d: Delayed, pos: int, base: uint32, stream: Stream, p0: int)
    requires d.sn == Wrap(base + pos) && Segment(pos, d.payload).Of(stream)
    ensures d.sn == Wrap(Wrap(base + p0) + (pos - p0)) && Segment(pos - p0, d.payload).Of(Shift(stream, p0))
  {
    WrapSub(base + p0, pos - p0);
    forall k | 0 <= k < |d.payload|
      ensures d.payload[k] == Shift(stream, p0)(pos - p0 + k)
    {
      assert d.payload[k] == stream(pos + k);
    }
  }

  /** A packet that was taken by the reassembly joins the pieces. */
  lemma {:induction false} DelayAligned(t: Track, d: Delayed, full: bool, desync: Desync, base: uint32, stream: Stream,
      p0: int)
    requires AlignedAt(t, base, stream, p0) && !t.reasm.IsEmpty()
      && Piece(d, t.reasm, Wrap(base + p0), Shift(stream, p0))
    requires t.delayed == [] ==> d.sn == Wrap(base + p0)
    requires full ==> t.reasm.IsFull()
    ensures AlignedAt(Delay(t, d, full, desync), base, stream, p0)
  {
    var q, start, sh := Enqueue(t, d), Wrap(base + p0), Shift(stream, p0);
    forall k | 0 <= k < |q.delayed|
      ensures Piece(q.delayed[k], q.reasm, start, sh)
    {
      if k < |t.delayed| {
        assert Piece(t.delayed[k], t.reasm, start, sh);
      }
    }
    assert Aligned(q, start, sh);
    if full {
      FullIsRecord(q.reasm, start, stream, p0);
      ReplayInPlace(q.delayed, q.reasm, start, stream, p0, desync,
        Replay(q.delayed, 0, |q.delayed|, 0, 0, q.reasm.data, desync));
      StopAligned(ReplayQueue(q, desync), base, stream, p0);
    }
  }

  /** The message may grow, as long as it follows the stream. */
  lemma {:induction false} AlignedGrows(t: Track, r: Reasm, start: uint32, stream: Stream)
    requires Aligned(t, start, stream) && Follows(r, start, stream)
    requires r.size == t.reasm.size && |t.reasm.data| <= |r.data|
    ensures Aligned(t.(reasm := r), start, stream)
  {
    forall k | 0 <= k < |t.delayed|
      ensures Piece(t.delayed[k], r, start, stream)
    {
      PieceStays(t.delayed[k], t.reasm, r, start, stream);
    }
  }

  /** A segment that is taken is a piece of what is there then. */
  lemma {:induction false} TakenPiece(r0: Reasm, r: Reasm, d: Delayed, off: int, start: uint32, stream: Stream)
    requires Follows(r0, start, stream) && d.tcp && d.sn == Wrap(start + off) && Segment(off, d.payload).Of(stream)
      && Near(Segment(off, d.payload), |r0.data|)
    requires Feed(r0, d.sn, d.payload) == (true, r)
    ensures Follows(r, start, stream) && r.size == r0.size && |r0.data| <= |r.data| && Piece(d, r, start, stream)
  {
    FeedSegment(r0, start, stream, Segment(off, d.payload));
    assert PieceAt(d, off, r, start, stream);
  }

  lemma {:induction false} FeedTaken(t: Track, d: Delayed, pos: int, base: uint32, stream: Stream, p0: int, r: Reasm)
    requires AlignedAt(t, base, stream, p0) && Carries(t, d, pos, base, stream, p0) && !t.reasm.IsEmpty()
    requires Feed(t.reasm, d.sn, d.payload) == (true, r)
    ensures AlignedAt(t.(reasm := r), base, stream, p0) && !r.IsEmpty()
      && Piece(d, r, Wrap(base + p0), Shift(stream, p0))
  {
    var start, sh := Wrap(base + p0), Shift(stream, p0);
    ShiftedPiece(d, pos, base, stream, p0);
    TakenPiece(t.reasm, r, d, pos - p0, start, sh);
    AlignedGrows(t, r, start, sh);
  }

  lemma {:induction false} FeedRefused(t: Track, r: Reasm, base: uint32, stream: Stream, p0: int)
    requires AllInPlace(t.left, stream)
    ensures AlignedAt(SendDelayed(t.(reasm := Cleared(r))), base, stream, p0)
  {
    ResentInPlace(t.delayed, stream);
  }

  lemma {:induction false} FeedAligned(t: Track, d: Delayed, pos: int, base: uint32, stream: Stream, p0: int)
    requires AlignedAt(t, base, stream, p0) && Carries(t, d, pos, base, stream, p0)
    ensures
      var f := FeedTrack(t, d.sn, d.payload);
      && AlignedAt(f.1, base, stream, p0)
      && (f.0 ==> !f.1.reasm.IsEmpty() && f.1.delayed == t.delayed)
      && (f.0 ==> Piece(d, f.1.reasm, Wrap(base + p0), Shift(stream, p0)))
      && (!f.0 ==> f.1.reasm.IsEmpty() && (t.reasm.IsEmpty() || f.1.delayed == []))
  {
    if !t.reasm.IsEmpty() {
      var f := Feed(t.reasm, d.sn, d.payload);
      if f.0 {
        FeedTaken(t, d, pos, base, stream, p0, f.1);
      } else {
        FeedRefused(t, f.1, base, stream, p0);
      }
    }
  }

  /** A payload that starts with a ClientHello shows where the stream's record ends. */
  lemma {:induction false} PayloadStartsHello(payload: seq<byte>, stream: Stream, pos: int)
    requires Segment(pos, payload).Of(stream) && IsTLSClientHello(payload, true) && |payload| <= RecordLen(payload)
    ensures StartsHello(Shift(stream, pos), RecordLen(payload))
  {
    assert payload[0..INTRO] == Intro(Shift(stream, pos));
    IntroTells(Intro(Shift(stream, pos)), payload);
  }

  /** A packet that starts a reassembly is its first piece. */
  lemma {:induction false} StartAligned(t: Track, d: Delayed, size: nat, pos: int, base: uint32, stream: Stream)
    requires AlignedAt(t, base, stream, pos) && Sound(t) && t.reasm.IsEmpty() && d.tcp && d.sn == Wrap(base + pos)
      && Segment(pos, d.payload).Of(stream)
    requires IsTLSClientHello(d.payload, true) && |d.payload| <= size == RecordLen(d.payload) <= TCP_MAX_REASM
    ensures
      var s := Start(t, d.sn, size, TCP_MAX_REASM, d.payload);
      && s.0 && AlignedAt(s.1, base, stream, pos) && !s.1.reasm.IsEmpty()
        && Piece(d, s.1.reasm, Wrap(base + pos), Shift(stream, pos))
      && s.1.delayed == []
  {
    var r := Reasm(size, [], d.sn);
    WrapSmall(d.sn);
    ShiftedPiece(d, pos, base, stream, pos);
    FeedSegment(r, d.sn, Shift(stream, pos), Segment(0, d.payload));
    assert PieceAt(d, 0, Feed(r, d.sn, d.payload).1, d.sn, Shift(stream, pos));
    PayloadStartsHello(d.payload, stream, pos);
  }

  /** The position at which the reassembly started, after a packet at pos. */
  function Anchor(t: Track, i: TcpInput, pos: int, p0: int): int
    requires t.reasm.Valid()
  {
    if i.profile && !i.bReverse && !i.syn && i.packet.payload != []
      && FeedTrack(t, i.packet.sn, i.packet.payload).1.reasm.IsEmpty() then pos else p0
  }

  /** A reassembly that is refused leaves nothing to be aligned. */
  lemma {:induction false} RefusedAligned(t: Track, i: TcpInput, size: nat, base: uint32, stream: Stream, p0: int)
    requires AlignedAt(t, base, stream, p0) && size > TCP_MAX_REASM && t.reasm.IsEmpty()
    ensures AlignedAt(Rediscover(Start(t, i.packet.sn, size, TCP_MAX_REASM, i.packet.payload).1, i), base, stream, p0)
  {
    StopAligned(Start(t, i.packet.sn, size, TCP_MAX_REASM, i.packet.payload).1, base, stream, p0);
  }

  /** A reassembly that starts, and its first piece in the queue. */
  lemma {:induction false} TakenAligned(t: Track, d: Delayed, size: nat, desync: Desync, pos: int, base: uint32,
      stream: Stream, s: Track)
    requires AlignedAt(t, base, stream, pos) && Sound(t) && t.reasm.IsEmpty() && d.tcp && d.sn == Wrap(base + pos)
      && Segment(pos, d.payload).Of(stream)
    requires IsTLSClientHello(d.payload, true) && |d.payload| <= size == RecordLen(d.payload) <= TCP_MAX_REASM
    requires s == Start(t, d.sn, size, TCP_MAX_REASM, d.payload).1
    ensures AlignedAt(Delay(s, d, s.reasm.IsFull(), desync), base, stream, pos)
  {
    StartAligned(t, d, size, pos, base, stream);
    DelayAligned(s, d, s.reasm.IsFull(), desync, base, stream, pos);
  }

  /** A ClientHello while nothing is being reassembled. */
  lemma {:induction false} FreshAligned(t: Track, i: TcpInput, rdata: seq<byte>, desync: Desync, pos: int,
      base: uint32, stream: Stream)
    requires AlignedAt(t, base, stream, pos) && Sound(t) && t.reasm.IsEmpty() && rdata == i.packet.payload
      && IsTLSClientHello(rdata, true)
    requires i.packet.tcp && i.packet.sn == Wrap(base + pos) && Segment(pos, i.packet.payload).Of(stream)
    ensures AlignedAt(HelloStep(t, i, rdata, desync), base, stream, pos)
  {
    StopAligned(t, base, stream, pos);
    if !i.reasmOff && StartsReasm(t, i, rdata) {
      var size := RecordLen(i.packet.payload);
      if size > TCP_MAX_REASM {
        RefusedAligned(t, i, size, base, stream, pos);
      } else {
        TakenAligned(t, i.packet, size, desync, pos, base, stream,
          Start(t, i.packet.sn, size, TCP_MAX_REASM, i.packet.payload).1);
      }
    }
  }

  /** A ClientHello while a reassembly runs. */
  lemma {:induction false} RunningAligned(t: Track, i: TcpInput, rdata: seq<byte>, desync: Desync, base: uint32,
      stream: Stream, p0: int)
    requires AlignedAt(t, base, stream, p0) && Sound(t) && !t.reasm.IsEmpty()
      && Piece(i.packet, t.reasm, Wrap(base + p0), Shift(stream, p0))
    ensures AlignedAt(HelloStep(t, i, rdata, desync), base, stream, p0)
  {
    StopAligned(t, base, stream, p0);
    DelayAligned(t, i.packet, t.reasm.IsFull(), desync, base, stream, p0);
  }

  /** One TCP packet: whatever it is, the pieces stay aligned, and what is replayed is in place. */
  lemma {:induction false} TcpStepAligned(t: Track, i: TcpInput, desync: Desync, pos: int, base: uint32,
      stream: Stream, p0: int)
    requires Sound(t) && AlignedAt(t, base, stream, p0)
    requires !i.bReverse && !i.syn ==> Carries(t, i.packet, pos, base, stream, p0)
    ensures AlignedAt(TcpStep(t, i, desync), base, stream, Anchor(t, i, pos, p0))
  {
    StopAligned(t, base, stream, p0);
    if i.profile && !i.bReverse && !i.syn && i.packet.payload != [] {
      var f := FeedTrack(t, i.packet.sn, i.packet.payload);
      var rdata := if f.0 then f.1.reasm.data else i.packet.payload;
      FeedAligned(t, i.packet, pos, base, stream, p0);
      FeedTrackGoes(t, i.packet.sn, i.packet.payload);
      var p1 := Anchor(t, i, pos, p0);
      StopAligned(f.1, base, stream, p1);
      if TakenForHello(f.1, i, rdata) {
        if f.1.reasm.IsEmpty() {
          FreshAligned(f.1, i, rdata, desync, pos, base, stream);
        } else {
          RunningAligned(f.1, i, rdata, desync, base, stream, p0);
        }
      }
    }
  }

  /** A TCP packet with its true position in the client's stream. */
  datatype Event = Event(input: TcpInput, pos: int)

  function TcpRun(t: Track, events: seq<Event>, desync: Desync): Track
    requires Sound(t)
    decreases |events|
  {
    if events == [] then t
    else
      TcpStepGoes(t, events[0].input, desync);
      TcpRun(TcpStep(t, events[0].input, desync), events[1..], desync)
  }

  /** Every client packet carries its part of one stream, near the end of what is being reassembled when it comes. */
  ghost predicate Honest(t: Track, events: seq<Event>, desync: Desync, base: uint32, stream: Stream, p0: int)
    requires Sound(t)
    decreases |events|
  {
    events != [] ==>
      var i, pos := events[0].input, events[0].pos;
      TcpStepGoes(t, i, desync);
      && (!i.bReverse && !i.syn ==> Carries(t, i.packet, pos, base, stream, p0))
      && Honest(TcpStep(t, i, desync), events[1..], desync, base, stream, Anchor(t, i, pos, p0))
  }

  /**
    Over any run of a connection, every replayed piece at or after the first one has its payload at
    its offset in the reassembled message, and that message is one whole record of the client's
    stream, from its first byte to its last.
   */
  lemma {:induction false} RunInPlace(t: Track, events: seq<Event>, desync: Desync, base: uint32, stream: Stream,
      p0: int)
    requires Sound(t) && AlignedAt(t, base, stream, p0) && Honest(t, events, desync, base, stream, p0)
    ensures AllInPlace(TcpRun(t, events, desync).left, stream)
    decreases |events|
  {
    if events != [] {
      var i, pos := events[0].input, events[0].pos;
      TcpStepAligned(t, i, desync, pos, base, stream, p0);
      TcpStepGoes(t, i, desync);
      RunInPlace(TcpStep(t, i, desync), events[1..], desync, base, stream, Anchor(t, i, pos, p0));
    }
  }

  // ---------------------------------------------------------------------------------------
  // UDP pieces are appended
  // ---------------------------------------------------------------------------------------

  /** The sequence number of a running UDP reassembly is the number of bytes that are there. */
  predicate Numbered(t: Track) {
    t.reasm.Valid() && (t.reasm.IsEmpty() || t.reasm.next == Wrap(|t.reasm.data|))
  }

  /** A UDP packet that has room is never refused: its data is appended. */
  lemma {:induction false} UdpFeedAppends(t: Track, clean: seq<byte>)
    requires Numbered(t) && !t.reasm.IsEmpty() && |t.reasm.data| + |clean| <= t.reasm.size
    ensures
      var f := FeedTrack(t, Wrap(|t.reasm.data|), clean);
      f.0 && f.1.reasm.data == t.reasm.data + clean && f.1.delayed == t.delayed && Numbered(f.1)
  {
    FeedNext(t.reasm, clean);
  }
}

/** The QUIC side of the delayed packets: what nfq2/desync.c gathers from Initial packets, and when it replays them. */
module QuicReplay {
  import opened Blocks
  import opened DelayOutcome
  import opened DelayQueue
  import opened Quic
  import opened QuicDefrag
  import opened Reassembly
  import opened Words
  import QuicFrames
  import Tls

  // ---------------------------------------------------------------------------------------
  // What the CRYPTO frames hold
  // ---------------------------------------------------------------------------------------

  lemma {:induction false} AddedBound(frames: seq<Frame>, f: Frame, limit: nat)
    requires MaxEnd(frames) <= limit && f.End() <= limit
    ensures MaxEnd(AddFrame(frames, f)) <= limit
  {
    ContentOfNext(frames, f, 0);
  }

  ghost predicate Bounded(p: Parsed, limit: nat) {
    p.Good? ==> MaxEnd(p.frames) <= limit
  }

  lemma {:induction false} ParseBound(clean: seq<byte>, pos: nat, limit: nat, frames: seq<Frame>)
    requires pos <= |clean| && Bounded(Good(frames), limit)
    ensures Bounded(Parse(clean, pos, limit, frames), limit)
    decreases |clean| - pos
  {
    if pos < |clean| {
      var h := Quic.ReadHeader(clean, pos + 1, limit, |frames|);
      if clean[pos] <= 1 {
        ParseSmall(clean, pos, limit, frames);
        ParseBound(clean, pos + 1, limit, frames);
      } else if clean[pos] != 6 || h.Invalid? {
        ParseBad(clean, pos, limit, frames);
      } else {
        var f, next := FrameAt(clean, h), h.start + h.size;
        AddedBound(frames, f, limit);
        ParseFrame(clean, pos, limit, frames, h, f, next);
        ParseBound(clean, next, limit, AddFrame(frames, f));
      }
    }
  }

  /** The frames that are accepted end inside the buffer, so their header can tell how long they are. */
  lemma {:induction false} FramesBound(clean: seq<byte>)
    ensures MaxEnd(FramesOf(clean, UDP_MAX_REASM)) <= UDP_MAX_REASM - HEADER < VarLimit(8)
  {
    ParseBound(clean, 0, UDP_MAX_REASM - HEADER, []);
    assert Pow256(3) == 0x100_0000;
    assert Pow256(7) == 0x100_0000 * 0x1_0000_0000;
  }

  /** The handshake data that the frames of a payload make up. */
  function Handshake(clean: seq<byte>): (m: seq<byte>)
    ensures |m| == MaxEnd(FramesOf(clean, UDP_MAX_REASM))
  {
    var frames := FramesOf(clean, UDP_MAX_REASM);
    seq(MaxEnd(frames), k requires 0 <= k < MaxEnd(frames) => Content(frames, k))
  }

  /** IsTLSHandshakeClientHello of data that may go on */
  predicate IsClientHelloPart(d: seq<byte>) {
    Tls.IsTLSHandshakeHello(d, 1, true)
  }

  /** IsTLSHandshakeFull, of data that is a ClientHello or its beginning */
  predicate IsFullHello(d: seq<byte>) {
    IsClientHelloPart(d) && Tls.HandshakeLen(d) <= |d|
  }

  /** What QUICDefragCrypto and the recognisers say about a payload. */
  ghost function CryptoOf(clean: seq<byte>): Crypto {
    var frames, m := FramesOf(clean, UDP_MAX_REASM), Handshake(clean);
    if frames == [] then NoCrypto
    else if !Complete(frames) then Holes
    else Covered(IsClientHelloPart(m), IsFullHello(m))
  }

  lemma {:induction false} HeaderAndData(d: seq<byte>, n: nat, clean: seq<byte>)
    requires n == MaxEnd(FramesOf(clean, UDP_MAX_REASM)) + HEADER <= |d| && Holds(d, FramesOf(clean, UDP_MAX_REASM))
    ensures d[..n] == d[..HEADER] + Handshake(clean)
  {
    assert d[HEADER..n] == Handshake(clean);
    assert d[..n] == d[..HEADER] + d[HEADER..n];
  }

  /** The probe of a decrypted payload, as dpi_desync_udp_packet_play makes it. */
  method ProbeCrypto(clean: seq<byte>) returns (c: Crypto)
    ensures c == CryptoOf(clean)
  {
    var defrag := new byte[UDP_MAX_REASM];
    var r := QUICDefragCrypto(clean, defrag);
    if r.NotFound? {
      return NoCrypto;
    }
    if !r.bFull {
      return Holes;
    }
    FramesBound(clean);
    HeaderAndData(defrag[..], r.len, clean);
    QuicFrames.DefragIsHello(Handshake(clean), IsClientHelloPart);
    var data := defrag[..r.len];
    var hello := QuicFrames.IsQUICCryptoHello(data, IsClientHelloPart);
    if hello.NoHello? {
      return Covered(false, false);
    }
    assert data[HEADER..HEADER + |Handshake(clean)|] == Handshake(clean);
    return Covered(true, Tls.HandshakeLen(data[hello.offset..hello.offset + hello.len]) <= hello.len);
  }

  /** All of a ClientHello is there, without a hole. */
  ghost predicate IsWhole(clean: seq<byte>) {
    CryptoOf(clean) == Covered(true, true)
  }

  /**
    When a sender has sent every byte of a ClientHello, cut into CRYPTO frames in any way, all of
    it is seen to be there.
   */
  lemma {:induction false} SentIsWhole(items: seq<QuicFrames.Item>, message: seq<byte>, clean: seq<byte>)
    requires forall i :: 0 <= i < |items| ==> QuicFrames.Fits(items[i])
    requires QuicFrames.Room(items, [], UDP_MAX_REASM - HEADER) && QuicFrames.Sends(items, message)
      && clean == QuicFrames.Encode(items)
    requires message != [] && forall k :: 0 <= k < |message| ==> QuicFrames.SentAt(items, k)
    ensures Handshake(clean) == message && (IsWhole(clean) <==> IsFullHello(message))
  {
    var frames := FramesOf(clean, UDP_MAX_REASM);
    QuicFrames.FramesOfEncode(items, UDP_MAX_REASM);
    QuicFrames.CollectAll(items, message, frames);
    CompleteIsPrefix(frames, message, Handshake(clean));
  }

  // ---------------------------------------------------------------------------------------
  // What is gathered
  // ---------------------------------------------------------------------------------------

  /** QUICDecryptInitial: what a payload decrypts to. */
  type Decrypt = seq<byte> -> Clean

  /** A UDP packet whose clean data is what its payload decrypts to, into a buffer of UDP_MAX_REASM bytes. */
  predicate Reads(i: UdpInput, decrypt: Decrypt) {
    !i.packet.tcp && i.clean == decrypt(i.packet.payload) && (i.clean.Clean? ==> |i.clean.data| <= UDP_MAX_REASM)
  }

  function CleanOf(d: Delayed, decrypt: Decrypt): seq<byte> {
    var c := decrypt(d.payload);
    if c.Clean? then c.data else []
  }

  /** The clean data of some packets, one after the other. */
  function CleanAll(q: seq<Delayed>, decrypt: Decrypt): seq<byte> {
    if q == [] then [] else CleanAll(q[..|q| - 1], decrypt) + CleanOf(q[|q| - 1], decrypt)
  }

  /** While packets wait, what they hold together is gathered, and it is not yet a whole ClientHello. */
  ghost predicate Gathering(t: Track, decrypt: Decrypt) {
    !t.reasm.IsEmpty() ==>
      && t.reasm.size == UDP_MAX_REASM && Numbered(t) && t.reasm.data == CleanAll(t.delayed, decrypt)
      && !IsWhole(t.reasm.data) && AllUdp(t.delayed)
  }

  /** The replayed packet is a piece of q, whose data together is the message, and that holds a whole ClientHello. */
  ghost predicate PieceOf(d: Departure, q: seq<Delayed>, decrypt: Decrypt)
    requires d.Replayed?
  {
    && |q| == d.count && d.piece < |q| && d.packet == q[d.piece] && d.offset == PayloadBefore(q, d.piece)
    && d.message == CleanAll(q, decrypt) && IsWhole(d.message)
  }

  ghost predicate Gathered(d: Departure, decrypt: Decrypt) {
    d.Replayed? ==> exists q :: PieceOf(d, q, decrypt)
  }

  ghost predicate AllGathered(d: seq<Departure>, decrypt: Decrypt) {
    forall k :: 0 <= k < |d| ==> Gathered(d[k], decrypt)
  }

  lemma {:induction false} ResentGathered(q: seq<Delayed>, decrypt: Decrypt)
    ensures AllGathered(ResentAll(q), decrypt)
  {
    if q != [] {
      ResentGathered(q[1..], decrypt);
    }
  }

  lemma {:induction false} PieceGathers(d: Departure, q: seq<Delayed>, k: nat, message: seq<byte>, desync: Desync,
      decrypt: Decrypt)
    requires k < |q| && AllUdp(q) && IsPiece(d, q, k, message, desync)
    requires message == CleanAll(q, decrypt) && IsWhole(message)
    ensures Gathered(d, decrypt)
  {
    assert PieceOf(d, q, decrypt);
  }

  lemma {:induction false} ReplayGathered(q: seq<Delayed>, message: seq<byte>, desync: Desync, decrypt: Decrypt,
      d: seq<Departure>)
    requires AllUdp(q) && message == CleanAll(q, decrypt) && IsWhole(message)
    requires d == Replay(q, 0, |q|, 0, 0, message, desync)
    ensures AllGathered(d, decrypt)
  {
    assert q[0..] == q;
    forall k | 0 <= k < |d|
      ensures Gathered(d[k], decrypt)
    {
      ReplayPieces(q, q, 0, 0, 0, message, desync, k, d);
      PieceGathers(d[k], q, k, message, desync, decrypt);
    }
  }

  lemma {:induction false} StopGathered(t: Track, decrypt: Decrypt)
    requires AllGathered(t.left, decrypt)
    ensures Gathering(Stop(t), decrypt) && AllGathered(Stop(t).left, decrypt)
  {
    ResentGathered(t.delayed, decrypt);
  }

  /** A packet joins the queue, and the queue is replayed when the ClientHello is whole. */
  lemma {:induction false} DelayGathered(t: Track, d: Delayed, full: bool, desync: Desync, decrypt: Decrypt)
    requires !t.reasm.IsEmpty() && t.reasm.size == UDP_MAX_REASM && Numbered(t) && AllUdp(t.delayed) && !d.tcp
    requires t.reasm.data == CleanAll(t.delayed, decrypt) + CleanOf(d, decrypt) && AllGathered(t.left, decrypt)
    requires full == IsWhole(t.reasm.data)
    ensures Gathering(Delay(t, d, full, desync), decrypt) && AllGathered(Delay(t, d, full, desync).left, decrypt)
  {
    var q := Enqueue(t, d);
    assert q.delayed[..|t.delayed|] == t.delayed;
    if full {
      ReplayGathered(q.delayed, q.reasm.data, desync, decrypt,
        Replay(q.delayed, 0, |q.delayed|, 0, 0, q.reasm.data, desync));
      StopGathered(ReplayQueue(q, desync), decrypt);
    }
  }

  lemma {:induction false} StartGathers(t: Track, clean: seq<byte>)
    requires |clean| <= UDP_MAX_REASM
    ensures
      var s := Start(t, 0, UDP_MAX_REASM, UDP_MAX_REASM, clean).1;
      s.reasm.size == UDP_MAX_REASM && s.reasm.data == clean && Numbered(s) && s.delayed == t.delayed
        && s.left == t.left
  {
    WrapSmall(0);
    FeedNext(Reasm(UDP_MAX_REASM, [], 0), clean);
    assert [] + clean == clean;
  }

  /** The packet that is the first to be gathered. */
  lemma {:induction false} FirstGathered(t: Track, i: UdpInput, desync: Desync, decrypt: Decrypt)
    requires Sound(t) && t.reasm.IsEmpty() && AllGathered(t.left, decrypt) && Reads(i, decrypt) && i.clean.Clean?
    ensures
      var u := QuicStep(t, i.packet, i.clean.data, i.reasmOff, CryptoOf(i.clean.data), desync);
      Gathering(u, decrypt) && AllGathered(u.left, decrypt)
  {
    var clean := i.clean.data;
    StopGathered(t, decrypt);
    StartGathers(t, clean);
    if !IsWhole(clean) {
      assert CleanAll([], decrypt) + clean == clean;
      DelayGathered(Start(t, 0, UDP_MAX_REASM, UDP_MAX_REASM, clean).1, i.packet, false, desync, decrypt);
    }
  }

  /** A further packet. */
  lemma {:induction false} NextGathered(t: Track, i: UdpInput, desync: Desync, decrypt: Decrypt)
    requires !t.reasm.IsEmpty() && Gathering(t, decrypt) && AllGathered(t.left, decrypt) && Reads(i, decrypt)
      && i.clean.Clean?
    requires |t.reasm.data| + |i.clean.data| <= t.reasm.size
    ensures
      var f := FeedTrack(t, Wrap(|t.reasm.data|), i.clean.data).1;
      var u := QuicStep(f, i.packet, i.clean.data, i.reasmOff, CryptoOf(f.reasm.data), desync);
      Gathering(u, decrypt) && AllGathered(u.left, decrypt)
  {
    UdpFeedAppends(t, i.clean.data);
    var f := FeedTrack(t, Wrap(|t.reasm.data|), i.clean.data).1;
    StopGathered(f, decrypt);
    DelayGathered(f, i.packet, IsWhole(f.reasm.data), desync, decrypt);
  }

  lemma {:induction false} UdpStepGathers(t: Track, i: UdpInput, desync: Desync, decrypt: Decrypt)
    requires Sound(t) && Gathering(t, decrypt) && AllGathered(t.left, decrypt) && Reads(i, decrypt)
    ensures Gathering(UdpStep(t, i, CryptoOf, desync), decrypt)
      && AllGathered(UdpStep(t, i, CryptoOf, desync).left, decrypt)
  {
    StopGathered(t, decrypt);
    if i.profile && i.packet.payload != [] && !i.bReverse && i.clean.Clean? {
      if t.reasm.IsEmpty() {
        FirstGathered(t, i, desync, decrypt);
      } else if !i.reasmOff && |t.reasm.data| + |i.clean.data| <= t.reasm.size {
        NextGathered(t, i, desync, decrypt);
      }
    }
  }

  /**
    Over any run of UDP packets: while packets wait, the buffer is their clean data, one after
    the other, and no whole ClientHello is in it; and whatever was replayed is a piece of a
    group whose clean data is the message, with a whole ClientHello, at the sum of the payloads before it.
   */
  lemma {:induction false} UdpRunGathers(t: Track, inputs: seq<Input>, desync: Desync, decrypt: Decrypt)
    requires Sound(t) && Gathering(t, decrypt) && AllGathered(t.left, decrypt)
    requires forall k :: 0 <= k < |inputs| ==> inputs[k].Udp? && Reads(inputs[k].udp, decrypt)
    ensures Gathering(DelayQueue.Run(t, inputs, CryptoOf, desync), decrypt)
    ensures AllGathered(DelayQueue.Run(t, inputs, CryptoOf, desync).left, decrypt)
    decreases |inputs|
  {
    if inputs != [] {
      var n := |inputs| - 1;
      UdpRunGathers(t, inputs[..n], desync, decrypt);
      UdpStepGathers(DelayQueue.Run(t, inputs[..n], CryptoOf, desync), inputs[n].udp, desync, decrypt);
    }
  }

  // ---------------------------------------------------------------------------------------
  // A whole ClientHello is replayed
  // ---------------------------------------------------------------------------------------

  /** What the first packet says: something is missing. */
  ghost predicate IsBeginning(clean: seq<byte>) {
    CryptoOf(clean) == Holes || CryptoOf(clean) == Covered(true, false)
  }

  /** An Initial packet of the client, to be reassembled. */
  predicate IsPart(i: UdpInput, decrypt: Decrypt) {
    Reads(i, decrypt) && IsInitial(i) && !i.reasmOff
  }

  /** On an idle track a packet waits exactly when something of its ClientHello is missing. */
  lemma {:induction false} BeginningWaits(t: Track, i: UdpInput, desync: Desync, decrypt: Decrypt)
    requires Sound(t) && t.reasm.IsEmpty() && IsPart(i, decrypt)
    ensures
      var u := UdpStep(t, i, CryptoOf, desync);
      if IsBeginning(i.clean.data) then Waits(t, u, i.packet, Filled(i.clean.data)) else Leaves(t, u, [])
  {
    FirstDatagram(t, i, CryptoOf, desync);
  }

  /**
    The packet with which the waiting ones hold a whole ClientHello: all of them are replayed, in
    order, against their data, and nothing waits.
   */
  lemma {:induction false} WholeIsReplayed(t: Track, i: UdpInput, desync: Desync, decrypt: Decrypt, data: seq<byte>)
    requires Sound(t) && !t.reasm.IsEmpty() && Gathering(t, decrypt) && IsPart(i, decrypt)
    requires data == CleanAll(t.delayed + [i.packet], decrypt) && |data| <= UDP_MAX_REASM && IsWhole(data)
    ensures Delivered(t, UdpStep(t, i, CryptoOf, desync), t.delayed + [i.packet], data, desync)
  {
    assert (t.delayed + [i.packet])[..|t.delayed|] == t.delayed;
    NextDatagram(t, i, CryptoOf, desync, data);
  }

  function PacketsIn(inputs: seq<Input>): (q: seq<Delayed>)
    ensures |q| == |inputs|
  {
    seq(|inputs|, k requires 0 <= k < |inputs| => PacketOf(inputs[k]))
  }

  /** The clean data of the first k packets of a run. */
  function DataUpTo(inputs: seq<Input>, k: nat, decrypt: Decrypt): seq<byte>
    requires k <= |inputs|
  {
    CleanAll(PacketsIn(inputs[..k]), decrypt)
  }

  lemma {:induction false} DataNext(inputs: seq<Input>, k: nat, decrypt: Decrypt)
    requires k < |inputs| && inputs[k].Udp? && IsPart(inputs[k].udp, decrypt)
    ensures PacketsIn(inputs[..k + 1]) == PacketsIn(inputs[..k]) + [inputs[k].udp.packet]
    ensures DataUpTo(inputs, k + 1, decrypt) == DataUpTo(inputs, k, decrypt) + inputs[k].udp.clean.data
  {
    var q := PacketsIn(inputs[..k + 1]);
    assert q[..k] == PacketsIn(inputs[..k]);
  }

  /** Initial packets of the client whose data fits, and is a whole ClientHello with the last one, not before. */
  ghost predicate Completes(inputs: seq<Input>, decrypt: Decrypt) {
    var n := |inputs|;
    && n >= 2 && (forall k :: 0 <= k < n ==> inputs[k].Udp? && IsPart(inputs[k].udp, decrypt))
    && IsBeginning(DataUpTo(inputs, 1, decrypt))
    && (forall k :: 0 < k < n ==>
          |DataUpTo(inputs, k, decrypt)| <= UDP_MAX_REASM && CryptoOf(DataUpTo(inputs, k, decrypt)) != NoCrypto
            && !IsWhole(DataUpTo(inputs, k, decrypt)))
    && |DataUpTo(inputs, n, decrypt)| <= UDP_MAX_REASM && IsWhole(DataUpTo(inputs, n, decrypt))
  }

  /** Before the last packet all of them wait. */
  lemma {:induction false} AllWait(t: Track, inputs: seq<Input>, desync: Desync, decrypt: Decrypt, k: nat)
    requires Sound(t) && t.reasm.IsEmpty() && Completes(inputs, decrypt) && 0 < k < |inputs|
    ensures DelayQueue.Run(t, inputs[..k], CryptoOf, desync) ==
      Track(Filled(DataUpTo(inputs, k, decrypt)), PacketsIn(inputs[..k]), t.left)
    decreases k
  {
    var i := inputs[k - 1].udp;
    assert inputs[..k][..k - 1] == inputs[..k - 1] && inputs[..k][k - 1] == inputs[k - 1];
    DataNext(inputs, k - 1, decrypt);
    if k == 1 {
      assert inputs[..0] == [] && [] + i.clean.data == i.clean.data;
      BeginningWaits(t, i, desync, decrypt);
    } else {
      AllWait(t, inputs, desync, decrypt, k - 1);
      NextDatagram(DelayQueue.Run(t, inputs[..k - 1], CryptoOf, desync), i, CryptoOf, desync,
        DataUpTo(inputs, k, decrypt));
    }
  }

  /**
    A ClientHello in two or more Initial packets: when the last one has come, every packet has been
    replayed, in order and at its place, against the data of all of them, and nothing waits.
   */
  lemma {:induction false} QuicHelloIsReplayed(t: Track, inputs: seq<Input>, desync: Desync, decrypt: Decrypt)
    requires Sound(t) && t.reasm.IsEmpty() && Completes(inputs, decrypt)
    ensures Delivered(t, DelayQueue.Run(t, inputs, CryptoOf, desync), PacketsIn(inputs),
      CleanAll(PacketsIn(inputs), decrypt), desync)
  {
    var n := |inputs| - 1;
    AllWait(t, inputs, desync, decrypt, n);
    DataNext(inputs, n, decrypt);
    assert inputs[..n + 1] == inputs;
    NextDatagram(DelayQueue.Run(t, inputs[..n], CryptoOf, desync), inputs[n].udp, CryptoOf, desync,
      DataUpTo(inputs, n + 1, decrypt));
  }
}

/** A TCP connection as nfq2/desync.c sees it: the tracker's positions decide what is reassembled and replayed. */
module TcpReplay {
  import opened Blocks
  import opened DelayOutcome
  import opened DelayQueue
  import opened Reassembly
  import opened Words
  import Conntrack

  // ---------------------------------------------------------------------------------------
  // The tracker and the queue, one packet after the other
  // ---------------------------------------------------------------------------------------

  /** A packet for the tracker, with its true place, and the same packet for the queue. */
  datatype Seen = Seen(e: Conntrack.Event, i: TcpInput)

  /** The server's window, once a packet of the server has been counted. */
  function WindowOf(server: Conntrack.Position): Window {
    if server.pcounter == 0 then NoWindow else Window(server.winsizeCalc)
  }

  /** The packet as the tracker, which has just been fed with it, describes it. */
  function Tracked(c: Conntrack.Track, s: Seen): TcpInput {
    s.i.(
      packet := s.i.packet.(tcp := true, sn := c.client.seqLast),
      bReverse := s.e.bReverse,
      syn := s.e.k.kind == Conntrack.Syn || s.e.k.kind == Conntrack.SynAck,
      retransmission := Conntrack.IsRetransmission(c.client),
      window := WindowOf(c.server))
  }

  function FeedTracker(c: Conntrack.Track, s: Seen): Conntrack.Track {
    Conntrack.Fed(c, s.e.bReverse, s.e.k)
  }

  /** The queue after a packet; c is the tracker before it. */
  function JointStep(c: Conntrack.Track, t: Track, s: Seen, desync: Desync): Track
    requires t.reasm.Valid()
  {
    TcpStep(t, Tracked(FeedTracker(c, s), s), desync)
  }

  /** The queue after a run. */
  function JointRun(c: Conntrack.Track, t: Track, run: seq<Seen>, desync: Desync): Track
    requires Sound(t)
    decreases |run|
  {
    if run == [] then t
    else
      TcpStepGoes(t, Tracked(FeedTracker(c, run[0]), run[0]), desync);
      JointRun(FeedTracker(c, run[0]), JointStep(c, t, run[0], desync), run[1..], desync)
  }

  /** The greatest end of client data after a packet; c is the tracker before it. */
  function TopOf(c: Conntrack.Track, s: Seen, top: int): int {
    Conntrack.Top(top, FeedTracker(c, s).state, s.e)
  }

  /** Where the reassembly that runs after a packet has started. */
  function AnchorOf(c: Conntrack.Track, t: Track, s: Seen, p0: int): int
    requires t.reasm.Valid()
  {
    Anchor(t, Tracked(FeedTracker(c, s), s), s.e.off, p0)
  }

  // ---------------------------------------------------------------------------------------
  // What is assumed of the client
  // ---------------------------------------------------------------------------------------

  /** A packet that does not start the track again; client data is near what has been seen. */
  predicate Regular(c: Conntrack.Track, s: Seen, top: int) {
    && s.e.Valid() && !Conntrack.Restarts(c, s.e.k) && s.e.k.len == |s.i.packet.payload|
    && (!s.e.bReverse && FeedTracker(c, s).state != Conntrack.SYN && s.e.k.len > 0 ==> Conntrack.Close(top, s.e.End()))
  }

  /** The packet carries its part of the client's stream, and comes near the end of what is being reassembled. */
  ghost predicate Truthful(c: Conntrack.Track, t: Track, s: Seen, stream: Stream, p0: int) {
    !s.e.bReverse ==>
      && Segment(s.e.off, s.i.packet.payload).Of(stream)
      && (!t.reasm.IsEmpty() ==> Near(Segment(s.e.off - p0, s.i.packet.payload), |t.reasm.data|))
  }

  /** All packets of a run are. */
  ghost predicate Honest(c: Conntrack.Track, t: Track, run: seq<Seen>, desync: Desync, stream: Stream, top: int,
      p0: int)
    requires Sound(t)
    decreases |run|
  {
    run != [] ==>
      var s := run[0];
      TcpStepGoes(t, Tracked(FeedTracker(c, s), s), desync);
      && Regular(c, s, top) && Truthful(c, t, s, stream, p0)
      && Honest(FeedTracker(c, s), JointStep(c, t, s, desync), run[1..], desync, stream, TopOf(c, s, top),
        AnchorOf(c, t, s, p0))
  }

  // ---------------------------------------------------------------------------------------
  // What follows
  // ---------------------------------------------------------------------------------------

  /** Does the packet start a reassembly? u is the queue after it. */
  predicate Begins(t: Track, i: TcpInput, u: Track)
    requires t.reasm.Valid()
  {
    && i.profile && !i.bReverse && !i.syn && i.packet.payload != []
    && FeedTrack(t, i.packet.sn, i.packet.payload).1.reasm.IsEmpty() && !u.reasm.IsEmpty()
  }

  /** Every packet that starts a reassembly brings data beyond all client data before it. */
  predicate BeginsFresh(c: Conntrack.Track, t: Track, run: seq<Seen>, desync: Desync, top: int)
    requires Sound(t)
    decreases |run|
  {
    run != [] ==>
      var s := run[0];
      var i := Tracked(FeedTracker(c, s), s);
      TcpStepGoes(t, i, desync);
      var u := JointStep(c, t, s, desync);
      (Begins(t, i, u) ==> s.e.End() > top) && BeginsFresh(FeedTracker(c, s), u, run[1..], desync, TopOf(c, s, top))
  }

  lemma {:induction false} OnlyFreshBegins(t: Track, i: TcpInput, desync: Desync)
    requires Sound(t) && Begins(t, i, TcpStep(t, i, desync))
    ensures !i.retransmission
  {
    FeedTrackGoes(t, i.packet.sn, i.packet.payload);
  }

  /** The tracker's own answer is right: what starts a reassembly is not a retransmission. */
  lemma {:induction false} BeginsBeyond(c: Conntrack.Track, t: Track, s: Seen, desync: Desync, top: int)
    requires Sound(t) && c.client.uppos == Wrap(top) && Regular(c, s, top)
    requires Begins(t, Tracked(FeedTracker(c, s), s), JointStep(c, t, s, desync))
    ensures s.e.End() > top
  {
    OnlyFreshBegins(t, Tracked(FeedTracker(c, s), s), desync);
    Conntrack.RetransmissionIff(c, s.e, top);
  }

  lemma {:induction false} TrackedCarries(c: Conntrack.Track, t: Track, s: Seen, stream: Stream, p0: int)
    requires s.e.Valid() && !s.e.bReverse && Truthful(c, t, s, stream, p0)
    ensures Carries(t, Tracked(FeedTracker(c, s), s).packet, s.e.off, 0, stream, p0)
  {
  }

  /**
    Over any run of a connection, with the tracker's own sequence numbers, windows and
    retransmission flags: every replayed piece at or after the first one has its payload at its
    offset in the message, and a reassembly is only started by data beyond all client data before it.
   */
  lemma {:induction false} ConnectionInPlace(c: Conntrack.Track, t: Track, run: seq<Seen>, desync: Desync,
      stream: Stream, top: int, p0: int)
    requires Sound(t) && AlignedAt(t, 0, stream, p0) && c.client.uppos == Wrap(top)
      && Honest(c, t, run, desync, stream, top, p0)
    ensures AllInPlace(JointRun(c, t, run, desync).left, stream)
    ensures BeginsFresh(c, t, run, desync, top)
    decreases |run|
  {
    if run != [] {
      var s := run[0];
      var i := Tracked(FeedTracker(c, s), s);
      if !s.e.bReverse {
        TrackedCarries(c, t, s, stream, p0);
      }
      TcpStepAligned(t, i, desync, s.e.off, 0, stream, p0);
      TcpStepGoes(t, i, desync);
      Conntrack.UpposFollows(c, s.e, top);
      var u := JointStep(c, t, s, desync);
      if Begins(t, i, u) {
        BeginsBeyond(c, t, s, desync, top);
      }
      ConnectionInPlace(FeedTracker(c, s), u, run[1..], desync, stream, TopOf(c, s, top), AnchorOf(c, t, s, p0));
    }
  }

  // ---------------------------------------------------------------------------------------
  // From the SYN to the whole ClientHello
  // ---------------------------------------------------------------------------------------

  /** The packets of a run as the queue is given them; c is the tracker before the first one. */
  function EventsOf(c: Conntrack.Track, run: seq<Seen>): seq<Event>
    decreases |run|
  {
    if run == [] then []
    else
      var d := FeedTracker(c, run[0]);
      [Event(Tracked(d, run[0]), run[0].e.off)] + EventsOf(d, run[1..])
  }

  lemma {:induction false} JointIsTcp(c: Conntrack.Track, t: Track, run: seq<Seen>, desync: Desync)
    requires Sound(t)
    ensures JointRun(c, t, run, desync) == TcpRun(t, EventsOf(c, run), desync)
    decreases |run|
  {
    if run != [] {
      var d, i := FeedTracker(c, run[0]), Tracked(FeedTracker(c, run[0]), run[0]);
      TcpStepGoes(t, i, desync);
      JointIsTcp(d, TcpStep(t, i, desync), run[1..], desync);
      assert EventsOf(c, run)[0].input == i && EventsOf(c, run)[1..] == EventsOf(d, run[1..]);
    }
  }

  /** The client's SYN, as the first packet of a connection; its data starts one position further on. */
  predicate Opens(s: Seen) {
    Conntrack.Connection(s.e, []) && (s.i.profile ==> s.i.rediscovered)
  }

  /** The packet has the message's bytes from at on; the server has room when it is the first, by the tracker d. */
  predicate Brings(d: Conntrack.Track, s: Seen, message: seq<byte>, start: int, at: nat) {
    var p := s.i.packet.payload;
    && s.i.profile && s.e.off == start + at && at + |p| <= |message| && p == message[at..at + |p|]
    && (at > 0 ==> StillTls(s.i))
    && (at == 0 ==>
      !s.i.payloadOff && !s.i.reasmOff && HasRoom(WindowOf(d.server), |message|) && INTRO <= |p| < |message|)
  }

  /**
    After the SYN: any packets of the connection, and among them, in order, the message in segments;
    nothing in between ends the reassembly.  c is the tracker before the first one.
   */
  predicate Talks(c: Conntrack.Track, syn: Conntrack.Event, run: seq<Seen>, message: seq<byte>, at: nat)
    decreases |run|
  {
    if run == [] then at == |message|
    else
      var s := run[0];
      var d := FeedTracker(c, s);
      && Conntrack.Follows(syn, s.e) && s.e.k.len == |s.i.packet.payload|
      && if Conntrack.ClientData(s.e) then
        Brings(d, s, message, syn.End() + 1, at) && Talks(d, syn, run[1..], message, at + s.e.k.len)
      else (!s.i.profile || s.i.rediscovered) && Talks(d, syn, run[1..], message, at)
  }

  /** Where client data ends when the first bytes of the message have come. */
  function Reached(syn: Conntrack.Event, at: nat): int {
    if at == 0 then syn.End() else syn.End() + 1 + at
  }

  /** The tracker in such a run, after the packets past. */
  ghost predicate Stands(c: Conntrack.Track, syn: Conntrack.Event, past: seq<Conntrack.Event>, at: nat) {
    && Conntrack.Connection(syn, past) && Conntrack.Tracked(c, syn, past)
    && Conntrack.Highest(syn.End(), past) == Reached(syn, at)
  }

  lemma {:induction false} StandsNext(c: Conntrack.Track, syn: Conntrack.Event, past: seq<Conntrack.Event>, s: Seen,
      message: seq<byte>, at: nat, at': nat)
    requires Stands(c, syn, past, at) && Conntrack.Follows(syn, s.e) && s.e.k.len == |s.i.packet.payload|
    requires if Conntrack.ClientData(s.e) then
               at' == at + s.e.k.len < 0x1_0000 && s.e.off == syn.End() + 1 + at
             else at' == at
    ensures Stands(FeedTracker(c, s), syn, past + [s.e], at')
  {
    Conntrack.TrackedNext(c, syn, past, s.e);
    assert (past + [s.e])[..|past|] == past;
  }

  /** The first segment is not taken for a retransmission. */
  lemma {:induction false} FirstIsFresh(c: Conntrack.Track, syn: Conntrack.Event, past: seq<Conntrack.Event>, s: Seen)
    requires Stands(c, syn, past, 0) && Conntrack.Follows(syn, s.e) && Conntrack.ClientData(s.e)
    requires s.e.off == syn.End() + 1 && s.e.k.len < 0x1_0000
    ensures !Conntrack.IsRetransmission(FeedTracker(c, s).client)
  {
    Conntrack.NeverRestarts(c, syn, past, s.e);
    Conntrack.RetransmissionIff(c, s.e, syn.End());
  }

  lemma {:induction false} BringsSegment(c: Conntrack.Track, syn: Conntrack.Event, past: seq<Conntrack.Event>, s: Seen,
      message: seq<byte>, at: nat)
    requires Stands(c, syn, past, at) && Conntrack.Follows(syn, s.e) && s.e.k.len == |s.i.packet.payload|
    requires Conntrack.ClientData(s.e) && Brings(FeedTracker(c, s), s, message, syn.End() + 1, at)
      && |message| <= TCP_MAX_REASM
    ensures
      var i := Tracked(FeedTracker(c, s), s);
      IsClientData(i) && IsSegment(i, Wrap(syn.End() + 1), message, at)
  {
    WrapSub(syn.End() + 1, at);
    if at == 0 {
      FirstIsFresh(c, syn, past, s);
    }
  }

  lemma {:induction false} SendsOneMore(e: Event, rest: seq<Event>, events: seq<Event>, start: uint32,
      message: seq<byte>, at: nat, at': nat)
    requires events == [e] + rest && Sends(rest, start, message, at')
    requires if IsClientData(e.input) then IsSegment(e.input, start, message, at)
      && at' == at + |e.input.packet.payload|
             else (!e.input.profile || e.input.rediscovered) && at' == at
    ensures Sends(events, start, message, at)
  {
    assert events[0] == e && events[1..] == rest;
  }

  lemma {:induction false} TalksSends(c: Conntrack.Track, syn: Conntrack.Event, past: seq<Conntrack.Event>,
      run: seq<Seen>, message: seq<byte>, at: nat)
    requires Stands(c, syn, past, at) && Talks(c, syn, run, message, at) && |message| <= TCP_MAX_REASM
    ensures Sends(EventsOf(c, run), Wrap(syn.End() + 1), message, at)
    decreases |run|
  {
    if run != [] {
      var s, rest := run[0], run[1..];
      var d := FeedTracker(c, s);
      var e, at' := Event(Tracked(d, s), s.e.off), if Conntrack.ClientData(s.e) then at + s.e.k.len else at;
      if Conntrack.ClientData(s.e) {
        BringsSegment(c, syn, past, s, message, at);
      }
      StandsNext(c, syn, past, s, message, at, at');
      TalksSends(d, syn, past + [s.e], rest, message, at');
      SendsOneMore(e, EventsOf(d, rest), EventsOf(c, run), Wrap(syn.End() + 1), message, at, at');
    }
  }

  /**
    A client that opens a connection and sends its ClientHello, in order, in two or more segments:
    whatever was tracked before, and whatever the two sides send in between, when the last segment
    has come every packet of the message has been replayed, in order and at its place, against the
    whole message, and nothing waits.
   */
  lemma {:induction false} ConnectionReplays(c: Conntrack.Track, t: Track, syn: Seen, run: seq<Seen>,
      message: seq<byte>, desync: Desync)
    requires Sound(t) && t.reasm.IsEmpty() && IsHelloRecord(message) && Opens(syn)
    requires Talks(FeedTracker(c, syn), syn.e, run, message, 0)
    ensures
      var q := DataOf(EventsOf(FeedTracker(c, syn), run));
      && Delivered(t, JointRun(c, t, [syn] + run, desync), q, message, desync)
      && AllTcp(q) && Payloads(q) == message
  {
    var d, all := FeedTracker(c, syn), [syn] + run;
    var i := Tracked(d, syn);
    assert all[0] == syn && all[1..] == run;
    OtherPacket(t, i, desync);
    Conntrack.ConnectionTracked(c, syn.e, []);
    TalksSends(d, syn.e, [], run, message, 0);
    HelloIsReplayed(t, EventsOf(d, run), Wrap(syn.e.End() + 1), message, desync);
    JointIsTcp(d, t, run, desync);
  }
}

/**
  TCP positions of a connection: ConntrackFeedPacket and ConntrackApplyPos of nfq2/conntrack.c, and
  is_retransmission of nfq2/desync.c.
 */
module Conntrack {
  import opened Reassembly
  import opened Words

  datatype State = SYN | ESTABLISHED | FIN

  /** t_ctrack_position */
  datatype Position = Position(
    pcounter: nat, pdcounter: nat, pbcounter: nat,
    pos: uint32, uppos: uint32, upposPrev: uint32, seqLast: uint32, seq0: uint32,
    winsize: nat, mss: nat, winsizeCalc: uint32, scale: nat, over2G: bool)

  const ZERO := Position(0, 0, 0, 0, 0, 0, 0, 0, 0, 0, 0, 0, false)

  datatype Kind = Syn | SynAck | FinRst | Other

  datatype Scale = NoScale | Scale(shift: nat)

  /** What the tracker looks at in a TCP packet. */
  datatype Packet = Packet(kind: Kind, sn: uint32, ack: uint32, len: nat, win: nat, scale: Scale, mss: nat)

  /** The part of a track that packets change. */
  datatype Track = Track(state: State, client: Position, server: Position)

  const FRESH := Track(SYN, ZERO, ZERO)

  /** The upper half of the sequence space: a difference that stands for a negative one. */
  predicate Negative(x: uint32) {
    x >= 0x8000_0000
  }

  function Counted(p: Position, len: nat): Position {
    p.(pcounter := p.pcounter + 1, pdcounter := p.pdcounter + (if len > 0 then 1 else 0),
      pbcounter := p.pbcounter + len)
  }

  /** The sender's side of a packet: ConntrackApplyPos for direct. */
  function Sent(p: Position, state: State, k: Packet): Position {
    var last := Wrap(k.sn + k.len);
    var up := if state == SYN then (last, last)
      else if k.len > 0 then (p.uppos, if Negative(Wrap(last - p.uppos)) then p.uppos else last)
      else (p.upposPrev, p.uppos);
    var scale := if state == SYN && k.scale.Scale? then k.scale.shift else p.scale;
    p.(winsize := k.win, scale := scale, mss := if state == SYN then k.mss else p.mss,
       winsizeCalc := if state == SYN then Wrap(k.win) else Wrap(Shl(k.win, p.scale)),
       seqLast := k.sn, pos := last, upposPrev := up.0, uppos := up.1,
       over2G := p.over2G || Negative(Wrap(k.sn - p.seq0)))
  }

  /** The receiver's side: ConntrackApplyPos for reverse. */
  function Acked(p: Position, k: Packet): Position {
    p.(pos := k.ack, seqLast := k.ack, over2G := p.over2G || Negative(Wrap(k.ack - p.seq0)))
  }

  /** Packets that may start the track again. */
  predicate Restarts(t: Track, k: Packet) {
    t.state != SYN && (k.kind == Syn || (k.kind == SynAck && t.client.seq0 != Wrap(k.ack - 1)))
  }

  /** The state and the initial sequence numbers after a packet. */
  function Stated(t: Track, bReverse: bool, k: Packet): Track {
    var u := if Restarts(t, k) then FRESH else t;
    match k.kind
    case Syn => u.(client := u.client.(seq0 := k.sn))
    case SynAck =>
      u.(client := u.client.(seq0 := if u.client.seq0 == 0 then Wrap(k.ack - 1) else u.client.seq0),
        server := u.server.(seq0 := k.sn))
    case FinRst => u.(state := FIN)
    case Other =>
      if u.state != SYN then u
      else if !bReverse && u.server.seq0 == 0 then Track(ESTABLISHED, u.client, u.server.(seq0 := Wrap(k.ack - 1)))
      else u.(state := ESTABLISHED)
  }

  /** ConntrackFeedPacket for a TCP packet */
  function Fed(t: Track, bReverse: bool, k: Packet): Track {
    var c := if bReverse then t.(server := Counted(t.server, k.len)) else t.(client := Counted(t.client, k.len));
    var u := Stated(c, bReverse, k);
    if bReverse then u.(server := Sent(u.server, u.state, k), client := Acked(u.client, k))
    else u.(client := Sent(u.client, u.state, k), server := Acked(u.server, k))
  }

  predicate IsRetransmission(p: Position) {
    !Negative(Wrap(p.upposPrev - p.pos))
  }

  // ---------------------------------------------------------------------------------------
  // The tracker
  // ---------------------------------------------------------------------------------------

  class Tracker {
    var state: State
    var client: Position
    var server: Position

    ghost function Value(): Track
      reads this
    {
      Track(state, client, server)
    }

    /** ConntrackReInitTrack */
    method ReInitTrack()
      modifies this
      ensures Value() == FRESH
    {
      state, client, server := SYN, ZERO, ZERO;
    }

    method ApplyPos(bReverse: bool, k: Packet)
      modifies this
      ensures state == old(state)
      ensures if bReverse then server == Sent(old(server), state, k) && client == Acked(old(client), k)
        else client == Sent(old(client), state, k) && server == Acked(old(server), k)
    {
      var direct, reverse := if bReverse then server else client, if bReverse then client else server;
      direct := direct.(winsize := k.win, winsizeCalc := Wrap(k.win));
      if state == SYN {
        if k.scale.Scale? {
          direct := direct.(scale := k.scale.shift);
        }
        direct := direct.(mss := k.mss);
      } else {
        direct := direct.(winsizeCalc := Wrap(Shl(k.win, direct.scale)));
      }
      direct := direct.(seqLast := k.sn);
      direct := direct.(pos := Wrap(direct.seqLast + k.len));
      reverse := reverse.(seqLast := k.ack, pos := k.ack);
      if state == SYN {
        direct := direct.(uppos := direct.pos, upposPrev := direct.pos);
      } else if k.len > 0 {
        direct := direct.(upposPrev := direct.uppos);
        if !Negative(Wrap(direct.pos - direct.uppos)) {
          direct := direct.(uppos := direct.pos);
        }
      }
      if !direct.over2G && Negative(Wrap(direct.seqLast - direct.seq0)) {
        direct := direct.(over2G := true);
      }
      if !reverse.over2G && Negative(Wrap(reverse.seqLast - reverse.seq0)) {
        reverse := reverse.(over2G := true);
      }
      if bReverse {
        server, client := direct, reverse;
      } else {
        client, server := direct, reverse;
      }
    }

    method FeedPacket(bReverse: bool, k: Packet)
      modifies this
      ensures Value() == Fed(old(Value()), bReverse, k)
    {
      if bReverse {
        server := Counted(server, k.len);
      } else {
        client := Counted(client, k.len);
      }
      match k.kind {
        case Syn =>
          if state != SYN {
            ReInitTrack();
          }
          client := client.(seq0 := k.sn);
        case SynAck =>
          var seq0 := Wrap(k.ack - 1);
          if state != SYN && client.seq0 != seq0 {
            ReInitTrack();
          }
          if client.seq0 == 0 {
            client := client.(seq0 := seq0);
          }
          server := server.(seq0 := k.sn);
        case FinRst =>
          state := FIN;
        case Other =>
          if state == SYN {
            state := ESTABLISHED;
            if !bReverse && server.seq0 == 0 {
              server := server.(seq0 := Wrap(k.ack - 1));
            }
          }
      }
      ApplyPos(bReverse, k);
    }
  }

  // ---------------------------------------------------------------------------------------
  // The running maximum
  // ---------------------------------------------------------------------------------------

  /**
    A packet with the place of its first byte in the client's stream, before wrap-around; for
    server packets the place is not used.
   */
  datatype Event = Event(bReverse: bool, k: Packet, off: int) {
    function End(): int {
      off + k.len
    }

    predicate Valid() {
      !bReverse ==> k.sn == Wrap(off)
    }
  }

  /**
    The greatest client position seen, after an event; while the connection is being set up it is
    simply the last one.
   */
  function Top(top: int, state: State, e: Event): int {
    if e.bReverse then top
    else if state == SYN then e.End()
    else if e.k.len > 0 && e.End() > top then e.End()
    else top
  }

  /** Strictly within half the sequence space. */
  predicate Close(top: int, end: int) {
    -0x8000_0000 < end - top < 0x8000_0000
  }

  /** One packet: uppos follows the running maximum, and uppos_prev is what it was before. */
  lemma {:induction false} UpposFollows(t: Track, e: Event, top: int)
    requires e.Valid() && t.client.uppos == Wrap(top) && !Restarts(t, e.k)
    requires !e.bReverse && Stated(t, e.bReverse, e.k).state != SYN && e.k.len > 0 ==> Close(top, e.End())
    ensures
      var u := Fed(t, e.bReverse, e.k);
      && u.client.uppos == Wrap(Top(top, u.state, e))
      && (!e.bReverse && u.state != SYN && e.k.len > 0 ==> u.client.upposPrev == Wrap(top))
  {
    WrapSub(e.off, e.k.len);
    WrapSub(e.End(), top);
    if Close(top, e.End()) {
      WrapSmall(e.End() - top);
    }
  }

  /**
    A client data packet outside the SYN state is seen as a retransmission exactly when it brings
    nothing beyond the maximum so far.
   */
  lemma {:induction false} RetransmissionIff(t: Track, e: Event, top: int)
    requires e.Valid() && t.client.uppos == Wrap(top) && !Restarts(t, e.k)
    requires !e.bReverse && Stated(t, e.bReverse, e.k).state != SYN && e.k.len > 0 && Close(top, e.End())
    ensures IsRetransmission(Fed(t, e.bReverse, e.k).client) <==> e.End() <= top
  {
    UpposFollows(t, e, top);
    WrapSub(e.off, e.k.len);
    WrapSub(top, e.End());
    WrapSmall(top - e.End());
  }

  function FeedAll(t: Track, events: seq<Event>): Track
    decreases |events|
  {
    if events == [] then t else FeedAll(Fed(t, events[0].bReverse, events[0].k), events[1..])
  }

  function TopAfter(t: Track, top: int, events: seq<Event>): int
    decreases |events|
  {
    if events == [] then top
    else
      var u := Fed(t, events[0].bReverse, events[0].k);
      TopAfter(u, Top(top, u.state, events[0]), events[1..])
  }

  /** No event starts the track again, and every client data packet is close to the maximum when it comes. */
  predicate Regular(t: Track, top: int, events: seq<Event>)
    decreases |events|
  {
    events != [] ==>
      var e := events[0];
      var u := Fed(t, e.bReverse, e.k);
      && e.Valid() && !Restarts(t, e.k) && (!e.bReverse && u.state != SYN && e.k.len > 0 ==> Close(top, e.End()))
      && Regular(u, Top(top, u.state, e), events[1..])
  }

  /** Over any run from a client SYN on, uppos is the running maximum of the client's positions. */
  lemma {:induction false} UpposIsMaximum(t: Track, top: int, events: seq<Event>)
    requires t.client.uppos == Wrap(top) && Regular(t, top, events)
    ensures FeedAll(t, events).client.uppos == Wrap(TopAfter(t, top, events))
    decreases |events|
  {
    if events != [] {
      var e := events[0];
      UpposFollows(t, e, top);
      var u := Fed(t, e.bReverse, e.k);
      UpposIsMaximum(u, Top(top, u.state, e), events[1..]);
    }
  }

  /** A client SYN sets uppos to its own position, whatever was tracked before. */
  lemma {:induction false} SynStarts(t: Track, e: Event)
    requires e.Valid() && !e.bReverse && e.k.kind == Syn
    ensures Fed(t, false, e.k).client.uppos == Wrap(e.End()) && Fed(t, false, e.k).state == SYN
    ensures Fed(t, false, e.k).client.seq0 == e.k.sn
  {
    WrapSub(e.off, e.k.len);
  }

  /**
    Once the connection is set up, the maximum is what its name says: no client data packet ends
    beyond it, and it is where one ended, or where it was.
   */
  lemma {:induction false} TopIsGreatest(t: Track, top: int, events: seq<Event>)
    requires t.state != SYN && Regular(t, top, events)
    ensures TopAfter(t, top, events) >= top
    ensures forall i :: 0 <= i < |events| && !events[i].bReverse && events[i].k.len > 0 ==>
      events[i].End() <= TopAfter(t, top, events)
    ensures TopAfter(t, top, events) == top
      || exists i :: 0 <= i < |events| && !events[i].bReverse && events[i].End() == TopAfter(t, top, events)
    decreases |events|
  {
    if events != [] {
      var e, rest := events[0], events[1..];
      var u := Fed(t, e.bReverse, e.k);
      var m, n := Top(top, u.state, e), TopAfter(t, top, events);
      TopIsGreatest(u, m, rest);
      forall i | 0 <= i < |events| && !events[i].bReverse && events[i].k.len > 0
        ensures events[i].End() <= n
      {
        if i > 0 {
          assert rest[i - 1] == events[i];
        }
      }
      if n != m {
        var i :| 0 <= i < |rest| && !rest[i].bReverse && rest[i].End() == n;
        assert events[i + 1] == rest[i];
      }
    }
  }

  // ---------------------------------------------------------------------------------------
  // The state of a connection
  // ---------------------------------------------------------------------------------------

  ghost predicate Saw(events: seq<Event>, kind: Kind) {
    exists i :: 0 <= i < |events| && events[i].k.kind == kind
  }

  /** What the kinds of the packets say: closing, or past the handshake, or still in it. */
  ghost function ByKinds(events: seq<Event>): State {
    if Saw(events, FinRst) then FIN else if Saw(events, Other) then ESTABLISHED else SYN
  }

  lemma {:induction false} SawNext(events: seq<Event>, e: Event, kind: Kind)
    ensures Saw(events + [e], kind) <==> Saw(events, kind) || e.k.kind == kind
  {
    var all := events + [e];
    assert all[|events|] == e;
    if i :| 0 <= i < |events| && events[i].k.kind == kind {
      assert all[i] == events[i];
    }
  }

  lemma {:induction false} FeedLast(t: Track, events: seq<Event>, e: Event)
    ensures FeedAll(t, events + [e]) == Fed(FeedAll(t, events), e.bReverse, e.k)
    decreases |events|
  {
    if events == [] {
      assert [] + [e] == [e];
      assert FeedAll(Fed(t, e.bReverse, e.k), [e][1..]) == Fed(t, e.bReverse, e.k);
    } else {
      assert (events + [e])[0] == events[0] && (events + [e])[1..] == events[1..] + [e];
      FeedLast(Fed(t, events[0].bReverse, events[0].k), events[1..], e);
    }
  }

  /** Where the packets begin that count: at the last one that started the track again, or at the first. */
  function LastRestart(t: Track, events: seq<Event>): (i: nat)
    ensures i <= |events|
    decreases |events|
  {
    if events == [] then 0
    else
      var n := |events| - 1;
      if Restarts(FeedAll(t, events[..n]), events[n].k) then n else LastRestart(t, events[..n])
  }

  lemma {:induction false} StateNext(t: Track, past: seq<Event>, e: Event)
    requires t.state == ByKinds(past) && !Restarts(t, e.k)
    ensures Fed(t, e.bReverse, e.k).state == ByKinds(past + [e])
  {
    SawNext(past, e, FinRst);
    SawNext(past, e, Other);
  }

  /** After any packets, the state is what the kinds of those since the last restart say. */
  lemma {:induction false} StateByKinds(t: Track, events: seq<Event>)
    requires t.state == SYN
    ensures FeedAll(t, events).state == ByKinds(events[LastRestart(t, events)..])
    decreases |events|
  {
    if events != [] {
      var n := |events| - 1;
      var v, e, i := FeedAll(t, events[..n]), events[n], LastRestart(t, events);
      assert events[..n] + [e] == events;
      FeedLast(t, events[..n], e);
      if Restarts(v, e.k) {
        assert events[n..] == [e];
      } else {
        StateByKinds(t, events[..n]);
        assert events[i..] == events[..n][i..] + [e];
        StateNext(v, events[..n][i..], e);
      }
    }
  }

  /** Nothing of what was tracked before a restart is left after it, not even the packet counters. */
  lemma {:induction false} RestartForgets(t: Track, u: Track, bReverse: bool, k: Packet)
    requires Restarts(t, k) && Restarts(u, k)
    ensures Fed(t, bReverse, k) == Fed(u, bReverse, k)
  {
  }

  // ---------------------------------------------------------------------------------------
  // A connection from its SYN on
  // ---------------------------------------------------------------------------------------

  /** The packets of a connection after the client's SYN: the server's answers acknowledge it. */
  predicate Follows(syn: Event, e: Event) {
    && e.Valid() && e.k.kind != Syn
    && (e.k.kind == SynAck ==> e.bReverse && e.k.ack == Wrap(syn.k.sn + 1))
  }

  predicate Connection(syn: Event, events: seq<Event>) {
    && syn.Valid() && !syn.bReverse && syn.k.kind == Syn
    && forall i :: 0 <= i < |events| ==> Follows(syn, events[i])
  }

  predicate ClientData(e: Event) {
    !e.bReverse && e.k.len > 0
  }

  /** The greatest of top and the ends of the client's data. */
  function Highest(top: int, events: seq<Event>): (m: int)
    ensures m >= top
    ensures forall i :: 0 <= i < |events| && ClientData(events[i]) ==> events[i].End() <= m
    ensures m == top || exists i :: 0 <= i < |events| && ClientData(events[i]) && events[i].End() == m
    decreases |events|
  {
    if events == [] then top
    else
      var n := |events| - 1;
      var m := Highest(top, events[..n]);
      if ClientData(events[n]) && events[n].End() > m then events[n].End() else m
  }

  /** Every piece of client data is within half the sequence space of what came before it. */
  predicate AllClose(top: int, events: seq<Event>)
    decreases |events|
  {
    events != [] ==>
      var n := |events| - 1;
      && (ClientData(events[n]) ==> Close(Highest(top, events[..n]), events[n].End()))
      && AllClose(top, events[..n])
  }

  /** What the tracker has after the SYN and some packets. */
  ghost predicate Tracked(u: Track, syn: Event, events: seq<Event>) {
    && u.client.seq0 == syn.k.sn && u.state == ByKinds(events)
    && u.client.uppos == Wrap(Highest(syn.End(), events))
  }

  /** What a SYN-ACK has to acknowledge. */
  lemma {:induction false} AckTells(ack: uint32, sn: uint32)
    ensures Wrap(ack - 1) == sn <==> ack == Wrap(sn + 1)
  {
    WrapSub(ack - 1, 1);
    WrapSub(sn + 1, -1);
    WrapSmall(ack);
    WrapSmall(sn);
    WrapSmall(1);
    WrapSmall(-1);
  }

  lemma {:induction false} NeverRestarts(u: Track, syn: Event, events: seq<Event>, e: Event)
    requires Tracked(u, syn, events) && Connection(syn, events) && Follows(syn, e)
    ensures !Restarts(u, e.k)
  {
    AckTells(e.k.ack, syn.k.sn);
  }

  lemma {:induction false} TrackedNext(u: Track, syn: Event, events: seq<Event>, e: Event)
    requires Tracked(u, syn, events) && Connection(syn, events) && Follows(syn, e)
    requires ClientData(e) ==> Close(Highest(syn.End(), events), e.End())
    ensures Tracked(Fed(u, e.bReverse, e.k), syn, events + [e])
  {
    AckTells(e.k.ack, syn.k.sn);
    NeverRestarts(u, syn, events, e);
    StateNext(u, events, e);
    UpposFollows(u, e, Highest(syn.End(), events));
    assert (events + [e])[..|events|] == events;
  }

  /** From a client SYN on, the tracker has the state, the initial sequence number and the maximum of the connection. */
  lemma {:induction false} ConnectionTracked(t: Track, syn: Event, events: seq<Event>)
    requires Connection(syn, events) && AllClose(syn.End(), events)
    ensures Tracked(FeedAll(Fed(t, false, syn.k), events), syn, events)
    decreases |events|
  {
    if events == [] {
      SynStarts(t, syn);
    } else {
      var n := |events| - 1;
      ConnectionTracked(t, syn, events[..n]);
      assert events[..n] + [events[n]] == events;
      FeedLast(Fed(t, false, syn.k), events[..n], events[n]);
      TrackedNext(FeedAll(Fed(t, false, syn.k), events[..n]), syn, events[..n], events[n]);
    }
  }

  /**
    Client data after a client SYN and any packets of the connection is seen as a retransmission
    exactly when it ends at or before the greatest end of client data so far.
   */
  lemma {:induction false} ConnectionRetransmission(t: Track, syn: Event, events: seq<Event>, e: Event)
    requires Connection(syn, events) && AllClose(syn.End(), events)
    requires Follows(syn, e) && ClientData(e) && Close(Highest(syn.End(), events), e.End())
    ensures
      var u := Fed(FeedAll(Fed(t, false, syn.k), events), false, e.k);
      && (IsRetransmission(u.client) <==> e.End() <= Highest(syn.End(), events))
      && u.state != SYN && u.client.seqLast == e.k.sn
  {
    ConnectionTracked(t, syn, events);
    var u := FeedAll(Fed(t, false, syn.k), events);
    NeverRestarts(u, syn, events, e);
    RetransmissionIff(u, e, Highest(syn.End(), events));
  }

  lemma {:induction false} StrayStarts(u: Track, e: Event)
    requires u.state != SYN && e.k.kind == SynAck && Wrap(e.k.ack - 1) != u.client.seq0
    ensures
      var v := Fed(u, e.bReverse, e.k);
      v.state == SYN && v.client.seq0 == Wrap(e.k.ack - 1) && v.server.seq0 == e.k.sn
  {
  }

  /** A SYN-ACK that answers another SYN, once the handshake is over, starts the track again. */
  lemma {:induction false} OtherSynAckStarts(t: Track, syn: Event, events: seq<Event>, e: Event)
    requires Connection(syn, events) && AllClose(syn.End(), events) && ByKinds(events) != SYN
    requires e.k.kind == SynAck && e.k.ack != Wrap(syn.k.sn + 1)
    ensures
      var u := Fed(FeedAll(Fed(t, false, syn.k), events), e.bReverse, e.k);
      u.state == SYN && u.client.seq0 == Wrap(e.k.ack - 1) && u.server.seq0 == e.k.sn
  {
    ConnectionTracked(t, syn, events);
    AckTells(e.k.ack, syn.k.sn);
    StrayStarts(FeedAll(Fed(t, false, syn.k), events), e);
  }

  // ---------------------------------------------------------------------------------------
  // The server's window
  // ---------------------------------------------------------------------------------------

  /** The window after a SYN-ACK and some packets: unscaled in the SYN-ACK, and then always scaled. */
  function WindowAfter(first: Packet, events: seq<Event>): uint32
    decreases |events|
  {
    if events == [] then Wrap(first.win)
    else
      var n := |events| - 1;
      if events[n].bReverse then Wrap(events[n].k.win * Pow2(if first.scale.Scale? then first.scale.shift else 0))
      else WindowAfter(first, events[..n])
  }

  lemma {:induction false} ShlIs(x: nat, k: nat)
    ensures Shl(x, k) == x * Pow2(k)
  {
    if k > 0 {
      ShlIs(x, k - 1);
    }
  }

  /** The server's side outside the handshake: a packet of its own changes the window, one of the client does not. */
  lemma {:induction false} WindowNext(u: Track, e: Event)
    requires u.state != SYN && !Restarts(u, e.k)
    ensures
      var v := Fed(u, e.bReverse, e.k);
      && v.state != SYN && v.server.scale == u.server.scale
      && v.server.winsizeCalc == if e.bReverse then Wrap(e.k.win * Pow2(u.server.scale)) else u.server.winsizeCalc
  {
    ShlIs(e.k.win, u.server.scale);
  }

  /** The SYN-ACK, in the handshake of a new track or one that the SYN starts again. */
  lemma {:induction false} WindowStarts(t: Track, syn: Event, a: Event, e: Event)
    requires Connection(syn, [a, e]) && a.k.kind == SynAck && e.k.kind != SynAck
      && (t.state == SYN ==> t.server.scale == 0)
    ensures
      var u := Fed(Fed(t, false, syn.k), a.bReverse, a.k);
      var v := Fed(u, e.bReverse, e.k);
      && u.server.winsizeCalc == Wrap(a.k.win) && v.state != SYN && u.server.pcounter > 0
      && v.server.scale == (if a.k.scale.Scale? then a.k.scale.shift else 0)
      && v.server.winsizeCalc == if e.bReverse then Wrap(e.k.win * Pow2(v.server.scale)) else u.server.winsizeCalc
  {
    assert [a, e][0] == a && [a, e][1] == e;
    ShlIs(e.k.win, if a.k.scale.Scale? then a.k.scale.shift else 0);
  }

  lemma {:induction false} FeedTwo(t: Track, a: Event, events: seq<Event>)
    requires |events| <= 1
    ensures
      var u := Fed(t, a.bReverse, a.k);
      FeedAll(t, [a] + events) == if events == [] then u else Fed(u, events[0].bReverse, events[0].k)
  {
    FeedLast(t, [], a);
    assert [] + [a] == [a] && FeedAll(t, []) == t;
    if events == [] {
      assert [a] + events == [a];
    } else {
      assert [a] + events == [a] + [events[0]];
      FeedLast(t, [a], events[0]);
    }
  }

  lemma {:induction false} WindowOfAnswer(t: Track, syn: Event, a: Event)
    requires syn.k.kind == Syn && a.bReverse && a.k.kind == SynAck
    ensures Fed(Fed(t, false, syn.k), a.bReverse, a.k).server.winsizeCalc == Wrap(a.k.win)
  {
  }

  lemma {:induction false} WindowBegins(t: Track, syn: Event, a: Event, events: seq<Event>)
    requires Connection(syn, [a] + events) && |events| <= 1
    requires a.k.kind == SynAck && (events != [] ==> events[0].k.kind != SynAck)
      && (t.state == SYN ==> t.server.scale == 0)
    ensures
      var u := FeedAll(Fed(t, false, syn.k), [a] + events);
      && u.server.winsizeCalc == WindowAfter(a.k, events)
      && (events != [] ==>
            u.state != SYN && u.server.scale == if a.k.scale.Scale? then a.k.scale.shift else 0)
  {
    FeedTwo(Fed(t, false, syn.k), a, events);
    assert ([a] + events)[0] == a;
    WindowOfAnswer(t, syn, a);
    if events != [] {
      assert [a] + events == [a, events[0]] && events[..0] == [];
      WindowStarts(t, syn, a, events[0]);
    }
  }

  /**
    Over any connection with one answer to the SYN before the first other packet, the window is the
    last one the server announced, shifted by the scale of that answer.
   */
  lemma {:induction false} ConnectionWindow(t: Track, syn: Event, a: Event, events: seq<Event>)
    requires Connection(syn, [a] + events) && AllClose(syn.End(), [a] + events)
    requires a.k.kind == SynAck && (events != [] ==> events[0].k.kind != SynAck)
      && (t.state == SYN ==> t.server.scale == 0)
    ensures
      var u := FeedAll(Fed(t, false, syn.k), [a] + events);
      && u.server.winsizeCalc == WindowAfter(a.k, events)
      && (events != [] ==>
            u.state != SYN && u.server.scale == if a.k.scale.Scale? then a.k.scale.shift else 0)
    decreases |events|
  {
    var first := Fed(t, false, syn.k);
    assert ([a] + events)[0] == a;
    if |events| <= 1 {
      WindowBegins(t, syn, a, events);
    } else {
      var n := |events| - 1;
      var past, e := events[..n], events[n];
      assert ([a] + events)[..n + 1] == [a] + past && [a] + past + [e] == [a] + events;
      ConnectionWindow(t, syn, a, past);
      FeedLast(first, [a] + past, e);
      assert ([a] + events)[n + 1] == e;
      ConnectionTracked(t, syn, [a] + past);
      NeverRestarts(FeedAll(first, [a] + past), syn, [a] + past, e);
      WindowNext(FeedAll(first, [a] + past), e);
    }
  }

  // ---------------------------------------------------------------------------------------
  // The ledger of a connection
  // ---------------------------------------------------------------------------------------

  /** How many packets came from one side, how many of them with data, and how much data. */
  function CountOf(events: seq<Event>, bReverse: bool): (nat, nat, nat)
    decreases |events|
  {
    if events == [] then (0, 0, 0)
    else
      var n := |events| - 1;
      var c, k := CountOf(events[..n], bReverse), events[n].k;
      if events[n].bReverse != bReverse then c
      else (c.0 + 1, c.1 + (if k.len > 0 then 1 else 0), c.2 + k.len)
  }

  predicate CountedUp(before: Position, after: Position, c: (nat, nat, nat)) {
    && after.pcounter == before.pcounter + c.0 && after.pdcounter == before.pdcounter + c.1
    && after.pbcounter == before.pbcounter + c.2
  }

  /** The position that a packet has for the client: its own, or the one that the server acknowledges. */
  function ClientPosition(e: Event): uint32 {
    if e.bReverse then e.k.ack else e.k.sn
  }

  ghost predicate WentFar(events: seq<Event>, seq0: uint32) {
    exists i :: 0 <= i < |events| && Negative(Wrap(ClientPosition(events[i]) - seq0))
  }

  /** The counters of both sides, and whether the client has ever been more than 2^31 beyond its start. */
  ghost predicate Ledger(v: Track, u: Track, syn: Event, events: seq<Event>) {
    && CountedUp(v.client, u.client, CountOf(events, false)) && CountedUp(v.server, u.server, CountOf(events, true))
    && (u.client.over2G <==> v.client.over2G || WentFar(events, syn.k.sn))
  }

  lemma {:induction false} WentFarNext(past: seq<Event>, e: Event, all: seq<Event>, seq0: uint32)
    requires all == past + [e]
    ensures WentFar(all, seq0) <==> WentFar(past, seq0) || Negative(Wrap(ClientPosition(e) - seq0))
  {
    assert all[|past|] == e;
    if i :| 0 <= i < |past| && Negative(Wrap(ClientPosition(past[i]) - seq0)) {
      assert all[i] == past[i];
    }
  }

  lemma {:induction false} CountNext(past: seq<Event>, e: Event, all: seq<Event>, bReverse: bool)
    requires all == past + [e]
    ensures
      var c := CountOf(past, bReverse);
      CountOf(all, bReverse) ==
        if e.bReverse != bReverse then c else (c.0 + 1, c.1 + (if e.k.len > 0 then 1 else 0), c.2 + e.k.len)
  {
    assert all[..|past|] == past && all[|past|] == e;
  }

  /** What one packet enters. */
  lemma {:induction false} Entered(u: Track, e: Event)
    requires e.k.kind != Syn && !Restarts(u, e.k) && (e.k.kind == SynAck ==> Wrap(e.k.ack - 1) == u.client.seq0)
    ensures
      var w, c := Fed(u, e.bReverse, e.k), (1, if e.k.len > 0 then 1 else 0, e.k.len);
      && CountedUp(u.client, w.client, if e.bReverse then (0, 0, 0) else c)
      && CountedUp(u.server, w.server, if e.bReverse then c else (0, 0, 0))
      && (w.client.over2G <==> u.client.over2G || Negative(Wrap(ClientPosition(e) - u.client.seq0)))
  {
  }

  lemma {:induction false} LedgerNext(v: Track, u: Track, syn: Event, past: seq<Event>, e: Event, all: seq<Event>)
    requires Ledger(v, u, syn, past) && u.client.seq0 == syn.k.sn && !Restarts(u, e.k) && Follows(syn, e)
    requires all == past + [e]
    ensures Ledger(v, Fed(u, e.bReverse, e.k), syn, all)
  {
    AckTells(e.k.ack, syn.k.sn);
    Entered(u, e);
    CountNext(past, e, all, false);
    CountNext(past, e, all, true);
    WentFarNext(past, e, all, syn.k.sn);
  }

  /** Over any connection the ledger is right. */
  lemma {:induction false} ConnectionLedger(t: Track, syn: Event, events: seq<Event>)
    requires Connection(syn, events) && AllClose(syn.End(), events)
    ensures Ledger(Fed(t, false, syn.k), FeedAll(Fed(t, false, syn.k), events), syn, events)
    decreases |events|
  {
    if events != [] {
      var n, v := |events| - 1, Fed(t, false, syn.k);
      assert events[..n] + [events[n]] == events;
      ConnectionTracked(t, syn, events[..n]);
      ConnectionLedger(t, syn, events[..n]);
      FeedLast(v, events[..n], events[n]);
      NeverRestarts(FeedAll(v, events[..n]), syn, events[..n], events[n]);
      LedgerNext(v, FeedAll(v, events[..n]), syn, events[..n], events[n], events);
    }
  }
}

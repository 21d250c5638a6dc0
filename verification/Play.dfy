/**
  The reassembly parts of dpi_desync_tcp_packet_play and dpi_desync_udp_packet_play in
  nfq2/desync.c, on a track that they update in place.
 */
module Play {
  import opened DelayQueue
  import opened Reassembly
  import opened Tls
  import opened Words

  class Session {
    const reasm: Reassemble
    var delayed: seq<Delayed>
    ghost var left: seq<Departure>

    ghost predicate Valid()
      reads this, reasm
    {
      reasm.Valid()
    }

    ghost function Value(): (t: Track)
      reads this, reasm, reasm.packet
      requires Valid()
      ensures t.reasm.Valid()
    {
      Track(reasm.Value(), delayed, left)
    }

    /** ConntrackInitTrack */
    constructor ()
      ensures Valid() && fresh(reasm) && fresh(reasm.packet) && Value() == Track(Reasm(0, [], 0), [], [])
    {
      reasm := new Reassemble();
      delayed, left := [], [];
    }

    /** The buffer is the one it was, or a new one. */
    twostate predicate KeepsBuffer()
      reads reasm
    {
      reasm.packet == old(reasm.packet) || fresh(reasm.packet)
    }

    // -------------------------------------------------------------------------------------
    // The queue
    // -------------------------------------------------------------------------------------

    /** rawpacket_queue */
    method Queue(d: Delayed)
      requires Valid()
      modifies this`delayed
      ensures Valid() && Value() == Enqueue(old(Value()), d)
    {
      delayed := delayed + [d];
    }

    /** rawpacket_dequeue, of a queue that is not empty */
    method Dequeue() returns (d: Delayed)
      requires delayed != []
      modifies this`delayed
      ensures old(delayed) == [d] + delayed
    {
      d := delayed[0];
      delayed := delayed[1..];
    }

    /** send_delayed */
    method SendDelayed()
      requires Valid()
      modifies this`delayed, this`left
      ensures Valid() && Value() == DelayQueue.SendDelayed(old(Value()))
    {
      ghost var all := left + ResentAll(delayed);
      while delayed != []
        invariant Valid() && left + ResentAll(delayed) == all
        decreases |delayed|
      {
        var rp := Dequeue();
        left := left + [Resent(rp)];
      }
    }

    /** replay_queue */
    method ReplayQueue(desync: Desync)
      requires Valid()
      modifies this`delayed, this`left
      ensures Valid() && Value() == DelayQueue.ReplayQueue(old(Value()), desync)
    {
      var i, offset, count, seq0: uint32 := 0, 0, |delayed|, 0;
      ghost var message := reasm.packet[..reasm.sizePresent];
      ghost var all := left + Replay(delayed, i, count, offset, seq0, message, desync);
      while delayed != []
        invariant Valid() && 0 <= i && 0 <= offset
          && left + Replay(delayed, i, count, offset, seq0, message, desync) == all
        decreases |delayed|
      {
        ghost var q, i0, o0, s0, l0 := delayed, i, offset, seq0, left;
        var rp := Dequeue();
        if rp.tcp {
          if i > 0 {
            offset := Wrap(rp.sn - seq0);
          } else {
            seq0 := rp.sn;
          }
        }
        var verdict := desync(rp, i, count, offset);
        left := left + [Replayed(rp, i, count, offset, message, verdict)];
        if !rp.tcp {
          offset := offset + |rp.payload|;
        }
        i := i + 1;
        ReplayOne(q, i0, count, o0, s0, message, desync, l0, left, i, offset, seq0);
      }
    }

    // -------------------------------------------------------------------------------------
    // The reassembly
    // -------------------------------------------------------------------------------------

    /** reasm_start */
    method StartReasm(sn: uint32, sz: nat, szMax: nat, payload: seq<byte>) returns (ok: bool)
      requires Valid()
      modifies reasm, reasm.packet
      ensures Valid() && KeepsBuffer() && (ok, Value()) == Start(old(Value()), sn, sz, szMax, payload)
    {
      reasm.ReasmClear();
      if sz > szMax {
        return false;
      }
      reasm.ReasmInit(sz, sn);
      var fed := reasm.ReasmFeed(sn, payload);
      return true;
    }

    /** reasm_feed */
    method FeedReasm(sn: uint32, payload: seq<byte>) returns (ok: bool)
      requires Valid()
      modifies this`delayed, this`left, reasm, reasm.packet
      ensures Valid() && KeepsBuffer() && (ok, Value()) == FeedTrack(old(Value()), sn, payload)
    {
      if reasm.size == 0 {
        return false;
      }
      ok := reasm.ReasmFeed(sn, payload);
      if !ok {
        reasm.ReasmClear();
        SendDelayed();
      }
    }

    /** reasm_client_stop */
    method StopReasm()
      requires Valid()
      modifies this`delayed, this`left, reasm
      ensures Valid() && KeepsBuffer() && Value() == Stop(old(Value()))
    {
      if reasm.size != 0 {
        reasm.ReasmClear();
      }
      SendDelayed();
    }

    /** Queue the packet, and replay the queue when the message is complete. */
    method DelayPacket(d: Delayed, full: bool, desync: Desync)
      requires Valid()
      modifies this`delayed, this`left, reasm
      ensures Valid() && KeepsBuffer() && Value() == Delay(old(Value()), d, full, desync)
    {
      Queue(d);
      if full {
        ReplayQueue(desync);
        StopReasm();
      }
    }

    // -------------------------------------------------------------------------------------
    // TCP
    // -------------------------------------------------------------------------------------

    /** dp_rediscovery and pass_reasm_cancel */
    method FindProfile(i: TcpInput)
      requires Valid()
      modifies this`delayed, this`left, reasm
      ensures Valid() && KeepsBuffer() && Value() == Rediscover(old(Value()), i)
    {
      if !i.rediscovered {
        StopReasm();
      }
    }

    method PlayTcp(i: TcpInput, desync: Desync)
      requires Valid()
      modifies this`delayed, this`left, reasm, reasm.packet
      ensures Valid() && KeepsBuffer() && Value() == TcpStep(old(Value()), i, desync)
    {
      if !i.profile {
        return;
      }
      if !i.bReverse && !i.syn && i.packet.payload != [] {
        var rdata := i.packet.payload;
        var fed := FeedReasm(i.packet.sn, i.packet.payload);
        if fed {
          rdata := reasm.packet[..reasm.sizePresent];
        }
        var tls := if reasm.size == 0 then !i.payloadOff && IsTLSClientHello(rdata, true) else i.protoTls;
        if tls {
          PlayHello(i, rdata, desync);
          return;
        }
      }
      FindProfile(i);
    }

    /** A ClientHello, whole or not. */
    method PlayHello(i: TcpInput, rdata: seq<byte>, desync: Desync)
      requires Valid() && (reasm.size == 0 ==> rdata == i.packet.payload && IsTLSClientHello(rdata, true))
      modifies this`delayed, this`left, reasm, reasm.packet
      ensures Valid() && KeepsBuffer() && Value() == HelloStep(old(Value()), i, rdata, desync)
    {
      if !i.reasmOff {
        var bReqFull := RecordFull(rdata);
        if !bReqFull && reasm.size == 0 && !i.retransmission {
          var size := RecordLen(i.packet.payload);
          var started := false;
          if !TooSmall(i.window, size) {
            started := StartReasm(i.packet.sn, size, TCP_MAX_REASM, i.packet.payload);
          }
          if !started {
            FindProfile(i);
            return;
          }
        }
        if reasm.size != 0 {
          DelayPacket(i.packet, reasm.size == reasm.sizePresent, desync);
          return;
        }
      }
      FindProfile(i);
    }

    // -------------------------------------------------------------------------------------
    // UDP
    // -------------------------------------------------------------------------------------

    method PlayUdp(i: UdpInput, crypto: seq<byte> -> Crypto, desync: Desync)
      requires Valid()
      modifies this`delayed, this`left, reasm, reasm.packet
      ensures Valid() && KeepsBuffer() && Value() == UdpStep(old(Value()), i, crypto, desync)
    {
      if !i.profile {
        return;
      }
      if i.packet.payload != [] && !i.bReverse && i.clean.Clean? {
        var clean := i.clean.data;
        if !i.reasmOff && reasm.size != 0 {
          if reasm.sizePresent + |clean| > reasm.size {
            StopReasm();
            return;
          }
          var fed := FeedReasm(Wrap(reasm.sizePresent), clean);
          clean := reasm.packet[..reasm.sizePresent];
        }
        PlayQuic(i.packet, i.clean.data, i.reasmOff, crypto(clean), desync);
        return;
      }
      StopReasm();
    }

    method PlayQuic(d: Delayed, clean: seq<byte>, reasmOff: bool, c: Crypto, desync: Desync)
      requires Valid()
      modifies this`delayed, this`left, reasm, reasm.packet
      ensures Valid() && KeepsBuffer() && Value() == QuicStep(old(Value()), d, clean, reasmOff, c, desync)
    {
      if !c.NoCrypto? && !reasmOff {
        var bReqFull := c.Covered? && c.hello && c.whole;
        if reasm.size == 0 && (c.Holes? || (c.hello && !bReqFull)) {
          var started := StartReasm(0, UDP_MAX_REASM, UDP_MAX_REASM, clean);
        }
        if reasm.size != 0 {
          DelayPacket(d, bReqFull, desync);
          return;
        }
      }
      StopReasm();
    }
  }

  /** One round of the replay loop. */
  lemma {:induction false} ReplayOne(q: seq<Delayed>, i: nat, count: nat, offset: nat, seq0: uint32,
      message: seq<byte>, desync: Desync, l: seq<Departure>, l': seq<Departure>, i': nat, offset': nat, seq0': uint32)
    requires q != [] && i' == i + 1
    requires
      var p := q[0];
      var at := if p.tcp && i > 0 then Wrap(p.sn - seq0) else offset;
      && l' == l + [Replayed(p, i, count, at, message, desync(p, i, count, at))]
      && offset' == (if p.tcp then at else at + |p.payload|) && seq0' == if p.tcp && i == 0 then p.sn else seq0
    ensures l' + Replay(q[1..], i', count, offset', seq0', message, desync) ==
      l + Replay(q, i, count, offset, seq0, message, desync)
  {
    var p := q[0];
    var at := if p.tcp && i > 0 then Wrap(p.sn - seq0) else offset;
    var first := Replayed(p, i, count, at, message, desync(p, i, count, at));
    var rest := Replay(q[1..], i', count, offset', seq0', message, desync);
    assert l + [first] + rest == l + ([first] + rest);
  }
}

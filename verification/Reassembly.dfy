/** t_reassemble of nfq2/conntrack.c: one message put together from segments that follow each other. */
module Reassembly {
  import opened Words

  // ---------------------------------------------------------------------------------------
  // Sequence numbers
  // ---------------------------------------------------------------------------------------

  /** A number as an unsigned 32-bit word. */
  function Wrap(x: int): uint32 {
    x % TWO_32
  }

  lemma {:induction false} WrapIs(x: int, k: int, w: nat)
    requires w < TWO_32 && x == w + k * TWO_32
    ensures Wrap(x) == w
  {
  }

  /** Differences of sequence numbers are differences of positions, wrapped. */
  lemma {:induction false} WrapSub(a: int, b: int)
    ensures Wrap(Wrap(a) - Wrap(b)) == Wrap(a - b) && Wrap(Wrap(a) + b) == Wrap(a + b)
  {
    var i, j := a / TWO_32, b / TWO_32;
    var d, e := Wrap(a) - Wrap(b), Wrap(a) + b;
    WrapIs(a - b, d / TWO_32 + i - j, Wrap(d));
    WrapIs(a + b, e / TWO_32 + i, Wrap(e));
  }

  lemma {:induction false} WrapSmall(a: int)
    requires -TWO_32 <= a < TWO_32
    ensures Wrap(a) == if a < 0 then a + TWO_32 else a
  {
  }

  // ---------------------------------------------------------------------------------------
  // What a segment does
  // ---------------------------------------------------------------------------------------

  /** A message of size bytes, of which data is there; next is the sequence number after data. */
  datatype Reasm = Reasm(size: nat, data: seq<byte>, next: uint32) {
    predicate Valid() {
      |data| <= size
    }

    /** ReasmIsEmpty: nothing is being reassembled. */
    predicate IsEmpty() {
      size == 0
    }

    /** ReasmIsFull */
    predicate IsFull() {
      size != 0 && |data| == size
    }
  }

  const REASM_MAX_NEG := 0x10_0000

  /** The bytes of a segment before the message are ignored, its other bytes replace what is there. */
  function Feed(r: Reasm, sn: uint32, payload: seq<byte>): (f: (bool, Reasm))
    requires r.Valid()
    ensures f.1.Valid() && f.1.size == r.size
  {
    var ahead, behind := Wrap(sn - r.next), Wrap(r.next - sn);
    if (ahead != 0 && ahead < REASM_MAX_NEG) || behind > REASM_MAX_NEG then (false, r)
    else
      var ignore := if behind > |r.data| then behind - |r.data| else 0;
      if ignore >= |payload| then (true, r)
      else
        var start := |r.data| - (behind - ignore);
        if start + (|payload| - ignore) > r.size then (false, r) else (true, Placed(r, start, payload[ignore..]))
  }

  /** The bytes replace what is at start, and may go on beyond what was there. */
  function Placed(r: Reasm, start: nat, data: seq<byte>): (p: Reasm)
    requires start <= |r.data| && start + |data| <= r.size
    ensures r.Valid() ==> p.Valid() && p.size == r.size
  {
    var end := start + |data|;
    if end > |r.data| then Reasm(r.size, r.data[..start] + data, Wrap(r.next + (end - |r.data|)))
    else r.(data := r.data[..start] + data + r.data[end..])
  }

  // ---------------------------------------------------------------------------------------
  // The buffer
  // ---------------------------------------------------------------------------------------

  /** What is there after data was copied to at. */
  lemma {:induction false} PlacedPrefix(p: seq<byte>, q: seq<byte>, at: nat, data: seq<byte>, present: nat)
    requires at <= present <= |p| && at + |data| <= |p| && q == p[..at] + data + p[at + |data|..]
    ensures at + |data| > present ==> q[..at + |data|] == p[..present][..at] + data
    ensures at + |data| <= present ==> q[..present] == p[..present][..at] + data + p[..present][at + |data|..]
  {
  }

  class Reassemble {
    var packet: array<byte>
    var next: uint32
    var size: nat
    var sizePresent: nat

    ghost predicate Valid()
      reads this
    {
      size == packet.Length && sizePresent <= size
    }

    ghost function Value(): (r: Reasm)
      reads this, packet
      requires Valid()
      ensures r.Valid()
    {
      Reasm(size, packet[..sizePresent], next)
    }

    /** A track starts with all fields zero. */
    constructor ()
      ensures Valid() && fresh(packet) && Value() == Reasm(0, [], 0)
    {
      packet := new byte[0];
      size, sizePresent, next := 0, 0, 0;
    }

    /** ReasmInit for a message of sizeRequested bytes that starts at sequence number seqStart */
    method ReasmInit(sizeRequested: nat, seqStart: uint32)
      modifies this
      ensures Valid() && fresh(packet)
      ensures Value() == Reasm(sizeRequested, [], seqStart)
    {
      packet := new byte[sizeRequested];
      size, sizePresent, next := sizeRequested, 0, seqStart;
    }

    method ReasmClear()
      modifies this
      ensures Valid() && fresh(packet) && Value() == Reasm(0, [], old(next))
    {
      packet := new byte[0];
      size, sizePresent := 0, 0;
    }

    method ReasmFeed(sn: uint32, payload: seq<byte>) returns (ok: bool)
      requires Valid()
      modifies this`next, this`sizePresent, packet
      ensures Valid() && packet == old(packet) && (ok, Value()) == Feed(old(Value()), sn, payload)
    {
      var dseq := Wrap(sn - next);
      if dseq != 0 && dseq < REASM_MAX_NEG {
        return false;
      }
      var negOverlap := Wrap(next - sn);
      if negOverlap > REASM_MAX_NEG {
        return false;
      }
      var szignore := if negOverlap > sizePresent then negOverlap - sizePresent else 0;
      if szignore >= |payload| {
        return true;
      }
      var szcopy := |payload| - szignore;
      negOverlap := negOverlap - szignore;
      if sizePresent - negOverlap + szcopy > size {
        return false;
      }
      Place(sizePresent - negOverlap, negOverlap, payload[szignore..]);
      return true;
    }

    /** The end of ReasmFeed: copy to the place of the segment, and move on if it goes beyond what was present. */
    method Place(at: nat, negOverlap: nat, data: seq<byte>)
      requires Valid() && at + |data| <= size && at + negOverlap == sizePresent
      modifies this`next, this`sizePresent, packet
      ensures Valid() && packet == old(packet) && Value() == Placed(old(Value()), at, data)
    {
      ghost var p := packet[..];
      Copy(at, data);
      PlacedPrefix(p, packet[..], at, data, sizePresent);
      if |data| > negOverlap {
        next := Wrap(next + (|data| - negOverlap));
        sizePresent := sizePresent + (|data| - negOverlap);
      }
    }

    /** memcpy */
    method Copy(at: nat, data: seq<byte>)
      requires at + |data| <= packet.Length
      modifies packet
      ensures packet[..] == old(packet[..at]) + data + old(packet[at + |data|..])
    {
      forall i | 0 <= i < |data| {
        packet[at + i] := data[i];
      }
      forall i | at <= i < at + |data|
        ensures packet[i] == data[i - at]
      {
        assert packet[at + (i - at)] == data[i - at];
      }
    }
  }

  // ---------------------------------------------------------------------------------------
  // Segments of one stream
  // ---------------------------------------------------------------------------------------

  /** A stream without end, also before the message. */
  type Stream = int -> byte

  /** Position 0 of the stream has sequence number start; what is there is the beginning of the stream. */
  ghost predicate Follows(r: Reasm, start: uint32, stream: Stream) {
    r.Valid() && r.next == Wrap(start + |r.data|) && forall i :: 0 <= i < |r.data| ==> r.data[i] == stream(i)
  }

  /** A piece of a stream, from a position on that may lie before the message. */
  datatype Segment = Segment(off: int, data: seq<byte>) {
    function End(): int {
      off + |data|
    }

    ghost predicate Of(stream: Stream) {
      forall i :: 0 <= i < |data| ==> data[i] == stream(off + i)
    }
  }

  /** Within half the sequence space of the end of what is present. */
  predicate Near(s: Segment, present: nat) {
    -0x8000_0000 <= s.off - present < 0x8000_0000
  }

  /** A segment is taken exactly when it leaves no gap, does not reach back too far, and ends inside the message. */
  predicate Takes(r: Reasm, s: Segment) {
    s.off <= |r.data| <= s.off + REASM_MAX_NEG && s.End() <= r.size
  }

  /** Sequence number distances, for a segment nearby. */
  lemma {:induction false} Distances(r: Reasm, start: uint32, s: Segment)
    requires r.next == Wrap(start + |r.data|) && Near(s, |r.data|)
    ensures
      var ahead, behind := Wrap(Wrap(start + s.off) - r.next), Wrap(r.next - Wrap(start + s.off));
      && (ahead == 0 <==> s.off == |r.data|)
      && (s.off > |r.data| ==> ahead == s.off - |r.data| && behind == TWO_32 - (s.off - |r.data|))
      && (s.off <= |r.data| ==>
        behind == |r.data| - s.off && (s.off < |r.data| ==> ahead == TWO_32 - (|r.data| - s.off)))
  {
    WrapSub(start + s.off, start + |r.data|);
    WrapSub(start + |r.data|, start + s.off);
    WrapSmall(s.off - |r.data|);
    WrapSmall(|r.data| - s.off);
  }

  lemma {:induction false} PlaceSegment(r: Reasm, start: uint32, stream: Stream, s: Segment, at: nat, data: seq<byte>)
    requires Follows(r, start, stream) && s.Of(stream) && Takes(r, s) && at == Greatest(0, s.off) && s.End() > 0
    requires data == s.data[at - s.off..]
    ensures at + |data| == s.End() && |Placed(r, at, data).data| == Greatest(|r.data|, s.End())
    ensures Follows(Placed(r, at, data), start, stream)
  {
    var p := Placed(r, at, data);
    WrapSub(start + |r.data|, s.End() - |r.data|);
    forall i | 0 <= i < |p.data|
      ensures p.data[i] == stream(i)
    {
      if at <= i < s.End() {
        assert p.data[i] == data[i - at] == s.data[i - s.off];
        assert stream(i) == stream(s.off + (i - s.off));
      } else {
        assert p.data[i] == r.data[i];
      }
    }
  }

  /**
    One segment: taken or refused by its place alone; a refusal changes nothing; what is present
    stays the beginning of the stream.
   */
  lemma {:induction false} FeedSegment(r: Reasm, start: uint32, stream: Stream, s: Segment)
    requires Follows(r, start, stream) && Near(s, |r.data|) && s.Of(stream)
    ensures
      var f := Feed(r, Wrap(start + s.off), s.data);
      && (f.0 <==> Takes(r, s)) && (!f.0 ==> f.1 == r)
      && (f.0 ==> |f.1.data| == Greatest(|r.data|, s.End())) && Follows(f.1, start, stream)
  {
    Distances(r, start, s);
    if Takes(r, s) && s.End() > 0 && s.data != [] {
      var at := Greatest(0, s.off);
      PlaceSegment(r, start, stream, s, at, s.data[at - s.off..]);
    }
  }

  // ---------------------------------------------------------------------------------------
  // Runs
  // ---------------------------------------------------------------------------------------

  /** Feed one segment after the other, whatever the answers. */
  function Run(r: Reasm, start: uint32, segments: seq<Segment>): (q: Reasm)
    requires r.Valid()
    ensures q.Valid() && q.size == r.size
    decreases |segments|
  {
    if segments == [] then r else Run(Feed(r, Wrap(start + segments[0].off), segments[0].data).1, start, segments[1..])
  }

  /** What is present after a segment, by its place alone. */
  function After(present: nat, size: nat, s: Segment): nat {
    if s.off <= present <= s.off + REASM_MAX_NEG && s.End() <= size then Greatest(present, s.End()) else present
  }

  function PresentAfter(present: nat, size: nat, segments: seq<Segment>): nat
    decreases |segments|
  {
    if segments == [] then present else PresentAfter(After(present, size, segments[0]), size, segments[1..])
  }

  /** Every segment is a piece of the stream, and near the end of what is present when it comes. */
  ghost predicate Pieces(present: nat, size: nat, stream: Stream, segments: seq<Segment>)
    decreases |segments|
  {
    segments != [] ==>
      var s := segments[0];
      && Near(s, present) && s.Of(stream) && Pieces(After(present, size, s), size, stream, segments[1..])
  }

  /**
    Any run: the buffer always holds the beginning of the stream, without a gap, the expected
    sequence number is that of the next byte, and how far it got depends on the places of the
    segments only.
   */
  lemma {:induction false} RunFollows(r: Reasm, start: uint32, stream: Stream, segments: seq<Segment>)
    requires Follows(r, start, stream) && Pieces(|r.data|, r.size, stream, segments)
    ensures Follows(Run(r, start, segments), start, stream)
    ensures |Run(r, start, segments).data| == PresentAfter(|r.data|, r.size, segments)
    decreases |segments|
  {
    if segments != [] {
      var s := segments[0];
      FeedSegment(r, start, stream, s);
      RunFollows(Feed(r, Wrap(start + s.off), s.data).1, start, stream, segments[1..]);
    }
  }

  /** When the message is full, it is the first bytes of the stream, to the last one. */
  lemma {:induction false} FullMessage(size: nat, start: uint32, stream: Stream, segments: seq<Segment>, r: Reasm)
    requires Pieces(0, size, stream, segments) && r == Run(Reasm(size, [], start), start, segments) && r.IsFull()
    ensures r.data == seq(size, i => stream(i)) && r.next == Wrap(start + size)
  {
    WrapSmall(start);
    RunFollows(Reasm(size, [], start), start, stream, segments);
  }

  /** UDP payloads are numbered by what is there, so each is appended when there is room. */
  lemma {:induction false} FeedNext(r: Reasm, payload: seq<byte>)
    requires r.Valid() && r.next == Wrap(|r.data|)
    ensures
      var f := Feed(r, Wrap(|r.data|), payload);
      && (f.0 <==> |r.data| + |payload| <= r.size) && f.1.next == Wrap(|f.1.data|)
      && (f.0 ==> f.1.data == r.data + payload)
  {
    WrapSub(|r.data|, |payload|);
    WrapSmall(0);
  }
}

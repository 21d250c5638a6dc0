/**
  Variable-length integers and CRYPTO frames of QUIC, as nfq2/protocol.c reads them (RFC 9000,
  sections 16 and 19.6).
 */
module Quic {
  import opened Blocks
  import opened Words

  // ---------------------------------------------------------------------------------------
  // Variable-length integers
  // ---------------------------------------------------------------------------------------

  /** tvb_get_size */
  function GetSize(b: byte): (n: nat)
    ensures n == 1 || n == 2 || n == 4 || n == 8
  {
    if b / 64 == 0 then 1 else if b / 64 == 1 then 2 else if b / 64 == 2 then 4 else 8
  }

  /** The first value that does not fit a variable-length integer of n bytes. */
  function VarLimit(n: nat): nat {
    if n == 1 then 0x40 else if n == 2 then 0x4000 else if n == 4 then 0x4000_0000 else 0x4000_0000_0000_0000
  }

  /** tvb_get_varint: the value; GetSize tells how many bytes it takes. */
  function GetVarint(data: seq<byte>, pos: nat): (v: nat)
    requires pos < |data| && pos + GetSize(data[pos]) <= |data|
    ensures v < VarLimit(GetSize(data[pos]))
  {
    var n := GetSize(data[pos]);
    UintAt(data, pos, n) % VarLimit(n)
  }

  /** The two bits that tell the length, in the first byte. */
  function SizeBits(n: nat): byte {
    if n == 1 then 0 else if n == 2 then 0x40 else if n == 4 then 0x80 else 0xC0
  }

  /** A value as a variable-length integer of n bytes. */
  function PutVarint(v: nat, n: nat): (b: seq<byte>)
    requires (n == 1 || n == 2 || n == 4 || n == 8) && v < VarLimit(n)
    ensures |b| == n
  {
    TopBits(v, n);
    var b := Be(v, n);
    b[0 := SizeBits(n) + b[0]]
  }

  lemma {:induction false} TopByte(v: nat, n: nat)
    requires n > 0 && v < 64 * Pow256(n - 1)
    ensures Be(v, n)[0] < 64
  {
    if n > 1 {
      TopByte(v / 256, n - 1);
    }
  }

  /** Values below the limit leave the two bits free. */
  lemma {:induction false} TopBits(v: nat, n: nat)
    requires (n == 1 || n == 2 || n == 4 || n == 8) && v < VarLimit(n)
    ensures Be(v, n)[0] < 64
  {
    assert Pow256(3) == 0x100_0000;
    assert Pow256(7) == 0x100_0000 * 0x1_0000_0000;
    TopByte(v, n);
  }

  /** A number with something added to its first byte. */
  lemma {:induction false} FromBeTop(b: seq<byte>, t: nat)
    requires b != [] && t + b[0] < 256
    ensures FromBe(b[0 := t + b[0]]) == FromBe(b) + t * Pow256(|b| - 1)
    decreases |b|
  {
    var c, n := b[0 := t + b[0]], |b| - 1;
    if n > 0 {
      assert c[..n] == b[..n][0 := t + b[0]];
      FromBeTop(b[..n], t);
    } else {
      assert b[..0] == [] && c[..0] == [];
    }
  }

  lemma {:induction false} MaskedVarint(v: nat, n: nat, x: nat)
    requires (n == 1 || n == 2 || n == 4 || n == 8) && v < VarLimit(n) && x == v + SizeBits(n) * Pow256(n - 1)
    ensures x % VarLimit(n) == v
  {
    assert Pow256(3) == 0x100_0000;
    assert Pow256(7) == 0x100_0000 * 0x1_0000_0000;
  }

  /** What PutVarint writes, GetVarint reads. */
  lemma {:induction false} VarintRoundTrip(data: seq<byte>, pos: nat, v: nat, n: nat)
    requires (n == 1 || n == 2 || n == 4 || n == 8) && v < VarLimit(n)
    requires pos + n <= |data| && data[pos..pos + n] == PutVarint(v, n)
    ensures GetSize(data[pos]) == n && GetVarint(data, pos) == v
  {
    var b, c := Be(v, n), data[pos..pos + n];
    TopBits(v, n);
    assert c[0] == data[pos];
    assert Pow256(1) == 0x100 && Pow256(2) == 0x1_0000 && Pow256(4) == 0x1_0000_0000;
    assert Pow256(8) == 0x1_0000_0000 * 0x1_0000_0000;
    FromBeOfBe(v, n);
    FromBeTop(b, SizeBits(n));
    UintIsFromBe(data, pos, n);
    MaskedVarint(v, n, FromBe(c));
  }

  lemma {:induction false} FromBeSmall(b: seq<byte>)
    requires b != [] && b[0] < 64
    ensures FromBe(b) < 64 * Pow256(|b| - 1)
    decreases |b|
  {
    var n := |b| - 1;
    if n > 0 {
      FromBeSmall(b[..n]);
    } else {
      assert b[..0] == [];
    }
  }

  lemma {:induction false} SizeBitsOf(c: byte)
    ensures SizeBits(GetSize(c)) <= c < SizeBits(GetSize(c)) + 64
  {
  }

  /** The bytes of an integer without the two bits that tell its length. */
  lemma {:induction false} TopRemoved(c: seq<byte>, n: nat) returns (b: seq<byte>)
    requires c != [] && n == |c| == GetSize(c[0])
    ensures |b| == n && b[0] < 64 && b[0 := SizeBits(n) + b[0]] == c
    ensures FromBe(b) < VarLimit(n) && FromBe(c) == FromBe(b) + SizeBits(n) * Pow256(n - 1)
  {
    SizeBitsOf(c[0]);
    b := c[0 := c[0] - SizeBits(n)];
    assert b[0 := SizeBits(n) + b[0]] == c;
    FromBeTop(b, SizeBits(n));
    FromBeSmall(b);
    assert Pow256(1) == 0x100 && Pow256(3) == 0x100_0000 && Pow256(7) == 0x100_0000 * 0x1_0000_0000;
  }

  /** Every integer that is read is one that could have been written. */
  lemma {:induction false} VarintIsWritten(data: seq<byte>, pos: nat, n: nat)
    requires pos < |data| && n == GetSize(data[pos]) && pos + n <= |data|
    ensures data[pos..pos + n] == PutVarint(GetVarint(data, pos), n)
  {
    var c := data[pos..pos + n];
    var b := TopRemoved(c, n);
    UintIsFromBe(data, pos, n);
    MaskedVarint(FromBe(b), n, FromBe(c));
    BeFromBe(b);
  }

  // ---------------------------------------------------------------------------------------
  // CRYPTO frames
  // ---------------------------------------------------------------------------------------

  /** A CRYPTO frame: data that belongs at an offset of the handshake stream. */
  datatype Frame = Frame(offset: nat, data: seq<byte>) {
    function End(): nat {
      offset + |data|
    }

    predicate At(k: nat) {
      offset <= k < End()
    }

    predicate SameRange(f: Frame) {
      offset == f.offset && |data| == |f.data|
    }
  }

  const MAX_DEFRAG_PIECES := 128

  predicate Known(frames: seq<Frame>, f: Frame) {
    exists i :: 0 <= i < |frames| && frames[i].SameRange(f)
  }

  /** Exact duplicates are dropped. */
  function AddFrame(frames: seq<Frame>, f: Frame): seq<Frame> {
    if Known(frames, f) then frames else frames + [f]
  }

  datatype Parsed = Bad | Good(frames: seq<Frame>)

  /** What follows the type byte of a CRYPTO frame; its data is the size bytes from start on. */
  datatype Header = Invalid | Header(offset: nat, start: nat, size: nat)

  /** The header of a CRYPTO frame at pos, when count more are stored already and the stream is cut at limit. */
  function ReadHeader(clean: seq<byte>, pos: nat, limit: nat, count: nat): (h: Header)
    ensures h.Header? ==>
      pos < h.start && h.start + h.size <= |clean| && h.offset + h.size <= limit && count < MAX_DEFRAG_PIECES
  {
    if pos >= |clean| || count >= MAX_DEFRAG_PIECES || pos + GetSize(clean[pos]) >= |clean| then Invalid
    else
      var offset, q := GetVarint(clean, pos), pos + GetSize(clean[pos]);
      if q + GetSize(clean[q]) > |clean| then Invalid
      else
        var sz, r := GetVarint(clean, q), q + GetSize(clean[q]);
        if r + sz > |clean| || offset + sz > limit then Invalid else Header(offset, r, sz)
  }

  /** The frame that a header announces. */
  function FrameAt(clean: seq<byte>, h: Header): Frame
    requires h.Header? && h.start + h.size <= |clean|
  {
    Frame(h.offset, clean[h.start..h.start + h.size])
  }

  /** The frames of a packet payload from pos on, when it holds only PADDING, PING and CRYPTO frames. */
  function Parse(clean: seq<byte>, pos: nat, limit: nat, frames: seq<Frame>): Parsed
    requires pos <= |clean|
    decreases |clean| - pos
  {
    if pos == |clean| then Good(frames)
    else if clean[pos] <= 1 then Parse(clean, pos + 1, limit, frames)
    else if clean[pos] != 6 then Bad
    else
      var h := ReadHeader(clean, pos + 1, limit, |frames|);
      if h.Invalid? then Bad else Parse(clean, h.start + h.size, limit, AddFrame(frames, FrameAt(clean, h)))
  }

  /** A byte of padding, or a ping. */
  lemma {:induction false} ParseSmall(clean: seq<byte>, pos: nat, limit: nat, frames: seq<Frame>)
    requires pos < |clean| && clean[pos] <= 1
    ensures Parse(clean, pos, limit, frames) == Parse(clean, pos + 1, limit, frames)
  {
  }

  /** Anything else ends it. */
  lemma {:induction false} ParseBad(clean: seq<byte>, pos: nat, limit: nat, frames: seq<Frame>)
    requires pos < |clean| && clean[pos] > 1
    requires clean[pos] != 6 || ReadHeader(clean, pos + 1, limit, |frames|).Invalid?
    ensures Parse(clean, pos, limit, frames) == Bad
  {
  }

  /** A CRYPTO frame is added, and parsing goes on after it. */
  lemma {:induction false} ParseFrame(clean: seq<byte>, pos: nat, limit: nat, frames: seq<Frame>, h: Header, f: Frame,
      next: nat)
    requires pos < |clean| && clean[pos] == 6 && h == ReadHeader(clean, pos + 1, limit, |frames|) && h.Header?
    requires f == FrameAt(clean, h) && next == h.start + h.size
    ensures Parse(clean, pos, limit, frames) == Parse(clean, next, limit, AddFrame(frames, f))
  {
  }

  /** Byte k of the stream: from the last frame that has it, 0 where none does. */
  function Content(frames: seq<Frame>, k: nat): byte {
    if frames == [] then 0
    else
      var n := |frames| - 1;
      if frames[n].At(k) then frames[n].data[k - frames[n].offset] else Content(frames[..n], k)
  }

  function MaxEnd(frames: seq<Frame>): nat {
    if frames == [] then 0
    else
      var n := |frames| - 1;
      Greatest(MaxEnd(frames[..n]), frames[n].End())
  }

  ghost predicate CoveredByFrame(frames: seq<Frame>, k: nat) {
    exists i :: 0 <= i < |frames| && frames[i].At(k)
  }

  ghost predicate Complete(frames: seq<Frame>) {
    forall k :: 0 <= k < MaxEnd(frames) ==> CoveredByFrame(frames, k)
  }

  // ---------------------------------------------------------------------------------------
  // A stream cut into frames comes back
  // ---------------------------------------------------------------------------------------

  predicate IsSlice(f: Frame, stream: seq<byte>) {
    f.End() <= |stream| && f.data == stream[f.offset..f.End()]
  }

  ghost predicate SlicesOf(frames: seq<Frame>, stream: seq<byte>) {
    forall i :: 0 <= i < |frames| ==> IsSlice(frames[i], stream)
  }

  lemma {:induction false} ContentOfStream(frames: seq<Frame>, stream: seq<byte>, k: nat)
    requires SlicesOf(frames, stream) && CoveredByFrame(frames, k)
    ensures k < |stream| && Content(frames, k) == stream[k]
    decreases |frames|
  {
    var n := |frames| - 1;
    if frames[n].At(k) {
      assert IsSlice(frames[n], stream);
    } else {
      var i :| 0 <= i < |frames| && frames[i].At(k);
      assert frames[..n][i].At(k);
      forall j | 0 <= j < n
        ensures IsSlice(frames[..n][j], stream)
      {
        assert frames[..n][j] == frames[j];
      }
      ContentOfStream(frames[..n], stream, k);
    }
  }

  /** Whatever the order and the overlaps, a complete set of slices of one stream is a prefix of it. */
  lemma {:induction false} CompleteIsPrefix(frames: seq<Frame>, stream: seq<byte>, payload: seq<byte>)
    requires SlicesOf(frames, stream) && Complete(frames)
    requires |payload| == MaxEnd(frames) && forall k :: 0 <= k < |payload| ==> payload[k] == Content(frames, k)
    ensures payload <= stream
  {
    forall k | 0 <= k < |payload|
      ensures k < |stream| && payload[k] == stream[k]
    {
      ContentOfStream(frames, stream, k);
    }
    if |payload| > 0 {
      ContentOfStream(frames, stream, |payload| - 1);
    }
  }
}

/** The frames that a QUIC sender writes, and what nfq2/protocol.c makes of them. */
module QuicFrames {
  import opened Blocks
  import opened Quic
  import opened QuicDefrag
  import opened Words

  /** A frame as sent; a sender may choose the length of its variable-length integers. */
  datatype Item =
    | Padding
    | Ping
    | Crypto(frame: Frame, offsetSize: nat, lengthSize: nat)

  predicate IsSize(n: nat) {
    n == 1 || n == 2 || n == 4 || n == 8
  }

  /** The offset and length of a frame fit the integers chosen for them. */
  predicate Fits(i: Item) {
    i.Crypto? ==>
      && IsSize(i.offsetSize) && i.frame.offset < VarLimit(i.offsetSize)
      && IsSize(i.lengthSize) && |i.frame.data| < VarLimit(i.lengthSize)
  }

  /** RFC 9000, sections 19.1, 19.2 and 19.6 */
  function EncodeItem(i: Item): seq<byte>
    requires Fits(i)
  {
    match i
    case Padding => [0]
    case Ping => [1]
    case Crypto(f, on, ln) => [6] + PutVarint(f.offset, on) + PutVarint(|f.data|, ln) + f.data
  }

  function Encode(items: seq<Item>): seq<byte>
    requires forall i :: 0 <= i < |items| ==> Fits(items[i])
  {
    if items == [] then [] else EncodeItem(items[0]) + Encode(items[1..])
  }

  /** What one item adds to the frames. */
  function Step(i: Item, frames: seq<Frame>): seq<Frame> {
    if i.Crypto? then AddFrame(frames, i.frame) else frames
  }

  /** The distinct ranges among the items, added to frames in order. */
  function Collect(items: seq<Item>, frames: seq<Frame>): seq<Frame> {
    if items == [] then frames
    else Collect(items[1..], Step(items[0], frames))
  }

  /** There is a free piece when a CRYPTO frame arrives, and its data stays below the limit. */
  predicate Room(items: seq<Item>, frames: seq<Frame>, limit: nat) {
    items != [] ==>
      if items[0].Crypto? then
        |frames| < MAX_DEFRAG_PIECES && items[0].frame.End() <= limit
          && Room(items[1..], AddFrame(frames, items[0].frame), limit)
      else
        Room(items[1..], frames, limit)
  }

  lemma {:induction false} Slices<T>(s: seq<T>, pre: seq<T>, t: seq<T>, a: seq<T>, b: seq<T>, data: seq<T>,
      post: seq<T>)
    requires s == pre + (t + a + b + data) + post
    ensures s[|pre|..|pre| + |t|] == t
    ensures s[|pre| + |t|..|pre| + |t| + |a|] == a
    ensures s[|pre| + |t| + |a|..|pre| + |t| + |a| + |b|] == b
    ensures s[|pre| + |t| + |a| + |b|..|pre| + |t| + |a| + |b| + |data|] == data
  {
    var u := pre + t;
    assert s == u + a + b + data + post;
    assert |u| == |pre| + |t|;
  }

  /** A CRYPTO frame, its offset written at p, its length at q and its data at r. */
  ghost predicate FrameIn(clean: seq<byte>, p: nat, q: nat, r: nat, f: Frame) {
    && p <= q <= r && IsSize(q - p) && f.offset < VarLimit(q - p) && IsSize(r - q) && |f.data| < VarLimit(r - q)
      && r + |f.data| <= |clean|
    && clean[p..q] == PutVarint(f.offset, q - p) && clean[q..r] == PutVarint(|f.data|, r - q)
      && clean[r..r + |f.data|] == f.data
  }

  /** Where the parts of an encoded CRYPTO frame are. */
  lemma {:induction false} ItemParts(clean: seq<byte>, pre: seq<byte>, i: Item, post: seq<byte>, pos: nat)
    returns (q: nat, r: nat)
    requires i.Crypto? && Fits(i) && clean == pre + EncodeItem(i) + post && pos == |pre|
    ensures pos < |clean| && clean[pos] == 6 && pos + 1 <= q <= r && FrameIn(clean, pos + 1, q, r, i.frame)
    ensures r + |i.frame.data| == pos + |EncodeItem(i)|
  {
    var f, on, ln := i.frame, i.offsetSize, i.lengthSize;
    q, r := pos + 1 + on, pos + 1 + on + ln;
    PartsAt(clean, pre, PutVarint(f.offset, on), PutVarint(|f.data|, ln), f.data, post, pos, q, r);
  }

  lemma {:induction false} PartsAt(clean: seq<byte>, pre: seq<byte>, a: seq<byte>, b: seq<byte>, data: seq<byte>,
      post: seq<byte>, pos: nat, q: nat, r: nat)
    requires clean == pre + ([6] + a + b + data) + post && pos == |pre| && q == pos + 1 + |a| && r == q + |b|
    ensures r + |data| <= |clean| && clean[pos] == 6
    ensures clean[pos + 1..q] == a && clean[q..r] == b && clean[r..r + |data|] == data
  {
    var t: seq<byte> := [6];
    Slices(clean, pre, t, a, b, data, post);
    assert clean[pos] == clean[pos..pos + |t|][0];
  }

  lemma {:induction false} HeaderIs(clean: seq<byte>, p: nat, q: nat, r: nat, f: Frame, limit: nat, count: nat)
    requires p < q < r && r + |f.data| <= |clean| && count < MAX_DEFRAG_PIECES && f.End() <= limit
    requires GetSize(clean[p]) == q - p && GetVarint(clean, p) == f.offset
    requires GetSize(clean[q]) == r - q && GetVarint(clean, q) == |f.data|
    ensures ReadHeader(clean, p, limit, count) == Header(f.offset, r, |f.data|)
  {
  }

  /** The header of a CRYPTO frame is read back. */
  lemma {:induction false} HeaderReadBack(clean: seq<byte>, p: nat, q: nat, r: nat, f: Frame, limit: nat, count: nat)
    returns (h: Header)
    requires p <= q <= r && FrameIn(clean, p, q, r, f) && count < MAX_DEFRAG_PIECES && f.End() <= limit
    ensures h == ReadHeader(clean, p, limit, count) && h == Header(f.offset, r, |f.data|) && FrameAt(clean, h) == f
  {
    assert clean[p..p + (q - p)] == clean[p..q] && clean[q..q + (r - q)] == clean[q..r];
    VarintRoundTrip(clean, p, f.offset, q - p);
    VarintRoundTrip(clean, q, |f.data|, r - q);
    HeaderIs(clean, p, q, r, f, limit, count);
    h := ReadHeader(clean, p, limit, count);
  }

  lemma {:induction false} ParseCrypto(clean: seq<byte>, pos: nat, q: nat, r: nat, f: Frame, limit: nat,
      frames: seq<Frame>, next: nat)
    requires pos < |clean| && clean[pos] == 6 && pos + 1 <= q <= r && FrameIn(clean, pos + 1, q, r, f)
      && next == r + |f.data|
    requires |frames| < MAX_DEFRAG_PIECES && f.End() <= limit
    ensures Parse(clean, pos, limit, frames) == Parse(clean, next, limit, AddFrame(frames, f))
  {
    var h := HeaderReadBack(clean, pos + 1, q, r, f, limit, |frames|);
    ParseFrame(clean, pos, limit, frames, h, f, next);
  }

  lemma {:induction false} ParseOne(clean: seq<byte>, pre: seq<byte>, i: Item, post: seq<byte>, limit: nat,
      frames: seq<Frame>, pos: nat)
    requires Fits(i) && clean == pre + EncodeItem(i) + post && pos == |pre| + |EncodeItem(i)|
    requires i.Crypto? ==> |frames| < MAX_DEFRAG_PIECES && i.frame.End() <= limit
    ensures Parse(clean, |pre|, limit, frames) == Parse(clean, pos, limit, Step(i, frames))
  {
    if i.Crypto? {
      var q, r := ItemParts(clean, pre, i, post, |pre|);
      ParseCrypto(clean, |pre|, q, r, i.frame, limit, frames, pos);
    } else {
      assert clean[|pre|] == EncodeItem(i)[0];
      ParseSmall(clean, |pre|, limit, frames);
    }
  }

  /** What a sender encodes is what the loop collects. */
  lemma {:induction false} ParseOfEncode(clean: seq<byte>, pre: seq<byte>, items: seq<Item>, frames: seq<Frame>,
      limit: nat)
    requires forall i :: 0 <= i < |items| ==> Fits(items[i])
    requires clean == pre + Encode(items) && Room(items, frames, limit)
    ensures Parse(clean, |pre|, limit, frames) == Good(Collect(items, frames))
    decreases |items|
  {
    if items != [] {
      var i, rest := items[0], items[1..];
      var next := pre + EncodeItem(i);
      assert clean == next + Encode(rest);
      ParseOne(clean, pre, i, Encode(rest), limit, frames, |next|);
      ParseOfEncode(clean, next, rest, Step(i, frames), limit);
    }
  }

  // ---------------------------------------------------------------------------------------
  // What the loop accepts was encoded
  // ---------------------------------------------------------------------------------------

  /** Items that a sender may have written, and that leave these frames. */
  ghost predicate Explains(items: seq<Item>, bytes: seq<byte>, frames: seq<Frame>, limit: nat, result: seq<Frame>) {
    && (forall i :: 0 <= i < |items| ==> Fits(items[i])) && bytes == Encode(items)
    && Room(items, frames, limit) && result == Collect(items, frames)
  }

  /** Where the two integers of a header are. */
  lemma {:induction false} HeaderParts(clean: seq<byte>, p: nat, limit: nat, count: nat, h: Header) returns (q: nat)
    requires h == ReadHeader(clean, p, limit, count) && h.Header?
    ensures p < q < h.start && h.start + h.size <= |clean| && h.offset + h.size <= limit && count < MAX_DEFRAG_PIECES
    ensures GetSize(clean[p]) == q - p && GetVarint(clean, p) == h.offset
    ensures GetSize(clean[q]) == h.start - q && GetVarint(clean, q) == h.size
  {
    q := p + GetSize(clean[p]);
  }

  /** The header of a CRYPTO frame, as its sender chose the sizes. */
  lemma {:induction false} HeaderIsItem(clean: seq<byte>, pos: nat, limit: nat, count: nat, h: Header)
    returns (i: Item)
    requires pos < |clean| && clean[pos] == 6 && h == ReadHeader(clean, pos + 1, limit, count) && h.Header?
    ensures i.Crypto? && i.frame == FrameAt(clean, h) && Fits(i) && i.frame.End() <= limit && count < MAX_DEFRAG_PIECES
    ensures clean[pos..h.start + h.size] == EncodeItem(i)
  {
    var p := pos + 1;
    var q := HeaderParts(clean, p, limit, count, h);
    VarintIsWritten(clean, p, q - p);
    VarintIsWritten(clean, q, h.start - q);
    var f := FrameAt(clean, h);
    i := Crypto(f, q - p, h.start - q);
    FrameBytes(clean, pos, q, h.start, h.start + h.size, PutVarint(f.offset, q - p),
      PutVarint(|f.data|, h.start - q), f.data);
  }

  lemma {:induction false} FrameBytes(s: seq<byte>, a: nat, q: nat, r: nat, e: nat, on: seq<byte>, ln: seq<byte>,
      data: seq<byte>)
    requires a + 1 <= q <= r <= e <= |s| && s[a] == 6 && s[a + 1..q] == on && s[q..r] == ln && s[r..e] == data
    ensures s[a..e] == [6] + on + ln + data
  {
    FourParts(s, a, a + 1, q, r, e);
    assert s[a..a + 1] == [6];
  }

  lemma {:induction false} TwoParts<T>(s: seq<T>, a: nat, b: nat, c: nat)
    requires a <= b <= c <= |s|
    ensures s[a..c] == s[a..b] + s[b..c]
  {
  }

  lemma {:induction false} FourParts<T>(s: seq<T>, a: nat, b: nat, c: nat, d: nat, e: nat)
    requires a <= b <= c <= d <= e <= |s|
    ensures s[a..e] == s[a..b] + s[b..c] + s[c..d] + s[d..e]
  {
    TwoParts(s, a, b, c);
    TwoParts(s, a, c, d);
    TwoParts(s, a, d, e);
  }

  lemma {:induction false} ExplainsOneMore(i: Item, items: seq<Item>, more: seq<Item>, bytes: seq<byte>, all: seq<byte>,
      frames: seq<Frame>, limit: nat, result: seq<Frame>)
    requires more == [i] + items
    requires Fits(i) && Explains(items, bytes, Step(i, frames), limit, result) && all == EncodeItem(i) + bytes
    requires i.Crypto? ==> |frames| < MAX_DEFRAG_PIECES && i.frame.End() <= limit
    ensures Explains(more, all, frames, limit, result)
  {
    assert more[0] == i && more[1..] == items;
  }

  /** The item at pos, and what is left behind it. */
  lemma {:induction false} AcceptedItem(clean: seq<byte>, pos: nat, limit: nat, frames: seq<Frame>, result: seq<Frame>)
    returns (i: Item, next: nat)
    requires pos < |clean| && Parse(clean, pos, limit, frames) == Good(result)
    ensures pos < next <= |clean| && Fits(i) && clean[pos..next] == EncodeItem(i)
    ensures i.Crypto? ==> |frames| < MAX_DEFRAG_PIECES && i.frame.End() <= limit
    ensures Parse(clean, next, limit, Step(i, frames)) == Good(result)
  {
    if clean[pos] <= 1 {
      ParseSmall(clean, pos, limit, frames);
      i, next := if clean[pos] == 0 then Padding else Ping, pos + 1;
    } else {
      i, next := AcceptedFrame(clean, pos, limit, frames, result);
    }
  }

  lemma {:induction false} AcceptedFrame(clean: seq<byte>, pos: nat, limit: nat, frames: seq<Frame>,
      result: seq<Frame>) returns (i: Item, next: nat)
    requires pos < |clean| && clean[pos] > 1 && Parse(clean, pos, limit, frames) == Good(result)
    ensures pos < next <= |clean| && i.Crypto? && Fits(i) && clean[pos..next] == EncodeItem(i)
    ensures |frames| < MAX_DEFRAG_PIECES && i.frame.End() <= limit
    ensures Parse(clean, next, limit, AddFrame(frames, i.frame)) == Good(result)
  {
    var h := ReadHeader(clean, pos + 1, limit, |frames|);
    if clean[pos] != 6 || h.Invalid? {
      ParseBad(clean, pos, limit, frames);
      assert false;
    } else {
      next := h.start + h.size;
      ParseFrame(clean, pos, limit, frames, h, FrameAt(clean, h), next);
      i := HeaderIsItem(clean, pos, limit, |frames|, h);
    }
  }

  lemma {:induction false} TailParts<T>(s: seq<T>, a: nat, b: nat, t: seq<T>, u: seq<T>)
    requires a <= b <= |s| && t == s[a..] && u == s[b..]
    ensures t == s[a..b] + u
  {
  }

  lemma {:induction false} ExplainsNothing(clean: seq<byte>, limit: nat, frames: seq<Frame>, result: seq<Frame>)
    requires Parse(clean, |clean|, limit, frames) == Good(result)
    ensures Explains([], [], frames, limit, result)
  {
  }

  /** Whatever is accepted is the encoding of some items, with room for each of them. */
  lemma {:induction false} AcceptedIsEncoded(clean: seq<byte>, pos: nat, limit: nat, frames: seq<Frame>,
      result: seq<Frame>, bytes: seq<byte>) returns (items: seq<Item>)
    requires pos <= |clean| && Parse(clean, pos, limit, frames) == Good(result) && bytes == clean[pos..]
    ensures Explains(items, bytes, frames, limit, result)
    decreases |clean| - pos
  {
    if pos == |clean| {
      ExplainsNothing(clean, limit, frames, result);
      return [];
    }
    var i, next := AcceptedItem(clean, pos, limit, frames, result);
    var tail := clean[next..];
    TailParts(clean, pos, next, bytes, tail);
    var rest := AcceptedIsEncoded(clean, next, limit, Step(i, frames), result, tail);
    items := [i] + rest;
    ExplainsOneMore(i, rest, items, tail, bytes, frames, limit, result);
  }

  lemma {:induction false} EncodedIsAccepted(items: seq<Item>, clean: seq<byte>, limit: nat, result: seq<Frame>)
    requires Explains(items, clean, [], limit, result)
    ensures Parse(clean, 0, limit, []) == Good(result)
  {
    assert clean == [] + Encode(items);
    ParseOfEncode(clean, [], items, [], limit);
  }

  /** A payload is accepted exactly when it is made of PADDING, PING and CRYPTO frames, with room for each of these. */
  lemma {:induction false} AcceptedIff(clean: seq<byte>, limit: nat, result: seq<Frame>)
    ensures Parse(clean, 0, limit, []) == Good(result) <==> exists items :: Explains(items, clean, [], limit, result)
  {
    if Parse(clean, 0, limit, []) == Good(result) {
      assert clean[0..] == clean;
      var items := AcceptedIsEncoded(clean, 0, limit, [], result, clean);
    } else if items :| Explains(items, clean, [], limit, result) {
      EncodedIsAccepted(items, clean, limit, result);
    }
  }

  // ---------------------------------------------------------------------------------------
  // A stream sent in pieces
  // ---------------------------------------------------------------------------------------

  /** Every CRYPTO frame carries a piece of one stream. */
  ghost predicate Sends(items: seq<Item>, stream: seq<byte>) {
    forall i :: 0 <= i < |items| && items[i].Crypto? ==> IsSlice(items[i].frame, stream)
  }

  ghost predicate SentAt(items: seq<Item>, k: nat) {
    exists i :: 0 <= i < |items| && items[i].Crypto? && items[i].frame.At(k)
  }

  /** Collecting neither loses a byte nor adds one, and the frames stay slices of the stream. */
  lemma {:induction false} CollectKeeps(items: seq<Item>, frames: seq<Frame>, stream: seq<byte>, k: nat)
    requires Sends(items, stream) && SlicesOf(frames, stream)
    ensures SlicesOf(Collect(items, frames), stream)
    ensures CoveredByFrame(Collect(items, frames), k) <==> SentAt(items, k) || CoveredByFrame(frames, k)
    decreases |items|
  {
    if items != [] {
      var i, rest := items[0], items[1..];
      var next := Step(i, frames);
      if i.Crypto? {
        assert IsSlice(i.frame, stream);
        AddFrameKeeps(frames, i.frame, stream, k);
      }
      assert forall j :: 0 <= j < |rest| ==> rest[j] == items[j + 1];
      CollectKeeps(rest, next, stream, k);
      if SentAt(items, k) {
        var j :| 0 <= j < |items| && items[j].Crypto? && items[j].frame.At(k);
        assert j > 0 ==> rest[j - 1].frame.At(k);
      }
      if SentAt(rest, k) {
        var j :| 0 <= j < |rest| && rest[j].Crypto? && rest[j].frame.At(k);
        assert items[j + 1].frame.At(k);
      }
    }
  }

  lemma {:induction false} AddFrameKeeps(frames: seq<Frame>, f: Frame, stream: seq<byte>, k: nat)
    requires SlicesOf(frames, stream) && IsSlice(f, stream)
    ensures SlicesOf(AddFrame(frames, f), stream)
    ensures CoveredByFrame(AddFrame(frames, f), k) <==> CoveredByFrame(frames, k) || f.At(k)
  {
    var next := AddFrame(frames, f);
    if Known(frames, f) {
      var i :| 0 <= i < |frames| && frames[i].SameRange(f);
      assert f.At(k) ==> frames[i].At(k);
    } else {
      if CoveredByFrame(frames, k) {
        var i :| 0 <= i < |frames| && frames[i].At(k);
        assert next[i].At(k);
      }
      assert next[|frames|] == f;
      if CoveredByFrame(next, k) {
        var i :| 0 <= i < |next| && next[i].At(k);
        assert i < |frames| ==> frames[i].At(k);
      }
    }
  }

  lemma {:induction false} EndOfSlices(frames: seq<Frame>, message: seq<byte>)
    requires SlicesOf(frames, message) && message != []
    requires forall k: nat :: k < |message| ==> CoveredByFrame(frames, k)
    ensures MaxEnd(frames) == |message| && Complete(frames)
  {
    var n, r := |message|, RangesOf(frames);
    assert CoveredByFrame(frames, n - 1);
    MaxEndIs(frames);
    var i :| 0 <= i < |frames| && frames[i].At(n - 1);
    assert r[i].End() <= MaxEnd(frames);
    var j :| 0 <= j < |frames| && r[j].End() == MaxEnd(frames);
    assert IsSlice(frames[j], message);
  }

  lemma {:induction false} FramesOfEncode(items: seq<Item>, size: nat)
    requires forall i :: 0 <= i < |items| ==> Fits(items[i])
    requires size >= HEADER && Room(items, [], size - HEADER)
    ensures FramesOf(Encode(items), size) == Collect(items, [])
  {
    assert Encode(items) == [] + Encode(items);
    ParseOfEncode(Encode(items), [], items, [], size - HEADER);
  }

  lemma {:induction false} CollectAll(items: seq<Item>, message: seq<byte>, frames: seq<Frame>)
    requires Sends(items, message) && message != [] && forall k :: 0 <= k < |message| ==> SentAt(items, k)
    requires frames == Collect(items, [])
    ensures SlicesOf(frames, message) && MaxEnd(frames) == |message| && Complete(frames)
  {
    forall k: nat | k < |message|
      ensures CoveredByFrame(frames, k)
    {
      CollectKeeps(items, [], message, k);
    }
    CollectKeeps(items, [], message, 0);
    EndOfSlices(frames, message);
  }

  lemma {:induction false} HeldContent(frames: seq<Frame>, d: seq<byte>, n: nat)
    requires Holds(d, frames) && n == MaxEnd(frames)
    ensures HEADER + n <= |d| && forall k :: 0 <= k < n ==> d[HEADER..HEADER + n][k] == Content(frames, k)
  {
    forall k | 0 <= k < n
      ensures d[HEADER..HEADER + n][k] == Content(frames, k)
    {
      assert d[HEADER + k] == Content(frames, HEADER + k - HEADER);
    }
  }

  /**
    A sender cuts a message into CRYPTO frames in any way, in any order, with padding between
    them. When every byte was sent, the defragmented payload is the message, reported as full.
   */
  lemma {:induction false} MessageComesBack(items: seq<Item>, message: seq<byte>, size: nat, frames: seq<Frame>,
      d: seq<byte>)
    requires forall i :: 0 <= i < |items| ==> Fits(items[i])
    requires size >= HEADER && Room(items, [], size - HEADER) && Sends(items, message)
    requires message != [] && forall k :: 0 <= k < |message| ==> SentAt(items, k)
    requires frames == FramesOf(Encode(items), size) && Holds(d, frames)
    ensures MaxEnd(frames) == |message| && Complete(frames)
    ensures d[HEADER..HEADER + |message|] == message
  {
    FramesOfEncode(items, size);
    CollectAll(items, message, frames);
    HeldContent(frames, d, |message|);
    CompleteIsPrefix(frames, message, d[HEADER..HEADER + |message|]);
  }

  // ---------------------------------------------------------------------------------------
  // The reassembled packet is recognised
  // ---------------------------------------------------------------------------------------

  /** The TLS recogniser that is asked about the data: a yes or no for every byte string. */
  type Recogniser = seq<byte> -> bool

  datatype Hello = NoHello | HelloAt(offset: nat, len: nat)

  /** IsQUICCryptoHello */
  function IsQUICCryptoHello(data: seq<byte>, isClientHello: Recogniser): (r: Hello)
    ensures r.HelloAt? ==> r.offset + r.len <= |data| && isClientHello(data[r.offset..r.offset + r.len])
  {
    if |data| < 3 || data[0] != 6 || 1 + GetSize(data[1]) >= |data| then NoHello
    else
      var coff, p := GetVarint(data, 1), 1 + GetSize(data[1]);
      if coff != 0 || p + GetSize(data[p]) >= |data| then NoHello
      else
        var clen, q := GetVarint(data, p), p + GetSize(data[p]);
        if q + clen > |data| || !isClientHello(data[q..q + clen]) then NoHello else HelloAt(q, clen)
  }

  lemma {:induction false} OffsetZero(data: seq<byte>)
    requires |data| > 1 && data[1] == 0
    ensures GetSize(data[1]) == 1 && GetVarint(data, 1) == 0
  {
    var b: seq<byte> := [0];
    assert data[1..2] == b && b[..0] == [];
    UintIsFromBe(data, 1, 1);
    assert FromBe(b) == 0;
  }

  lemma {:induction false} HelloAfterHeader(data: seq<byte>, payload: seq<byte>, isClientHello: Recogniser)
    requires |data| == HEADER + |payload| && data[0] == 6 && data[HEADER..HEADER + |payload|] == payload
    requires GetSize(data[1]) == 1 && GetVarint(data, 1) == 0 && GetSize(data[2]) == 8
      && GetVarint(data, 2) == |payload|
    ensures IsQUICCryptoHello(data, isClientHello) ==
      if payload != [] && isClientHello(payload) then HelloAt(HEADER, |payload|) else NoHello
  {
  }

  /** A buffer with the header that QUICDefragCrypto writes is read as its whole payload. */
  lemma {:induction false} DefragIsHello(payload: seq<byte>, isClientHello: Recogniser)
    requires |payload| < VarLimit(8)
    ensures IsQUICCryptoHello(FrameHeader(|payload|) + payload, isClientHello) ==
      if payload != [] && isClientHello(payload) then HelloAt(HEADER, |payload|) else NoHello
  {
    var data := FrameHeader(|payload|) + payload;
    assert data[2..2 + 8] == PutVarint(|payload|, 8);
    VarintRoundTrip(data, 2, |payload|, 8);
    OffsetZero(data);
    assert data[HEADER..HEADER + |payload|] == payload;
    HelloAfterHeader(data, payload, isClientHello);
  }
}

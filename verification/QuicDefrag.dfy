/** QUICDefragCrypto of nfq2/protocol.c: put the CRYPTO frames of a packet together in a buffer. */
module QuicDefrag {
  import opened Blocks
  import opened Order
  import opened Quic
  import opened QuickSort
  import opened Words

  /** struct range64 */
  datatype Range = Range(offset: nat, len: nat) {
    function End(): nat {
      offset + len
    }

    predicate At(k: nat) {
      offset <= k < End()
    }
  }

  function RangeOf(f: Frame): Range {
    Range(f.offset, |f.data|)
  }

  function RangesOf(frames: seq<Frame>): (r: seq<Range>)
    ensures |r| == |frames|
  {
    seq(|frames|, i requires 0 <= i < |frames| => RangeOf(frames[i]))
  }

  // ---------------------------------------------------------------------------------------
  // Merging sorted ranges
  // ---------------------------------------------------------------------------------------

  /** Some of the first n ranges has k. */
  ghost predicate CoveredBy(s: seq<Range>, n: nat, k: nat)
    requires n <= |s|
  {
    exists i :: 0 <= i < n && s[i].At(k)
  }

  /** e is the greatest end of the first n ranges. */
  ghost predicate IsMaxEnd(s: seq<Range>, n: nat, e: nat)
    requires n <= |s|
  {
    (forall i :: 0 <= i < n ==> s[i].End() <= e) && exists i :: 0 <= i < n && s[i].End() == e
  }

  ghost predicate ByOffset(s: seq<Range>) {
    forall i, j :: 0 <= i < j < |s| ==> s[i].offset <= s[j].offset
  }

  /**
    What the merging loop knows after n ranges: cur is the group being built; it is the only one
    (one == true) and has no hole, or there is a hole before it that no range fills.
   */
  ghost predicate Merged(s: seq<Range>, n: nat, cur: Range, one: bool, hole: nat)
    requires n <= |s|
  {
    && n > 0 && IsMaxEnd(s, n, cur.End())
    && if one then
         cur.offset == s[0].offset && forall k :: cur.offset <= k < cur.End() ==> CoveredBy(s, n, k)
       else
         hole < cur.offset <= s[n - 1].offset && !CoveredBy(s, n, hole)
  }

  lemma {:induction false} MergeStart(s: seq<Range>)
    requires s != []
    ensures Merged(s, 1, s[0], true, 0)
  {
    assert s[0].End() == s[0].End();
    forall k | s[0].offset <= k < s[0].End()
      ensures CoveredBy(s, 1, k)
    {
      assert s[0].At(k);
    }
  }

  lemma {:induction false} MaxEndStep(s: seq<Range>, n: nat, e: nat)
    requires n < |s| && IsMaxEnd(s, n, e)
    ensures IsMaxEnd(s, n + 1, Greatest(s[n].End(), e))
  {
    var i :| 0 <= i < n && s[i].End() == e;
    assert s[if s[n].End() < e then i else n].End() == Greatest(s[n].End(), e);
  }

  /** A range that starts inside or right after the group joins it. */
  lemma {:induction false} MergeJoin(s: seq<Range>, n: nat, cur: Range, one: bool, hole: nat)
    requires 0 < n < |s| && ByOffset(s) && Merged(s, n, cur, one, hole) && s[n].offset <= cur.End()
    ensures Merged(s, n + 1, Range(cur.offset, Greatest(s[n].End(), cur.End()) - cur.offset), one, hole)
  {
    MaxEndStep(s, n, cur.End());
    var m := n + 1;
    if one {
      forall k | cur.offset <= k < Greatest(s[n].End(), cur.End())
        ensures CoveredBy(s, m, k)
      {
        if k < cur.End() {
          assert CoveredBy(s, n, k);
          var i :| 0 <= i < n && s[i].At(k);
          assert s[i].At(k);
        } else {
          assert s[n].At(k);
        }
      }
    } else {
      assert s[n - 1].offset <= s[n].offset;
    }
  }

  /** A range that starts later starts a new group; the place where the old one ended stays empty. */
  lemma {:induction false} MergeGap(s: seq<Range>, n: nat, cur: Range, one: bool, hole: nat)
    requires 0 < n < |s| && ByOffset(s) && Merged(s, n, cur, one, hole) && s[n].offset > cur.End()
    ensures Merged(s, n + 1, s[n], false, cur.End())
  {
    MaxEndStep(s, n, cur.End());
  }

  /** No hole below the greatest end. */
  ghost predicate Solid(s: seq<Range>, e: nat) {
    forall k :: 0 <= k < e ==> CoveredBy(s, |s|, k)
  }

  lemma {:induction false} FirstOffset(s: seq<Range>, e: nat)
    requires s != [] && ByOffset(s) && Solid(s, e) && s[0].offset <= e
    ensures s[0].offset == 0
  {
    if e > 0 {
      assert CoveredBy(s, |s|, 0);
      var i :| 0 <= i < |s| && s[i].At(0);
      assert i > 0 ==> s[0].offset <= s[i].offset;
    }
  }

  lemma {:induction false} MergeResult(s: seq<Range>, cur: Range, one: bool, hole: nat)
    requires s != [] && ByOffset(s) && Merged(s, |s|, cur, one, hole)
    ensures one && cur.offset == 0 <==> Solid(s, cur.End())
  {
    if one {
      if Solid(s, cur.End()) {
        FirstOffset(s, cur.End());
      }
    } else {
      assert !CoveredBy(s, |s|, hole);
    }
  }

  /** One round of the merging loop, in place. */
  method MergeOne(ranges: array<Range>, i: nat, j0: nat, ghost s: seq<Range>, ghost hole0: nat)
    returns (j: nat, ghost hole: nat)
    requires ByOffset(s) && |s| <= ranges.Length && j0 < i < |s| && ranges[i] == s[i]
    requires Merged(s, i, ranges[j0], j0 == 0, hole0)
    modifies ranges
    ensures j <= i && Merged(s, i + 1, ranges[j], j == 0, hole)
    ensures forall k :: i < k < |s| ==> ranges[k] == old(ranges[k])
  {
    var currentEnd := ranges[j0].offset + ranges[j0].len;
    var nextStart := ranges[i].offset;
    var nextEnd := ranges[i].offset + ranges[i].len;
    if nextStart <= currentEnd {
      MergeJoin(s, i, ranges[j0], j0 == 0, hole0);
      ranges[j0] := Range(ranges[j0].offset, Greatest(nextEnd, currentEnd) - ranges[j0].offset);
      return j0, hole0;
    } else {
      MergeGap(s, i, ranges[j0], j0 == 0, hole0);
      j, hole := j0 + 1, currentEnd;
      ranges[j] := ranges[i];
    }
  }

  /** The merging loop; returns whether one range starting at 0 is left. */
  method MergeRanges(ranges: array<Range>, range: nat, ghost s: seq<Range>) returns (bFull: bool)
    requires 0 < range <= ranges.Length && s == ranges[..range] && ByOffset(s)
    modifies ranges
    ensures exists e: nat :: IsMaxEnd(s, |s|, e) && (bFull <==> Solid(s, e))
  {
    var j: nat, i := 0, 1;
    ghost var hole: nat := 0;
    MergeStart(s);
    while i < range
      invariant j < i <= range && Merged(s, i, ranges[j], j == 0, hole)
      invariant forall k :: i <= k < range ==> ranges[k] == s[k]
    {
      j, hole := MergeOne(ranges, i, j, s, hole);
      i := i + 1;
    }
    MergeResult(s, ranges[j], j == 0, hole);
    bFull := j + 1 == 1 && ranges[0].offset == 0;
  }

  // ---------------------------------------------------------------------------------------
  // From frames to sorted ranges
  // ---------------------------------------------------------------------------------------

  lemma {:induction false} MaxEndIs(frames: seq<Frame>)
    requires frames != []
    ensures IsMaxEnd(RangesOf(frames), |frames|, MaxEnd(frames))
  {
    var n := |frames| - 1;
    var r := RangesOf(frames);
    if n == 0 {
      assert MaxEnd(frames[..n]) == 0;
      assert r[0].End() == frames[0].End();
    } else {
      var init := RangesOf(frames[..n]);
      MaxEndIs(frames[..n]);
      var e := MaxEnd(frames[..n]);
      assert forall i :: 0 <= i < n ==> init[i] == r[i];
      var i :| 0 <= i < n && init[i].End() == e;
      assert r[i].End() == e;
      assert IsMaxEnd(r, n, e);
      MaxEndStep(r, n, e);
    }
  }

  lemma {:induction false} CoverIs(frames: seq<Frame>, k: nat)
    ensures CoveredBy(RangesOf(frames), |frames|, k) <==> CoveredByFrame(frames, k)
  {
    var r := RangesOf(frames);
    if i :| 0 <= i < |frames| && frames[i].At(k) {
      assert r[i].At(k);
    }
    if i :| 0 <= i < |frames| && r[i].At(k) {
      assert frames[i].At(k);
    }
  }

  /** Sorting changes neither what is covered nor where it ends. */
  lemma {:induction false} SortedCover(r: seq<Range>, s: seq<Range>, e: nat)
    requires multiset(r) == multiset(s) && |r| == |s| && IsMaxEnd(s, |s|, e)
    ensures IsMaxEnd(r, |r|, e) && forall k: nat :: CoveredBy(r, |r|, k) <==> CoveredBy(s, |s|, k)
  {
    SameElements(r, s);
    var i :| 0 <= i < |s| && s[i].End() == e;
    var j :| 0 <= j < |r| && r[j] == s[i];
    assert r[j].End() == e;
    forall k: nat
      ensures CoveredBy(r, |r|, k) <==> CoveredBy(s, |s|, k)
    {
      if i :| 0 <= i < |r| && r[i].At(k) {
        var j :| 0 <= j < |s| && s[j] == r[i];
        assert s[j].At(k);
      }
      if i :| 0 <= i < |s| && s[i].At(k) {
        var j :| 0 <= j < |r| && r[j] == s[i];
        assert r[j].At(k);
      }
    }
  }

  lemma {:induction false} SameElements<T>(r: seq<T>, s: seq<T>)
    requires multiset(r) == multiset(s)
    ensures forall i :: 0 <= i < |r| ==> r[i] in s
    ensures forall i :: 0 <= i < |s| ==> s[i] in r
  {
    forall i | 0 <= i < |r|
      ensures r[i] in s
    {
      assert r[i] in multiset(r);
    }
    forall i | 0 <= i < |s|
      ensures s[i] in r
    {
      assert s[i] in multiset(s);
    }
  }

  lemma {:induction false} MaxEndUnique(s: seq<Range>, e: nat, f: nat)
    requires IsMaxEnd(s, |s|, e) && IsMaxEnd(s, |s|, f)
    ensures e == f
  {
  }

  /** cmp_range64 */
  function CmpRange(a: Range, b: Range): int {
    if a.offset < b.offset then -1 else if a.offset > b.offset then 1 else 0
  }

  lemma {:induction false} CmpRangeIsOrder()
    ensures TotalOrder(CmpRange)
  {
  }

  lemma {:induction false} SortedByOffset(s: seq<Range>)
    requires SortedTo(CmpRange, s, |s|)
    ensures ByOffset(s)
  {
    forall i, j | 0 <= i < j < |s|
      ensures s[i].offset <= s[j].offset
    {
      assert CmpRange(s[i], s[j]) <= 0;
    }
  }

  /** Sort the ranges, merge them, and see whether one that starts at 0 is left. */
  method IsComplete(r: seq<Range>, ghost frames: seq<Frame>) returns (bFull: bool)
    requires r == RangesOf(frames) && 0 < |frames| <= MAX_DEFRAG_PIECES
    ensures bFull <==> Complete(frames)
  {
    var ranges := new Range[|r|](i requires 0 <= i < |r| => r[i]);
    assert ranges[..] == r;
    CmpRangeIsOrder();
    assert Pow2(STACK_SIZE) > MAX_DEFRAG_PIECES by {
      assert Pow2(8) == 256;
      Pow2Grows(8, STACK_SIZE);
    }
    GnuQuicksort(ranges, CmpRange);
    ghost var s := ranges[..];
    SortedByOffset(s);
    assert s == ranges[..|r|];
    bFull := MergeRanges(ranges, |r|, s);
    ghost var e: nat :| IsMaxEnd(s, |s|, e) && (bFull <==> Solid(s, e));
    CompleteIff(frames, s, e);
  }

  lemma {:induction false} CompleteIff(frames: seq<Frame>, s: seq<Range>, e: nat)
    requires frames != [] && multiset(s) == multiset(RangesOf(frames)) && |s| == |frames| && IsMaxEnd(s, |s|, e)
    ensures Solid(s, e) <==> Complete(frames)
  {
    var r := RangesOf(frames);
    SortedCover(r, s, e);
    MaxEndIs(frames);
    MaxEndUnique(r, e, MaxEnd(frames));
    forall k: nat | k < e
      ensures CoveredBy(s, |s|, k) <==> CoveredByFrame(frames, k)
    {
      CoverIs(frames, k);
    }
  }

  // ---------------------------------------------------------------------------------------
  // Putting the data in its place
  // ---------------------------------------------------------------------------------------

  const HEADER := 10

  /** The buffer holds the frames' data up to their greatest end. */
  ghost predicate Holds(d: seq<byte>, frames: seq<Frame>) {
    MaxEnd(frames) + HEADER <= |d| && forall k :: HEADER <= k < MaxEnd(frames) + HEADER ==>
      d[k] == Content(frames, k - HEADER)
  }

  lemma {:induction false} NothingBeyond(frames: seq<Frame>, k: nat)
    requires MaxEnd(frames) <= k
    ensures Content(frames, k) == 0
    decreases |frames|
  {
    if frames != [] {
      NothingBeyond(frames[..|frames| - 1], k);
    }
  }

  /** One more frame: what it has is its own, the rest is as before, and 0 beyond the former end. */
  lemma {:induction false} ContentOfNext(frames: seq<Frame>, f: Frame, k: nat)
    ensures Content(frames + [f], k) == if f.At(k) then f.data[k - f.offset] else Content(frames, k)
    ensures MaxEnd(frames + [f]) == Greatest(MaxEnd(frames), f.End())
    ensures k >= MaxEnd(frames) ==> Content(frames, k) == 0
  {
    var next := frames + [f];
    assert next[..|next| - 1] == frames;
    if k >= MaxEnd(frames) {
      NothingBeyond(frames, k);
    }
  }

  /** Has the range been seen? */
  method IsDuplicate(ranges: seq<Range>, r: Range) returns (b: bool)
    ensures b <==> exists i :: 0 <= i < |ranges| && ranges[i] == r
  {
    var i := 0;
    while i < |ranges|
      invariant 0 <= i <= |ranges| && forall k :: 0 <= k < i ==> ranges[k] != r
    {
      if ranges[i] == r {
        return true;
      }
      i := i + 1;
    }
    return false;
  }

  lemma {:induction false} KnownRange(frames: seq<Frame>, f: Frame)
    ensures Known(frames, f) <==> exists i :: 0 <= i < |frames| && RangesOf(frames)[i] == RangeOf(f)
  {
    if i :| 0 <= i < |frames| && frames[i].SameRange(f) {
      assert RangesOf(frames)[i] == RangeOf(f);
    }
    if i :| 0 <= i < |frames| && RangesOf(frames)[i] == RangeOf(f) {
      assert frames[i].SameRange(f);
    }
  }

  /** Zero-fill up to the frame's offset, then copy its data. */
  method StoreFrame(defrag: array<byte>, f: Frame, zeropos: nat, ghost frames: seq<Frame>)
    requires zeropos == MaxEnd(frames) && Holds(defrag[..], frames) && f.End() + HEADER <= defrag.Length
    modifies defrag
    ensures Holds(defrag[..], frames + [f])
  {
    if zeropos < f.offset {
      forall k | zeropos <= k < f.offset {
        defrag[HEADER + k] := 0;
      }
    }
    forall k | 0 <= k < |f.data| {
      defrag[HEADER + f.offset + k] := f.data[k];
    }
    ghost var next := frames + [f];
    ContentOfNext(frames, f, 0);
    forall k | HEADER <= k < MaxEnd(next) + HEADER
      ensures defrag[..][k] == Content(next, k - HEADER)
    {
      ContentOfNext(frames, f, k - HEADER);
      if f.At(k - HEADER) {
        ghost var i := k - HEADER - f.offset;
        assert defrag[HEADER + f.offset + i] == f.data[i];
      }
    }
  }

  // ---------------------------------------------------------------------------------------
  // The CRYPTO frame header in front of the data
  // ---------------------------------------------------------------------------------------

  /** The header of the one frame that the buffer becomes: type, offset 0, and the length in 8 bytes. */
  function FrameHeader(size: nat): seq<byte>
    requires size < VarLimit(8)
  {
    [6, 0] + PutVarint(size, 8)
  }

  /** Setting the two top bits of a byte that has them clear adds them. */
  lemma {:induction false} OrTop(x: nat, j: nat)
    requires x < Pow2(j)
    ensures Or(x, 3 * Pow2(j)) == x + 3 * Pow2(j)
  {
    if x > 0 {
      OrTop(x / 2, j - 1);
    }
  }

  method WriteHeader(defrag: array<byte>, szmax: nat)
    requires defrag.Length >= HEADER
    modifies defrag
    ensures szmax < VarLimit(8) ==> defrag[..HEADER] == FrameHeader(szmax)
    ensures defrag[HEADER..] == old(defrag[HEADER..])
  {
    defrag[0] := 6;
    defrag[1] := 0;
    var b := Be(szmax, 8);
    forall i | 0 <= i < 8 {
      defrag[2 + i] := b[i];
    }
    assert defrag[2] == b[0];
    OrByte(b[0], 0xC0);
    label Written:
    defrag[2] := Or(defrag[2], 0xC0);
    if szmax < VarLimit(8) {
      TopBits(szmax, 8);
      assert Pow2(6) == 64;
      OrTop(b[0], 6);
      assert forall i :: 1 <= i < 8 ==> old@Written(defrag[2 + i]) == b[i];
      assert forall i :: 3 <= i < HEADER ==> defrag[i] == b[i - 2];
      assert defrag[..HEADER] == FrameHeader(szmax);
    }
  }

  lemma {:induction false} OrByte(a: byte, b: byte)
    ensures Or(a, b) < 256
  {
    assert Pow2(8) == 256;
    OrBound(a, b, 8);
  }

  lemma {:induction false} OrBound(a: nat, b: nat, k: nat)
    requires a < Pow2(k) && b < Pow2(k)
    ensures Or(a, b) < Pow2(k)
  {
    if a > 0 {
      OrBound(a / 2, b / 2, k - 1);
    }
  }

  // ---------------------------------------------------------------------------------------
  // QUICDefragCrypto
  // ---------------------------------------------------------------------------------------

  datatype Outcome = NotFound | Found(len: nat, bFull: bool)

  /** The frames of the whole payload, for a buffer of size bytes; none when the payload is not accepted. */
  function FramesOf(clean: seq<byte>, size: nat): seq<Frame> {
    if size < HEADER then []
    else
      var p := Parse(clean, 0, size - HEADER, []);
      if p.Bad? then [] else p.frames
  }

  lemma {:induction false} RangesOfNext(frames: seq<Frame>, f: Frame)
    ensures RangesOf(frames + [f]) == RangesOf(frames) + [RangeOf(f)]
  {
  }

  /** The state of the loop after the frames: their ranges, and their data in the buffer d. */
  ghost predicate Collected(frames: seq<Frame>, ranges: seq<Range>, szmax: nat, zeropos: nat, d: seq<byte>) {
    ranges == RangesOf(frames) && zeropos == szmax == MaxEnd(frames) && Holds(d, frames)
  }

  /** Store a frame unless its range has been seen. */
  method TakeFrame(defrag: array<byte>, f: Frame, ranges0: seq<Range>, szmax0: nat, zeropos0: nat,
      ghost frames: seq<Frame>)
    returns (ranges: seq<Range>, szmax: nat, zeropos: nat)
    requires Collected(frames, ranges0, szmax0, zeropos0, defrag[..]) && f.End() + HEADER <= defrag.Length
    modifies defrag
    ensures Collected(AddFrame(frames, f), ranges, szmax, zeropos, defrag[..])
  {
    KnownRange(frames, f);
    var duplicate := IsDuplicate(ranges0, RangeOf(f));
    if duplicate {
      return ranges0, szmax0, zeropos0;
    }
    StoreFrame(defrag, f, zeropos0, frames);
    ContentOfNext(frames, f, 0);
    RangesOfNext(frames, f);
    return ranges0 + [RangeOf(f)], Greatest(szmax0, f.End()), Greatest(zeropos0, f.End());
  }

  /** One CRYPTO frame of the payload, of which the type byte at pos has been read. */
  method ReadCrypto(clean: seq<byte>, pos: nat, limit: nat, defrag: array<byte>, ranges0: seq<Range>, szmax0: nat,
      zeropos0: nat, ghost frames0: seq<Frame>)
    returns (ok: bool, next: nat, ranges: seq<Range>, szmax: nat, zeropos: nat, ghost frames: seq<Frame>)
    requires defrag.Length == limit + HEADER && pos < |clean| && clean[pos] == 6
    requires |frames0| <= MAX_DEFRAG_PIECES && Collected(frames0, ranges0, szmax0, zeropos0, defrag[..])
    modifies defrag
    ensures !ok ==> Parse(clean, pos, limit, frames0) == Bad
    ensures ok ==>
      && pos < next <= |clean| && Parse(clean, pos, limit, frames0) == Parse(clean, next, limit, frames)
      && |frames| <= MAX_DEFRAG_PIECES && Collected(frames, ranges, szmax, zeropos, defrag[..])
  {
    var h := ReadHeader(clean, pos + 1, limit, |ranges0|);
    if h.Invalid? {
      ParseBad(clean, pos, limit, frames0);
      return false, pos, ranges0, szmax0, zeropos0, frames0;
    }
    var f := FrameAt(clean, h);
    ok, next := true, h.start + h.size;
    ParseFrame(clean, pos, limit, frames0, h, f, next);
    ranges, szmax, zeropos := TakeFrame(defrag, f, ranges0, szmax0, zeropos0, frames0);
    frames := AddFrame(frames0, f);
  }

  /** The loop over the payload; ok tells that it was accepted to the end. */
  method ReadFrames(clean: seq<byte>, defrag: array<byte>, limit: nat)
    returns (ok: bool, ranges: seq<Range>, szmax: nat, ghost frames: seq<Frame>)
    requires defrag.Length == limit + HEADER
    modifies defrag
    ensures Parse(clean, 0, limit, []) == if ok then Good(frames) else Bad
    ensures ok ==> |frames| <= MAX_DEFRAG_PIECES && Collected(frames, ranges, szmax, szmax, defrag[..])
  {
    var pos, zeropos := 0, 0;
    ranges, szmax, frames := [], 0, [];
    ghost var all := Parse(clean, 0, limit, []);
    while pos < |clean|
      invariant pos <= |clean| && |frames| <= MAX_DEFRAG_PIECES
      invariant all == Parse(clean, pos, limit, frames)
      invariant Collected(frames, ranges, szmax, zeropos, defrag[..])
    {
      var ft := clean[pos];
      if ft <= 1 {
        ParseSmall(clean, pos, limit, frames);
        pos := pos + 1;
      } else if ft != 6 {
        ParseBad(clean, pos, limit, frames);
        return false, ranges, szmax, frames;
      } else {
        ok, pos, ranges, szmax, zeropos, frames :=
          ReadCrypto(clean, pos, limit, defrag, ranges, szmax, zeropos, frames);
        if !ok {
          return;
        }
      }
    }
    return true, ranges, szmax, frames;
  }

  method QUICDefragCrypto(clean: seq<byte>, defrag: array<byte>) returns (r: Outcome)
    modifies defrag
    ensures r.Found? <==> FramesOf(clean, defrag.Length) != []
    ensures r.Found? ==>
      var frames := FramesOf(clean, defrag.Length);
      && r.len == MaxEnd(frames) + HEADER && Holds(defrag[..], frames)
      && (r.bFull <==> Complete(frames))
      && (MaxEnd(frames) < VarLimit(8) ==> defrag[..HEADER] == FrameHeader(MaxEnd(frames)))
  {
    if defrag.Length < HEADER {
      return NotFound;
    }
    var ok, ranges, szmax, frames := ReadFrames(clean, defrag, defrag.Length - HEADER);
    if !ok || ranges == [] {
      return NotFound;
    }
    var bFull := IsComplete(ranges, frames);
    WriteHeader(defrag, szmax);
    return Found(szmax + HEADER, bFull);
  }
}

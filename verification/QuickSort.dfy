/**
  gnu_quicksort of ip2net/qsort.c, on an array of elements.  Pointers are element indices and
  an element is moved as a whole, where the C code moves it byte by byte.
 */
module QuickSort {
  import opened Order
  import opened Words

  const MAX_THRESH := 4

  /** CHAR_BIT * sizeof(size_t) */
  const STACK_SIZE := 64

  // ---------------------------------------------------------------------------------------
  // Rearrangements
  // ---------------------------------------------------------------------------------------

  /** s' is s with the elements lo..hi in another order. */
  ghost predicate Shuffled<T>(s: seq<T>, s': seq<T>, lo: nat, hi: nat) {
    && |s'| == |s| && hi < |s| && multiset(s') == multiset(s)
    && (forall i :: 0 <= i < |s| && (i < lo || hi < i) ==> s'[i] == s[i])
    && (forall i :: lo <= i <= hi ==> From(s, s'[i], lo, hi))
  }

  ghost predicate From<T>(s: seq<T>, x: T, lo: nat, hi: nat)
    requires hi < |s|
  {
    exists j :: lo <= j <= hi && s[j] == x
  }

  function Swapped<T>(s: seq<T>, i: nat, j: nat): seq<T>
    requires i < |s| && j < |s|
  {
    s[i := s[j]][j := s[i]]
  }

  lemma {:induction false} SwapShuffles<T>(s: seq<T>, i: nat, j: nat, lo: nat, hi: nat)
    requires lo <= i <= hi < |s| && lo <= j <= hi
    ensures Shuffled(s, Swapped(s, i, j), lo, hi)
  {
    forall k | lo <= k <= hi
      ensures From(s, Swapped(s, i, j)[k], lo, hi)
    {
      var m := if k == j then i else if k == i then j else k;
      assert s[m] == Swapped(s, i, j)[k];
    }
  }

  lemma {:induction false} SameShuffled<T>(s: seq<T>, lo: nat, hi: nat)
    requires lo <= hi < |s|
    ensures Shuffled(s, s, lo, hi)
  {
    forall i | lo <= i <= hi
      ensures From(s, s[i], lo, hi)
    {
      assert s[i] == s[i];
    }
  }

  lemma {:induction false} ShuffledTwice<T>(s: seq<T>, s': seq<T>, s'': seq<T>, lo: nat, hi: nat)
    requires Shuffled(s, s', lo, hi) && Shuffled(s', s'', lo, hi)
    ensures Shuffled(s, s'', lo, hi)
  {
    forall i | lo <= i <= hi
      ensures From(s, s''[i], lo, hi)
    {
      assert From(s', s''[i], lo, hi);
      var j :| lo <= j <= hi && s'[j] == s''[i];
      assert From(s, s'[j], lo, hi);
    }
  }

  method Swap<T>(a: array<T>, i: nat, j: nat)
    requires i < a.Length && j < a.Length
    modifies a
    ensures a[..] == Swapped(old(a[..]), i, j)
  {
    a[i], a[j] := a[j], a[i];
  }

  // ---------------------------------------------------------------------------------------
  // One partition
  // ---------------------------------------------------------------------------------------

  /** Rearrange LO, MID and HI so that the three values are sorted. */
  method MedianOfThree<T(!new)>(a: array<T>, lo: nat, mid: nat, hi: nat, cmp: (T, T) -> int)
    requires Symmetric(cmp) && lo < mid < hi < a.Length
    modifies a
    ensures Shuffled(old(a[..]), a[..], lo, hi)
    ensures cmp(a[mid], a[hi]) <= 0
    ensures cmp(a[lo], a[mid]) <= 0
  {
    ghost var s := a[..];
    SameShuffled(s, lo, hi);
    if cmp(a[mid], a[lo]) < 0 {
      SwapWithin(a, mid, lo, s, lo, hi);
    }
    assert cmp(a[lo], a[mid]) <= 0;
    if cmp(a[hi], a[mid]) < 0 {
      SwapWithin(a, mid, hi, s, lo, hi);
    } else {
      return;
    }
    assert cmp(a[mid], a[hi]) < 0;
    if cmp(a[mid], a[lo]) < 0 {
      SwapWithin(a, mid, lo, s, lo, hi);
    }
  }

  /** A swap inside the part lo..hi of an array that was s at first. */
  method SwapWithin<T>(a: array<T>, i: nat, j: nat, ghost s: seq<T>, ghost lo: nat, ghost hi: nat)
    requires lo <= i <= hi < a.Length && lo <= j <= hi && Shuffled(s, a[..], lo, hi)
    modifies a
    ensures a[..] == Swapped(old(a[..]), i, j) && Shuffled(s, a[..], lo, hi)
    ensures a[i] == old(a[j]) && a[j] == old(a[i]) && forall k :: 0 <= k < a.Length && k != i && k != j ==>
      a[k] == old(a[k])
  {
    SwapShuffles(a[..], i, j, lo, hi);
    ghost var s' := a[..];
    Swap(a, i, j);
    ShuffledTwice(s, s', a[..], lo, hi);
  }

  /** The walls: everything from lo up to left is at most v, everything beyond right is at least v. */
  ghost predicate Walls<T>(cmp: (T, T) -> int, s: seq<T>, lo: nat, hi: nat, v: T, left: int, right: int) {
    && 0 <= lo < left <= hi + 1 && lo - 1 <= right < hi < |s|
    && (forall i :: lo <= i < left ==> cmp(s[i], v) <= 0)
    && (forall j :: right < j <= hi ==> cmp(v, s[j]) <= 0)
  }

  /** The two inner loops: move each wall up to an element that is on the wrong side or equal. */
  method Scan<T(!new)>(a: array<T>, mid: nat, left0: nat, right0: nat, cmp: (T, T) -> int, ghost lo: nat, ghost hi: nat)
    returns (left: nat, right: nat)
    requires Symmetric(cmp) && hi < a.Length && mid < a.Length
    requires Walls(cmp, a[..], lo, hi, a[mid], left0, right0) && left0 <= right0 + 1
    ensures Walls(cmp, a[..], lo, hi, a[mid], left, right) && left0 <= left <= right + 1 && right <= right0
    ensures left <= right ==> cmp(a[mid], a[left]) <= 0 && cmp(a[right], a[mid]) <= 0
  {
    left, right := left0, right0;
    while cmp(a[left], a[mid]) < 0
      invariant Walls(cmp, a[..], lo, hi, a[mid], left, right0) && left0 <= left <= right0 + 1
      decreases right0 + 1 - left
    {
      left := left + 1;
    }
    while cmp(a[mid], a[right]) < 0
      invariant Walls(cmp, a[..], lo, hi, a[mid], left, right) && left <= right + 1 && right <= right0
      decreases right + 1 - left
    {
      right := right - 1;
    }
  }

  /** The walls after the swap of a misplaced pair. */
  lemma {:induction false} SwapMovesWalls<T(!new)>(cmp: (T, T) -> int, s: seq<T>, lo: nat, hi: nat, v: T, left: nat,
      right: nat)
    requires Walls(cmp, s, lo, hi, v, left, right) && left < right
    requires cmp(v, s[left]) <= 0 && cmp(s[right], v) <= 0
    ensures Walls(cmp, Swapped(s, left, right), lo, hi, v, left + 1, right - 1)
  {
  }

  /** Elements on or left of one wall are at most those on or right of the other. */
  ghost predicate Divided<T>(cmp: (T, T) -> int, s: seq<T>, lo: nat, hi: nat, left: nat, right: nat)
    requires left <= |s| && hi < |s|
  {
    forall i, j :: lo <= i < left && right < j <= hi ==> cmp(s[i], s[j]) <= 0
  }

  lemma {:induction false} WallsDivide<T(!new)>(cmp: (T, T) -> int, s: seq<T>, lo: nat, hi: nat, v: T, left: nat,
      right: nat)
    requires TotalOrder(cmp) && Walls(cmp, s, lo, hi, v, left, right)
    ensures Divided(cmp, s, lo, hi, left, right)
  {
  }

  /** One round of the "collapse the walls" loop, before its exit test; mid stays at the pivot v. */
  method Collapse1<T(!new)>(a: array<T>, mid0: nat, left0: nat, right0: nat, cmp: (T, T) -> int,
                            ghost lo: nat, ghost hi: nat, ghost v: T, ghost s: seq<T>)
    returns (mid: nat, left: nat, right: nat)
    requires Symmetric(cmp) && lo <= mid0 <= hi < a.Length && a[mid0] == v && Shuffled(s, a[..], lo, hi)
    requires Walls(cmp, a[..], lo, hi, v, left0, right0) && lo < left0 <= right0 + 1 && right0 < hi
    modifies a
    ensures lo <= mid <= hi && a[mid] == v && Shuffled(s, a[..], lo, hi)
    ensures Walls(cmp, a[..], lo, hi, v, left, right) && left0 <= left <= right + 2 && right <= right0 && lo <= right
      && left <= hi
    ensures left <= right ==> left0 < left
  {
    mid := mid0;
    left, right := Scan(a, mid, left0, right0, cmp, lo, hi);
    if left < right {
      SwapMovesWalls(cmp, a[..], lo, hi, v, left, right);
      SwapWithin(a, left, right, s, lo, hi);
      if mid == left {
        mid := right;
      } else if mid == right {
        mid := left;
      }
      left := left + 1;
      right := right - 1;
    } else if left == right {
      left := left + 1;
      right := right - 1;
    }
  }

  /** Partition lo..hi around the median of three of its values. */
  method Partition<T(!new)>(a: array<T>, lo: nat, hi: nat, cmp: (T, T) -> int)
    returns (left: nat, right: nat, ghost v: T)
    requires Symmetric(cmp) && lo + MAX_THRESH <= hi < a.Length
    modifies a
    ensures Shuffled(old(a[..]), a[..], lo, hi)
    ensures lo <= right < left <= hi && left <= right + 2
    ensures Walls(cmp, a[..], lo, hi, v, left, right)
  {
    ghost var s := a[..];
    var mid := lo + (hi - lo) / 2;
    MedianOfThree(a, lo, mid, hi, cmp);
    v := a[mid];
    left, right := lo + 1, hi - 1;
    while true
      invariant Shuffled(s, a[..], lo, hi) && lo <= mid <= hi && a[mid] == v
      invariant Walls(cmp, a[..], lo, hi, v, left, right) && lo < left <= right + 1 && right < hi
      decreases right + 1 - left
    {
      mid, left, right := Collapse1(a, mid, left, right, cmp, lo, hi, v, s);
      if !(left <= right) {
        break;
      }
    }
  }

  // ---------------------------------------------------------------------------------------
  // The parts still to be partitioned
  // ---------------------------------------------------------------------------------------

  /** stack_node; the sentinel holds two null pointers. */
  datatype StackNode = StackNode(lo: int, hi: int)

  const NULL_NODE := StackNode(-1, -1)

  function Span(p: StackNode): int {
    p.hi - p.lo + 1
  }

  /** Nothing before k is greater than anything from k on. */
  ghost predicate Fence<T>(cmp: (T, T) -> int, s: seq<T>, k: int) {
    forall i, j :: 0 <= i < k <= j < |s| ==> cmp(s[i], s[j]) <= 0
  }

  ghost predicate Part<T>(cmp: (T, T) -> int, s: seq<T>, p: StackNode) {
    0 <= p.lo && p.lo + MAX_THRESH <= p.hi < |s| && Fence(cmp, s, p.lo) && Fence(cmp, s, p.hi + 1)
  }

  predicate Apart(p: StackNode, q: StackNode) {
    p.hi < q.lo || q.hi < p.lo
  }

  ghost predicate Parts<T>(cmp: (T, T) -> int, s: seq<T>, all: seq<StackNode>) {
    && (forall x :: 0 <= x < |all| ==> Part(cmp, s, all[x]))
    && (forall x, y :: 0 <= x < y < |all| ==> Apart(all[x], all[y]))
  }

  predicate Covers(p: StackNode, i: int, j: int) {
    p.lo <= i && j <= p.hi
  }

  /** i and j are in order, or close to each other, or still waiting in the same part. */
  ghost predicate Placed<T>(cmp: (T, T) -> int, s: seq<T>, all: seq<StackNode>, i: nat, j: nat)
    requires i < |s| && j < |s|
  {
    cmp(s[i], s[j]) <= 0 || j - i <= MAX_THRESH || exists p :: p in all && Covers(p, i, j)
  }

  ghost predicate AllPlaced<T>(cmp: (T, T) -> int, s: seq<T>, all: seq<StackNode>) {
    forall i, j :: 0 <= i < j < |s| ==> Placed(cmp, s, all, i, j)
  }

  lemma {:induction false} FenceKept<T>(cmp: (T, T) -> int, s: seq<T>, s': seq<T>, lo: nat, hi: nat, k: int)
    requires Shuffled(s, s', lo, hi) && Fence(cmp, s, k) && (k <= lo || hi < k)
    ensures Fence(cmp, s', k)
  {
    forall i, j | 0 <= i < k <= j < |s'|
      ensures cmp(s'[i], s'[j]) <= 0
    {
      var i' := Source(s, s', lo, hi, i);
      var j' := Source(s, s', lo, hi, j);
      assert cmp(s[i'], s[j']) <= 0;
    }
  }

  /** Where an element of a shuffled array came from. */
  lemma {:induction false} Source<T>(s: seq<T>, s': seq<T>, lo: nat, hi: nat, i: nat) returns (j: nat)
    requires Shuffled(s, s', lo, hi) && i < |s'|
    ensures j < |s| && s[j] == s'[i] && (lo <= i <= hi <==> lo <= j <= hi) && (i < lo ==> j < lo) && (i > hi ==> j > hi)
  {
    if lo <= i <= hi {
      assert From(s, s'[i], lo, hi);
      j :| lo <= j <= hi && s[j] == s'[i];
    } else {
      j := i;
    }
  }

  /** The two parts that a partition of cur leaves. */
  function Low(cur: StackNode, right: int): StackNode {
    StackNode(cur.lo, right)
  }

  function High(cur: StackNode, left: int): StackNode {
    StackNode(left, cur.hi)
  }

  predicate Small(p: StackNode) {
    p.hi - p.lo <= MAX_THRESH
  }

  /** pieces are the parts of cur that are not small, in either order. */
  predicate Pieces(pieces: seq<StackNode>, low: StackNode, high: StackNode) {
    if Small(low) then if Small(high) then pieces == [] else pieces == [high]
    else if Small(high) then pieces == [low]
    else pieces == [low, high] || pieces == [high, low]
  }

  lemma {:induction false} PartsKept<T>(cmp: (T, T) -> int, s: seq<T>, s': seq<T>, rest: seq<StackNode>, cur: StackNode)
    requires Parts(cmp, s, rest + [cur]) && 0 <= cur.lo <= cur.hi && Shuffled(s, s', cur.lo, cur.hi)
    ensures Parts(cmp, s', rest) && Fence(cmp, s', cur.lo) && Fence(cmp, s', cur.hi + 1)
    ensures forall x :: 0 <= x < |rest| ==> Apart(rest[x], cur)
  {
    var all := rest + [cur];
    assert all[|rest|] == cur;
    FenceKept(cmp, s, s', cur.lo, cur.hi, cur.lo);
    FenceKept(cmp, s, s', cur.lo, cur.hi, cur.hi + 1);
    forall x | 0 <= x < |rest|
      ensures Part(cmp, s', rest[x]) && Apart(rest[x], cur)
    {
      assert all[x] == rest[x];
      assert Apart(all[x], all[|rest|]);
      FenceKept(cmp, s, s', cur.lo, cur.hi, rest[x].lo);
      FenceKept(cmp, s, s', cur.lo, cur.hi, rest[x].hi + 1);
    }
    forall x, y | 0 <= x < y < |rest|
      ensures Apart(rest[x], rest[y])
    {
      assert Apart(all[x], all[y]);
    }
  }

  lemma {:induction false} InnerFence<T>(cmp: (T, T) -> int, s: seq<T>, lo: nat, hi: nat, left: nat, right: nat, k: nat)
    requires hi < |s| && left <= hi && Fence(cmp, s, lo) && Fence(cmp, s, hi + 1)
      && Divided(cmp, s, lo, hi, left, right)
    requires lo <= right < k <= left
    ensures Fence(cmp, s, k)
  {
  }

  lemma {:induction false} PiecesAreParts<T>(cmp: (T, T) -> int, s: seq<T>, rest: seq<StackNode>, cur: StackNode,
      left: nat, right: nat, pieces: seq<StackNode>)
    requires Parts(cmp, s, rest) && 0 <= cur.lo <= right < left <= cur.hi < |s| && Fence(cmp, s, cur.lo)
      && Fence(cmp, s, cur.hi + 1)
    requires forall x :: 0 <= x < |rest| ==> Apart(rest[x], cur)
    requires Divided(cmp, s, cur.lo, cur.hi, left, right) && Pieces(pieces, Low(cur, right), High(cur, left))
    ensures Parts(cmp, s, rest + pieces)
  {
    InnerFence(cmp, s, cur.lo, cur.hi, left, right, left);
    InnerFence(cmp, s, cur.lo, cur.hi, left, right, right + 1);
    var all := rest + pieces;
    forall x | 0 <= x < |all|
      ensures Part(cmp, s, all[x])
    {
    }
    forall x, y | 0 <= x < y < |all|
      ensures Apart(all[x], all[y])
    {
      if x < |rest| {
        assert all[x] == rest[x];
      }
    }
  }

  lemma {:induction false} PlacedNow<T>(cmp: (T, T) -> int, s: seq<T>, s': seq<T>, rest: seq<StackNode>,
      cur: StackNode, left: nat, right: nat, pieces: seq<StackNode>, i: nat, j: nat)
    requires i < j < |s| && 0 <= cur.lo <= right < left <= cur.hi && Shuffled(s, s', cur.lo, cur.hi)
    requires Placed(cmp, s, rest + [cur], i, j) && Fence(cmp, s', cur.lo) && Fence(cmp, s', cur.hi + 1)
    requires Divided(cmp, s', cur.lo, cur.hi, left, right) && Pieces(pieces, Low(cur, right), High(cur, left))
    ensures Placed(cmp, s', rest + pieces, i, j)
  {
    if i < cur.lo || cur.hi < j {
      if p :| p in rest + [cur] && Covers(p, i, j) {
        assert p in rest + pieces;
      }
    } else if left <= i {
      assert Covers(High(cur, left), i, j);
    } else if j <= right {
      assert Covers(Low(cur, right), i, j);
    }
  }

  /** Splitting a part, even without loss, makes the sum of these smaller. */
  function Weight(p: StackNode): nat {
    if p.lo <= p.hi then 2 * Span(p) - 1 else 0
  }

  /** What is left to do. */
  function Work(all: seq<StackNode>): nat {
    if all == [] then 0 else Work(all[..|all| - 1]) + Weight(all[|all| - 1])
  }

  lemma {:induction false} WorkPlus(all: seq<StackNode>, p: StackNode)
    ensures Work(all + [p]) == Work(all) + Weight(p)
  {
    assert (all + [p])[..|all|] == all;
  }

  /** A part with k parts pending before it is at most a 2^k-th of the array. */
  ghost predicate Deep(all: seq<StackNode>, n: nat) {
    forall x :: 0 <= x < |all| ==> Span(all[x]) <= Shr(n, x)
  }

  lemma {:induction false} DeepKept(rest: seq<StackNode>, cur: StackNode, left: nat, right: nat,
      pieces: seq<StackNode>, n: nat)
    requires Deep(rest + [cur], n) && cur.lo <= right < left <= cur.hi
    requires Pieces(pieces, Low(cur, right), High(cur, left))
    requires |pieces| == 2 ==> Span(pieces[1]) <= Span(pieces[0])
    ensures Deep(rest + pieces, n)
  {
    var all := rest + [cur];
    assert all[|rest|] == cur;
    forall x | 0 <= x < |rest + pieces|
      ensures Span((rest + pieces)[x]) <= Shr(n, x)
    {
      if x < |rest| {
        assert all[x] == rest[x];
      } else if x > |rest| {
        assert Shr(n, x) == Shr(n, |rest|) / 2;
      }
    }
  }

  /** A push never finds the stack full. */
  lemma {:induction false} RoomToPush(rest: seq<StackNode>, cur: StackNode, left: nat, right: nat, n: nat)
    requires Deep(rest + [cur], n) && cur.lo <= right < left <= cur.hi && n < Pow2(STACK_SIZE)
    requires !Small(Low(cur, right)) && !Small(High(cur, left))
    ensures |rest| + 1 < STACK_SIZE
  {
    var all := rest + [cur];
    assert all[|rest|] == cur;
    assert Shr(n, |rest| + 1) == Shr(n, |rest|) / 2;
    assert Shr(n, |rest| + 1) > 0;
    ShrBound(n, STACK_SIZE, STACK_SIZE);
    if |rest| + 1 >= STACK_SIZE {
      ShrStays(n, STACK_SIZE, |rest| + 1);
      assert false;
    }
  }

  lemma {:induction false} WorkLess(rest: seq<StackNode>, cur: StackNode, left: nat, right: nat, pieces: seq<StackNode>)
    requires cur.lo <= right < left <= cur.hi && Pieces(pieces, Low(cur, right), High(cur, left))
    ensures Work(rest + pieces) < Work(rest + [cur])
  {
    WorkPlus(rest, cur);
    if |pieces| == 0 {
      assert rest + pieces == rest;
    } else if |pieces| == 1 {
      WorkPlus(rest, pieces[0]);
      assert pieces == [pieces[0]];
    } else {
      WorkPlus(rest, pieces[0]);
      WorkPlus(rest + [pieces[0]], pieces[1]);
      assert rest + pieces == rest + [pieces[0]] + [pieces[1]];
    }
  }

  /** What holds between two partitions of an array of n elements. */
  ghost predicate Sorting<T>(cmp: (T, T) -> int, s: seq<T>, all: seq<StackNode>) {
    Parts(cmp, s, all) && AllPlaced(cmp, s, all) && Deep(all, |s|)
  }

  lemma {:induction false} SortingKept<T>(cmp: (T, T) -> int, s: seq<T>, s': seq<T>, rest: seq<StackNode>,
      cur: StackNode, left: nat, right: nat, pieces: seq<StackNode>)
    requires Sorting(cmp, s, rest + [cur]) && 0 <= cur.lo <= right < left <= cur.hi && Shuffled(s, s', cur.lo, cur.hi)
    requires Divided(cmp, s', cur.lo, cur.hi, left, right) && Pieces(pieces, Low(cur, right), High(cur, left))
    requires |pieces| == 2 ==> Span(pieces[1]) <= Span(pieces[0])
    ensures Sorting(cmp, s', rest + pieces)
  {
    PartsKept(cmp, s, s', rest, cur);
    PiecesAreParts(cmp, s', rest, cur, left, right, pieces);
    DeepKept(rest, cur, left, right, pieces, |s|);
    forall i, j | 0 <= i < j < |s'|
      ensures Placed(cmp, s', rest + pieces, i, j)
    {
      PlacedNow(cmp, s, s', rest, cur, left, right, pieces, i, j);
    }
  }

  /** The stack array, up to the entry in use. */
  type Stack = s: seq<StackNode> | |s| <= STACK_SIZE witness []

  /** The parts that a stack and the current bounds stand for. */
  ghost predicate Pending(stack: seq<StackNode>, lo: int, hi: int, all: seq<StackNode>) {
    if stack == [] then all == [] else all == stack[1..] + [StackNode(lo, hi)]
  }

  /** Set up the bounds for the next round: push the larger part, go on with the smaller one. */
  method NextPart(stack0: Stack, lo0: int, hi0: int, left: int, right: int)
    returns (stack: Stack, lo: int, hi: int, ghost pieces: seq<StackNode>)
    requires stack0 != []
    requires !Small(StackNode(lo0, right)) && !Small(StackNode(left, hi0)) ==> |stack0| < STACK_SIZE
    ensures Pieces(pieces, StackNode(lo0, right), StackNode(left, hi0))
    ensures |pieces| == 2 ==> Span(pieces[1]) <= Span(pieces[0])
    ensures Pending(stack, lo, hi, stack0[1..] + pieces)
  {
    stack, lo, hi := stack0, lo0, hi0;
    if right - lo <= MAX_THRESH {
      if hi - left <= MAX_THRESH {
        pieces := [];
        lo, hi := stack[|stack| - 1].lo, stack[|stack| - 1].hi;
        stack := stack[..|stack| - 1];
      } else {
        pieces := [StackNode(left, hi)];
        lo := left;
      }
    } else if hi - left <= MAX_THRESH {
      pieces := [StackNode(lo, right)];
      hi := right;
    } else if right - lo > hi - left {
      pieces := [StackNode(lo, right), StackNode(left, hi)];
      stack := stack + [StackNode(lo, right)];
      lo := left;
    } else {
      pieces := [StackNode(left, hi), StackNode(lo, right)];
      stack := stack + [StackNode(left, hi)];
      hi := right;
    }
  }

  lemma {:induction false} AllOnePart<T>(cmp: (T, T) -> int, s: seq<T>)
    requires |s| > MAX_THRESH
    ensures Sorting(cmp, s, [StackNode(0, |s| - 1)])
  {
    var p := StackNode(0, |s| - 1);
    forall i, j | 0 <= i < j < |s|
      ensures Placed(cmp, s, [p], i, j)
    {
      assert p in [p] && Covers(p, i, j);
    }
  }

  /** One round: partition, then choose what to do next. */
  method Round<T(!new)>(a: array<T>, stack0: Stack, lo0: nat, hi0: nat, cmp: (T, T) -> int)
    returns (stack: Stack, lo: int, hi: int, ghost rest: seq<StackNode>, ghost pieces: seq<StackNode>)
    requires TotalOrder(cmp) && stack0 != [] && a.Length < Pow2(STACK_SIZE)
    requires Sorting(cmp, a[..], stack0[1..] + [StackNode(lo0, hi0)])
    modifies a
    ensures multiset(a[..]) == multiset(old(a[..]))
    ensures rest == stack0[1..] && Pending(stack, lo, hi, rest + pieces)
    ensures Sorting(cmp, a[..], rest + pieces) && Work(rest + pieces) < Work(rest + [StackNode(lo0, hi0)])
  {
    rest := stack0[1..];
    ghost var cur, s := StackNode(lo0, hi0), a[..];
    assert (rest + [cur])[|rest|] == cur;
    var left, right;
    ghost var v;
    left, right, v := Partition(a, lo0, hi0, cmp);
    WallsDivide(cmp, a[..], lo0, hi0, v, left, right);
    if !Small(Low(cur, right)) && !Small(High(cur, left)) {
      RoomToPush(rest, cur, left, right, |s|);
    }
    stack, lo, hi, pieces := NextPart(stack0, lo0, hi0, left, right);
    SortingKept(cmp, s, a[..], rest, cur, left, right, pieces);
    WorkLess(rest, cur, left, right, pieces);
  }

  /** Elements that are more than MAX_THRESH apart are in order. */
  ghost predicate NearlySorted<T>(cmp: (T, T) -> int, s: seq<T>) {
    forall i, j :: 0 <= i && i + MAX_THRESH < j < |s| ==> cmp(s[i], s[j]) <= 0
  }

  lemma {:induction false} NothingPending<T>(cmp: (T, T) -> int, s: seq<T>)
    requires AllPlaced(cmp, s, [])
    ensures NearlySorted(cmp, s)
  {
    forall i, j | 0 <= i && i + MAX_THRESH < j < |s|
      ensures cmp(s[i], s[j]) <= 0
    {
      assert Placed(cmp, s, [], i, j);
    }
  }

  /** The quicksort phase leaves elements that are more than MAX_THRESH apart in order. */
  method QuickPhase<T(!new)>(a: array<T>, cmp: (T, T) -> int)
    requires TotalOrder(cmp) && MAX_THRESH < a.Length < Pow2(STACK_SIZE)
    modifies a
    ensures multiset(a[..]) == multiset(old(a[..]))
    ensures NearlySorted(cmp, a[..])
  {
    var lo, hi := 0, a.Length - 1;
    var stack: Stack := [NULL_NODE];
    ghost var all := [StackNode(lo, hi)];
    AllOnePart(cmp, a[..]);
    while stack != []
      invariant Pending(stack, lo, hi, all) && Sorting(cmp, a[..], all)
      invariant multiset(a[..]) == multiset(old(a[..]))
      decreases Work(all)
    {
      assert all[|all| - 1] == StackNode(lo, hi);
      ghost var rest, pieces;
      stack, lo, hi, rest, pieces := Round(a, stack, lo, hi, cmp);
      all := rest + pieces;
    }
    NothingPending(cmp, a[..]);
  }

  // ---------------------------------------------------------------------------------------
  // The insertion sort that finishes
  // ---------------------------------------------------------------------------------------

  ghost predicate SortedTo<T>(cmp: (T, T) -> int, s: seq<T>, n: nat)
    requires n <= |s|
  {
    forall i, j :: 0 <= i < j < n ==> cmp(s[i], s[j]) <= 0
  }

  /** s[k] is at most the first n elements. */
  ghost predicate LeastOf<T>(cmp: (T, T) -> int, s: seq<T>, k: nat, n: nat)
    requires k < |s| && n <= |s|
  {
    forall i :: 0 <= i < n ==> cmp(s[k], s[i]) <= 0
  }

  lemma {:induction false} NewLeast<T(!new)>(cmp: (T, T) -> int, s: seq<T>, k: nat, n: nat)
    requires TotalOrder(cmp) && k < n < |s| && LeastOf(cmp, s, k, n)
    ensures if cmp(s[n], s[k]) < 0 then LeastOf(cmp, s, n, n + 1) else LeastOf(cmp, s, k, n + 1)
  {
  }

  /** The minimum of a nearly sorted array is among the first MAX_THRESH + 1 elements. */
  lemma {:induction false} MinimumIsNear<T(!new)>(cmp: (T, T) -> int, s: seq<T>, k: nat, n: nat)
    requires TotalOrder(cmp) && NearlySorted(cmp, s) && k < n <= |s| && LeastOf(cmp, s, k, n)
    requires n == |s| || n == MAX_THRESH + 1
    ensures LeastOf(cmp, s, k, |s|)
  {
    forall i | n <= i < |s|
      ensures cmp(s[k], s[i]) <= 0
    {
      assert cmp(s[k], s[0]) <= 0 && cmp(s[0], s[i]) <= 0;
    }
  }

  lemma {:induction false} LeastMoved<T>(cmp: (T, T) -> int, s: seq<T>, k: nat)
    requires k < |s| && LeastOf(cmp, s, k, |s|)
    ensures LeastOf(cmp, Swapped(s, k, 0), 0, |s|) && multiset(Swapped(s, k, 0)) == multiset(s)
  {
    SwapShuffles(s, k, 0, 0, |s| - 1);
  }

  /** Find the smallest of the first elements. */
  method FindLeast<T(!new)>(a: array<T>, thresh: nat, cmp: (T, T) -> int) returns (tmp: nat)
    requires TotalOrder(cmp) && thresh < a.Length
    ensures tmp <= thresh && LeastOf(cmp, a[..], tmp, thresh + 1)
  {
    tmp := 0;
    for run := 1 to thresh + 1
      invariant tmp < run && LeastOf(cmp, a[..], tmp, run)
    {
      NewLeast(cmp, a[..], tmp, run);
      if cmp(a[run], a[tmp]) < 0 {
        tmp := run;
      }
    }
  }

  /** Put the least element first. */
  method PlaceSentinel<T(!new)>(a: array<T>, cmp: (T, T) -> int)
    requires TotalOrder(cmp) && a.Length > 0 && NearlySorted(cmp, a[..])
    modifies a
    ensures multiset(a[..]) == multiset(old(a[..])) && LeastOf(cmp, a[..], 0, a.Length)
  {
    var end := a.Length - 1;
    var thresh := if end < MAX_THRESH then end else MAX_THRESH;
    var tmp := FindLeast(a, thresh, cmp);
    MinimumIsNear(cmp, a[..], tmp, thresh + 1);
    LeastMoved(cmp, a[..], tmp);
    if tmp != 0 {
      Swap(a, tmp, 0);
    }
  }

  /** s with element `run` moved down to `tmp`. */
  function Rotated<T>(s: seq<T>, tmp: nat, run: nat): seq<T>
    requires tmp <= run < |s|
  {
    s[..tmp] + [s[run]] + s[tmp..run] + s[run + 1..]
  }

  lemma {:induction false} RotatedIsPermutation<T>(s: seq<T>, tmp: nat, run: nat)
    requires tmp <= run < |s|
    ensures multiset(Rotated(s, tmp, run)) == multiset(s)
  {
    assert s == s[..tmp] + s[tmp..run] + [s[run]] + s[run + 1..];
  }

  method Rotate<T>(a: array<T>, tmp: nat, run: nat)
    requires tmp <= run < a.Length
    modifies a
    ensures a[..] == Rotated(old(a[..]), tmp, run)
  {
    ghost var s := a[..];
    var c := a[run];
    var hi, lo: int := run, run - 1;
    while lo >= tmp
      invariant tmp <= hi <= run && lo == hi - 1
      invariant forall k :: hi < k <= run ==> a[k] == s[k - 1]
      invariant forall k :: 0 <= k <= hi || run < k < a.Length ==> a[k] == s[k]
    {
      a[hi] := a[lo];
      hi := lo;
      lo := lo - 1;
    }
    a[hi] := c;
    assert forall k :: 0 <= k < a.Length ==> a[k] == Rotated(s, tmp, run)[k];
  }

  lemma {:induction false} BelowToo<T(!new)>(cmp: (T, T) -> int, s: seq<T>, n: nat, x: T)
    requires TotalOrder(cmp) && n < |s| && SortedTo(cmp, s, n + 1) && cmp(s[n], x) <= 0
    ensures forall i :: 0 <= i <= n ==> cmp(s[i], x) <= 0
  {
    forall i | 0 <= i <= n
      ensures cmp(s[i], x) <= 0
    {
      assert i < n ==> cmp(s[i], s[n]) <= 0;
    }
  }

  lemma {:induction false} RotatedAt<T>(s: seq<T>, tmp: nat, run: nat)
    requires tmp <= run < |s|
    ensures |Rotated(s, tmp, run)| == |s| && Rotated(s, tmp, run)[tmp] == s[run]
    ensures forall k :: 0 <= k < tmp || run < k < |s| ==> Rotated(s, tmp, run)[k] == s[k]
    ensures forall k :: tmp < k <= run ==> Rotated(s, tmp, run)[k] == s[k - 1]
  {
  }

  /** Moving an element down to its place extends the sorted part. */
  lemma {:induction false} RotatedSorted<T>(cmp: (T, T) -> int, s: seq<T>, tmp: nat, run: nat)
    requires 0 < tmp <= run < |s| && SortedTo(cmp, s, run) && LeastOf(cmp, s, 0, |s|)
    requires forall k :: 0 <= k < tmp ==> cmp(s[k], s[run]) <= 0
    requires forall k :: tmp <= k < run ==> cmp(s[run], s[k]) < 0
    ensures SortedTo(cmp, Rotated(s, tmp, run), run + 1) && LeastOf(cmp, Rotated(s, tmp, run), 0, |s|)
  {
    RotatedAt(s, tmp, run);
  }

  /** Search down for the place of element `run`; the sentinel stops the search. */
  method FindPlace<T(!new)>(a: array<T>, run: nat, cmp: (T, T) -> int) returns (tmp: nat)
    requires Symmetric(cmp) && 0 < run < a.Length && LeastOf(cmp, a[..], 0, a.Length)
    ensures tmp < run && cmp(a[tmp], a[run]) <= 0
    ensures forall k :: tmp + 1 <= k < run ==> cmp(a[..][run], a[..][k]) < 0
  {
    tmp := run - 1;
    assert cmp(a[..][0], a[..][run]) <= 0;
    while cmp(a[run], a[tmp]) < 0
      invariant 0 <= tmp < run && forall k :: tmp < k < run ==> cmp(a[..][run], a[..][k]) < 0
      decreases tmp
    {
      assert tmp != 0;
      tmp := tmp - 1;
    }
  }

  lemma {:induction false} PlaceFound<T(!new)>(cmp: (T, T) -> int, s: seq<T>, tmp: nat, run: nat)
    requires TotalOrder(cmp) && 0 < tmp <= run < |s| && SortedTo(cmp, s, run) && LeastOf(cmp, s, 0, |s|)
    requires cmp(s[tmp - 1], s[run]) <= 0 && forall k :: tmp <= k < run ==> cmp(s[run], s[k]) < 0
    ensures SortedTo(cmp, Rotated(s, tmp, run), run + 1) && LeastOf(cmp, Rotated(s, tmp, run), 0, |s|)
    ensures multiset(Rotated(s, tmp, run)) == multiset(s) && |Rotated(s, tmp, run)| == |s|
  {
    BelowToo(cmp, s, tmp - 1, s[run]);
    RotatedSorted(cmp, s, tmp, run);
    RotatedIsPermutation(s, tmp, run);
  }

  /** Move element `run` to its place, if it is not there. */
  method MoveTo<T>(a: array<T>, tmp: nat, run: nat)
    requires tmp <= run < a.Length
    modifies a
    ensures a[..] == Rotated(old(a[..]), tmp, run)
  {
    if tmp != run {
      Rotate(a, tmp, run);
    } else {
      assert Rotated(a[..], tmp, run) == a[..];
    }
  }

  /** Insert element `run` into the sorted part before it. */
  method InsertOne<T(!new)>(a: array<T>, run: nat, cmp: (T, T) -> int)
    requires TotalOrder(cmp) && 0 < run < a.Length && SortedTo(cmp, a[..], run) && LeastOf(cmp, a[..], 0, a.Length)
    modifies a
    ensures SortedTo(cmp, a[..], run + 1) && LeastOf(cmp, a[..], 0, a.Length)
    ensures multiset(a[..]) == multiset(old(a[..]))
  {
    var tmp := FindPlace(a, run, cmp);
    PlaceFound(cmp, a[..], tmp + 1, run);
    MoveTo(a, tmp + 1, run);
  }

  /** The insertion sort, from the third element on: the first two are in order. */
  method InsertAll<T(!new)>(a: array<T>, cmp: (T, T) -> int)
    requires TotalOrder(cmp) && a.Length > 0 && LeastOf(cmp, a[..], 0, a.Length)
    modifies a
    ensures SortedTo(cmp, a[..], a.Length) && multiset(a[..]) == multiset(old(a[..]))
  {
    ghost var s := a[..];
    var end, run := a.Length - 1, 1;
    while run + 1 <= end
      invariant 1 <= run && (run <= end || run == a.Length == 1)
      invariant SortedTo(cmp, a[..], if run <= end then run + 1 else run) && LeastOf(cmp, a[..], 0, a.Length)
      invariant multiset(a[..]) == multiset(s)
    {
      run := run + 1;
      InsertOne(a, run, cmp);
    }
  }

  /** gnu_quicksort: a sorted permutation, for every length and every total preorder. */
  method GnuQuicksort<T(!new)>(a: array<T>, cmp: (T, T) -> int)
    requires TotalOrder(cmp) && a.Length < Pow2(STACK_SIZE)
    modifies a
    ensures SortedTo(cmp, a[..], a.Length)
    ensures multiset(a[..]) == multiset(old(a[..]))
  {
    if a.Length == 0 {
      return;
    }
    if a.Length > MAX_THRESH {
      QuickPhase(a, cmp);
    }
    PlaceSentinel(a, cmp);
    InsertAll(a, cmp);
  }
}

/**
  The mathematics behind nfq2/kavl.h: AVL trees whose nodes are heap objects, seen as a
  datatype that records for every object the two header fields the algorithms maintain
  (balance and size).

  A `Tree` is a value, so everything in this module is pure.  The heap side, which says that
  the fields of the objects agree with such a value, is in module Kavl.
 */
module KavlTree {
  import Words

  /** One element of an intrusive tree: KAVL_HEAD(struct) plus the user's key. */
  class Node<K> {
    const key: K
    var p0: Node?<K>
    var p1: Node?<K>
    var balance: int
    var size: int

    constructor (key: K)
      ensures this.key == key && p0 == null && p1 == null && balance == 0 && size == 0
    {
      this.key := key;
      p0, p1, balance, size := null, null, 0, 0;
    }

    /** head.p[dir] */
    function Child(dir: Dir): Node?<K>
      reads this
    {
      if dir == 0 then p0 else p1
    }
  }

  /** A direction in the tree: 0 is left, 1 is right. */
  type Dir = d: nat | d < 2

  /** The effect on a balance factor of a subtree growing by one level on side `dir`. */
  function Sign(dir: Dir): int {
    if dir == 0 then -1 else 1
  }

  datatype Tree<K> = Leaf | Branch(n: Node<K>, bal: int, size: int, l: Tree<K>, r: Tree<K>)

  /** A branch with subtree `a` on side `dir` and subtree `b` on the other side. */
  function Mk<K>(dir: Dir, n: Node<K>, bal: int, size: int, a: Tree<K>, b: Tree<K>): Tree<K> {
    if dir == 0 then Branch(n, bal, size, a, b) else Branch(n, bal, size, b, a)
  }

  function Side<K>(t: Tree<K>, dir: Dir): Tree<K>
    requires t.Branch?
  {
    if dir == 0 then t.l else t.r
  }

  function Root<K>(t: Tree<K>): Node?<K> {
    if t.Leaf? then null else t.n
  }

  ghost function Nodes<K>(t: Tree<K>): set<Node<K>> {
    if t.Leaf? then {} else {t.n} + Nodes(t.l) + Nodes(t.r)
  }

  function Inorder<K>(t: Tree<K>): seq<Node<K>> {
    if t.Leaf? then [] else Inorder(t.l) + [t.n] + Inorder(t.r)
  }

  function Height<K>(t: Tree<K>): nat {
    if t.Leaf? then 0 else 1 + Words.Greatest(Height(t.l), Height(t.r))
  }

  function Count<K>(t: Tree<K>): nat {
    if t.Leaf? then 0 else 1 + Count(t.l) + Count(t.r)
  }

  /** No object occurs twice. */
  ghost predicate Distinct<K>(t: Tree<K>) {
    t.Branch? ==>
      && Distinct(t.l) && Distinct(t.r)
      && t.n !in Nodes(t.l) && t.n !in Nodes(t.r) && Nodes(t.l) !! Nodes(t.r)
  }

  /** The AVL invariant, with both bookkeeping fields exact at every node. */
  ghost predicate Avl<K>(t: Tree<K>) {
    t.Branch? ==>
      && Avl(t.l) && Avl(t.r)
      && t.bal == Height(t.r) - Height(t.l)
      && -1 <= t.bal <= 1
      && t.size == Count(t)
  }

  /** The cached size of a possibly absent subtree. */
  function Size<K>(t: Tree<K>): int {
    if t.Leaf? then 0 else t.size
  }

  lemma {:induction false} InorderFacts<K>(t: Tree<K>)
    ensures |Inorder(t)| == Count(t)
    ensures forall n :: n in Inorder(t) <==> n in Nodes(t)
  {
    if t.Branch? {
      InorderFacts(t.l);
      InorderFacts(t.r);
    }
  }

  lemma {:induction false} NodesWithin<K>(t: Tree<K>, all: set<Node<K>>)
    ensures Nodes(t) <= all <==> forall n :: n in Inorder(t) ==> n in all
  {
    if t.Branch? {
      NodesWithin(t.l, all);
      NodesWithin(t.r, all);
      assert Inorder(t) == Inorder(t.l) + [t.n] + Inorder(t.r);
      assert t.n in Inorder(t) && forall n :: n in Inorder(t) <==> n in Inorder(t.l) || n == t.n || n in Inorder(t.r);
    }
  }

  // ---------------------------------------------------------------------------------------
  // Paths: the way from the root down to a hole
  // ---------------------------------------------------------------------------------------

  /** One node of a path; the hole is on side `dir`, `sib` hangs on the other side. */
  datatype Frame<K> = Frame(n: Node<K>, bal: int, size: int, dir: Dir, sib: Tree<K>)

  /** A path, seen from the hole upwards. */
  datatype Path<K> = Top | Down(up: Path<K>, f: Frame<K>)

  function Fill<K>(f: Frame<K>, c: Tree<K>): Tree<K> {
    Mk(f.dir, f.n, f.bal, f.size, c, f.sib)
  }

  /** The whole tree, with c in the hole. */
  function Plug<K>(ctx: Path<K>, c: Tree<K>): Tree<K>
    decreases ctx
  {
    match ctx
    case Top => c
    case Down(up, f) => Plug(up, Fill(f, c))
  }

  function Len<K>(ctx: Path<K>): nat {
    if ctx.Top? then 0 else Len(ctx.up) + 1
  }

  /** The nodes of the path from the root down. */
  function NodesOn<K>(ctx: Path<K>): (s: seq<Node<K>>)
    ensures |s| == Len(ctx)
  {
    if ctx.Top? then [] else NodesOn(ctx.up) + [ctx.f.n]
  }

  /** The directions taken from the root down. */
  function DirsOn<K>(ctx: Path<K>): (s: seq<Dir>)
    ensures |s| == Len(ctx)
  {
    if ctx.Top? then [] else DirsOn(ctx.up) + [ctx.f.dir]
  }

  /** What precedes the hole in symmetric order. */
  function LeftOf<K>(ctx: Path<K>): seq<Node<K>> {
    if ctx.Top? then []
    else LeftOf(ctx.up) + (if ctx.f.dir == 1 then Inorder(ctx.f.sib) + [ctx.f.n] else [])
  }

  /** What follows the hole in symmetric order. */
  function RightOf<K>(ctx: Path<K>): seq<Node<K>> {
    if ctx.Top? then []
    else (if ctx.f.dir == 0 then [ctx.f.n] + Inorder(ctx.f.sib) else []) + RightOf(ctx.up)
  }

  ghost function FrameNodes<K>(f: Frame<K>): set<Node<K>> {
    {f.n} + Nodes(f.sib)
  }

  ghost function PathNodes<K>(ctx: Path<K>): set<Node<K>> {
    if ctx.Top? then {} else PathNodes(ctx.up) + FrameNodes(ctx.f)
  }

  function RootOver<K>(ctx: Path<K>, bottom: Node?<K>): Node?<K>
    decreases ctx
  {
    if ctx.Top? then bottom else RootOver(ctx.up, ctx.f.n)
  }

  /** The path `down` below the path `up`. */
  function Append<K>(up: Path<K>, down: Path<K>): Path<K> {
    if down.Top? then up else Down(Append(up, down.up), down.f)
  }

  lemma {:induction false} FillFacts<K>(f: Frame<K>, c: Tree<K>)
    ensures Nodes(Fill(f, c)) == FrameNodes(f) + Nodes(c)
    ensures Inorder(Fill(f, c)) == if f.dir == 0 then Inorder(c) + ([f.n] + Inorder(f.sib))
      else Inorder(f.sib) + [f.n] + Inorder(c)
  {
  }

  lemma {:induction false} InorderPlug<K>(ctx: Path<K>, c: Tree<K>)
    ensures Inorder(Plug(ctx, c)) == LeftOf(ctx) + Inorder(c) + RightOf(ctx)
    decreases ctx
  {
    if ctx.Down? {
      FillFacts(ctx.f, c);
      InorderPlug(ctx.up, Fill(ctx.f, c));
    }
  }

  lemma {:induction false} NodesOfPlug<K>(ctx: Path<K>, c: Tree<K>)
    ensures Nodes(Plug(ctx, c)) == PathNodes(ctx) + Nodes(c)
    ensures Root(Plug(ctx, c)) == RootOver(ctx, Root(c))
    decreases ctx
  {
    if ctx.Down? {
      FillFacts(ctx.f, c);
      NodesOfPlug(ctx.up, Fill(ctx.f, c));
    }
  }

  lemma {:induction false} PlugAppend<K>(up: Path<K>, down: Path<K>, c: Tree<K>)
    ensures Plug(Append(up, down), c) == Plug(up, Plug(down, c))
    decreases down
  {
    if down.Down? {
      PlugAppend(up, down.up, Fill(down.f, c));
    }
  }

  /** Every path can be cut at any of its nodes. */
  lemma {:induction false} CutAt<K>(ctx: Path<K>, i: nat) returns (up: Path<K>, f: Frame<K>, below: Path<K>)
    requires i < Len(ctx)
    ensures ctx == Append(Down(up, f), below) && Len(up) == i
    ensures f.n == NodesOn(ctx)[i] && f.dir == DirsOn(ctx)[i]
    ensures forall bottom: Node?<K> :: RootOver(below, bottom) == if i + 1 < Len(ctx) then NodesOn(ctx)[i + 1]
      else bottom
    decreases ctx
  {
    if i == Len(ctx.up) {
      up, f, below := ctx.up, ctx.f, Top;
    } else {
      up, f, below := CutAt(ctx.up, i);
      below := Down(below, ctx.f);
    }
  }

  // ---------------------------------------------------------------------------------------
  // What a path asks of the subtree in its hole
  // ---------------------------------------------------------------------------------------

  /** The height of a branch with one subtree of height h and the other one sib. */
  function Raise<K>(h: nat, sib: Tree<K>): nat {
    1 + Words.Greatest(h, Height(sib))
  }

  /** The node count of a branch with one subtree of n nodes and the other one sib. */
  function Tally<K>(n: int, sib: Tree<K>): int {
    1 + n + Count(sib)
  }

  /** f is correct over a subtree of height h with n nodes. */
  ghost predicate FrameAvl<K>(f: Frame<K>, h: nat, n: int) {
    && Avl(f.sib)
    && f.bal == (if f.dir == 0 then Height(f.sib) - h else h - Height(f.sib)) && -1 <= f.bal <= 1
    && f.size == Tally(n, f.sib)
  }

  /** Every frame of the path is correct when the hole has a subtree of height h with n nodes. */
  ghost predicate PathAvl<K>(ctx: Path<K>, h: nat, n: int)
    decreases ctx
  {
    ctx.Down? ==>
      FrameAvl(ctx.f, h, n) && PathAvl(ctx.up, Raise(h, ctx.f.sib), Tally(n, ctx.f.sib))
  }

  function HeightAbove<K>(ctx: Path<K>, h: nat): nat
    decreases ctx
  {
    if ctx.Top? then h else HeightAbove(ctx.up, Raise(h, ctx.f.sib))
  }

  function CountAbove<K>(ctx: Path<K>, n: int): int
    decreases ctx
  {
    if ctx.Top? then n else CountAbove(ctx.up, Tally(n, ctx.f.sib))
  }

  lemma {:induction false} FillAvl<K>(f: Frame<K>, c: Tree<K>)
    ensures Avl(Fill(f, c)) <==> Avl(c) && FrameAvl(f, Height(c), Count(c))
    ensures Height(Fill(f, c)) == Raise(Height(c), f.sib) && Count(Fill(f, c)) == Tally(Count(c), f.sib)
  {
  }

  lemma {:induction false} PlugAvl<K>(ctx: Path<K>, c: Tree<K>)
    ensures Avl(Plug(ctx, c)) <==> Avl(c) && PathAvl(ctx, Height(c), Count(c))
    ensures Height(Plug(ctx, c)) == HeightAbove(ctx, Height(c)) && Count(Plug(ctx, c)) == CountAbove(ctx, Count(c))
    decreases ctx
  {
    if ctx.Down? {
      FillAvl(ctx.f, c);
      PlugAvl(ctx.up, Fill(ctx.f, c));
    }
  }

  lemma {:induction false} PathAvlAppend<K>(up: Path<K>, down: Path<K>, h: nat, n: int)
    ensures PathAvl(Append(up, down), h, n) <==>
      PathAvl(down, h, n) && PathAvl(up, HeightAbove(down, h), CountAbove(down, n))
    decreases down
  {
    if down.Down? {
      PathAvlAppend(up, down.up, Raise(h, down.f.sib), Tally(n, down.f.sib));
    }
  }

  /** The same path with d added to every size. */
  function Resize<K>(ctx: Path<K>, d: int): Path<K> {
    if ctx.Top? then Top else Down(Resize(ctx.up, d), ctx.f.(size := ctx.f.size + d))
  }

  lemma {:induction false} ResizeFacts<K>(ctx: Path<K>, d: int)
    ensures LeftOf(Resize(ctx, d)) == LeftOf(ctx) && RightOf(Resize(ctx, d)) == RightOf(ctx)
    ensures NodesOn(Resize(ctx, d)) == NodesOn(ctx) && DirsOn(Resize(ctx, d)) == DirsOn(ctx)
      && Len(Resize(ctx, d)) == Len(ctx)
  {
    if ctx.Down? {
      ResizeFacts(ctx.up, d);
    }
  }

  lemma {:induction false} ResizeAvl<K>(ctx: Path<K>, h: nat, n: int, n': int, d: int)
    requires PathAvl(ctx, h, n) && n' == n + d
    ensures PathAvl(Resize(ctx, d), h, n')
    ensures HeightAbove(Resize(ctx, d), h) == HeightAbove(ctx, h)
      && CountAbove(Resize(ctx, d), n') == CountAbove(ctx, n) + d
    decreases ctx
  {
    if ctx.Down? {
      var f := ctx.f;
      assert FrameAvl(f.(size := f.size + d), h, n');
      ResizeAvl(ctx.up, Raise(h, f.sib), Tally(n, f.sib), Tally(n', f.sib), d);
    }
  }

  /** The frame after its hole side grew by one level and one node. */
  function GrownFrame<K>(f: Frame<K>): Frame<K> {
    f.(size := f.size + 1, bal := f.bal + Sign(f.dir))
  }

  function Grow<K>(ctx: Path<K>): Path<K> {
    if ctx.Top? then Top else Down(Grow(ctx.up), GrownFrame(ctx.f))
  }

  ghost predicate Level<K>(ctx: Path<K>) {
    ctx.Down? ==> ctx.f.bal == 0 && Level(ctx.up)
  }

  lemma {:induction false} GrownLevel<K>(f: Frame<K>, h: nat, n: int, h': nat, n': int)
    requires FrameAvl(f, h, n) && f.bal == 0 && h' == h + 1 && n' == n + 1
    ensures FrameAvl(GrownFrame(f), h', n') && Raise(h', f.sib) == Raise(h, f.sib) + 1
      && Tally(n', f.sib) == Tally(n, f.sib) + 1
  {
  }

  /** Through frames that were all in balance a subtree that grew makes every level grow. */
  lemma {:induction false} GrowAvl<K>(ctx: Path<K>, h: nat, n: int, h': nat, n': int)
    requires PathAvl(ctx, h, n) && Level(ctx) && h' == h + 1 && n' == n + 1
    ensures PathAvl(Grow(ctx), h', n')
    ensures HeightAbove(Grow(ctx), h') == HeightAbove(ctx, h) + 1 && CountAbove(Grow(ctx), n') == CountAbove(ctx, n) + 1
    decreases ctx
  {
    if ctx.Down? {
      var f := ctx.f;
      GrownLevel(f, h, n, h', n');
      GrowAvl(ctx.up, Raise(h, f.sib), Tally(n, f.sib), Raise(h', f.sib), Tally(n', f.sib));
    }
  }

  // ---------------------------------------------------------------------------------------
  // Rotations
  // ---------------------------------------------------------------------------------------

  /** (a,(b,c)q)p => ((a,b)p,c)q for dir == 0; the balance fields are left as they are. */
  function Rotate1<K>(p: Tree<K>, dir: Dir): Tree<K>
    requires p.Branch? && Side(p, 1 - dir).Branch?
  {
    var q := Side(p, 1 - dir);
    Mk(dir, q.n, q.bal, p.size,
       Mk(dir, p.n, p.bal, p.size - (q.size - Size(Side(q, dir))), Side(p, dir), Side(q, dir)),
       Side(q, 1 - dir))
  }

  /** (a,((b,c)r,d)q)p => ((a,b)p,(c,d)q)r for dir == 0, with the balance fields it sets. */
  function Rotate2<K>(p: Tree<K>, dir: Dir): Tree<K>
    requires p.Branch? && Side(p, 1 - dir).Branch? && Side(Side(p, 1 - dir), dir).Branch?
  {
    var q := Side(p, 1 - dir);
    var r := Side(q, dir);
    var b1 := Sign(1 - dir);
    var sizeXDir := Size(Side(r, dir));
    Mk(dir, r.n, 0, p.size,
       Mk(dir, p.n, if r.bal == b1 then -b1 else 0, p.size - (q.size - sizeXDir), Side(p, dir), Side(r, dir)),
       Mk(dir, q.n, if r.bal == b1 then 0 else if r.bal == 0 then 0 else b1, q.size - (sizeXDir + 1),
          Side(r, 1 - dir), Side(q, 1 - dir)))
  }

  function WithBal<K>(t: Tree<K>, bal: int): Tree<K>
    requires t.Branch?
  {
    t.(bal := bal)
  }

  /** A branch that is out of balance by two levels on side 1 - dir, and correct otherwise. */
  ghost predicate Leaning<K>(p: Tree<K>, dir: Dir) {
    && p.Branch? && Avl(p.l) && Avl(p.r)
    && Height(Side(p, 1 - dir)) == Height(Side(p, dir)) + 2
    && p.size == Count(p)
  }

  /** The single rotation, with the balance fields the callers then store. */
  function Rebalance1<K>(p: Tree<K>, dir: Dir, balP: int, balQ: int): Tree<K>
    requires p.Branch? && Side(p, 1 - dir).Branch?
  {
    var t := Rotate1(p, dir);
    Mk(dir, t.n, balQ, t.size, WithBal(Side(t, dir), balP), Side(t, 1 - dir))
  }

  lemma {:induction false} Rotate1Restores<K>(p: Tree<K>, dir: Dir)
    requires Leaning(p, dir)
    requires Side(p, 1 - dir).bal == Sign(1 - dir)
    ensures var t := Rebalance1(p, dir, 0, 0);
            Avl(t) && Height(t) == Height(p) - 1 && Count(t) == Count(p) && Inorder(t) == Inorder(p)
  {
    Rotate1Shape(p, dir, 0, 0);
    var q := Side(p, 1 - dir);
    assert Avl(q.l) && Avl(q.r);
    assert Avl(Side(Rebalance1(p, dir, 0, 0), dir));
  }

  /** The case that only erase meets: the tall child is itself in balance. */
  lemma {:induction false} Rotate1KeepsHeight<K>(p: Tree<K>, dir: Dir)
    requires Leaning(p, dir)
    requires Side(p, 1 - dir).bal == 0
    ensures var t := Rebalance1(p, dir, Sign(1 - dir), Sign(dir));
            Avl(t) && Height(t) == Height(p) && Count(t) == Count(p) && Inorder(t) == Inorder(p)
  {
    Rotate1Shape(p, dir, Sign(1 - dir), Sign(dir));
    var q, k := Side(p, 1 - dir), Height(Side(p, dir));
    assert Avl(q.l) && Avl(q.r) && Height(q.l) == k + 1 && Height(q.r) == k + 1;
    assert Avl(Side(Rebalance1(p, dir, Sign(1 - dir), Sign(dir)), dir));
  }

  lemma {:induction false} Rotate1Shape<K>(p: Tree<K>, dir: Dir, balP: int, balQ: int)
    requires p.Branch? && Side(p, 1 - dir).Branch?
    ensures var t := Rebalance1(p, dir, balP, balQ);
            Count(t) == Count(p) && Inorder(t) == Inorder(p)
  {
    var q := Side(p, 1 - dir);
    var t := Rebalance1(p, dir, balP, balQ);
    if dir == 0 {
      assert Inorder(p) == Inorder(p.l) + [p.n] + (Inorder(q.l) + [q.n] + Inorder(q.r));
      assert Inorder(t) == (Inorder(p.l) + [p.n] + Inorder(q.l)) + [q.n] + Inorder(q.r);
    } else {
      assert Inorder(p) == (Inorder(q.l) + [q.n] + Inorder(q.r)) + [p.n] + Inorder(p.r);
      assert Inorder(t) == Inorder(q.l) + [q.n] + (Inorder(q.r) + [p.n] + Inorder(p.r));
    }
  }

  lemma {:induction false} Rotate2Order<K>(p: Tree<K>, dir: Dir)
    requires p.Branch? && Side(p, 1 - dir).Branch? && Side(Side(p, 1 - dir), dir).Branch?
    ensures Inorder(Rotate2(p, dir)) == Inorder(p)
  {
    var q := Side(p, 1 - dir);
    var r := Side(q, dir);
    var t := Rotate2(p, dir);
    if dir == 0 {
      calc {
        Inorder(p);
        Inorder(p.l) + [p.n] + ((Inorder(r.l) + [r.n] + Inorder(r.r)) + [q.n] + Inorder(q.r));
        (Inorder(p.l) + [p.n] + Inorder(r.l)) + [r.n] + (Inorder(r.r) + [q.n] + Inorder(q.r));
        Inorder(t);
      }
    } else {
      calc {
        Inorder(p);
        Inorder(q) + [p.n] + Inorder(p.r);
        { assert Inorder(q) == Inorder(q.l) + [q.n] + Inorder(r); }
        (Inorder(q.l) + [q.n] + (Inorder(r.l) + [r.n] + Inorder(r.r))) + [p.n] + Inorder(p.r);
        (Inorder(q.l) + [q.n] + Inorder(r.l)) + [r.n] + (Inorder(r.r) + [p.n] + Inorder(p.r));
        Inorder(t);
      }
    }
  }

  lemma {:induction false} Rotate2Restores<K>(p: Tree<K>, dir: Dir)
    requires Leaning(p, dir)
    requires Side(p, 1 - dir).bal == Sign(dir)
    ensures Side(Side(p, 1 - dir), dir).Branch?
    ensures var t := Rotate2(p, dir);
            Avl(t) && Height(t) == Height(p) - 1 && Count(t) == Count(p) && Inorder(t) == Inorder(p)
  {
    Rotate2Order(p, dir);
    if dir == 0 {
      Rotate2Left(p);
    } else {
      Rotate2Right(p);
    }
  }

  lemma {:induction false} Rotate2Left<K>(p: Tree<K>)
    requires Leaning(p, 0) && p.r.bal == -1
    ensures p.r.l.Branch?
    ensures var t := Rotate2(p, 0);
            Avl(t) && Height(t) == Height(p) - 1 && Count(t) == Count(p)
  {
    var q := p.r;
    var r := q.l;
    MiddleHeights(q, 1, Height(p.l));
    JoinedLeft(p, Count(p.l), Count(r.l), Count(r.r), Count(q.r));
    JoinedAvl(p.n, q.n, r.n, r.bal, p.l, r.l, r.r, q.r, Height(p.l));
  }

  lemma {:induction false} Rotate2Right<K>(p: Tree<K>)
    requires Leaning(p, 1) && p.l.bal == 1
    ensures p.l.r.Branch?
    ensures var t := Rotate2(p, 1);
            Avl(t) && Height(t) == Height(p) - 1 && Count(t) == Count(p)
  {
    var q := p.l;
    var r := q.r;
    MiddleHeights(q, 0, Height(p.r));
    JoinedRight(p, Count(q.l), Count(r.l), Count(r.r), Count(p.r));
    JoinedAvl(q.n, p.n, r.n, r.bal, q.l, r.l, r.r, p.r, Height(p.r));
  }

  lemma {:induction false} JoinedLeft<K>(p: Tree<K>, a: nat, b: nat, c: nat, d: nat)
    requires p.Branch? && p.r.Branch? && p.r.l.Branch? && -1 <= p.r.l.bal <= 1
    requires p.size == 3 + a + b + c + d && p.r.size == 2 + b + c + d && Size(p.r.l.l) == b
    requires a == Count(p.l) && b == Count(p.r.l.l) && c == Count(p.r.l.r) && d == Count(p.r.r)
    ensures Rotate2(p, 0) == Joined(p.n, p.r.n, p.r.l.n, p.r.l.bal, p.l, p.r.l.l, p.r.l.r, p.r.r)
  {
  }

  lemma {:induction false} JoinedRight<K>(p: Tree<K>, a: nat, b: nat, c: nat, d: nat)
    requires p.Branch? && p.l.Branch? && p.l.r.Branch? && -1 <= p.l.r.bal <= 1
    requires p.size == 3 + a + b + c + d && p.l.size == 2 + a + b + c && Size(p.l.r.r) == c
    requires a == Count(p.l.l) && b == Count(p.l.r.l) && c == Count(p.l.r.r) && d == Count(p.r)
    ensures Rotate2(p, 1) == Joined(p.l.n, p.n, p.l.r.n, p.l.r.bal, p.l.l, p.l.r.l, p.l.r.r, p.r)
  {
  }

  /** What both double rotations build out of the four subtrees, from left to right. */
  function Joined<K>(pn: Node<K>, qn: Node<K>, rn: Node<K>, bal: int, a: Tree<K>, b: Tree<K>, c: Tree<K>,
      d: Tree<K>): Tree<K>
  {
    Branch(rn, 0, 3 + Count(a) + Count(b) + Count(c) + Count(d),
           Branch(pn, if bal == 1 then -1 else 0, 1 + Count(a) + Count(b), a, b),
           Branch(qn, if bal == -1 then 1 else 0, 1 + Count(c) + Count(d), c, d))
  }

  lemma {:induction false} JoinedAvl<K>(pn: Node<K>, qn: Node<K>, rn: Node<K>, bal: int, a: Tree<K>, b: Tree<K>,
      c: Tree<K>, d: Tree<K>, k: nat)
    requires Avl(a) && Avl(b) && Avl(c) && Avl(d) && Height(a) == k && Height(d) == k && -1 <= bal <= 1
    requires Height(b) == (if bal == 1 then k - 1 else k) && Height(c) == (if bal == -1 then k - 1 else k)
    ensures var t := Joined(pn, qn, rn, bal, a, b, c, d);
            Avl(t) && Height(t) == k + 2 && Count(t) == 3 + Count(a) + Count(b) + Count(c) + Count(d)
  {
    BranchIsAvl(pn, a, b, k, Height(b));
    BranchIsAvl(qn, c, d, Height(c), k);
    var t := Joined(pn, qn, rn, bal, a, b, c, d);
    BranchIsAvl(rn, t.l, t.r, k + 1, k + 1);
  }

  /** The heights around the tall grandchild r of a double rotation; d is the side of q it is not on. */
  lemma {:induction false} MiddleHeights<K>(q: Tree<K>, d: Dir, k: nat)
    requires q.Branch? && Avl(q) && Height(q) == k + 2 && q.bal == Sign(1 - d)
    ensures var r := Side(q, 1 - d);
            && r.Branch? && Avl(r) && Avl(r.l) && Avl(r.r) && Avl(Side(q, d))
            && Height(r) == k + 1 && Height(Side(q, d)) == k
            && Height(r.l) == (if r.bal == 1 then k - 1 else k) && Height(r.r) == (if r.bal == -1 then k - 1 else k)
            && q.size == 1 + Count(r) + Count(Side(q, d)) && r.size == 1 + Count(r.l) + Count(r.r)
            && Size(r.l) == Count(r.l) && Size(r.r) == Count(r.r)
            && -1 <= r.bal <= 1
  {
    var r := Side(q, 1 - d);
    assert Avl(r) && Height(r) == k + 1 && Height(Side(q, d)) == k;
  }

  lemma {:induction false} BranchIsAvl<K>(n: Node<K>, l: Tree<K>, r: Tree<K>, hl: nat, hr: nat)
    requires Avl(l) && Avl(r) && hl == Height(l) && hr == Height(r) && -1 <= hr - hl <= 1
    ensures var t := Branch(n, hr - hl, 1 + Count(l) + Count(r), l, r);
            Avl(t) && Height(t) == (if hl < hr then hr + 1 else hl + 1) && Count(t) == 1 + Count(l) + Count(r)
  {
  }

  // ---------------------------------------------------------------------------------------
  // Insertion: the path is up, then the critical node f, then nodes that were all in balance
  // ---------------------------------------------------------------------------------------

  function Fresh<K>(x: Node<K>): Tree<K> {
    Branch(x, 0, 1, Leaf, Leaf)
  }

  /** f is the last node of the path that was not in balance, or the root when all were. */
  ghost predicate Critical<K>(up: Path<K>, f: Frame<K>, below: Path<K>) {
    Level(below) && (up.Down? ==> f.bal != 0)
  }

  /** The subtree at the critical node once x hangs at the end of the path and all is counted. */
  function AtCritical<K>(f: Frame<K>, below: Path<K>, x: Node<K>): Tree<K> {
    Fill(GrownFrame(f), Plug(Grow(below), Fresh(x)))
  }

  lemma {:induction false} GrownCases<K>(f: Frame<K>, c: Tree<K>, h: nat, n: int)
    requires FrameAvl(f, h, n) && Avl(c) && Height(c) == h + 1 && Count(c) == n + 1
    ensures var t := Fill(GrownFrame(f), c); var k := Raise(h, f.sib);
            && Count(t) == Tally(n, f.sib) + 1
            && (f.bal == 0 ==> Avl(t) && Height(t) == k + 1)
            && (f.bal == -Sign(f.dir) ==> Avl(t) && Height(t) == k)
            && (f.bal == Sign(f.dir) ==> t.bal == 2 * Sign(f.dir) && Leaning(t, 1 - f.dir) && Height(t) == k + 1)
  {
    FillAvl(GrownFrame(f), c);
  }

  /** The tree before the insertion, seen from the critical node. */
  lemma {:induction false} CriticalFrame<K>(up: Path<K>, f: Frame<K>, below: Path<K>, h: nat, n: int)
    requires Avl(Plug(Append(Down(up, f), below), Leaf)) && h == HeightAbove(below, 0) && n == CountAbove(below, 0)
    ensures PathAvl(below, 0, 0) && FrameAvl(f, h, n) && PathAvl(up, Raise(h, f.sib), Tally(n, f.sib))
  {
    PlugAvl(Append(Down(up, f), below), Leaf);
    PathAvlAppend(Down(up, f), below, 0, 0);
  }

  lemma {:induction false} GrownBelow<K>(below: Path<K>, x: Node<K>)
    requires PathAvl(below, 0, 0) && Level(below)
    ensures var t := Plug(Grow(below), Fresh(x));
            Avl(t) && Height(t) == HeightAbove(below, 0) + 1 && Count(t) == CountAbove(below, 0) + 1
  {
    GrowAvl(below, 0, 0, 1, 1);
    PlugAvl(Grow(below), Fresh(x));
  }

  /** What is known at the critical node. */
  lemma {:induction false} CriticalCases<K>(up: Path<K>, f: Frame<K>, below: Path<K>, x: Node<K>)
    requires Avl(Plug(Append(Down(up, f), below), Leaf)) && Critical(up, f, below)
    ensures var h, n := HeightAbove(below, 0), CountAbove(below, 0);
            var t := AtCritical(f, below, x); var k := Raise(h, f.sib);
            && PathAvl(up, k, Tally(n, f.sib)) && Count(t) == Tally(n, f.sib) + 1
            && -1 <= f.bal <= 1
            && (f.bal == 0 ==> Avl(t) && Height(t) == k + 1)
            && (f.bal == -Sign(f.dir) ==> Avl(t) && Height(t) == k)
            && (f.bal == Sign(f.dir) ==> t.bal == 2 * Sign(f.dir) && Leaning(t, 1 - f.dir) && Height(t) == k + 1)
  {
    var h, n := HeightAbove(below, 0), CountAbove(below, 0);
    CriticalFrame(up, f, below, h, n);
    GrownBelow(below, x);
    GrownCases(f, Plug(Grow(below), Fresh(x)), h, n);
  }

  /** No repair needed: the whole tree is AVL again. */
  lemma {:induction false} InsertedInBalance<K>(up: Path<K>, f: Frame<K>, below: Path<K>, x: Node<K>)
    requires Avl(Plug(Append(Down(up, f), below), Leaf)) && Critical(up, f, below)
    requires -2 < GrownFrame(f).bal < 2
    ensures Avl(Plug(Resize(up, 1), AtCritical(f, below, x)))
  {
    CriticalCases(up, f, below, x);
    var t := AtCritical(f, below, x);
    if f.bal != 0 {
      ResizeAvl(up, Height(t), Count(t) - 1, Count(t), 1);
    }
    PlugAvl(Resize(up, 1), t);
  }

  /** The child that grew leans itself, so the rotations know which case they are in. */
  lemma {:induction false} GrownChildLeans<K>(below: Path<K>, x: Node<K>)
    requires Level(below)
    ensures var t := Plug(Grow(below), Fresh(x)); t.Branch? && (below.Down? ==> t.bal == 1 || t.bal == -1)
  {
    GrownRoot(below, Fresh(x));
  }

  lemma {:induction false} GrownRoot<K>(below: Path<K>, c: Tree<K>)
    requires Level(below) && c.Branch?
    ensures var t := Plug(Grow(below), c); t.Branch? && (if below.Top? then t == c else t.bal == 1 || t.bal == -1)
    decreases below
  {
    if below.Down? {
      GrownRoot(below.up, Fill(GrownFrame(below.f), c));
    }
  }

  lemma {:induction false} InsertedLeaning<K>(up: Path<K>, f: Frame<K>, below: Path<K>, x: Node<K>)
    requires Avl(Plug(Append(Down(up, f), below), Leaf)) && Critical(up, f, below)
    requires !(-2 < GrownFrame(f).bal < 2)
    ensures var t, which := AtCritical(f, below, x), 1 - f.dir;
            t.bal == -2 * Sign(which) && Leaning(t, which) && Side(t, 1 - which).bal != 0
  {
    CriticalCases(up, f, below, x);
    GrownChildLeans(below, x);
    var t := AtCritical(f, below, x);
    assert Side(t, f.dir) == Plug(Grow(below), Fresh(x));
  }

  /** What the path above the critical node was built for, when that node leans too far. */
  lemma {:induction false} CriticalLeaning<K>(up: Path<K>, f: Frame<K>, below: Path<K>, x: Node<K>)
    returns (k: nat, n: int)
    requires Avl(Plug(Append(Down(up, f), below), Leaf)) && Critical(up, f, below)
    requires !(-2 < GrownFrame(f).bal < 2)
    ensures var t := AtCritical(f, below, x);
            PathAvl(up, k, n) && Height(t) == k + 1 && Count(t) == n + 1
  {
    CriticalCases(up, f, below, x);
    k, n := Raise(HeightAbove(below, 0), f.sib), Tally(CountAbove(below, 0), f.sib);
  }

  /** A path over a subtree that has one node more than the path was built for. */
  lemma {:induction false} ResizedAbove<K>(up: Path<K>, t: Tree<K>, k: nat, n: int)
    requires PathAvl(up, k, n) && Avl(t) && Height(t) == k && Count(t) == n + 1
    ensures Avl(Plug(Resize(up, 1), t))
  {
    ResizeAvl(up, k, n, Count(t), 1);
    PlugAvl(Resize(up, 1), t);
  }

  /** What repairs the critical node repairs the whole tree. */
  lemma {:induction false} InsertedRepaired<K>(up: Path<K>, f: Frame<K>, below: Path<K>, x: Node<K>, t': Tree<K>)
    requires Avl(Plug(Append(Down(up, f), below), Leaf)) && Critical(up, f, below)
    requires !(-2 < GrownFrame(f).bal < 2)
    requires var t := AtCritical(f, below, x);
             Avl(t') && Height(t') == Height(t) - 1 && Count(t') == Count(t)
    ensures Avl(Plug(Resize(up, 1), t'))
  {
    var k, n := CriticalLeaning(up, f, below, x);
    ResizedAbove(up, t', k, n);
  }

  // ---------------------------------------------------------------------------------------
  // What erase leaves at the end of the path, for each of the three ways to take a node out
  // ---------------------------------------------------------------------------------------

  /** The elements left when the root of c, standing at the end of ctx, is taken out. */
  function Without<K>(ctx: Path<K>, c: Tree<K>): seq<Node<K>>
    requires c.Branch?
  {
    LeftOf(ctx) + (Inorder(c.l) + Inorder(c.r)) + RightOf(ctx)
  }

  /** The subtree low at the end of the path is one level lower than the path was built for. */
  ghost predicate Owes<K>(ctx: Path<K>, low: Tree<K>) {
    Avl(low) && PathAvl(ctx, Height(low) + 1, Count(low))
  }

  /** (ctx', c') is what the walk back up starts from. */
  ghost predicate Removed<K>(ctx: Path<K>, c: Tree<K>, ctx': Path<K>, c': Tree<K>)
    requires c.Branch?
  {
    Owes(ctx', c') && Inorder(Plug(ctx', c')) == Without(ctx, c)
  }

  lemma {:induction false} DropOne<K>(ctx: Path<K>, c: Tree<K>)
    requires Avl(Plug(ctx, c))
    ensures Avl(c) && PathAvl(Resize(ctx, -1), Height(c), Count(c) - 1)
  {
    PlugAvl(ctx, c);
    ResizeAvl(ctx, Height(c), Count(c), Count(c) - 1, -1);
  }

  lemma {:induction false} OnlyLeft<K>(c: Tree<K>)
    requires Avl(c) && c.Branch? && c.r.Leaf?
    ensures Avl(c.l) && Height(c) == Height(c.l) + 1 && Count(c) - 1 == Count(c.l)
      && Inorder(c.l) + Inorder(c.r) == Inorder(c.l)
  {
  }

  /** No right subtree: the left one moves up. */
  lemma {:induction false} RemovedLow<K>(ctx: Path<K>, c: Tree<K>)
    requires Avl(Plug(ctx, c)) && c.Branch? && c.r.Leaf?
    ensures Removed(ctx, c, Resize(ctx, -1), c.l)
  {
    DropOne(ctx, c);
    OnlyLeft(c);
    ResizeFacts(ctx, -1);
    InorderPlug(Resize(ctx, -1), c.l);
  }

  /** The frame that takes the place of the root of c. */
  function Heir<K>(n: Node<K>, c: Tree<K>): Frame<K>
    requires c.Branch?
  {
    Frame(n, c.bal, c.size - 1, 1, c.l)
  }

  /** A path that only turns left. */
  ghost predicate Leftmost<K>(down: Path<K>) {
    down.Down? ==> down.f.dir == 0 && Leftmost(down.up)
  }

  lemma {:induction false} LeftmostOrder<K>(down: Path<K>)
    requires Leftmost(down)
    ensures LeftOf(down) == []
  {
    if down.Down? {
      LeftmostOrder(down.up);
    }
  }

  lemma {:induction false} FirstOut<T>(n: T, a: seq<T>, b: seq<T>)
    ensures [] + ([] + [n] + a) + b == [n] + ([] + a + b)
  {
  }

  /** Taking the leftmost node out of a tree takes out its first element. */
  lemma {:induction false} LeftmostOut<K>(down: Path<K>, r: Tree<K>)
    requires r.Branch? && r.l.Leaf? && Leftmost(down)
    ensures Inorder(Plug(down, r)) == [r.n] + Inorder(Plug(Resize(down, -1), r.r))
  {
    InorderPlug(down, r);
    InorderPlug(Resize(down, -1), r.r);
    ResizeFacts(down, -1);
    LeftmostOrder(down);
    FirstOut(r.n, Inorder(r.r), RightOf(down));
  }

  lemma {:induction false} PlugAppendOrder<K>(up: Path<K>, down: Path<K>, c: Tree<K>)
    ensures Inorder(Plug(Append(up, down), c)) == LeftOf(up) + Inorder(Plug(down, c)) + RightOf(up)
  {
    PlugAppend(up, down, c);
    InorderPlug(up, Plug(down, c));
  }

  /** A path below another one, when one node has gone from the hole of the lower one. */
  lemma {:induction false} PathAvlJoined<K>(up: Path<K>, down: Path<K>, h: nat, n: int)
    requires PathAvl(down, h, n) && PathAvl(up, HeightAbove(down, h), CountAbove(down, n) - 1)
    ensures PathAvl(Append(up, Resize(down, -1)), h, n - 1)
  {
    ResizeAvl(down, h, n, n - 1, -1);
    PathAvlAppend(up, Resize(down, -1), h, n - 1);
  }

  lemma {:induction false} HeirAvl<K>(up: Path<K>, n: Node<K>, c: Tree<K>, above: Path<K>)
    requires Avl(c) && c.Branch? && PathAvl(up, Height(c), Count(c) - 1) && above == Down(up, Heir(n, c))
    ensures Avl(c.r) && PathAvl(above, Height(c.r), Count(c.r) - 1)
  {
    assert Raise(Height(c.r), c.l) == Height(c) && Tally(Count(c.r) - 1, c.l) == Count(c) - 1;
    assert FrameAvl(Heir(n, c), Height(c.r), Count(c.r) - 1);
  }

  lemma {:induction false} SuccessorGone<K>(r: Tree<K>)
    requires Avl(r) && r.Branch? && r.l.Leaf?
    ensures Avl(r.r) && Height(r) == Height(r.r) + 1 && Count(r) == Count(r.r) + 1
  {
  }

  /** The path above a right subtree, and the one in it down to r, once r has gone. */
  lemma {:induction false} RemovedBelow<K>(above: Path<K>, t: Tree<K>, down: Path<K>, r: Tree<K>, h: nat, n: int)
    requires Avl(t) && t == Plug(down, r) && r.Branch? && r.l.Leaf? && PathAvl(above, Height(t), Count(t) - 1)
    requires h == Height(r) && n == Count(r)
    ensures Avl(r) && PathAvl(Append(above, Resize(down, -1)), h, n - 1)
  {
    PlugAvl(down, r);
    PathAvlJoined(above, down, h, n);
  }

  lemma {:induction false} RemovedPath<K>(up: Path<K>, c: Tree<K>, down: Path<K>, r: Tree<K>, above: Path<K>)
    requires Avl(c) && c.Branch? && c.r == Plug(down, r) && r.Branch? && r.l.Leaf?
    requires PathAvl(up, Height(c), Count(c) - 1) && above == Down(up, Heir(r.n, c))
    ensures Owes(Append(above, Resize(down, -1)), r.r)
  {
    HeirAvl(up, r.n, c, above);
    var h, n := Height(r), Count(r);
    RemovedBelow(above, c.r, down, r, h, n);
    SuccessorGone(r);
  }

  lemma {:induction false} HeirInPlace<T>(a: seq<T>, b: seq<T>, n: T, d: seq<T>, e: seq<T>)
    ensures (a + (b + [n])) + d + ([] + e) == a + (b + ([n] + d)) + e
  {
  }

  lemma {:induction false} HeirOrder<K>(up: Path<K>, n: Node<K>, c: Tree<K>)
    requires c.Branch?
    ensures LeftOf(Down(up, Heir(n, c))) == LeftOf(up) + (Inorder(c.l) + [n])
    ensures RightOf(Down(up, Heir(n, c))) == [] + RightOf(up)
  {
  }

  lemma {:induction false} RemovedOrder<K>(ctx: Path<K>, c: Tree<K>, down: Path<K>, r: Tree<K>)
    requires c.Branch? && c.r == Plug(down, r) && r.Branch? && r.l.Leaf? && Leftmost(down)
    ensures Inorder(Plug(Append(Down(Resize(ctx, -1), Heir(r.n, c)), Resize(down, -1)), r.r)) == Without(ctx, c)
  {
    ResizeFacts(ctx, -1);
    HeirOrder(Resize(ctx, -1), r.n, c);
    LeftmostOut(down, r);
    PlugAppendOrder(Down(Resize(ctx, -1), Heir(r.n, c)), Resize(down, -1), r.r);
    HeirInPlace(LeftOf(ctx), Inorder(c.l), r.n, Inorder(Plug(Resize(down, -1), r.r)), RightOf(ctx));
  }

  /**
    The successor, at the end of the leftmost path of the right subtree, takes the place;
    an empty path is the case where the right child itself is the successor.
   */
  lemma {:induction false} RemovedHigh<K>(ctx: Path<K>, c: Tree<K>, down: Path<K>, r: Tree<K>)
    requires Avl(Plug(ctx, c)) && c.Branch?
    requires c.r == Plug(down, r) && r.Branch? && r.l.Leaf? && Leftmost(down)
    ensures Removed(ctx, c, Append(Down(Resize(ctx, -1), Heir(r.n, c)), Resize(down, -1)), r.r)
  {
    DropOne(ctx, c);
    RemovedPath(Resize(ctx, -1), c, down, r, Down(Resize(ctx, -1), Heir(r.n, c)));
    RemovedOrder(ctx, c, down, r);
  }

  // ---------------------------------------------------------------------------------------
  // The depth bound behind KAVL_MAX_DEPTH
  // ---------------------------------------------------------------------------------------

  const KAVL_MAX_DEPTH := 64

  /** The least number of nodes of an AVL tree of height h. */
  function MinCount(h: nat): nat {
    if h == 0 then 0 else if h == 1 then 1 else 1 + MinCount(h - 1) + MinCount(h - 2)
  }

  lemma {:induction false} MinCountGrows(h: nat)
    ensures MinCount(h) <= MinCount(h + 1)
  {
    if h > 1 {
      MinCountGrows(h - 1);
      MinCountGrows(h - 2);
    }
  }

  lemma {:induction false} MinCountMonotone(h: nat, k: nat)
    requires h <= k
    ensures MinCount(h) <= MinCount(k)
    decreases k
  {
    if h < k {
      MinCountMonotone(h, k - 1);
      MinCountGrows(k - 1);
    }
  }

  lemma {:induction false} AvlHasManyNodes<K>(t: Tree<K>)
    requires Avl(t)
    ensures MinCount(Height(t)) <= Count(t)
  {
    if t.Branch? {
      AvlHasManyNodes(t.l);
      AvlHasManyNodes(t.r);
      var h := Height(t);
      if h > 1 {
        MinCountMonotone(h - 2, Height(t.l));
        MinCountMonotone(h - 2, Height(t.r));
      }
    }
  }

  function Pow8(k: nat): nat {
    if k == 0 then 1 else 8 * Pow8(k - 1)
  }

  lemma {:induction false} MinCountIsExponential(k: nat)
    ensures Pow8(k) <= MinCount(5 * k) + 1
  {
    if k > 0 {
      MinCountIsExponential(k - 1);
      var h := 5 * (k - 1);
      MinCountGrows(h);
      assert MinCount(h + 2) == 1 + MinCount(h + 1) + MinCount(h);
      assert MinCount(h + 3) == 1 + MinCount(h + 2) + MinCount(h + 1);
      assert MinCount(h + 4) == 1 + MinCount(h + 3) + MinCount(h + 2);
      assert MinCount(h + 5) == 1 + MinCount(h + 4) + MinCount(h + 3);
    }
  }

  lemma {:induction false} DeepIsLarge(k: nat, h: nat)
    requires 5 * k <= h
    ensures Pow8(k) <= MinCount(h) + 1
  {
    MinCountIsExponential(k);
    MinCountMonotone(5 * k, h);
  }

  /** A tree whose node count fits the 32-bit size field is at most 54 levels deep. */
  lemma {:induction false} AvlDepth<K>(t: Tree<K>)
    requires Avl(t) && Count(t) < 0x1_0000_0000
    ensures Height(t) <= 54
  {
    AvlHasManyNodes(t);
    if Height(t) > 54 {
      DeepIsLarge(11, Height(t));
    }
  }
}

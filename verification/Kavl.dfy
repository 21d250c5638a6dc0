/**
  nfq2/kavl.h on the heap.  `Holds` ties the fields of the node objects to a value of module
  KavlTree; the methods are the loops of the header.
 */
module Kavl {
  import opened KavlTree
  import opened Order

  /** The fields of every node of t are what t records. */
  ghost predicate Models<K>(t: Tree<K>)
    reads Nodes(t)
  {
    t.Branch? ==>
      && t.n.p0 == Root(t.l) && t.n.p1 == Root(t.r)
      && t.n.balance == t.bal && t.n.size == t.size
      && Models(t.l) && Models(t.r)
  }

  /** The heap holds exactly the tree t. */
  ghost predicate Holds<K>(t: Tree<K>)
    reads Nodes(t)
  {
    Models(t) && Distinct(t)
  }

  /** The fields of the node of f are what f records, and its hole side points to `below`. */
  ghost predicate FrameModels<K>(f: Frame<K>, below: Node?<K>)
    reads FrameNodes(f)
  {
    && f.n.Child(f.dir) == below && f.n.Child(1 - f.dir) == Root(f.sib)
    && f.n.balance == f.bal && f.n.size == f.size
    && Models(f.sib)
  }

  ghost predicate PathModels<K>(ctx: Path<K>, bottom: Node?<K>)
    reads PathNodes(ctx)
    decreases ctx
  {
    ctx.Down? ==> FrameModels(ctx.f, bottom) && PathModels(ctx.up, ctx.f.n)
  }

  /** No object occurs twice on the path or beside it. */
  ghost predicate PathDistinct<K>(ctx: Path<K>) {
    ctx.Down? ==>
      && Distinct(ctx.f.sib) && ctx.f.n !in Nodes(ctx.f.sib)
      && FrameNodes(ctx.f) !! PathNodes(ctx.up) && PathDistinct(ctx.up)
  }

  /** The heap holds the path, with `bottom` hanging in its hole. */
  ghost predicate HoldsPath<K>(ctx: Path<K>, bottom: Node?<K>)
    reads PathNodes(ctx)
  {
    PathModels(ctx, bottom) && PathDistinct(ctx)
  }

  lemma {:induction false} FillModels<K>(f: Frame<K>, c: Tree<K>)
    ensures Holds(Fill(f, c)) <==>
            && FrameModels(f, Root(c)) && Distinct(f.sib) && f.n !in Nodes(f.sib)
            && Holds(c) && FrameNodes(f) !! Nodes(c)
  {
  }

  /** A tree is held exactly when every path into it and the subtree at its end are held, apart. */
  lemma {:induction false} Zip<K>(ctx: Path<K>, c: Tree<K>)
    ensures Holds(Plug(ctx, c)) <==> HoldsPath(ctx, Root(c)) && Holds(c) && PathNodes(ctx) !! Nodes(c)
    decreases ctx
  {
    if ctx.Down? {
      FillModels(ctx.f, c);
      FillFacts(ctx.f, c);
      Zip(ctx.up, Fill(ctx.f, c));
    }
  }

  /** x compares greater, then equal, then less along s; at most one run of each. */
  ghost predicate Searchable<K>(cmp: (K, K) -> int, x: K, s: seq<Node<K>>) {
    forall i, j :: 0 <= i < j < |s| ==>
                     && (cmp(x, s[i].key) <= 0 ==> cmp(x, s[j].key) <= 0)
                     && (cmp(x, s[i].key) < 0 ==> cmp(x, s[j].key) < 0)
  }

  ghost predicate AllBelow<K>(cmp: (K, K) -> int, x: K, s: seq<Node<K>>) {
    forall n :: n in s ==> cmp(x, n.key) > 0
  }

  ghost predicate AllAbove<K>(cmp: (K, K) -> int, x: K, s: seq<Node<K>>) {
    forall n :: n in s ==> cmp(x, n.key) < 0
  }

  /** The order of x relative to everything outside the subtree at the end of the path. */
  ghost predicate Bracketed<K>(ctx: Path<K>, cmp: (K, K) -> int, x: K, cnt: nat) {
    AllBelow(cmp, x, LeftOf(ctx)) && AllAbove(cmp, x, RightOf(ctx)) && cnt == |LeftOf(ctx)|
  }

  /** x compares to every element of s as it does to n, when n comes after (before) them all. */
  lemma {:induction false} SplitAt<K>(cmp: (K, K) -> int, x: K, l: seq<Node<K>>, a: seq<Node<K>>, n: Node<K>,
      b: seq<Node<K>>, r: seq<Node<K>>)
    requires Searchable(cmp, x, l + (a + [n] + b) + r)
    requires AllBelow(cmp, x, l) && AllAbove(cmp, x, r)
    ensures cmp(x, n.key) > 0 ==> AllBelow(cmp, x, l + (a + [n]))
    ensures cmp(x, n.key) < 0 ==> AllAbove(cmp, x, ([n] + b) + r)
  {
    var s := l + (a + [n] + b) + r;
    var k := |l| + |a|;
    assert s[k] == n;
    if cmp(x, n.key) > 0 {
      forall m | m in a
        ensures cmp(x, m.key) > 0
      {
        var i :| 0 <= i < |a| && a[i] == m;
        assert s[|l| + i] == m;
      }
    } else if cmp(x, n.key) < 0 {
      forall m | m in b
        ensures cmp(x, m.key) < 0
      {
        var i :| 0 <= i < |b| && b[i] == m;
        assert s[k + 1 + i] == m;
      }
    }
  }

  function FrameOf<K>(c: Tree<K>, dir: Dir): Frame<K>
    requires c.Branch?
  {
    Frame(c.n, c.bal, c.size, dir, Side(c, 1 - dir))
  }

  /** The step of every search loop, to the side the comparison tells. */
  lemma {:induction false} Descend<K>(ctx: Path<K>, c: Tree<K>, cmp: (K, K) -> int, x: K, cnt: nat, dir: Dir)
    requires Bracketed(ctx, cmp, x, cnt) && c.Branch?
    requires Searchable(cmp, x, Inorder(Plug(ctx, c)))
    requires if dir == 1 then cmp(x, c.n.key) > 0 else cmp(x, c.n.key) < 0
    ensures Plug(Down(ctx, FrameOf(c, dir)), Side(c, dir)) == Plug(ctx, c)
    ensures Bracketed(Down(ctx, FrameOf(c, dir)), cmp, x, if dir == 1 then cnt + Count(c.l) + 1 else cnt)
  {
    InorderPlug(ctx, c);
    SplitAt(cmp, x, LeftOf(ctx), Inorder(c.l), c.n, Inorder(c.r), RightOf(ctx));
    InorderFacts(c.l);
    assert Fill(FrameOf(c, dir), Side(c, dir)) == c;
    if dir == 1 {
      assert RightOf(Down(ctx, FrameOf(c, dir))) == RightOf(ctx);
    } else {
      assert LeftOf(Down(ctx, FrameOf(c, dir))) == LeftOf(ctx);
    }
  }

  /** Where a search that met an equal element stands. */
  lemma {:induction false} WalkHit<K>(ctx: Path<K>, c: Tree<K>, cnt: nat)
    requires c.Branch? && cnt == |LeftOf(ctx)| + Count(c.l)
    ensures cnt < |Inorder(Plug(ctx, c))| && Inorder(Plug(ctx, c))[cnt] == c.n
  {
    InorderPlug(ctx, c);
    InorderFacts(c.l);
  }

  /** Where a search that fell off the tree stands. */
  lemma {:induction false} WalkMiss<K>(ctx: Path<K>, cmp: (K, K) -> int, x: K, cnt: nat)
    requires Bracketed(ctx, cmp, x, cnt)
    ensures var s := Inorder(Plug(ctx, Leaf));
            && s == LeftOf(ctx) + RightOf(ctx) && cnt <= |s|
            && s[..cnt] == LeftOf(ctx) && s[cnt..] == RightOf(ctx)
            && (forall n :: n in s ==> cmp(x, n.key) != 0)
  {
    InorderPlug(ctx, Leaf);
  }

  /** kavl_size */
  function SizeOf<K>(p: Node?<K>): int
    reads p
  {
    if p == null then 0 else p.size
  }

  lemma {:induction false} ChildSize<K>(c: Tree<K>)
    requires c.Branch? && Models(c) && Avl(c)
    ensures SizeOf(c.n.p0) == Count(c.l) && SizeOf(c.n.p1) == Count(c.r)
  {
  }

  /** A search for x in t stands at the subtree c, having counted cnt elements below x. */
  ghost predicate At<K>(t: Tree<K>, ctx: Path<K>, c: Tree<K>, cmp: (K, K) -> int, x: K, cnt: nat)
    reads Nodes(c)
  {
    Plug(ctx, c) == t && Models(c) && Avl(c) && Bracketed(ctx, cmp, x, cnt) && Len(ctx) + Height(c) <= 54
  }

  lemma {:induction false} SearchStart<K>(t: Tree<K>, cmp: (K, K) -> int, x: K)
    requires Models(t) && Avl(t) && Count(t) < 0x1_0000_0000
    ensures At(t, Top, t, cmp, x, 0)
  {
    AvlDepth(t);
  }

  lemma {:induction false} SearchStep<K>(t: Tree<K>, ctx: Path<K>, c: Tree<K>, cmp: (K, K) -> int, x: K, cnt: nat,
      dir: Dir, cnt': nat)
    requires At(t, ctx, c, cmp, x, cnt) && c.Branch? && Searchable(cmp, x, Inorder(t))
    requires if dir == 1 then cmp(x, c.n.key) > 0 else cmp(x, c.n.key) < 0
    requires cnt' == if dir == 1 then cnt + SizeOf(c.n.p0) + 1 else cnt
    ensures At(t, Down(ctx, FrameOf(c, dir)), Side(c, dir), cmp, x, cnt')
    ensures c.n.Child(dir) == Root(Side(c, dir))
  {
    ChildSize(c);
    Descend(ctx, c, cmp, x, cnt, dir);
  }

  /** Needed to carry facts about a tree across a method call. */
  lemma {:induction false} NodesAllocated<K>(t: Tree<K>)
    ensures forall n :: n in Nodes(t) ==> allocated(n)
  {
    if t.Branch? {
      NodesAllocated(t.l);
      NodesAllocated(t.r);
    }
  }

  lemma {:induction false} PathAllocated<K>(ctx: Path<K>)
    ensures forall n :: n in PathNodes(ctx) ==> allocated(n)
  {
    if ctx.Down? {
      PathAllocated(ctx.up);
      NodesAllocated(ctx.f.sib);
    }
  }

  // ---------------------------------------------------------------------------------------
  // Single writes to a held tree
  // ---------------------------------------------------------------------------------------

  /** The same path with something added to the fields of its i-th node, counted from the root. */
  function UpdateAt<K>(ctx: Path<K>, i: nat, dbal: int, dsize: int): Path<K> {
    if ctx.Top? then Top
    else if Len(ctx.up) == i then Down(ctx.up, ctx.f.(bal := ctx.f.bal + dbal, size := ctx.f.size + dsize))
    else Down(UpdateAt(ctx.up, i, dbal, dsize), ctx.f)
  }

  lemma {:induction false} UpdateCut<K>(up: Path<K>, f: Frame<K>, below: Path<K>, dbal: int, dsize: int)
    ensures UpdateAt(Append(Down(up, f), below), Len(up), dbal, dsize) ==
            Append(Down(up, f.(bal := f.bal + dbal, size := f.size + dsize)), below)
    ensures Len(Append(Down(up, f), below)) > Len(up)
    decreases below
  {
    if below.Down? {
      UpdateCut(up, f, below.up, dbal, dsize);
    }
  }

  /** Add to the bookkeeping fields of the last node of a path. */
  method AdjustLast<K>(n: Node<K>, dbal: int, dsize: int, ghost up: Path<K>, ghost f: Frame<K>, ghost c: Tree<K>,
      ghost f': Frame<K>)
    requires Holds(Plug(Down(up, f), c)) && n == f.n
    requires f' == f.(bal := f.bal + dbal, size := f.size + dsize)
    modifies n
    ensures Holds(Plug(Down(up, f'), c)) && Nodes(Plug(Down(up, f'), c)) == Nodes(Plug(Down(up, f), c))
    ensures n.Child(f.dir) == Root(c) && n.balance == f'.bal
  {
    Zip(Down(up, f), c);
    NodesOfPlug(Down(up, f), c);
    NodesOfPlug(Down(up, f'), c);
    assert n !in PathNodes(up) && n !in Nodes(f.sib) && n !in Nodes(c);
    n.balance := n.balance + dbal;
    n.size := n.size + dsize;
    assert PathModels(up, n) && Models(f.sib) && Models(c);
    Zip(Down(up, f'), c);
  }

  /** Add to the bookkeeping fields of any node of the path. */
  method AdjustAt<K>(n: Node<K>, dbal: int, dsize: int, ghost ctx: Path<K>, ghost i: nat, ghost c: Tree<K>)
    requires Holds(Plug(ctx, c)) && i < Len(ctx) && n == NodesOn(ctx)[i]
    modifies n
    ensures var ctx' := UpdateAt(ctx, i, dbal, dsize);
            Holds(Plug(ctx', c)) && Nodes(Plug(ctx', c)) == Nodes(Plug(ctx, c))
    ensures n.Child(DirsOn(ctx)[i]) == if i + 1 < Len(ctx) then NodesOn(ctx)[i + 1] else Root(c)
  {
    ghost var up, f, below := CutAt(ctx, i);
    UpdateCut(up, f, below, dbal, dsize);
    PlugAppend(Down(up, f), below, c);
    ghost var f' := f.(bal := f.bal + dbal, size := f.size + dsize);
    PlugAppend(Down(up, f'), below, c);
    NodesOfPlug(below, c);
    AdjustLast(n, dbal, dsize, up, f, Plug(below, c), f');
  }

  /** Hang the subtree c' instead of whatever hung in the hole of the path. */
  method Relink<K>(n: Node<K>, dir: Dir, r: Node?<K>, ghost ctx: Path<K>, ghost bottom: Node?<K>, ghost c': Tree<K>)
    requires ctx.Down? && n == ctx.f.n && dir == ctx.f.dir && HoldsPath(ctx, bottom)
    requires Holds(c') && r == Root(c') && PathNodes(ctx) !! Nodes(c')
    modifies n
    ensures Holds(Plug(ctx, c'))
  {
    assert n !in PathNodes(ctx.up) && n !in Nodes(ctx.f.sib) && n !in Nodes(c');
    if dir == 0 { n.p0 := r; } else { n.p1 := r; }
    assert PathModels(ctx.up, n) && Models(ctx.f.sib) && Models(c');
    Zip(ctx, c');
  }

  // ---------------------------------------------------------------------------------------
  // Rotations
  // ---------------------------------------------------------------------------------------

  /** kavl_rotate1 */
  method KavlRotate1<K>(p: Node<K>, dir: Dir, ghost t: Tree<K>) returns (q: Node<K>)
    requires t.Branch? && t.n == p && Holds(t) && Side(t, 1 - dir).Branch?
    modifies p, Side(t, 1 - dir).n
    ensures q == Side(t, 1 - dir).n
    ensures Holds(Rotate1(t, dir))
    ensures p.balance == old(p.balance) && q.balance == old(q.balance)
  {
    ghost var tq := Side(t, 1 - dir);
    assert Holds(tq) && Models(tq.l) && Models(tq.r);
    q := p.Child(1 - dir);
    var sizeP := p.size;
    p.size := p.size - (q.size - SizeOf(q.Child(dir)));
    q.size := sizeP;
    if dir == 0 {
      p.p1 := q.p0;
      q.p0 := p;
    } else {
      p.p0 := q.p1;
      q.p1 := p;
    }
    assert Models(Side(t, dir)) && Models(tq.l) && Models(tq.r);
    assert Distinct(tq);
  }

  /** The size fields of kavl_rotate2. */
  method Rotate2Sizes<K>(p: Node<K>, q: Node<K>, r: Node<K>, sizeXDir: int)
    requires p != q && q != r && p != r
    modifies p`size, q`size, r`size
    ensures r.size == old(p.size)
    ensures p.size == old(p.size) - (old(q.size) - sizeXDir)
    ensures q.size == old(q.size) - (sizeXDir + 1)
  {
    r.size := p.size;
    p.size := p.size - (q.size - sizeXDir);
    q.size := q.size - (sizeXDir + 1);
  }

  /** The pointer half of kavl_rotate2. */
  method Rotate2Links<K>(p: Node<K>, q: Node<K>, r: Node<K>, dir: Dir)
    requires p != q && q != r && p != r
    modifies p`p0, p`p1, q`p0, q`p1, r`p0, r`p1
    ensures p.Child(1 - dir) == old(r.Child(dir)) && p.Child(dir) == old(p.Child(dir))
    ensures q.Child(dir) == old(r.Child(1 - dir)) && q.Child(1 - dir) == old(q.Child(1 - dir))
    ensures r.Child(dir) == p && r.Child(1 - dir) == q
  {
    if dir == 0 {
      p.p1 := r.p0;
      r.p0 := p;
      q.p0 := r.p1;
      r.p1 := q;
    } else {
      p.p0 := r.p1;
      r.p1 := p;
      q.p1 := r.p0;
      r.p0 := q;
    }
  }

  /** The bookkeeping half of kavl_rotate2: b1 is the lean of r that puts q in balance. */
  method Rotate2Balances<K>(p: Node<K>, q: Node<K>, r: Node<K>, b1: int)
    requires p != q && q != r && p != r && b1 != 0
    modifies p`balance, q`balance, r`balance
    ensures q.balance == if old(r.balance) == b1 || old(r.balance) == 0 then 0 else b1
    ensures p.balance == if old(r.balance) == b1 then -b1 else 0
    ensures r.balance == 0
  {
    if r.balance == b1 {
      q.balance, p.balance := 0, -b1;
    } else if r.balance == 0 {
      q.balance, p.balance := 0, 0;
    } else {
      q.balance, p.balance := b1, 0;
    }
    r.balance := 0;
  }

  /** All the stores of kavl_rotate2. */
  method Rotate2Stores<K>(p: Node<K>, q: Node<K>, r: Node<K>, dir: Dir, sizeXDir: int, b1: int)
    requires p != q && q != r && p != r && b1 != 0
    modifies p, q, r
    ensures r.size == old(p.size) && p.size == old(p.size) - (old(q.size) - sizeXDir)
    ensures q.size == old(q.size) - (sizeXDir + 1)
    ensures p.Child(1 - dir) == old(r.Child(dir)) && p.Child(dir) == old(p.Child(dir))
    ensures q.Child(dir) == old(r.Child(1 - dir)) && q.Child(1 - dir) == old(q.Child(1 - dir))
    ensures r.Child(dir) == p && r.Child(1 - dir) == q
    ensures q.balance == if old(r.balance) == b1 || old(r.balance) == 0 then 0 else b1
    ensures p.balance == if old(r.balance) == b1 then -b1 else 0
    ensures r.balance == 0
  {
    Rotate2Sizes(p, q, r, sizeXDir);
    Rotate2Links(p, q, r, dir);
    Rotate2Balances(p, q, r, b1);
  }

  ghost predicate Apart<K>(s: Tree<K>, p: Node<K>, q: Node<K>, r: Node<K>)
    reads Nodes(s)
  {
    Models(s) && p !in Nodes(s) && q !in Nodes(s) && r !in Nodes(s)
  }

  /** The three nodes that kavl_rotate2 rewrites stand outside the four subtrees it moves. */
  lemma {:induction false} Rotate2Parts<K>(t: Tree<K>, dir: Dir)
    requires t.Branch? && Models(t) && Distinct(t)
    requires Side(t, 1 - dir).Branch? && Side(Side(t, 1 - dir), dir).Branch?
    ensures var q := Side(t, 1 - dir); var r := Side(q, dir);
            && t.n != q.n && q.n != r.n && t.n != r.n
            && t.n.Child(1 - dir) == q.n && q.n.Child(dir) == r.n
            && q.n.size == q.size && r.n.size == r.size && r.n.balance == r.bal
            && Apart(Side(t, dir), t.n, q.n, r.n) && Apart(Side(q, 1 - dir), t.n, q.n, r.n)
            && Apart(Side(r, dir), t.n, q.n, r.n) && Apart(Side(r, 1 - dir), t.n, q.n, r.n)
            && t.n.size == t.size && t.n.Child(dir) == Root(Side(t, dir))
            && q.n.Child(1 - dir) == Root(Side(q, 1 - dir))
            && r.n.Child(dir) == Root(Side(r, dir)) && r.n.Child(1 - dir) == Root(Side(r, 1 - dir))
            && SizeOf(r.n.Child(dir)) == Size(Side(r, dir))
  {
    var q := Side(t, 1 - dir);
    var r := Side(q, dir);
    assert Models(q) && Distinct(q);
    assert Models(r) && Distinct(r);
    assert r.n in Nodes(q);
    assert Nodes(r.l) <= Nodes(q) && Nodes(r.r) <= Nodes(q);
  }

  lemma {:induction false} Rotate2Assembled<K>(t: Tree<K>, dir: Dir, p: Node<K>, q: Node<K>, r: Node<K>)
    requires t.Branch? && Side(t, 1 - dir).Branch? && Side(Side(t, 1 - dir), dir).Branch?
    requires var u := Rotate2(t, dir);
             && u.n == r && Side(u, dir).n == p && Side(u, 1 - dir).n == q
             && r.Child(dir) == p && r.Child(1 - dir) == q && r.balance == u.bal && r.size == u.size
             && p.balance == Side(u, dir).bal && p.size == Side(u, dir).size
             && q.balance == Side(u, 1 - dir).bal && q.size == Side(u, 1 - dir).size
    requires var tq := Side(t, 1 - dir); var tr := Side(tq, dir);
             && p.Child(dir) == Root(Side(t, dir)) && p.Child(1 - dir) == Root(Side(tr, dir))
             && q.Child(dir) == Root(Side(tr, 1 - dir)) && q.Child(1 - dir) == Root(Side(tq, 1 - dir))
             && Models(Side(t, dir)) && Models(Side(tq, 1 - dir)) && Models(Side(tr, dir)) && Models(Side(tr, 1 - dir))
    ensures Models(Rotate2(t, dir))
  {
  }

  lemma {:induction false} Rotate2Distinct<K>(t: Tree<K>, dir: Dir)
    requires t.Branch? && Side(t, 1 - dir).Branch? && Side(Side(t, 1 - dir), dir).Branch?
    requires Distinct(t)
    ensures Distinct(Rotate2(t, dir)) && Nodes(Rotate2(t, dir)) == Nodes(t)
  {
    var q := Side(t, 1 - dir);
    var r := Side(q, dir);
    var u := Rotate2(t, dir);
    assert Distinct(q) && Nodes(q) == {q.n} + Nodes(r) + Nodes(Side(q, 1 - dir));
    assert Distinct(r) && Nodes(r) == {r.n} + Nodes(Side(r, dir)) + Nodes(Side(r, 1 - dir));
    assert Nodes(t) == {t.n} + Nodes(q) + Nodes(Side(t, dir));
    assert Nodes(Side(u, dir)) == {t.n} + Nodes(Side(t, dir)) + Nodes(Side(r, dir));
    assert Nodes(Side(u, 1 - dir)) == {q.n} + Nodes(Side(r, 1 - dir)) + Nodes(Side(q, 1 - dir));
    assert Distinct(Side(u, dir));
    assert Distinct(Side(u, 1 - dir));
  }

  lemma {:induction false} Rotate1Nodes<K>(t: Tree<K>, dir: Dir, balP: int, balQ: int)
    requires t.Branch? && Side(t, 1 - dir).Branch?
    ensures Nodes(Rebalance1(t, dir, balP, balQ)) == Nodes(t)
  {
    var q := Side(t, 1 - dir);
    assert Nodes(q) == {q.n} + Nodes(q.l) + Nodes(q.r);
    assert Nodes(Side(Rebalance1(t, dir, balP, balQ), dir)) == {t.n} + Nodes(Side(t, dir)) + Nodes(Side(q, dir));
  }

  /** kavl_rotate2 */
  method KavlRotate2<K>(p: Node<K>, dir: Dir, ghost t: Tree<K>) returns (r: Node<K>)
    requires t.Branch? && t.n == p && Holds(t)
    requires Side(t, 1 - dir).Branch? && Side(Side(t, 1 - dir), dir).Branch?
    modifies p, Side(t, 1 - dir).n, Side(Side(t, 1 - dir), dir).n
    ensures r == Side(Side(t, 1 - dir), dir).n
    ensures Holds(Rotate2(t, dir))
  {
    ghost var a, tq := Side(t, dir), Side(t, 1 - dir);
    ghost var d, tr := Side(tq, 1 - dir), Side(tq, dir);
    Rotate2Parts(t, dir);
    NodesAllocated(a);
    NodesAllocated(d);
    NodesAllocated(Side(tr, dir));
    NodesAllocated(Side(tr, 1 - dir));
    var q := p.Child(1 - dir);
    r := q.Child(dir);
    var sizeXDir := SizeOf(r.Child(dir));
    Rotate2Stores(p, q, r, dir, sizeXDir, if dir == 0 then 1 else -1);
    Rotate2Assembled(t, dir, p, q, r);
    Rotate2Distinct(t, dir);
  }

  /** kavl_rotate1 followed by the caller's stores to the two balance fields. */
  method RotateOnce<K>(p: Node<K>, dir: Dir, balP: int, balQ: int, ghost t: Tree<K>) returns (q: Node<K>)
    requires t.Branch? && t.n == p && Holds(t) && Side(t, 1 - dir).Branch?
    modifies p, Side(t, 1 - dir).n
    ensures q == Side(t, 1 - dir).n
    ensures Holds(Rebalance1(t, dir, balP, balQ))
  {
    q := KavlRotate1(p, dir, t);
    ghost var u := Rotate1(t, dir);
    assert Holds(Side(u, dir)) && Holds(Side(u, 1 - dir)) && p !in Nodes(Side(u, 1 - dir)) && q !in Nodes(Side(u, dir));
    q.balance := balQ;
    assert Models(Side(u, dir)) && Models(Side(u, 1 - dir));
    ghost var v := Side(u, dir);
    assert p !in Nodes(v.l) && p !in Nodes(v.r);
    p.balance := balP;
    assert Models(v.l) && Models(v.r) && Models(Side(u, 1 - dir));
  }

  // ---------------------------------------------------------------------------------------
  // The loops of kavl_insert
  // ---------------------------------------------------------------------------------------

  /** The path, stack and dir arrays, up to the slot in use: KAVL_MAX_DEPTH is never passed. */
  type Slots<T> = s: seq<T> | |s| <= KAVL_MAX_DEPTH witness []

  /** What the descent of kavl_insert has in its variables when it has walked ctx. */
  datatype Trace<K> = Trace(path: seq<Node<K>>, stack: seq<Dir>, which: Dir, q: Node?<K>, bp: Node?<K>, bq: Node?<K>)

  function TraceOf<K>(root: Node?<K>, ctx: Path<K>): Trace<K> {
    if ctx.Top? then Trace([], [], 0, null, root, null)
    else
      var t, f := TraceOf(root, ctx.up), ctx.f;
      if f.bal != 0 then Trace(t.path + [f.n], [f.dir], f.dir, f.n, f.n, t.q)
      else Trace(t.path + [f.n], t.stack + [f.dir], f.dir, f.n, t.bp, t.bq)
  }

  lemma {:induction false} TraceStep<K>(root: Node?<K>, ctx: Path<K>, f: Frame<K>, t: Trace<K>, t': Trace<K>)
    requires t == TraceOf(root, ctx)
    requires t' == if f.bal != 0 then Trace(t.path + [f.n], [f.dir], f.dir, f.n, f.n, t.q)
                   else Trace(t.path + [f.n], t.stack + [f.dir], f.dir, f.n, t.bp, t.bq)
    ensures TraceOf(root, Down(ctx, f)) == t'
  {
  }

  lemma {:induction false} TraceEnd<K>(root: Node?<K>, ctx: Path<K>)
    ensures var t := TraceOf(root, ctx);
            t.path == NodesOn(ctx)
              && (if ctx.Down? then t.q == ctx.f.n && t.which == ctx.f.dir else t.q == null && t.bp == root)
  {
    if ctx.Down? {
      TraceEnd(root, ctx.up);
    }
  }

  lemma {:induction false} DirsAppend<K>(up: Path<K>, down: Path<K>)
    ensures DirsOn(Append(up, down)) == DirsOn(up) + DirsOn(down)
    ensures NodesOn(Append(up, down)) == NodesOn(up) + NodesOn(down)
  {
    if down.Down? {
      DirsAppend(up, down.up);
    }
  }

  /** bp and the direction stack mark the critical node of the path. */
  lemma {:induction false} TraceCut<K>(root: Node?<K>, ctx: Path<K>) returns (up: Path<K>, f: Frame<K>, below: Path<K>)
    requires ctx.Down? && root == RootOver(ctx, null)
    ensures ctx == Append(Down(up, f), below) && Critical(up, f, below)
    ensures var t := TraceOf(root, ctx);
            && t.bp == f.n && t.stack == [f.dir] + DirsOn(below)
            && t.bq == (if up.Down? then up.f.n else null)
    decreases ctx
  {
    TraceEnd(root, ctx.up);
    if ctx.f.bal != 0 || ctx.up.Top? {
      up, f, below := ctx.up, ctx.f, Top;
    } else {
      RootOverDeep(ctx.up, ctx.f.n, null);
      up, f, below := TraceCut(root, ctx.up);
      below := Down(below, ctx.f);
    }
  }

  lemma {:induction false} RootOverDeep<K>(ctx: Path<K>, a: Node?<K>, b: Node?<K>)
    requires ctx.Down?
    ensures RootOver(ctx, a) == RootOver(ctx, b)
  {
  }

  /** The end of a round of the descent: the arrays get one entry more, and the search goes to a child of p. */
  method GoDown<K>(p: Node<K>, cmpv: int, q: Node?<K>, bp0: Node?<K>, bq0: Node?<K>, stack0: Slots<Dir>,
      path0: Slots<Node<K>>, ghost which0: Dir, ghost t: Tree<K>, ghost ctx: Path<K>, ghost c: Tree<K>,
      cmp: (K, K) -> int, x: K, ghost before: nat, ghost cnt: nat)
    returns (p': Node?<K>, bp: Node?<K>, bq: Node?<K>, stack: Slots<Dir>, path: Slots<Node<K>>, which: Dir,
      ghost ctx': Path<K>, ghost c': Tree<K>)
    requires At(t, ctx, c, cmp, x, before) && c.Branch? && p == c.n && Searchable(cmp, x, Inorder(t))
    requires cmpv == cmp(x, p.key) != 0 && cnt == if cmpv > 0 then before + SizeOf(p.p0) + 1 else before
    requires TraceOf(Root(t), ctx) == Trace(path0, stack0, which0, q, bp0, bq0) && |stack0| <= |path0| == Len(ctx)
    ensures At(t, ctx', c', cmp, x, cnt) && p' == Root(c') && (c' == c.l || c' == c.r)
    ensures TraceOf(Root(t), ctx') == Trace(path, stack, which, p, bp, bq) && |stack| <= |path| == Len(ctx')
  {
    bp, bq, stack := bp0, bq0, stack0;
    if p.balance != 0 {
      bq, bp, stack := q, p, [];
    }
    which := if cmpv > 0 then 1 else 0;
    stack := stack + [which];
    path := path0 + [p];
    SearchStep(t, ctx, c, cmp, x, before, which, cnt);
    TraceStep(Root(t), ctx, FrameOf(c, which), Trace(path0, stack0, which0, q, bp0, bq0),
      Trace(path, stack, which, p, bp, bq));
    ctx', c' := Down(ctx, FrameOf(c, which)), Side(c, which);
    p' := p.Child(which);
  }

  /** The descent of kavl_insert: p is null when it falls off the tree. */
  method Locate<K>(root: Node?<K>, x: K, cmp: (K, K) -> int, ghost t: Tree<K>)
    returns (p: Node?<K>, q: Node?<K>, bp: Node?<K>, bq: Node?<K>, stack: Slots<Dir>, path: Slots<Node<K>>,
             which: Dir, cnt: nat, ghost ctx: Path<K>, ghost c: Tree<K>)
    requires root == Root(t) && Models(t) && Avl(t) && Count(t) < 0x1_0000_0000
    requires Searchable(cmp, x, Inorder(t))
    ensures Plug(ctx, c) == t && p == Root(c)
    ensures if p == null then Bracketed(ctx, cmp, x, cnt)
            else 0 < cnt <= |Inorder(t)| && Inorder(t)[cnt - 1] == p && cmp(x, p.key) == 0
    ensures TraceOf(root, ctx) == Trace(path, stack, which, q, bp, bq)
  {
    p, q, bp, bq := root, null, root, null;
    stack, path := [], [];
    which, cnt := 0, 0;
    ctx, c := Top, t;
    SearchStart(t, cmp, x);
    while p != null
      invariant At(t, ctx, c, cmp, x, cnt) && p == Root(c)
      invariant |stack| <= |path| == Len(ctx)
      invariant TraceOf(root, ctx) == Trace(path, stack, which, q, bp, bq)
      decreases c
    {
      var cmpv := cmp(x, p.key);
      ghost var before := cnt;
      if cmpv >= 0 {
        ChildSize(c);
        cnt := cnt + SizeOf(p.p0) + 1;
      }
      if cmpv == 0 {
        WalkHit(ctx, c, cnt - 1);
        return;
      }
      var q0 := q;
      q := p;
      p, bp, bq, stack, path, which, ctx, c :=
        GoDown(p, cmpv, q0, bp, bq, stack, path, which, t, ctx, c, cmp, x, before, cnt);
    }
  }

  /** The frames lo..hi, counted from the root, with d added to their sizes. */
  function ResizeRange<K>(ctx: Path<K>, lo: nat, hi: nat, d: int): Path<K> {
    if ctx.Top? then Top
    else Down(ResizeRange(ctx.up, lo, hi, d), if lo <= Len(ctx.up) < hi then ctx.f.(size := ctx.f.size + d) else ctx.f)
  }

  /** The frames lo..hi after their hole sides grew by one level. */
  function LeanRange<K>(ctx: Path<K>, lo: nat, hi: nat): Path<K> {
    if ctx.Top? then Top
    else Down(LeanRange(ctx.up, lo, hi),
      if lo <= Len(ctx.up) < hi then ctx.f.(bal := ctx.f.bal + Sign(ctx.f.dir)) else ctx.f)
  }

  lemma {:induction false} RangeSame<K>(ctx: Path<K>, lo: nat, hi: nat, d: int)
    ensures Len(ResizeRange(ctx, lo, hi, d)) == Len(ctx) && Len(LeanRange(ctx, lo, hi)) == Len(ctx)
    ensures NodesOn(ResizeRange(ctx, lo, hi, d)) == NodesOn(ctx) && NodesOn(LeanRange(ctx, lo, hi)) == NodesOn(ctx)
    ensures DirsOn(ResizeRange(ctx, lo, hi, d)) == DirsOn(ctx) && DirsOn(LeanRange(ctx, lo, hi)) == DirsOn(ctx)
    ensures hi <= lo ==> ResizeRange(ctx, lo, hi, d) == ctx && LeanRange(ctx, lo, hi) == ctx
  {
    if ctx.Down? {
      RangeSame(ctx.up, lo, hi, d);
    }
  }

  lemma {:induction false} ResizeRangeStep<K>(ctx: Path<K>, lo: nat, i: nat, d: int)
    requires lo <= i
    ensures UpdateAt(ResizeRange(ctx, lo, i, d), i, 0, d) == ResizeRange(ctx, lo, i + 1, d)
  {
    if ctx.Down? {
      RangeSame(ctx.up, lo, i, d);
      ResizeRangeStep(ctx.up, lo, i, d);
      if Len(ctx.up) == i {
        ResizeRangePast(ctx.up, lo, i, d);
      }
    }
  }

  lemma {:induction false} ResizeRangePast<K>(ctx: Path<K>, lo: nat, i: nat, d: int)
    requires Len(ctx) <= i
    ensures ResizeRange(ctx, lo, i, d) == ResizeRange(ctx, lo, i + 1, d)
  {
    if ctx.Down? {
      ResizeRangePast(ctx.up, lo, i, d);
    }
  }

  lemma {:induction false} LeanRangeStep<K>(ctx: Path<K>, lo: nat, i: nat)
    requires lo <= i < Len(ctx)
    ensures UpdateAt(LeanRange(ctx, lo, i), i, Sign(DirsOn(ctx)[i]), 0) == LeanRange(ctx, lo, i + 1)
  {
    RangeSame(ctx.up, lo, i, 0);
    if Len(ctx.up) == i {
      LeanRangePast(ctx.up, lo, i);
    } else {
      LeanRangeStep(ctx.up, lo, i);
    }
  }

  lemma {:induction false} LeanRangePast<K>(ctx: Path<K>, lo: nat, i: nat)
    requires Len(ctx) <= i
    ensures LeanRange(ctx, lo, i) == LeanRange(ctx, lo, i + 1)
  {
    if ctx.Down? {
      LeanRangePast(ctx.up, lo, i);
    }
  }

  /** Resizing the lower part of a path. */
  lemma {:induction false} ResizeTail<K>(pre: Path<K>, down: Path<K>, d: int)
    ensures ResizeRange(Append(pre, down), Len(pre), Len(pre) + Len(down), d) == Append(pre, Resize(down, d))
    decreases down
  {
    ResizeTailTo(pre, down, Len(pre) + Len(down), d);
  }

  lemma {:induction false} ResizeTailTo<K>(pre: Path<K>, down: Path<K>, hi: nat, d: int)
    requires hi >= Len(pre) + Len(down)
    ensures ResizeRange(Append(pre, down), Len(pre), hi, d) == Append(pre, Resize(down, d))
    ensures Len(Append(pre, down)) == Len(pre) + Len(down)
    decreases down
  {
    if down.Down? {
      ResizeTailTo(pre, down.up, hi, d);
    } else {
      ResizeHeadSame(pre, Len(pre), hi, d);
    }
  }

  lemma {:induction false} ResizeHeadSame<K>(ctx: Path<K>, lo: nat, hi: nat, d: int)
    requires Len(ctx) <= lo
    ensures ResizeRange(ctx, lo, hi, d) == ctx && LeanRange(ctx, lo, hi) == ctx
  {
    if ctx.Down? {
      ResizeHeadSame(ctx.up, lo, hi, d);
    }
  }

  /** Both loops of kavl_insert together. */
  lemma {:induction false} CountedAndLeant<K>(up: Path<K>, f: Frame<K>, below: Path<K>, hi: nat)
    requires hi >= Len(Append(Down(up, f), below))
    ensures LeanRange(Resize(Append(Down(up, f), below), 1), Len(up), hi) ==
      Append(Down(Resize(up, 1), GrownFrame(f)), Grow(below))
    ensures Len(Append(Down(up, f), below)) > Len(up)
    decreases below
  {
    ResizeFacts(Append(Down(up, f), below).up, 1);
    if below.Down? {
      CountedAndLeant(up, f, below.up, hi);
    } else {
      ResizeHeadSame(Resize(up, 1), Len(up), hi, 0);
    }
  }

  /** The path ctx with d added to the sizes from lo up to k is what the heap holds. */
  ghost predicate Shifted<K>(ctx: Path<K>, lo: nat, k: nat, d: int, cur: Path<K>, c: Tree<K>, all: set<Node<K>>)
    reads all
  {
    && cur == ResizeRange(ctx, lo, k, d) && NodesOn(cur) == NodesOn(ctx) && Len(cur) == Len(ctx)
    && Nodes(Plug(cur, c)) == all && Holds(Plug(cur, c))
  }

  method ShiftOne<K>(n: Node<K>, d: int, ghost ctx: Path<K>, ghost lo: nat, ghost k: nat, ghost cur: Path<K>,
      ghost c: Tree<K>, ghost all: set<Node<K>>)
    returns (ghost cur': Path<K>)
    requires Shifted(ctx, lo, k, d, cur, c, all) && lo <= k < Len(ctx) && n == NodesOn(ctx)[k]
    modifies all
    ensures Shifted(ctx, lo, k + 1, d, cur', c, all)
  {
    OnPath(cur, k, c);
    AdjustAt(n, 0, d, cur, k, c);
    ResizeRangeStep(ctx, lo, k, d);
    RangeSame(ctx, lo, k + 1, d);
    cur' := ResizeRange(ctx, lo, k + 1, d);
  }

  /** Add d to the size of every node of the lower part of the path. */
  method ShiftSizes<K>(path: seq<Node<K>>, d: int, ghost pre: Path<K>, ghost down: Path<K>, ghost c: Tree<K>,
      ghost all: set<Node<K>>)
    requires Holds(Plug(Append(pre, down), c)) && Nodes(Plug(Append(pre, down), c)) == all
    requires path == NodesOn(down)
    modifies all
    ensures var ctx' := Append(pre, Resize(down, d));
            Holds(Plug(ctx', c)) && Nodes(Plug(ctx', c)) == all
  {
    ghost var ctx, lo := Append(pre, down), Len(pre);
    DirsAppend(pre, down);
    RangeSame(ctx, lo, lo, d);
    ghost var cur, k := ctx, lo;
    for i := 0 to |path|
      invariant k == lo + i && Shifted(ctx, lo, k, d, cur, c, all)
    {
      cur := ShiftOne(path[i], d, ctx, lo, k, cur, c, all);
      k := k + 1;
    }
    ResizeTail(pre, down, d);
  }

  lemma {:induction false} OnPath<K>(ctx: Path<K>, i: nat, c: Tree<K>)
    requires i < Len(ctx)
    ensures NodesOn(ctx)[i] in PathNodes(ctx) && NodesOn(ctx)[i] in Nodes(Plug(ctx, c))
  {
    InPath(ctx, i);
    NodesOfPlug(ctx, c);
  }

  lemma {:induction false} InPath<K>(ctx: Path<K>, i: nat)
    requires i < Len(ctx)
    ensures NodesOn(ctx)[i] in PathNodes(ctx)
  {
    if i < Len(ctx.up) {
      InPath(ctx.up, i);
    }
  }

  /** The walk from bp down to the new node x, along the direction stack. */
  method LeanPath<K>(bp: Node<K>, x: Node<K>, stack: seq<Dir>, ghost ctx: Path<K>, ghost b: nat,
      ghost all: set<Node<K>>)
    requires Holds(Plug(ctx, Fresh(x))) && Nodes(Plug(ctx, Fresh(x))) == all
    requires b < Len(ctx) && bp == NodesOn(ctx)[b] && stack == DirsOn(ctx)[b..] && x !in NodesOn(ctx)
    modifies all
    ensures var ctx' := LeanRange(ctx, b, Len(ctx));
            Holds(Plug(ctx', Fresh(x))) && Nodes(Plug(ctx', Fresh(x))) == all
  {
    var p, top := bp, 0;
    ghost var k := b;
    RangeSame(ctx, b, b, 0);
    while p != x
      invariant k == b + top && k <= Len(ctx)
      invariant p == if k < Len(ctx) then NodesOn(ctx)[k] else x
      invariant Holds(Plug(LeanRange(ctx, b, k), Fresh(x))) && Nodes(Plug(LeanRange(ctx, b, k), Fresh(x))) == all
      decreases Len(ctx) - k
    {
      ghost var ctx' := LeanRange(ctx, b, k);
      RangeSame(ctx, b, k, 0);
      OnPath(ctx', k, Fresh(x));
      assert stack[top] == DirsOn(ctx)[k];
      AdjustAt(p, if stack[top] == 0 then -1 else 1, 0, ctx', k, Fresh(x));
      LeanRangeStep(ctx, b, k);
      p := p.Child(stack[top]);
      top, k := top + 1, k + 1;
    }
  }

  /** Initialise x and hang it into the empty place at the end of the path. */
  method AttachLeaf<K>(root: Node?<K>, x: Node<K>, q: Node?<K>, which: Dir, ghost ctx: Path<K>) returns (root': Node<K>)
    requires Holds(Plug(ctx, Leaf)) && x !in PathNodes(ctx) && root == Root(Plug(ctx, Leaf))
    requires if ctx.Down? then q == ctx.f.n && which == ctx.f.dir else q == null
    modifies PathNodes(ctx), x
    ensures Holds(Plug(ctx, Fresh(x))) && root' == Root(Plug(ctx, Fresh(x)))
  {
    Zip(ctx, Leaf);
    NodesOfPlug(ctx, Leaf);
    NodesOfPlug(ctx, Fresh(x));
    x.balance := 0;
    x.size := 1;
    x.p0 := null;
    x.p1 := null;
    assert PathModels(ctx, null);
    if q == null {
      root' := x;
    } else {
      RootOverDeep(ctx, null, x);
      Relink(q, which, x, ctx, null, Fresh(x));
      root' := root;
    }
  }

  /** The two loops of kavl_insert over the path. */
  method UpdatePath<K>(x: Node<K>, bp: Node<K>, stack: seq<Dir>, path: seq<Node<K>>, ghost ctx: Path<K>, ghost b: nat,
                       ghost all: set<Node<K>>)
    requires Holds(Plug(ctx, Fresh(x))) && Nodes(Plug(ctx, Fresh(x))) == all && x !in NodesOn(ctx)
    requires path == NodesOn(ctx) && b < Len(ctx) && bp == NodesOn(ctx)[b] && stack == DirsOn(ctx)[b..]
    modifies all
    ensures var ctx' := LeanRange(Resize(ctx, 1), b, Len(ctx));
            Holds(Plug(ctx', Fresh(x))) && Nodes(Plug(ctx', Fresh(x))) == all
  {
    AppendTop(ctx);
    AppendTop(Resize(ctx, 1));
    ShiftSizes(path, 1, Top, ctx, Fresh(x), all);
    ResizeFacts(ctx, 1);
    LeanPath(bp, x, stack, Resize(ctx, 1), b, all);
  }

  lemma {:induction false} AppendTop<K>(ctx: Path<K>)
    ensures Append(Top, ctx) == ctx
  {
    if ctx.Down? {
      AppendTop(ctx.up);
    }
  }

  /** The repair of a node leaning by two levels, as kavl_insert does it. */
  method RepairLean<K>(bp: Node<K>, ghost t: Tree<K>, ghost which: Dir) returns (r: Node<K>, ghost t': Tree<K>)
    requires t.Branch? && t.n == bp && Holds(t) && Leaning(t, which) && Side(t, 1 - which).bal != 0
    requires bp.balance == -2 * Sign(which)
    modifies Nodes(t)
    ensures t'.Branch? && t'.n == r && Holds(t') && Nodes(t') == Nodes(t)
    ensures Avl(t') && Height(t') == Height(t) - 1 && Count(t') == Count(t) && Inorder(t') == Inorder(t)
  {
    var dir: Dir := if bp.balance < 0 then 1 else 0;
    var b1 := if dir == 0 then 1 else -1;
    var q := bp.Child(1 - dir);
    assert Models(Side(t, 1 - dir)) && Avl(Side(t, 1 - dir));
    if q.balance == b1 {
      Rotate1Restores(t, dir);
      Rotate1Nodes(t, dir, 0, 0);
      r := RotateOnce(bp, dir, 0, 0, t);
      t' := Rebalance1(t, dir, 0, 0);
    } else {
      Rotate2Restores(t, dir);
      Rotate2Distinct(t, dir);
      r := KavlRotate2(bp, dir, t);
      t' := Rotate2(t, dir);
    }
  }

  /** Replace the subtree at the end of the path by the repaired one. */
  method Splice<K>(root: Node<K>, bp: Node<K>, bq: Node?<K>, r: Node<K>, ghost up: Path<K>, ghost c': Tree<K>)
    returns (root': Node<K>)
    requires HoldsPath(up, bp) && bp !in PathNodes(up) && root == RootOver(up, bp)
    requires Holds(c') && c'.Branch? && c'.n == r && PathNodes(up) !! Nodes(c')
    requires bq == if up.Down? then up.f.n else null
    modifies PathNodes(up)
    ensures Holds(Plug(up, c')) && root' == Root(Plug(up, c'))
  {
    NodesOfPlug(up, c');
    if bq == null {
      root' := r;
    } else {
      assert bp !in Nodes(up.f.sib);
      var dir: Dir := if bp != bq.p0 then 1 else 0;
      assert dir == up.f.dir;
      RootOverDeep(up, bp, r);
      Relink(bq, dir, r, up, bp, c');
      root' := root;
    }
  }

  /** The last part of kavl_insert: one rotation at bp when it leans too far. */
  method RepairAt<K>(root: Node<K>, x: Node<K>, bp: Node<K>, bq: Node?<K>, ghost up: Path<K>, ghost f: Frame<K>,
      ghost below: Path<K>, ghost all: set<Node<K>>)
    returns (root': Node<K>, ghost t': Tree<K>)
    requires Avl(Plug(Append(Down(up, f), below), Leaf)) && Critical(up, f, below)
    requires var t := Plug(Resize(up, 1), AtCritical(f, below, x)); Holds(t) && root == Root(t) && Nodes(t) == all
    requires bp == f.n && bq == if up.Down? then up.f.n else null
    modifies all
    ensures root' == Root(t') && Holds(t') && Avl(t')
    ensures Inorder(t') == Inorder(Plug(Resize(up, 1), AtCritical(f, below, x)))
  {
    ghost var up', s := Resize(up, 1), AtCritical(f, below, x);
    Zip(up', s);
    NodesOfPlug(up', s);
    assert bp.balance == GrownFrame(f).bal && s.n == bp;
    if -2 < bp.balance < 2 {
      InsertedInBalance(up, f, below, x);
      return root, Plug(up', s);
    }
    InsertedLeaning(up, f, below, x);
    PathAllocated(up');
    var r;
    ghost var s';
    r, s' := RepairLean(bp, s, 1 - f.dir);
    root' := Splice(root, bp, bq, r, up', s');
    t' := Plug(up', s');
    InsertedRepaired(up, f, below, x, s');
    InorderPlug(up', s);
    InorderPlug(up', s');
  }

  lemma {:induction false} InsertedOrder<K>(ctx: Path<K>, up: Path<K>, f: Frame<K>, below: Path<K>, x: Node<K>)
    requires ctx == Append(Down(up, f), below)
    ensures Plug(LeanRange(Resize(ctx, 1), Len(up), Len(ctx)), Fresh(x)) == Plug(Resize(up, 1), AtCritical(f, below, x))
    ensures Inorder(Plug(Resize(up, 1), AtCritical(f, below, x))) == LeftOf(ctx) + [x] + RightOf(ctx)
  {
    CountedAndLeant(up, f, below, Len(ctx));
    var ctx' := LeanRange(Resize(ctx, 1), Len(up), Len(ctx));
    PlugAppend(Down(Resize(up, 1), GrownFrame(f)), Grow(below), Fresh(x));
    InorderPlug(ctx', Fresh(x));
    ResizeFacts(ctx, 1);
    LeanSameOrder(Resize(ctx, 1), Len(up), Len(ctx));
    assert Inorder(Fresh(x)) == [x];
  }

  lemma {:induction false} LeanSameOrder<K>(ctx: Path<K>, lo: nat, hi: nat)
    ensures LeftOf(LeanRange(ctx, lo, hi)) == LeftOf(ctx) && RightOf(LeanRange(ctx, lo, hi)) == RightOf(ctx)
  {
    if ctx.Down? {
      LeanSameOrder(ctx.up, lo, hi);
    }
  }

  /** The rest of kavl_insert, once the place for x is found. */
  method InsertAt<K>(root: Node?<K>, x: Node<K>, q: Node?<K>, bp: Node?<K>, bq: Node?<K>, stack: seq<Dir>,
      path: seq<Node<K>>, which: Dir, ghost ctx: Path<K>, ghost t: Tree<K>)
    returns (root': Node<K>, ghost t': Tree<K>)
    requires Plug(ctx, Leaf) == t && Holds(t) && Avl(t) && x !in Nodes(t) && root == Root(t)
    requires TraceOf(root, ctx) == Trace(path, stack, which, q, bp, bq)
    modifies Nodes(t), x
    ensures root' == Root(t') && Holds(t') && Avl(t')
    ensures Inorder(t') == LeftOf(ctx) + [x] + RightOf(ctx)
  {
    NodesOfPlug(ctx, Leaf);
    NodesOfPlug(ctx, Fresh(x));
    TraceEnd(root, ctx);
    root' := AttachLeaf(root, x, q, which, ctx);
    if bp == null {
      if ctx.Down? {
        ghost var _, _, _ := TraceCut(root, ctx);
      }
      t' := Fresh(x);
      return;
    }
    ghost var up, f, below := TraceCut(root, ctx);
    InsertedOrder(ctx, up, f, below, x);
    CutIndex(up, f, below);
    NotOnPath(ctx, x);
    UpdatePath(x, bp, stack, path, ctx, Len(up), Nodes(t) + {x});
    RootOverLean(ctx, Len(up), x);
    root', t' := RepairAt(root', x, bp, bq, up, f, below, Nodes(t) + {x});
  }

  lemma {:induction false} CutIndex<K>(up: Path<K>, f: Frame<K>, below: Path<K>)
    ensures var ctx := Append(Down(up, f), below);
            Len(up) < Len(ctx) && NodesOn(ctx)[Len(up)] == f.n && DirsOn(ctx)[Len(up)..] == [f.dir] + DirsOn(below)
  {
    DirsAppend(Down(up, f), below);
  }

  lemma {:induction false} NotOnPath<K>(ctx: Path<K>, x: Node<K>)
    requires x !in PathNodes(ctx)
    ensures x !in NodesOn(ctx)
  {
    if ctx.Down? {
      NotOnPath(ctx.up, x);
    }
  }

  lemma {:induction false} RootOverLean<K>(ctx: Path<K>, b: nat, x: Node<K>)
    ensures Root(Plug(LeanRange(Resize(ctx, 1), b, Len(ctx)), Fresh(x))) == Root(Plug(ctx, Fresh(x)))
  {
    NodesOfPlug(ctx, Fresh(x));
    NodesOfPlug(LeanRange(Resize(ctx, 1), b, Len(ctx)), Fresh(x));
    RootOverSame(ctx, b, Len(ctx), x);
  }

  lemma {:induction false} RootOverSame<K>(ctx: Path<K>, b: nat, hi: nat, bottom: Node?<K>)
    ensures RootOver(LeanRange(Resize(ctx, 1), b, hi), bottom) == RootOver(ctx, bottom)
    decreases ctx
  {
    if ctx.Down? {
      RootOverSame(ctx.up, b, hi, ctx.f.n);
    }
  }

  /** The outcome of kavl_insert on a tree with elements s. */
  ghost predicate Inserted<K>(cmp: (K, K) -> int, x: Node<K>, s: seq<Node<K>>, s': seq<Node<K>>, r: Node<K>, cnt: nat) {
    if r == x then
      && cnt <= |s| && s' == s[..cnt] + [x] + s[cnt..]
      && AllBelow(cmp, x.key, s[..cnt]) && AllAbove(cmp, x.key, s[cnt..])
    else
      && 0 < cnt <= |s| && s[cnt - 1] == r && cmp(x.key, r.key) == 0 && s' == s
  }

  lemma {:induction false} InsertedPlace<K>(cmp: (K, K) -> int, x: Node<K>, ctx: Path<K>, cnt: nat, s': seq<Node<K>>)
    requires Bracketed(ctx, cmp, x.key, cnt) && s' == LeftOf(ctx) + [x] + RightOf(ctx)
    ensures Inserted(cmp, x, Inorder(Plug(ctx, Leaf)), s', x, cnt)
  {
    WalkMiss(ctx, cmp, x.key, cnt);
  }

  lemma {:induction false} FoundInstead<K>(cmp: (K, K) -> int, x: Node<K>, t: Tree<K>, p: Node<K>, cnt: nat)
    requires 0 < cnt <= |Inorder(t)| && Inorder(t)[cnt - 1] == p && cmp(x.key, p.key) == 0 && x !in Nodes(t)
    ensures p != x && Inserted(cmp, x, Inorder(t), Inorder(t), p, cnt)
  {
    InorderFacts(t);
    assert p in Inorder(t);
  }

  method InsertTree<K>(root: Node?<K>, x: Node<K>, cmp: (K, K) -> int, ghost t: Tree<K>)
    returns (root': Node<K>, r: Node<K>, cnt: nat, ghost t': Tree<K>)
    requires Holds(t) && Avl(t) && Count(t) < 0x1_0000_0000 && root == Root(t) && x !in Nodes(t)
    requires Searchable(cmp, x.key, Inorder(t))
    modifies Nodes(t), x
    ensures root' == Root(t') && Holds(t') && Avl(t')
    ensures Inserted(cmp, x, Inorder(t), Inorder(t'), r, cnt)
    ensures r != x ==> t' == t
  {
    NodesAllocated(t);
    var p, q, bp, bq, stack, path, which;
    ghost var ctx, c;
    p, q, bp, bq, stack, path, which, cnt, ctx, c := Locate(root, x.key, cmp, t);
    if p == null {
      assert c == Leaf;
      root', t' := InsertAt(root, x, q, bp, bq, stack, path, which, ctx, t);
      InsertedPlace(cmp, x, ctx, cnt, Inorder(t'));
      r := x;
    } else {
      FoundInstead(cmp, x, t, p, cnt);
      root', r, t' := root, p, t;
    }
  }

  // ---------------------------------------------------------------------------------------
  // The loops of kavl_erase
  // ---------------------------------------------------------------------------------------

  /** The rotation of kavl_erase at q, which leans by two levels away from the side that shrank. */
  method RepairShrunk<K>(q: Node<K>, dir: Dir, ghost t: Tree<K>) returns (r: Node<K>, done: bool, ghost t': Tree<K>)
    requires t.Branch? && t.n == q && Holds(t) && Leaning(t, dir)
    modifies Nodes(t)
    ensures t'.Branch? && t'.n == r && Holds(t') && Nodes(t') == Nodes(t)
    ensures Avl(t') && Count(t') == Count(t) && Inorder(t') == Inorder(t)
    ensures Height(t') == if done then Height(t) else Height(t) - 1
  {
    var b1 := if dir == 1 then -1 else 1;
    var s := q.Child(1 - dir);
    assert Models(Side(t, 1 - dir)) && Avl(Side(t, 1 - dir));
    if s.balance == -b1 {
      Rotate2Restores(t, dir);
      Rotate2Distinct(t, dir);
      r := KavlRotate2(q, dir, t);
      return r, false, Rotate2(t, dir);
    }
    if s.balance == 0 {
      Rotate1KeepsHeight(t, dir);
      Rotate1Nodes(t, dir, b1, -b1);
      r := RotateOnce(q, dir, b1, -b1, t);
      return r, true, Rebalance1(t, dir, b1, -b1);
    }
    Rotate1Restores(t, dir);
    Rotate1Nodes(t, dir, 0, 0);
    r := RotateOnce(q, dir, 0, 0, t);
    return r, false, Rebalance1(t, dir, 0, 0);
  }

  /** f after its hole side lost one level. */
  function ShrunkFrame<K>(f: Frame<K>): Frame<K> {
    f.(bal := f.bal - Sign(f.dir))
  }

  lemma {:induction false} ShrunkShape<K>(f: Frame<K>, c: Tree<K>)
    ensures var t := Fill(ShrunkFrame(f), c);
            Inorder(t) == Inorder(Fill(f, c)) && Nodes(t) == Nodes(Fill(f, c)) && Count(t) == Tally(Count(c), f.sib)
  {
  }

  lemma {:induction false} ShrunkCases<K>(f: Frame<K>, c: Tree<K>, k: nat)
    requires Avl(c) && k == Height(c) + 1 && FrameAvl(f, k, Count(c))
    ensures var t := Fill(ShrunkFrame(f), c); var h := Raise(k, f.sib);
            if t.bal == -Sign(f.dir) then Avl(t) && Height(t) == h
            else if t.bal == -2 * Sign(f.dir) then Leaning(t, f.dir) && Height(t) == h
            else t.bal == 0 && Avl(t) && Height(t) == h - 1
  {
    FillAvl(ShrunkFrame(f), c);
  }

  /** The rotation of kavl_erase, and the link from the node above. */
  method RotateShrunk<K>(parent: Node<K>, pdir: Dir, q: Node<K>, which: Dir, ghost up: Path<K>, ghost t: Tree<K>)
    returns (done: bool, ghost c': Tree<K>)
    requires up.Down? && parent == up.f.n && pdir == up.f.dir
    requires Holds(Plug(up, t)) && t.Branch? && t.n == q && Leaning(t, which)
    modifies Nodes(Plug(up, t))
    ensures Holds(Plug(up, c')) && Nodes(Plug(up, c')) == Nodes(Plug(up, t))
    ensures Avl(c') && Count(c') == Count(t) && Inorder(c') == Inorder(t)
    ensures Height(c') == if done then Height(t) else Height(t) - 1
  {
    Zip(up, t);
    PathAllocated(up);
    NodesOfPlug(up, t);
    var r;
    r, done, c' := RepairShrunk(q, which, t);
    Relink(parent, pdir, r, up, q, c');
    NodesOfPlug(up, c');
  }

  /** One round of the walk back up: the subtree at the end of the path is one level lower than f expects. */
  method RetraceStep<K>(parent: Node<K>, pdir: Dir, q: Node<K>, which: Dir, ghost up: Path<K>, ghost f: Frame<K>,
      ghost c: Tree<K>, ghost h: nat)
    returns (done: bool, ghost c': Tree<K>)
    requires up.Down? && parent == up.f.n && pdir == up.f.dir && q == f.n && which == f.dir
    requires Holds(Plug(Down(up, f), c)) && Avl(c) && h == Height(c) + 1 && FrameAvl(f, h, Count(c))
    modifies Nodes(Plug(Down(up, f), c))
    ensures Holds(Plug(up, c')) && Nodes(Plug(up, c')) == Nodes(Plug(Down(up, f), c))
    ensures Avl(c') && Count(c') == Tally(Count(c), f.sib) && Inorder(c') == Inorder(Fill(f, c))
    ensures Height(c') == if done then Raise(h, f.sib) else Raise(h, f.sib) - 1
  {
    ghost var t := Fill(ShrunkFrame(f), c);
    NodesOfPlug(Down(up, f), c);
    ShrunkShape(f, c);
    ShrunkCases(f, c, h);
    var b1 := -Sign(which);
    AdjustLast(q, b1, 0, up, f, c, ShrunkFrame(f));
    if q.balance == b1 {
      return true, t;
    }
    if q.balance == 2 * b1 {
      done, c' := RotateShrunk(parent, pdir, q, which, up, t);
    } else {
      return false, t;
    }
  }

  /** The node on the stack of kavl_erase whose left child is the tree. */
  function Anchor<K>(fake: Node<K>): Path<K> {
    Down(Top, Frame(fake, 0, 0, 0, Leaf))
  }

  /** The path and dir arrays of kavl_erase: slot 0 is the fake root, the rest is ctx. */
  ghost predicate Walk<K>(path: seq<Node<K>>, dir: seq<Dir>, fake: Node<K>, ctx: Path<K>) {
    path == [fake] + NodesOn(ctx) && dir == [0] + DirsOn(ctx)
  }

  /** The state of the walk: the subtree low is one level lower than the path cur expects. */
  ghost predicate Owing<K>(fake: Node<K>, cur: Path<K>, low: Tree<K>, all: set<Node<K>>, order: seq<Node<K>>)
    reads all
  {
    && Nodes(Plug(Append(Anchor(fake), cur), low)) == all && Holds(Plug(Append(Anchor(fake), cur), low))
    && Owes(cur, low) && Inorder(Plug(cur, low)) == order
  }

  /** The end of the walk. */
  ghost predicate Settled<K>(fake: Node<K>, t: Tree<K>, all: set<Node<K>>, order: seq<Node<K>>)
    reads all
  {
    && Nodes(Plug(Anchor(fake), t)) == all && Holds(Plug(Anchor(fake), t))
    && Avl(t) && Inorder(t) == order
  }

  lemma {:induction false} OwingNothing<K>(fake: Node<K>, low: Tree<K>, all: set<Node<K>>, order: seq<Node<K>>)
    requires Owing(fake, Top, low, all, order)
    ensures Settled(fake, low, all, order)
  {
  }

  lemma {:induction false} OwesFrame<K>(up: Path<K>, f: Frame<K>, low: Tree<K>, h: nat)
    requires Owes(Down(up, f), low) && h == Height(low) + 1
    ensures Avl(low) && FrameAvl(f, h, Count(low)) && PathAvl(up, Raise(h, f.sib), Tally(Count(low), f.sib))
  {
  }

  lemma {:induction false} OwesNext<K>(up: Path<K>, low: Tree<K>, h: nat, n: int, done: bool)
    requires PathAvl(up, h, n) && Avl(low) && Count(low) == n
    requires Height(low) == if done then h else h - 1
    ensures if done then Avl(Plug(up, low)) else Owes(up, low)
  {
    PlugAvl(up, low);
  }

  lemma {:induction false} OwingOrder<K>(up: Path<K>, f: Frame<K>, low: Tree<K>, low': Tree<K>)
    requires Inorder(low') == Inorder(Fill(f, low))
    ensures Inorder(Plug(up, low')) == Inorder(Plug(Down(up, f), low))
  {
    InorderPlug(up, low');
    InorderPlug(up, Fill(f, low));
  }

  /** One round of the walk, with what it means for the whole tree. */
  method RetraceRound<K>(parent: Node<K>, pdir: Dir, q: Node<K>, which: Dir, fake: Node<K>, ghost cur: Path<K>,
      ghost low: Tree<K>, ghost all: set<Node<K>>, ghost order: seq<Node<K>>)
    returns (done: bool, ghost low': Tree<K>)
    requires Owing(fake, cur, low, all, order) && cur.Down? && q == cur.f.n && which == cur.f.dir
    requires var up := Append(Anchor(fake), cur.up); up.Down? && parent == up.f.n && pdir == up.f.dir
    modifies all
    ensures if done then Settled(fake, Plug(cur.up, low'), all, order) else Owing(fake, cur.up, low', all, order)
  {
    ghost var up := Append(Anchor(fake), cur.up);
    assert Append(Anchor(fake), cur) == Down(up, cur.f);
    ghost var h := Height(low) + 1;
    OwesFrame(cur.up, cur.f, low, h);
    done, low' := RetraceStep(parent, pdir, q, which, up, cur.f, low, h);
    OwesNext(cur.up, low', Raise(h, cur.f.sib), Tally(Count(low), cur.f.sib), done);
    OwingOrder(cur.up, cur.f, low, low');
    PlugAppend(Anchor(fake), cur.up, low');
  }

  lemma {:induction false} WalkEnd<K>(path: seq<Node<K>>, dir: seq<Dir>, fake: Node<K>, ctx: Path<K>, d: nat)
    requires ctx.Down? && d == Len(ctx) && d < |path| && d < |dir| && Walk(path[..d + 1], dir[..d + 1], fake, ctx)
    ensures path[d] == ctx.f.n && dir[d] == ctx.f.dir && Walk(path[..d], dir[..d], fake, ctx.up)
    ensures var up := Append(Anchor(fake), ctx.up); up.Down? && path[d - 1] == up.f.n && dir[d - 1] == up.f.dir
  {
    assert path[..d] == path[..d + 1][..d] && dir[..d] == dir[..d + 1][..d];
    assert path[d] == path[..d + 1][d] && dir[d] == dir[..d + 1][d];
    assert path[d - 1] == path[..d][d - 1] && dir[d - 1] == dir[..d][d - 1];
  }

  /** while (--d > 0): walk back up until a level keeps its height. */
  method Retrace<K>(path: seq<Node<K>>, dir: seq<Dir>, fake: Node<K>, ghost ctx: Path<K>, ghost c: Tree<K>,
                    ghost all: set<Node<K>>, ghost order: seq<Node<K>>)
    returns (ghost t': Tree<K>)
    requires Walk(path, dir, fake, ctx) && Owing(fake, ctx, c, all, order)
    modifies all
    ensures Settled(fake, t', all, order)
  {
    var d := |path| - 1;
    ghost var cur, low := ctx, c;
    assert path[..d + 1] == path && dir[..d + 1] == dir;
    while d > 0
      invariant d == Len(cur) && d < |path| && d < |dir| && Walk(path[..d + 1], dir[..d + 1], fake, cur)
      invariant Owing(fake, cur, low, all, order)
    {
      WalkEnd(path, dir, fake, cur, d);
      var done;
      done, low := RetraceRound(path[d - 1], dir[d - 1], path[d], dir[d], fake, cur, low, all, order);
      cur := cur.up;
      if done {
        return Plug(cur, low);
      }
      d := d - 1;
    }
    OwingNothing(fake, low, all, order);
    return low;
  }

  /** The descent of kavl_erase; its first round, from the fake root, is written out. */
  method LocateErase<K>(fake: Node<K>, x: K, cmp: (K, K) -> int, ghost t: Tree<K>)
    returns (p: Node?<K>, path: Slots<Node<K>>, dir: Slots<Dir>, cnt: nat, ghost ctx: Path<K>, ghost c: Tree<K>)
    requires fake.p0 == Root(t) && Models(t) && Avl(t) && Count(t) < 0x1_0000_0000
    requires Searchable(cmp, x, Inorder(t))
    ensures p == null ==> cnt == 0 && forall n :: n in Inorder(t) ==> cmp(x, n.key) != 0
    ensures p != null ==>
              && c.Branch? && p == c.n && Plug(ctx, c) == t && Walk(path, dir, fake, ctx)
              && 0 < cnt == |LeftOf(ctx)| + Count(c.l) + 1 && cmp(x, p.key) == 0
              && |path| + Height(c) <= 55
  {
    path, dir, cnt := [fake], [0], 0;
    ctx, c := Top, t;
    p := fake.p0;
    SearchStart(t, cmp, x);
    if p == null {
      return;
    }
    var cmpv := cmp(x, p.key);
    while cmpv != 0
      invariant At(t, ctx, c, cmp, x, cnt) && c.Branch? && p == c.n && cmpv == cmp(x, p.key)
      invariant Walk(path, dir, fake, ctx)
      decreases c
    {
      ghost var before := cnt;
      var which: Dir := if cmpv > 0 then 1 else 0;
      ChildSize(c);
      if cmpv > 0 {
        cnt := cnt + SizeOf(p.p0) + 1;
      }
      dir := dir + [which];
      path := path + [p];
      SearchStep(t, ctx, c, cmp, x, before, which, cnt);
      ctx, c := Down(ctx, FrameOf(c, which)), Side(c, which);
      p := p.Child(which);
      if p == null {
        WalkMiss(ctx, cmp, x, cnt);
        cnt := 0;
        return;
      }
      cmpv := cmp(x, p.key);
    }
    ChildSize(c);
    cnt := cnt + SizeOf(p.p0) + 1;
  }

  /** The search for the successor: the leftmost node of the right subtree. */
  method FindSuccessor<K>(q0: Node<K>, ghost t: Tree<K>)
    returns (q: Node<K>, r: Node<K>, path: seq<Node<K>>, dir: seq<Dir>, ghost down: Path<K>, ghost s: Tree<K>)
    requires t.Branch? && t.n == q0 && t.l.Branch? && Models(t)
    ensures t == Plug(down, s) && down.Down? && down.f.n == q && down.f.dir == 0 && Leftmost(down)
    ensures s.Branch? && s.n == r && s.l.Leaf? && Models(s)
    ensures path == NodesOn(down) && dir == DirsOn(down) && |path| + Height(s) <= Height(t)
  {
    q, path, dir := q0, [], [];
    down, s := Top, t;
    while true
      invariant t == Plug(down, s) && Leftmost(down) && Models(s) && s.Branch? && s.n == q && s.l.Branch?
      invariant path == NodesOn(down) && dir == DirsOn(down) && |path| + Height(s) <= Height(t)
      decreases s
    {
      dir := dir + [0];
      path := path + [q];
      r := q.p0;
      down, s := Down(down, FrameOf(s, 0)), s.l;
      if r.p0 == null {
        return;
      }
      q := r;
    }
  }

  /** The right child q of p takes its place: ((1,2)3,4)5 => ((1)2,4)5 with p == 3. */
  method TakeOutMid<K>(parent: Node<K>, pdir: Dir, p: Node<K>, q: Node<K>, ghost up: Path<K>, ghost c: Tree<K>)
    requires up.Down? && parent == up.f.n && pdir == up.f.dir && Holds(Plug(up, c))
    requires c.Branch? && c.n == p && c.r.Branch? && c.r.n == q && c.r.l.Leaf?
    modifies parent, q
    ensures Holds(Plug(Down(up, Heir(q, c)), c.r.r)) && Nodes(Plug(Down(up, Heir(q, c)), c.r.r)) <= Nodes(Plug(up, c))
  {
    Zip(up, c);
    assert Holds(c.l) && Holds(c.r) && Holds(c.r.r) && q !in Nodes(c.l) && q !in Nodes(c.r.r)
      && Nodes(c.r.r) <= Nodes(c.r);
    assert Nodes(c) == {p} + Nodes(c.l) + Nodes(c.r) && q in Nodes(c.r);
    q.p0 := p.p0;
    q.balance := p.balance;
    q.size := p.size - 1;
    ghost var t := Fill(Heir(q, c), c.r.r);
    assert Models(c.l) && Models(c.r.r) && PathModels(up, p);
    assert Holds(t) && PathNodes(up) !! Nodes(t) && Nodes(t) <= Nodes(c);
    NodesOfPlug(up, c);
    NodesOfPlug(up, t);
    Relink(parent, pdir, q, up, p, t);
  }

  /** r, which hangs nowhere, takes the place of p. */
  method Supplant<K>(parent: Node<K>, pdir: Dir, p: Node<K>, r: Node<K>, ghost up: Path<K>, ghost d: Tree<K>)
    requires up.Down? && parent == up.f.n && pdir == up.f.dir && Holds(Plug(up, d))
    requires d.Branch? && d.n == p && r !in Nodes(Plug(up, d))
    modifies parent, r
    ensures Holds(Plug(Down(up, Heir(r, d)), d.r)) && Nodes(Plug(Down(up, Heir(r, d)), d.r)) <= Nodes(Plug(up, d)) + {r}
  {
    Zip(up, d);
    NodesOfPlug(up, d);
    assert Holds(d.l) && Holds(d.r) && Nodes(d) == {p} + Nodes(d.l) + Nodes(d.r);
    r.p0 := p.p0;
    r.p1 := p.p1;
    r.balance := p.balance;
    r.size := p.size - 1;
    ghost var t := Fill(Heir(r, d), d.r);
    assert Models(d.l) && Models(d.r) && PathModels(up, p);
    assert Holds(t) && PathNodes(up) !! Nodes(t) && Nodes(t) <= Nodes(d) + {r};
    NodesOfPlug(up, t);
    Relink(parent, pdir, r, up, p, t);
  }

  /** The stores of TakeOutHigh that unhook r, the leftmost node below c, and recount its ancestors up to p. */
  method Unhook<K>(q: Node<K>, r: Node<K>, path: seq<Node<K>>, ghost up: Path<K>, ghost c: Tree<K>,
      ghost down: Path<K>, ghost s: Tree<K>)
    returns (ghost d: Tree<K>)
    requires Holds(Plug(up, c)) && c.Branch? && c.r == Plug(down, s)
    requires down.Down? && down.f.n == q && down.f.dir == 0 && path == NodesOn(down)
    requires s.Branch? && s.n == r && s.l.Leaf?
    modifies Nodes(Plug(up, c))
    ensures d == Fill(FrameOf(c, 1), Plug(Resize(down, -1), s.r))
    ensures Holds(Plug(up, d)) && r !in Nodes(Plug(up, d)) && Nodes(Plug(up, d)) <= Nodes(Plug(up, c))
    ensures r.p0 == old(r.p0) && r.p1 == old(r.p1)
  {
    ghost var base := Down(up, FrameOf(c, 1));
    ghost var full := Append(base, down);
    assert Fill(FrameOf(c, 1), c.r) == c;
    PlugAppend(base, down, s);
    Zip(full, s);
    NodesOfPlug(full, s);
    NodesOfPlug(full, s.r);
    assert Holds(s.r) && Nodes(s) == {r} + Nodes(s.r) && r !in Nodes(s.r);
    InPath(full, Len(full) - 1);
    assert full.f == down.f && q in PathNodes(full);
    Relink(q, 0, r.p1, full, r, s.r);
    ghost var all := Nodes(Plug(full, s.r));
    NodesAllocated(s);
    ShiftSizes(path, -1, base, down, s.r, all);
    PlugAppend(base, Resize(down, -1), s.r);
    d := Fill(FrameOf(c, 1), Plug(Resize(down, -1), s.r));
  }

  /** The successor of p takes its place: ((1,((.,2)3,4)5)6,7)8 => ((1,(2,4)5)3,7)8 with p == 6. */
  method TakeOutHigh<K>(parent: Node<K>, pdir: Dir, p: Node<K>, q0: Node<K>, ghost up: Path<K>, ghost c: Tree<K>)
    returns (r: Node<K>, path: seq<Node<K>>, dir: seq<Dir>, ghost down: Path<K>, ghost s: Tree<K>)
    requires up.Down? && parent == up.f.n && pdir == up.f.dir && Holds(Plug(up, c))
    requires c.Branch? && c.n == p && c.r.Branch? && c.r.n == q0 && c.r.l.Branch?
    modifies Nodes(Plug(up, c))
    ensures c.r == Plug(down, s) && Leftmost(down) && s.Branch? && s.n == r && s.l.Leaf?
    ensures path == NodesOn(down) && dir == DirsOn(down) && |path| + Height(s) <= Height(c.r)
    ensures var t := Plug(Append(Down(up, Heir(r, c)), Resize(down, -1)), s.r);
            Holds(t) && Nodes(t) <= Nodes(Plug(up, c))
  {
    Zip(up, c);
    NodesOfPlug(up, c);
    NodesAllocated(Plug(up, c));
    var q;
    q, r, path, dir, down, s := FindSuccessor(q0, c.r);
    NodesOfPlug(down, s);
    assert r in Nodes(c.r) && parent in PathNodes(up);
    ghost var d := Unhook(q, r, path, up, c, down, s);
    NodesOfPlug(up, d);
    Supplant(parent, pdir, p, r, up, d);
    PlugAppend(Down(up, Heir(r, c)), Resize(down, -1), s.r);
  }

  lemma {:induction false} AppendAssoc<K>(a: Path<K>, b: Path<K>, c: Path<K>)
    ensures Append(Append(a, b), c) == Append(a, Append(b, c))
  {
    if c.Down? {
      AppendAssoc(a, b, c.up);
    }
  }

  /** What taking the root of c out leaves: the walk back up starts at the end of ctx', from c'. */
  ghost predicate TakenOut<K>(fake: Node<K>, ctx: Path<K>, c: Tree<K>, ctx': Path<K>, c': Tree<K>, all: set<Node<K>>)
    requires c.Branch?
    reads Nodes(Plug(Append(Anchor(fake), ctx'), c'))
  {
    var t := Plug(Append(Anchor(fake), ctx'), c');
    Owing(fake, ctx', c', Nodes(t), Without(ctx, c)) && Nodes(t) <= all
  }

  lemma {:induction false} TakenOutBelow<K>(fake: Node<K>, ctx: Path<K>, c: Tree<K>, base: Path<K>, down: Path<K>,
      r: Tree<K>, all: set<Node<K>>)
    requires c.Branch? && Removed(ctx, c, Append(base, down), r)
    requires var t := Plug(Append(Append(Anchor(fake), base), down), r); Holds(t) && Nodes(t) <= all
    ensures TakenOut(fake, ctx, c, Append(base, down), r, all)
  {
    AppendAssoc(Anchor(fake), base, down);
  }

  lemma {:induction false} TakenOutHigh<K>(fake: Node<K>, ctx: Path<K>, c: Tree<K>, mid: Path<K>, f: Frame<K>,
      down: Path<K>, low: Path<K>, s: Tree<K>, all: set<Node<K>>)
    requires Avl(Plug(ctx, c)) && c.Branch?
    requires c.r == Plug(down, s) && s.Branch? && s.l.Leaf? && Leftmost(down)
    requires mid == Resize(ctx, -1) && f == Heir(s.n, c) && low == Resize(down, -1)
    requires var t := Plug(Append(Down(Append(Anchor(fake), mid), f), low), s.r);
             Holds(t) && Nodes(t) <= all
    ensures TakenOut(fake, ctx, c, Append(Down(mid, f), low), s.r, all)
  {
    RemovedHigh(ctx, c, down, s);
    TakenOutBelow(fake, ctx, c, Down(mid, f), low, s.r, all);
  }

  lemma {:induction false} WalkHigh<K>(path0: seq<Node<K>>, dir0: seq<Dir>, fake: Node<K>, mid: Path<K>, f: Frame<K>,
      down: Path<K>, d: int)
    requires Walk(path0, dir0, fake, mid) && f.dir == 1
    ensures Walk(path0 + [f.n] + NodesOn(down), dir0 + [1] + DirsOn(down), fake, Append(Down(mid, f), Resize(down, d)))
  {
    DirsAppend(Down(mid, f), Resize(down, d));
    ResizeFacts(down, d);
    Joined4([fake], NodesOn(mid), [f.n], NodesOn(down));
    Joined4([0], DirsOn(mid), [1], DirsOn(down));
  }

  lemma {:induction false} Joined4<T>(a: seq<T>, b: seq<T>, c: seq<T>, d: seq<T>)
    ensures a + b + c + d == a + (b + c + d)
  {
  }

  /** No right subtree: the left child of p, if any, takes its place. */
  method TakeOutLow<K>(parent: Node<K>, pdir: Dir, p: Node<K>, fake: Node<K>, ghost ctx: Path<K>, ghost c: Tree<K>,
      ghost mid: Path<K>, ghost up: Path<K>)
    requires c.Branch? && c.n == p && c.r.Leaf? && Avl(Plug(ctx, c)) && mid == Resize(ctx, -1)
    requires up == Append(Anchor(fake), mid) && up.Down? && parent == up.f.n && pdir == up.f.dir && Holds(Plug(up, c))
    modifies parent
    ensures TakenOut(fake, ctx, c, mid, c.l, Nodes(Plug(up, c)))
  {
    Zip(up, c);
    Relink(parent, pdir, p.p0, up, p, c.l);
    RemovedLow(ctx, c);
    NodesOfPlug(up, c);
    NodesOfPlug(up, c.l);
  }

  /** The right child q of p, which has no left child, takes its place. */
  method TakeOutByChild<K>(path0: seq<Node<K>>, dir0: seq<Dir>, parent: Node<K>, pdir: Dir, p: Node<K>, q: Node<K>,
      fake: Node<K>, ghost ctx: Path<K>, ghost c: Tree<K>, ghost mid: Path<K>, ghost up: Path<K>)
    returns (path: seq<Node<K>>, dir: seq<Dir>, ghost ctx': Path<K>, ghost c': Tree<K>)
    requires c.Branch? && c.n == p && c.r.Branch? && c.r.n == q && c.r.l.Leaf? && Avl(Plug(ctx, c))
    requires mid == Resize(ctx, -1) && up == Append(Anchor(fake), mid) && Holds(Plug(up, c))
    requires up.Down? && parent == up.f.n && pdir == up.f.dir && Walk(path0, dir0, fake, mid)
    modifies parent, q
    ensures |path| == |path0| + 1 && Walk(path, dir, fake, ctx')
    ensures TakenOut(fake, ctx, c, ctx', c', Nodes(Plug(up, c)))
  {
    TakeOutMid(parent, pdir, p, q, up, c);
    ctx', c' := Down(mid, Heir(q, c)), c.r.r;
    TakenOutHigh(fake, ctx, c, mid, Heir(q, c), Top, Top, c.r, Nodes(Plug(up, c)));
    path, dir := path0 + [q], dir0 + [1];
  }

  /** The successor of p, further down than its right child q, takes its place. */
  method TakeOutBySuccessor<K>(path0: seq<Node<K>>, dir0: seq<Dir>, parent: Node<K>, pdir: Dir, p: Node<K>, q: Node<K>,
      fake: Node<K>, ghost ctx: Path<K>, ghost c: Tree<K>, ghost mid: Path<K>, ghost up: Path<K>)
    returns (path: seq<Node<K>>, dir: seq<Dir>, ghost ctx': Path<K>, ghost c': Tree<K>)
    requires c.Branch? && c.n == p && c.r.Branch? && c.r.n == q && c.r.l.Branch? && Avl(Plug(ctx, c))
    requires mid == Resize(ctx, -1) && up == Append(Anchor(fake), mid) && Holds(Plug(up, c))
    requires up.Down? && parent == up.f.n && pdir == up.f.dir && Walk(path0, dir0, fake, mid)
    modifies Nodes(Plug(up, c))
    ensures |path| <= |path0| + 1 + Height(c.r) && Walk(path, dir, fake, ctx')
    ensures TakenOut(fake, ctx, c, ctx', c', Nodes(Plug(up, c)))
  {
    var r, path2, dir2;
    ghost var down, s;
    r, path2, dir2, down, s := TakeOutHigh(parent, pdir, p, q, up, c);
    ctx', c' := Append(Down(mid, Heir(r, c)), Resize(down, -1)), s.r;
    TakenOutHigh(fake, ctx, c, mid, Heir(r, c), down, Resize(down, -1), s, Nodes(Plug(up, c)));
    WalkHigh(path0, dir0, fake, mid, Heir(r, c), down, -1);
    path, dir := path0 + [r] + path2, dir0 + [1] + dir2;
  }

  /** What the choice between the three cases of kavl_erase looks at. */
  lemma {:induction false} HeldBelow<K>(up: Path<K>, c: Tree<K>)
    requires Holds(Plug(up, c)) && c.Branch? && up.Down?
    ensures up.f.n in Nodes(Plug(up, c)) && Nodes(c) <= Nodes(Plug(up, c))
    ensures c.n.p1 == Root(c.r) && (c.r.Branch? ==> c.r.n.p0 == Root(c.r.l) && c.r.n in Nodes(c))
  {
    Zip(up, c);
    NodesOfPlug(up, c);
    assert Models(c.r);
  }

  /** Take p out of the tree; what is left to do is to walk back up. */
  method TakeOut<K>(path0: Slots<Node<K>>, dir0: Slots<Dir>, p: Node<K>, fake: Node<K>, ghost ctx: Path<K>,
      ghost c: Tree<K>, ghost up: Path<K>)
    returns (path: Slots<Node<K>>, dir: Slots<Dir>, ghost ctx': Path<K>, ghost c': Tree<K>)
    requires Walk(path0, dir0, fake, ctx) && c.Branch? && c.n == p && Avl(Plug(ctx, c))
    requires |path0| + Height(c) <= 55
    requires up == Append(Anchor(fake), Resize(ctx, -1)) && Holds(Plug(up, c))
    modifies Nodes(Plug(up, c))
    ensures Walk(path, dir, fake, ctx')
    ensures TakenOut(fake, ctx, c, ctx', c', Nodes(Plug(up, c)))
  {
    ghost var mid := Resize(ctx, -1);
    WalkResized(path0, dir0, fake, ctx);
    HeldBelow(up, c);
    var parent, pdir := path0[|path0| - 1], dir0[|dir0| - 1];
    var q := p.p1;
    if q == null {
      TakeOutLow(parent, pdir, p, fake, ctx, c, mid, up);
      path, dir, ctx', c' := path0, dir0, mid, c.l;
    } else if q.p0 == null {
      path, dir, ctx', c' := TakeOutByChild(path0, dir0, parent, pdir, p, q, fake, ctx, c, mid, up);
    } else {
      path, dir, ctx', c' := TakeOutBySuccessor(path0, dir0, parent, pdir, p, q, fake, ctx, c, mid, up);
    }
  }

  lemma {:induction false} WalkResized<K>(path: seq<Node<K>>, dir: seq<Dir>, fake: Node<K>, ctx: Path<K>)
    requires Walk(path, dir, fake, ctx)
    ensures Walk(path, dir, fake, Resize(ctx, -1))
    ensures
      var up := Append(Anchor(fake), Resize(ctx, -1));
      up.Down? && path[|path| - 1] == up.f.n && dir[|dir| - 1] == up.f.dir
  {
    ResizeFacts(ctx, -1);
  }

  /** The outcome of kavl_erase on a tree with elements s. */
  ghost predicate Erased<K>(cmp: (K, K) -> int, x: K, s: seq<Node<K>>, s': seq<Node<K>>, p: Node?<K>, cnt: nat) {
    if p == null then
      cnt == 0 && s' == s && forall n :: n in s ==> cmp(x, n.key) != 0
    else
      && 0 < cnt <= |s| && s[cnt - 1] == p && cmp(x, p.key) == 0
      && s' == s[..cnt - 1] + s[cnt..]
  }

  lemma {:induction false} RemoveMiddle<T>(l: seq<T>, a: seq<T>, n: T, b: seq<T>, r: seq<T>, k: nat, cnt: nat)
    requires k == |l| + |a| && cnt == k + 1
    ensures var s := l + (a + [n] + b) + r;
            cnt <= |s| && s[k] == n && l + (a + b) + r == s[..k] + s[cnt..]
  {
    var s := l + (a + [n] + b) + r;
    assert s == (l + a) + ([n] + (b + r));
    assert s[..k] == l + a;
    assert s[cnt..] == b + r;
  }

  lemma {:induction false} WithoutOne<K>(ctx: Path<K>, c: Tree<K>, k: nat, cnt: nat)
    requires c.Branch? && k == |LeftOf(ctx)| + Count(c.l) && cnt == k + 1
    ensures var s := Inorder(Plug(ctx, c));
            cnt <= |s| && s[k] == c.n && Without(ctx, c) == s[..k] + s[cnt..]
  {
    InorderPlug(ctx, c);
    InorderFacts(c.l);
    RemoveMiddle(LeftOf(ctx), Inorder(c.l), c.n, Inorder(c.r), RightOf(ctx), k, cnt);
  }

  lemma {:induction false} ErasedOne<K>(cmp: (K, K) -> int, x: K, ctx: Path<K>, c: Tree<K>, k: nat, cnt: nat)
    requires c.Branch? && k == |LeftOf(ctx)| + Count(c.l) && cnt == k + 1 && cmp(x, c.n.key) == 0
    ensures Erased(cmp, x, Inorder(Plug(ctx, c)), Without(ctx, c), c.n, cnt)
  {
    WithoutOne(ctx, c, k, cnt);
  }

  /** The part of kavl_erase after its search. */
  method EraseFound<K>(path: Slots<Node<K>>, dir: Slots<Dir>, p: Node<K>, fake: Node<K>, ghost ctx: Path<K>,
      ghost c: Tree<K>)
    returns (ghost t': Tree<K>)
    requires Walk(path, dir, fake, ctx) && c.Branch? && c.n == p && Avl(Plug(ctx, c)) && |path| + Height(c) <= 55
    requires Holds(Plug(Append(Anchor(fake), ctx), c))
    modifies Nodes(Plug(Append(Anchor(fake), ctx), c))
    ensures Holds(Plug(Anchor(fake), t')) && Avl(t') && Inorder(t') == Without(ctx, c)
  {
    ghost var all := Nodes(Plug(Append(Anchor(fake), ctx), c));
    assert path[1..] == NodesOn(ctx);
    ShiftSizes(path[1..], -1, Anchor(fake), ctx, c, all);
    var path', dir';
    ghost var ctx', c';
    path', dir', ctx', c' := TakeOut(path, dir, p, fake, ctx, c, Append(Anchor(fake), Resize(ctx, -1)));
    t' := Retrace(path', dir', fake, ctx', c', Nodes(Plug(Append(Anchor(fake), ctx'), c')), Without(ctx, c));
  }

  method EraseTree<K>(root: Node?<K>, x: K, cmp: (K, K) -> int, ghost t: Tree<K>)
    returns (root': Node?<K>, p: Node?<K>, cnt: nat, ghost t': Tree<K>)
    requires Holds(t) && Avl(t) && Count(t) < 0x1_0000_0000 && root == Root(t)
    requires Searchable(cmp, x, Inorder(t))
    modifies Nodes(t)
    ensures root' == Root(t') && Holds(t') && Avl(t')
    ensures Erased(cmp, x, Inorder(t), Inorder(t'), p, cnt)
    ensures p == null ==> t' == t
  {
    NodesAllocated(t);
    var fake := new Node(x);
    fake.p0 := root;
    assert Holds(t) && fake !in Nodes(t);
    var path, dir;
    ghost var ctx, c;
    p, path, dir, cnt, ctx, c := LocateErase(fake, x, cmp, t);
    assert Holds(t);
    if p == null {
      root', t' := root, t;
    } else {
      ErasedOne(cmp, x, ctx, c, cnt - 1, cnt);
      PlugAppend(Anchor(fake), ctx, c);
      assert Plug(Anchor(fake), t) == Branch(fake, 0, 0, t, Leaf)
        && Nodes(Branch(fake, 0, 0, t, Leaf)) == {fake} + Nodes(t);
      t' := EraseFound(path, dir, p, fake, ctx, c);
      assert Plug(Anchor(fake), t') == Branch(fake, 0, 0, t', Leaf);
      root' := fake.p0;
    }
  }

  // ---------------------------------------------------------------------------------------
  // Keys in a total order
  // ---------------------------------------------------------------------------------------

  ghost predicate Sorted<K>(cmp: (K, K) -> int, s: seq<Node<K>>) {
    forall i, j :: 0 <= i < j < |s| ==> cmp(s[i].key, s[j].key) < 0
  }

  lemma {:induction false} SortedIsSearchable<K(!new)>(cmp: (K, K) -> int, x: K, s: seq<Node<K>>)
    requires TotalOrder(cmp) && Sorted(cmp, s)
    ensures Searchable(cmp, x, s)
  {
    forall i, j | 0 <= i < j < |s|
      ensures cmp(x, s[i].key) <= 0 ==> cmp(x, s[j].key) < 0
    {
      Chain(cmp, x, s[i].key, s[j].key);
    }
  }

  /** What kavl_insert and kavl_erase do to a tree whose keys are in order leaves them in order. */
  lemma {:induction false} InsertedSorted<K(!new)>(cmp: (K, K) -> int, x: Node<K>, s: seq<Node<K>>, s': seq<Node<K>>,
      r: Node<K>, cnt: nat)
    requires TotalOrder(cmp) && Sorted(cmp, s) && Inserted(cmp, x, s, s', r, cnt)
    ensures Sorted(cmp, s')
  {
    if r == x {
      forall i, j | 0 <= i < j < |s'|
        ensures cmp(s'[i].key, s'[j].key) < 0
      {
        if i < cnt {
          assert s'[i] == s[..cnt][i];
        } else if i == cnt {
          assert s'[j] == s[cnt..][j - cnt - 1];
        }
      }
    }
  }

  lemma {:induction false} ErasedSorted<K(!new)>(cmp: (K, K) -> int, x: K, s: seq<Node<K>>, s': seq<Node<K>>,
      p: Node?<K>, cnt: nat)
    requires TotalOrder(cmp) && Sorted(cmp, s) && Erased(cmp, x, s, s', p, cnt)
    ensures Sorted(cmp, s') && (forall n :: n in s' ==> cmp(x, n.key) != 0)
  {
    if p != null {
      forall i | 0 <= i < |s'|
        ensures cmp(x, s'[i].key) != 0
      {
        if i < cnt - 1 {
          assert s'[i] == s[i];
          Chain(cmp, x, s[i].key, p.key);
        } else {
          assert s'[i] == s[i + 1];
          Chain(cmp, x, p.key, s[i + 1].key);
        }
      }
    }
  }

  /** The pointer to the root, with the tree it leads to. */
  class Kavl<K> {
    var root: Node?<K>
    ghost var tree: Tree<K>

    ghost predicate Valid()
      reads this, Nodes(tree)
    {
      && root == Root(tree) && Holds(tree)
      && Avl(tree) && Count(tree) < 0x1_0000_0000
    }

    /** The elements in symmetric order. */
    ghost function Contents(): seq<Node<K>>
      reads this
    {
      Inorder(tree)
    }

    constructor ()
      ensures Valid() && Contents() == [] && tree == Leaf
    {
      root, tree := null, Leaf;
    }

    /** kavl_find: a stored element comparing equal to x, and the count of elements up to it. */
    method Find(x: K, cmp: (K, K) -> int) returns (p: Node?<K>, cnt: nat)
      requires Valid() && Searchable(cmp, x, Contents())
      ensures p == null ==> forall n :: n in Contents() ==> cmp(x, n.key) != 0
      ensures p == null ==>
        cnt <= |Contents()| && AllBelow(cmp, x, Contents()[..cnt]) && AllAbove(cmp, x, Contents()[cnt..])
      ensures p != null ==> 0 < cnt <= |Contents()| && Contents()[cnt - 1] == p && cmp(x, p.key) == 0
    {
      p, cnt := root, 0;
      ghost var ctx, c := Top, tree;
      SearchStart(tree, cmp, x);
      while p != null
        invariant At(tree, ctx, c, cmp, x, cnt) && p == Root(c)
        decreases c
      {
        var cmpv := cmp(x, p.key);
        ghost var before := cnt;
        if cmpv >= 0 {
          ChildSize(c);
          cnt := cnt + SizeOf(p.p0) + 1;
        }
        if cmpv < 0 {
          p := p.p0;
        } else if cmpv > 0 {
          p := p.p1;
        } else {
          WalkHit(ctx, c, cnt - 1);
          return;
        }
        ghost var dir: Dir := if cmpv < 0 then 0 else 1;
        SearchStep(tree, ctx, c, cmp, x, before, dir, cnt);
        ctx, c := Down(ctx, FrameOf(c, dir)), Side(c, dir);
      }
      WalkMiss(ctx, cmp, x, cnt);
    }

    /** kavl_insert: x itself when it was added, otherwise the stored element equal to it. */
    method Insert(x: Node<K>, cmp: (K, K) -> int) returns (r: Node<K>, cnt: nat)
      requires Valid() && x !in Nodes(tree) && Count(tree) + 1 < 0x1_0000_0000
      requires Searchable(cmp, x.key, Contents())
      modifies this, Nodes(tree), x
      ensures Valid()
      ensures Inserted(cmp, x, old(Contents()), Contents(), r, cnt)
    {
      InorderFacts(tree);
      root, r, cnt, tree := InsertTree(root, x, cmp, tree);
      InorderFacts(tree);
    }

    /** kavl_erase: the stored element equal to x, now out of the tree, or null. */
    method Erase(x: K, cmp: (K, K) -> int) returns (p: Node?<K>, cnt: nat)
      requires Valid() && Searchable(cmp, x, Contents())
      modifies this, Nodes(tree)
      ensures Valid()
      ensures Erased(cmp, x, old(Contents()), Contents(), p, cnt)
    {
      InorderFacts(tree);
      root, p, cnt, tree := EraseTree(root, x, cmp, tree);
      InorderFacts(tree);
    }
  }
}

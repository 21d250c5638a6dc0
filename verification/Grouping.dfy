/**
  What the two grouping loops of ip2net/ip2net.c promise.  An address is a number; two addresses
  are in the same subnet with z host bits when they agree after >> z.  The loops differ only in the
  test a subnet has to pass.
 */
module Grouping {
  import opened Words

  /** Sorted and without duplicates. */
  ghost predicate Ascending(ip: seq<nat>) {
    forall i, j :: 0 <= i < j < |ip| ==> ip[i] < ip[j]
  }

  /** Whether a subnet of 2^z addresses holding ct listed ones, the first being a, is good enough. */
  type Test = (nat, nat, nat) -> bool

  /** The end of the run of listed addresses that share the subnet of ip[pos]. */
  function RunEnd(ip: seq<nat>, pos: nat, z: nat, p: nat): (e: nat)
    requires pos < p <= |ip|
    ensures p <= e <= |ip|
    decreases |ip| - p
  {
    if p < |ip| && Shr(ip[p], z) == Shr(ip[pos], z) then RunEnd(ip, pos, z, p + 1) else p
  }

  function End(ip: seq<nat>, pos: nat, z: nat): (e: nat)
    requires pos < |ip|
    ensures pos < e <= |ip|
  {
    RunEnd(ip, pos, z, pos + 1)
  }

  lemma {:induction false} RunEndIs(ip: seq<nat>, pos: nat, z: nat, p: nat)
    requires pos < p <= |ip|
    ensures var e := RunEnd(ip, pos, z, p);
            && (forall k :: p <= k < e ==> Shr(ip[k], z) == Shr(ip[pos], z))
            && (e < |ip| ==> Shr(ip[e], z) != Shr(ip[pos], z))
    decreases |ip| - p
  {
    if p < |ip| && Shr(ip[p], z) == Shr(ip[pos], z) {
      RunEndIs(ip, pos, z, p + 1);
    }
  }

  /** On a sorted list the run is all that the subnet holds from pos on. */
  lemma {:induction false} EndIs(ip: seq<nat>, pos: nat, z: nat)
    requires Ascending(ip) && pos < |ip|
    ensures forall k :: pos <= k < |ip| ==> (k < End(ip, pos, z) <==> Shr(ip[k], z) == Shr(ip[pos], z))
  {
    var e := End(ip, pos, z);
    RunEndIs(ip, pos, z, pos + 1);
    forall k | e <= k < |ip|
      ensures Shr(ip[k], z) != Shr(ip[pos], z)
    {
      ShrMonotone(ip[pos], ip[e], z);
      ShrMonotone(ip[e], ip[k], z);
    }
  }

  lemma {:induction false} EndMonotone(ip: seq<nat>, pos: nat, z: nat, y: nat)
    requires Ascending(ip) && pos < |ip| && z <= y
    ensures End(ip, pos, z) <= End(ip, pos, y)
  {
    EndIs(ip, pos, z);
    EndIs(ip, pos, y);
    var k := End(ip, pos, z) - 1;
    ShrNested(ip[k], ip[pos], z, y);
  }

  ghost predicate Qualifies(ip: seq<nat>, pos: nat, z: nat, ok: Test)
    requires pos < |ip|
  {
    End(ip, pos, z) - pos >= 2 && ok(ip[pos], z, End(ip, pos, z) - pos)
  }

  /** z is the smallest qualifying size with the largest coverage, or 0 when nothing qualifies. */
  ghost predicate Chosen(ip: seq<nat>, pos: nat, zmin: nat, zmax: nat, ok: Test, z: nat, end: nat) {
    && pos < |ip|
    && if z == 0 then
         end == pos + 1 && forall y :: zmin <= y <= zmax ==> !Qualifies(ip, pos, y, ok)
       else
         && zmin <= z <= zmax && end == End(ip, pos, z) && Qualifies(ip, pos, z, ok)
         && forall y :: zmin <= y <= zmax && Qualifies(ip, pos, y, ok) ==>
           End(ip, pos, y) < end || (End(ip, pos, y) == end && z <= y)
  }

  /** A test that stays passed when the run starts earlier in the same subnet and holds more. */
  ghost predicate Tolerant(ok: Test) {
    forall a, b, z, ct, ct' :: Shr(a, z) == Shr(b, z) && b <= a && ct <= ct' && ok(a, z, ct) ==> ok(b, z, ct')
  }

  /** Were q in the subnet found at pos, that subnet would qualify at q as well, with more in it. */
  lemma {:induction false} QualifiesEarlier(ip: seq<nat>, q: nat, pos: nat, z: nat, ok: Test)
    requires Ascending(ip) && Tolerant(ok) && q < pos < |ip| && Qualifies(ip, pos, z, ok)
    requires Shr(ip[q], z) == Shr(ip[pos], z)
    ensures Qualifies(ip, q, z, ok) && End(ip, q, z) > pos
  {
    EndIs(ip, q, z);
    EndIs(ip, pos, z);
    var e := End(ip, pos, z);
    assert Shr(ip[e - 1], z) == Shr(ip[q], z);
    assert End(ip, q, z) >= e;
    assert ok(ip[pos], z, e - pos);
  }

  lemma {:induction false} FoundEarlier(ip: seq<nat>, q: nat, zq: nat, pos: nat, z: nat, zmin: nat, zmax: nat, ok: Test)
    requires Ascending(ip) && Tolerant(ok) && q < pos < |ip| && 0 < zmin <= z <= zmax
    requires Chosen(ip, q, zmin, zmax, ok, zq, pos) && Qualifies(ip, pos, z, ok)
    ensures Shr(ip[q], z) != Shr(ip[pos], z)
  {
    if Shr(ip[q], z) == Shr(ip[pos], z) {
      QualifiesEarlier(ip, q, pos, z, ok);
      assert false;
    }
  }

  /** A later subnet, however large, never reaches back over the block before it. */
  lemma {:induction false} NoSwallow(ip: seq<nat>, q: nat, zq: nat, pos: nat, z: nat, end: nat, zmin: nat, zmax: nat,
      ok: Test)
    requires Ascending(ip) && Tolerant(ok) && q < pos && 0 < zmin
    requires Chosen(ip, q, zmin, zmax, ok, zq, pos) && Chosen(ip, pos, zmin, zmax, ok, z, end)
    ensures Shr(ip[pos - 1], z) < Shr(ip[pos], z)
  {
    ShrMonotone(ip[pos - 1], ip[pos], z);
    if z != 0 && Shr(ip[pos - 1], z) == Shr(ip[pos], z) {
      FoundEarlier(ip, q, zq, pos, z, zmin, zmax, ok);
      EndIs(ip, q, zq);
      if z <= zq {
        ShrNested(ip[pos - 1], ip[pos], z, zq);
      } else {
        ShrNested(ip[pos - 1], ip[q], zq, z);
      }
    }
  }

  /** One line of output: the listed addresses pos..end, as a subnet or (z == 0) a single address. */
  datatype Block = Block(pos: nat, z: nat, end: nat)

  /** Where the i-th block has to start. */
  function Start(blocks: seq<Block>, i: nat): nat
    requires i <= |blocks|
  {
    if i == 0 then 0 else blocks[i - 1].end
  }

  /** What the loop has put out when it stands at n. */
  ghost predicate Grouped(ip: seq<nat>, zmin: nat, zmax: nat, ok: Test, blocks: seq<Block>, n: nat) {
    && (forall i :: 0 <= i < |blocks| ==> Chosen(ip, blocks[i].pos, zmin, zmax, ok, blocks[i].z, blocks[i].end))
    && (forall i {:trigger Start(blocks, i)} :: 0 <= i < |blocks| ==> blocks[i].pos == Start(blocks, i))
    && n == Start(blocks, |blocks|)
  }

  predicate InNet(ip: seq<nat>, b: Block, a: nat)
    requires b.pos < |ip|
  {
    Shr(a, b.z) == Shr(ip[b.pos], b.z)
  }

  /** A printed subnet contains exactly the listed addresses of its block. */
  lemma {:induction false} NetHoldsBlock(ip: seq<nat>, zmin: nat, zmax: nat, ok: Test, blocks: seq<Block>, n: nat,
      i: nat, k: nat)
    requires Ascending(ip) && Tolerant(ok) && 0 < zmin && Grouped(ip, zmin, zmax, ok, blocks, n)
    requires i < |blocks| && k < |ip|
    ensures InNet(ip, blocks[i], ip[k]) <==> blocks[i].pos <= k < blocks[i].end
  {
    var b := blocks[i];
    assert Chosen(ip, b.pos, zmin, zmax, ok, b.z, b.end);
    if k >= b.pos {
      EndIs(ip, b.pos, b.z);
    } else {
      assert b.pos == Start(blocks, i);
      var q := blocks[i - 1];
      assert Chosen(ip, q.pos, zmin, zmax, ok, q.z, q.end);
      NoSwallow(ip, q.pos, q.z, b.pos, b.z, b.end, zmin, zmax, ok);
      ShrMonotone(ip[k], ip[b.pos - 1], b.z);
    }
  }

  lemma {:induction false} BlocksAscend(ip: seq<nat>, zmin: nat, zmax: nat, ok: Test, blocks: seq<Block>, n: nat,
      i: nat, j: nat)
    requires Grouped(ip, zmin, zmax, ok, blocks, n) && i < j < |blocks|
    ensures blocks[i].pos < blocks[i].end <= blocks[j].pos
    decreases j
  {
    assert Chosen(ip, blocks[j - 1].pos, zmin, zmax, ok, blocks[j - 1].z, blocks[j - 1].end);
    assert blocks[j].pos == Start(blocks, j);
    if i < j - 1 {
      BlocksAscend(ip, zmin, zmax, ok, blocks, n, i, j - 1);
    }
  }

  /** The printed subnets are pairwise disjoint and ascending, as sets of all their addresses. */
  lemma {:induction false} NetsAscend(ip: seq<nat>, zmin: nat, zmax: nat, ok: Test, blocks: seq<Block>, n: nat, i: nat,
      j: nat, a: nat, b: nat)
    requires Ascending(ip) && Tolerant(ok) && 0 < zmin && Grouped(ip, zmin, zmax, ok, blocks, n)
    requires i < j < |blocks| && blocks[i].pos < |ip| && blocks[j].pos < |ip|
    requires InNet(ip, blocks[i], a) && InNet(ip, blocks[j], b)
    ensures a < b
  {
    var bi, bj := blocks[i], blocks[j];
    BlocksAscend(ip, zmin, zmax, ok, blocks, n, i, j);
    NetHoldsBlock(ip, zmin, zmax, ok, blocks, n, i, bj.pos);
    NetHoldsBlock(ip, zmin, zmax, ok, blocks, n, j, bi.pos);
    var x, y := ip[bi.pos], ip[bj.pos];
    if b <= a {
      var z := if bi.z <= bj.z then bj.z else bi.z;
      ShrNested(a, x, bi.z, z);
      ShrNested(b, y, bj.z, z);
      ShrMonotone(b, a, z);
      ShrMonotone(x, y, z);
    }
  }

  lemma {:induction false} BlockOf(ip: seq<nat>, zmin: nat, zmax: nat, ok: Test, blocks: seq<Block>, n: nat, m: nat,
      k: nat) returns (i: nat)
    requires Grouped(ip, zmin, zmax, ok, blocks, n) && m <= |blocks| && k < Start(blocks, m)
    ensures i < |blocks| && blocks[i].pos <= k < blocks[i].end
    decreases m
  {
    i := m - 1;
    assert blocks[i].pos == Start(blocks, i);
    if k < blocks[i].pos {
      i := BlockOf(ip, zmin, zmax, ok, blocks, n, i, k);
    }
  }

  /** At the end every listed address lies in exactly one printed line. */
  lemma {:induction false} EveryAddressOnce(ip: seq<nat>, zmin: nat, zmax: nat, ok: Test, blocks: seq<Block>, k: nat)
    returns (i: nat)
    requires Ascending(ip) && Tolerant(ok) && 0 < zmin && Grouped(ip, zmin, zmax, ok, blocks, |ip|) && k < |ip|
    ensures forall j :: 0 <= j < |blocks| ==> blocks[j].pos < |ip|
    ensures i < |blocks| && InNet(ip, blocks[i], ip[k])
    ensures forall j :: 0 <= j < |blocks| && j != i ==> !InNet(ip, blocks[j], ip[k])
  {
    i := BlockOf(ip, zmin, zmax, ok, blocks, |ip|, |blocks|, k);
    forall j | 0 <= j < |blocks|
      ensures blocks[j].pos < |ip|
    {
      assert Chosen(ip, blocks[j].pos, zmin, zmax, ok, blocks[j].z, blocks[j].end);
    }
    NetHoldsBlock(ip, zmin, zmax, ok, blocks, |ip|, i, k);
    forall j | 0 <= j < |blocks| && j != i
      ensures !InNet(ip, blocks[j], ip[k])
    {
      NetHoldsBlock(ip, zmin, zmax, ok, blocks, |ip|, j, k);
      if j < i {
        BlocksAscend(ip, zmin, zmax, ok, blocks, |ip|, j, i);
      } else {
        BlocksAscend(ip, zmin, zmax, ok, blocks, |ip|, i, j);
      }
    }
  }

  // ---------------------------------------------------------------------------------------
  // The printed lines
  // ---------------------------------------------------------------------------------------

  /** A subnet with z host bits, or a single address. */
  datatype Line = Line(start: nat, z: nat)

  predicate InLine(l: Line, a: nat) {
    Shr(a, l.z) == Shr(l.start, l.z)
  }

  function LineOf(ip: seq<nat>, b: Block): Line
    requires b.pos < |ip|
  {
    Line(Shl(Shr(ip[b.pos], b.z), b.z), b.z)
  }

  lemma {:induction false} LineIsNet(ip: seq<nat>, b: Block, a: nat)
    requires b.pos < |ip|
    ensures InLine(LineOf(ip, b), a) <==> InNet(ip, b, a)
  {
    ShrShl(Shr(ip[b.pos], b.z), b.z);
  }

  ghost predicate Printed(ip: seq<nat>, blocks: seq<Block>, lines: seq<Line>) {
    |lines| == |blocks| && forall i :: 0 <= i < |blocks| ==> blocks[i].pos < |ip| && lines[i] == LineOf(ip, blocks[i])
  }

  lemma {:induction false} GroupedMore(ip: seq<nat>, zmin: nat, zmax: nat, ok: Test, blocks: seq<Block>, n: nat,
      z: nat, end: nat)
    requires Grouped(ip, zmin, zmax, ok, blocks, n) && Chosen(ip, n, zmin, zmax, ok, z, end)
    ensures Grouped(ip, zmin, zmax, ok, blocks + [Block(n, z, end)], end)
  {
    var more := blocks + [Block(n, z, end)];
    forall i | 0 <= i < |more|
      ensures more[i].pos == Start(more, i)
    {
      if i < |blocks| {
        assert blocks[i].pos == Start(blocks, i);
      }
    }
  }

  /** Lines are disjoint and in ascending order. */
  ghost predicate Separate(lines: seq<Line>) {
    forall i, j, a, b :: 0 <= i < j < |lines| && InLine(lines[i], a) && InLine(lines[j], b) ==> a < b
  }

  ghost predicate Covered(a: nat, lines: seq<Line>) {
    exists i :: 0 <= i < |lines| && InLine(lines[i], a)
  }

  lemma {:induction false} PrintedIsPartition(ip: seq<nat>, zmin: nat, zmax: nat, ok: Test, blocks: seq<Block>,
      lines: seq<Line>)
    requires Ascending(ip) && Tolerant(ok) && 0 < zmin && Grouped(ip, zmin, zmax, ok, blocks, |ip|)
      && Printed(ip, blocks, lines)
    ensures Separate(lines) && forall a :: a in ip ==> Covered(a, lines)
  {
    forall i, j, a, b | 0 <= i < j < |lines| && InLine(lines[i], a) && InLine(lines[j], b)
      ensures a < b
    {
      LineIsNet(ip, blocks[i], a);
      LineIsNet(ip, blocks[j], b);
      NetsAscend(ip, zmin, zmax, ok, blocks, |ip|, i, j, a, b);
    }
    forall a | a in ip
      ensures Covered(a, lines)
    {
      var k :| 0 <= k < |ip| && ip[k] == a;
      var i := EveryAddressOnce(ip, zmin, zmax, ok, blocks, k);
      LineIsNet(ip, blocks[i], a);
      assert InLine(lines[i], a);
    }
  }
}

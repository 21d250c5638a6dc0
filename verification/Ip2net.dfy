/** ip2net/ip2net.c: a list of addresses becomes a list of subnets and single addresses. */
module Ip2net {
  import opened Arith
  import opened Grouping
  import opened Order
  import opened QuickSort
  import opened Words

  /** params_s, as parse_params leaves it. */
  datatype Params = Params(pctmult: uint32, pctdiv: uint32, zctMin: uint32, zctMax: uint32, v6Threshold: uint32) {
    predicate Valid(width: nat) {
      1 <= pctmult < pctdiv && 1 <= zctMin <= zctMax < width
    }
  }

  // ---------------------------------------------------------------------------------------
  // unique, unique6
  // ---------------------------------------------------------------------------------------

  /** Every run of equal elements becomes one element. */
  function Dedup<T(==)>(s: seq<T>): seq<T> {
    if s == [] then []
    else
      var n := |s| - 1;
      if n > 0 && s[n - 1] == s[n] then Dedup(s[..n]) else Dedup(s[..n]) + [s[n]]
  }

  lemma {:induction false} DedupStep<T>(s: seq<T>, n: nat)
    requires n < |s|
    ensures Dedup(s[..n + 1]) == if n > 0 && s[n - 1] == s[n] then Dedup(s[..n]) else Dedup(s[..n]) + [s[n]]
  {
    assert s[..n + 1][..n] == s[..n];
  }

  lemma {:induction false} DedupLast<T>(s: seq<T>)
    ensures s != [] ==> Dedup(s) != [] && Dedup(s)[|Dedup(s)| - 1] == s[|s| - 1]
    ensures forall x :: x in Dedup(s) <==> x in s
  {
    if s != [] {
      var n := |s| - 1;
      DedupLast(s[..n]);
      assert s == s[..n] + [s[n]];
    }
  }

  /** On a list sorted by an order that tells all elements apart nothing stays twice. */
  lemma {:induction false} DedupAscends<T(!new)>(cmp: (T, T) -> int, s: seq<T>)
    requires TotalOrder(cmp) && SortedTo(cmp, s, |s|) && forall a, b :: cmp(a, b) == 0 ==> a == b
    ensures forall i, j :: 0 <= i < j < |Dedup(s)| ==> cmp(Dedup(s)[i], Dedup(s)[j]) < 0
  {
    if s != [] {
      var n := |s| - 1;
      var init := s[..n];
      DedupAscends(cmp, init);
      DedupLast(init);
      if n > 0 && s[n - 1] != s[n] {
        var d := Dedup(init);
        forall i | 0 <= i < |d|
          ensures cmp(d[i], s[n]) < 0
        {
          assert cmp(s[n - 1], s[n]) < 0;
          Chain(cmp, d[i], s[n - 1], s[n]);
          assert i < |d| - 1 ==> cmp(d[i], d[|d| - 1]) < 0;
        }
      }
    }
  }

  /** Sorting and making unique lose nothing and add nothing. */
  lemma {:induction false} InputKept<T>(input: seq<T>, sorted: seq<T>, a: T)
    requires multiset(input) == multiset(sorted)
    ensures a in Dedup(sorted) <==> a in input
  {
    assert a in input <==> a in multiset(input);
    assert a in sorted <==> a in multiset(sorted);
    DedupLast(sorted);
  }

  /** Skip the elements equal to u. */
  method SkipEqual<T(==)>(pu: array<T>, ct: nat, u: T, j0: nat, ghost s: seq<T>) returns (j: nat)
    requires 0 < j0 <= ct <= pu.Length && ct == |s| && s[j0 - 1] == u
    requires forall k :: j0 <= k < ct ==> pu[k] == s[k]
    ensures j0 <= j <= ct && Dedup(s[..j]) == Dedup(s[..j0]) && (j < ct ==> s[j] != s[j - 1])
  {
    j := j0;
    while j < ct && pu[j] == u
      invariant j0 <= j <= ct && Dedup(s[..j]) == Dedup(s[..j0]) && s[j - 1] == u
    {
      DedupStep(s, j);
      j := j + 1;
    }
  }

  /** unique: compact the array in place. */
  method Unique<T(==)>(pu: array<T>, ct: nat) returns (i: nat)
    requires ct <= pu.Length
    modifies pu
    ensures i <= ct && pu[..i] == Dedup(old(pu[..ct]))
  {
    ghost var s := pu[..ct];
    i := 0;
    var j := 0;
    while j < ct
      invariant i <= j <= ct && pu[..i] == Dedup(s[..j])
      invariant forall k :: j <= k < ct ==> pu[k] == s[k]
      invariant 0 < j < ct ==> s[j] != s[j - 1]
    {
      var u := pu[j];
      DedupStep(s, j);
      j := SkipEqual(pu, ct, u, j + 1, s);
      pu[i] := u;
      assert pu[..i + 1] == pu[..i] + [u];
      i := i + 1;
    }
    assert s[..j] == s;
  }

  /** unique6: the same, keeping the index of the run's first element instead of its value. */
  method Unique6<T(==)>(pu: array<T>, ct: nat) returns (i: nat)
    requires ct <= pu.Length
    modifies pu
    ensures i <= ct && pu[..i] == Dedup(old(pu[..ct]))
  {
    ghost var s := pu[..ct];
    i := 0;
    var j := 0;
    while j < ct
      invariant i <= j <= ct && pu[..i] == Dedup(s[..j])
      invariant forall k :: j <= k < ct ==> pu[k] == s[k]
      invariant 0 < j < ct ==> s[j] != s[j - 1]
    {
      var k := j;
      DedupStep(s, j);
      j := SkipEqual(pu, ct, pu[k], j + 1, s);
      pu[i] := pu[k];
      assert pu[..i + 1] == pu[..i] + [s[k]];
      i := i + 1;
    }
    assert s[..j] == s;
  }

  // ---------------------------------------------------------------------------------------
  // IPv4
  // ---------------------------------------------------------------------------------------

  /** The C operator ~ */
  function Not32(x: uint32): uint32 {
    TWO_32 - 1 - x
  }

  /** Unsigned arithmetic keeps the low 32 bits. */
  function Wrap32(x: nat): uint32 {
    if x < TWO_32 then x else Wrap32(x - TWO_32)
  }

  function Mul32(a: nat, b: nat): uint32 {
    Wrap32(a * b)
  }

  function Add32(a: nat, b: nat): uint32 {
    Wrap32(a + b)
  }

  function MaskFromBitcount(zct: uint32): uint32 {
    if zct < 32 then Not32(Wrap32(Pow2(zct) - 1)) else 0
  }

  lemma {:induction false} MaskIs(z: nat)
    requires z < 32
    ensures Pow2(z) < TWO_32 && MaskFromBitcount(z) == TWO_32 - Pow2(z) && Not32(MaskFromBitcount(z)) == Pow2(z) - 1
  {
    Pow2IsShl(z);
    Pow2Of32();
    Pow2Grows(z, 31);
  }

  /** The bounds of a subnet, as the mask operations compute them. */
  lemma {:induction false} SubnetBounds(a: uint32, z: nat)
    requires z < 32
    ensures And(a, MaskFromBitcount(z)) == Shl(Shr(a, z), z)
    ensures Or(Shl(Shr(a, z), z), Not32(MaskFromBitcount(z))) == Shl(Shr(a, z), z) + Pow2(z) - 1
  {
    MaskIs(z);
    Pow2Of32();
    Pow2Grows(z, 32);
    AndMask(32, a, z);
    OrLow(Shr(a, z), z, Shl(Shr(a, z), z));
  }

  /** Addresses above this one leave too little room in the subnet. */
  function SkipLimit(start: nat, subnetCt: nat, p: Params): nat
    requires p.pctmult < p.pctdiv
  {
    Add32(start, Floor(Mul32(subnetCt, p.pctdiv - p.pctmult), p.pctdiv))
  }

  /** How many listed addresses a subnet has to hold. */
  function Enough(subnetCt: nat, p: Params): nat
    requires p.pctdiv > 0
  {
    Floor(Mul32(subnetCt, p.pctmult), p.pctdiv)
  }

  predicate Skipped(a: nat, z: nat, p: Params)
    requires p.pctmult < p.pctdiv
  {
    a > SkipLimit(Shl(Shr(a, z), z), Pow2(z), p)
  }

  /** The test of the IPv4 loop. */
  function Test4(p: Params): Test
    requires p.pctmult < p.pctdiv
  {
    (a: nat, z: nat, ct: nat) => !Skipped(a, z, p) && ct >= Enough(Pow2(z), p)
  }

  lemma {:induction false} Test4IsTolerant(p: Params)
    requires p.pctmult < p.pctdiv
    ensures Tolerant(Test4(p))
  {
  }

  /** Count the listed addresses within the subnet. */
  method CountRange(iplist: array<uint32>, ipct: nat, pos: nat, zct: nat, ipEnd: uint32, ghost ip: seq<nat>)
    returns (p: nat, ipCt: nat)
    requires pos < ipct <= iplist.Length && ip == iplist[..ipct] && Ascending(ip)
    requires ipEnd == Shl(Shr(ip[pos], zct), zct) + Pow2(zct) - 1
    ensures p == End(ip, pos, zct) && ipCt == p - pos
  {
    p, ipCt := pos + 1, 1;
    while p < ipct && iplist[p] <= ipEnd
      invariant pos < p <= ipct && ipCt == p - pos && End(ip, pos, zct) == RunEnd(ip, pos, zct, p)
    {
      SameSubnet(ip[pos], ip[p], zct);
      ipCt := ipCt + 1;
      p := p + 1;
    }
    if p < ipct {
      SameSubnet(ip[pos], ip[p], zct);
    }
  }

  lemma {:induction false} SameSubnet(a: nat, b: nat, z: nat)
    requires a <= b
    ensures Shr(b, z) == Shr(a, z) <==> b <= Shl(Shr(a, z), z) + Pow2(z) - 1
  {
    ShrSplit(a, z);
    ShrSplit(b, z);
    if b <= Shl(Shr(a, z), z) + Pow2(z) - 1 {
      ShrUnique(b, z, Shr(a, z));
    }
  }

  /** The search from z == zmax down to z == y + 1 has this result. */
  ghost predicate BestSoFar(ip: seq<nat>, pos: nat, y: int, zmax: nat, ok: Test, z: nat, end: nat) {
    && pos < |ip|
    && if z == 0 then
         forall x :: y < x <= zmax && x >= 0 ==> !Qualifies(ip, pos, x, ok)
       else
         && y < z <= zmax && end == End(ip, pos, z) && Qualifies(ip, pos, z, ok)
         && forall x :: y < x <= zmax && x >= 0 && Qualifies(ip, pos, x, ok) ==>
           End(ip, pos, x) < end || (End(ip, pos, x) == end && z <= x)
  }

  lemma {:induction false} BestIsChosen(ip: seq<nat>, pos: nat, zmin: nat, zmax: nat, ok: Test, z: nat, end: nat)
    requires 0 < zmin && BestSoFar(ip, pos, zmin - 1, zmax, ok, z, end)
    ensures Chosen(ip, pos, zmin, zmax, ok, z, if z == 0 then pos + 1 else end)
  {
  }

  /** A size that does not hold more than one listed address ends the search. */
  lemma {:induction false} StopAtOne(ip: seq<nat>, pos: nat, y: nat, zmin: nat, zmax: nat, ok: Test, z: nat, end: nat)
    requires Ascending(ip) && 0 < zmin <= y && BestSoFar(ip, pos, y, zmax, ok, z, end) && End(ip, pos, y) == pos + 1
    ensures BestSoFar(ip, pos, zmin - 1, zmax, ok, z, end)
  {
    forall x: nat | x <= y
      ensures !Qualifies(ip, pos, x, ok)
    {
      EndMonotone(ip, pos, x, y);
    }
  }

  /** So does a qualifying size that holds less than the best one. */
  lemma {:induction false} StopAtLess(ip: seq<nat>, pos: nat, y: nat, zmin: nat, zmax: nat, ok: Test, z: nat, end: nat)
    requires Ascending(ip) && 0 < zmin <= y && BestSoFar(ip, pos, y, zmax, ok, z, end) && z != 0
      && End(ip, pos, y) != end
    ensures BestSoFar(ip, pos, zmin - 1, zmax, ok, z, end)
  {
    EndMonotone(ip, pos, y, z);
    forall x: nat | x <= y
      ensures End(ip, pos, x) < end
    {
      EndMonotone(ip, pos, x, y);
    }
  }

  lemma {:induction false} NextBest(ip: seq<nat>, pos: nat, y: nat, zmax: nat, ok: Test, z: nat, end: nat)
    requires 0 < y <= zmax && BestSoFar(ip, pos, y, zmax, ok, z, end)
    ensures !Qualifies(ip, pos, y, ok) ==> BestSoFar(ip, pos, y - 1, zmax, ok, z, end)
    ensures Qualifies(ip, pos, y, ok) && (z == 0 || End(ip, pos, y) == end) ==>
      BestSoFar(ip, pos, y - 1, zmax, ok, y, End(ip, pos, y))
  {
  }

  /** First and last address and size of the subnet around a. */
  method Bounds4(a: uint32, zct: nat) returns (ipStart: uint32, ipEnd: uint32, subnetCt: uint32)
    requires zct < 32
    ensures ipStart == Shl(Shr(a, zct), zct) && ipEnd == ipStart + Pow2(zct) - 1 && subnetCt == Pow2(zct)
  {
    SubnetBounds(a, zct);
    MaskIs(zct);
    LastInRange(a, zct);
    var mask := MaskFromBitcount(zct);
    ipStart := And(a, mask);
    subnetCt := Wrap32(Not32(mask) + 1);
    ipEnd := Or(ipStart, Not32(mask));
  }

  lemma {:induction false} LastInRange(a: uint32, z: nat)
    requires z < 32
    ensures Shl(Shr(a, z), z) + Pow2(z) - 1 < TWO_32
  {
    Pow2Of32();
    LastInWord(a, z, 32);
  }

  lemma {:induction false} LastInWord(a: nat, z: nat, w: nat)
    requires z <= w && a < Pow2(w)
    ensures Shl(Shr(a, z), z) + Pow2(z) <= Pow2(w)
  {
    var q := Shr(a, z);
    ShrBound(a, z, w);
    ShlNext(q, z);
    ShlMonotone(q + 1, Pow2(w - z), z);
    ShlOfPow2(w - z, z);
  }

  /** Measure the subnet of one size, unless the address is too high in it. */
  method Measure4(iplist: array<uint32>, ipct: nat, pos: nat, zct: nat, p: Params, ghost ip: seq<nat>)
    returns (skip: bool, ipCt: nat, end: nat, enough: bool)
    requires p.Valid(32) && pos < ipct <= iplist.Length && ip == iplist[..ipct] && Ascending(ip) && zct < 32
    ensures skip <==> Skipped(ip[pos], zct, p)
    ensures !skip ==> end == End(ip, pos, zct) && ipCt == end - pos && (enough <==> ipCt >= Enough(Pow2(zct), p))
  {
    var ipStart, ipEnd, subnetCt := Bounds4(iplist[pos], zct);
    if iplist[pos] > SkipLimit(ipStart, subnetCt, p) {
      return true, 0, pos, false;
    }
    end, ipCt := CountRange(iplist, ipct, pos, zct, ipEnd, ip);
    return false, ipCt, end, ipCt >= Enough(subnetCt, p);
  }

  /** The search of the IPv4 loop at one position. */
  method FindSubnet4(iplist: array<uint32>, ipct: nat, pos: nat, p: Params, ghost ip: seq<nat>)
    returns (zctBest: nat, posEnd: nat)
    requires p.Valid(32) && pos < ipct <= iplist.Length && ip == iplist[..ipct] && Ascending(ip)
    ensures Chosen(ip, pos, p.zctMin, p.zctMax, Test4(p), zctBest, posEnd)
  {
    ghost var ok, zmin, zmax := Test4(p), p.zctMin, p.zctMax;
    var ipCtBest, zct := 0, p.zctMax;
    zctBest, posEnd := 0, pos + 1;
    while zct >= p.zctMin
      invariant zmin - 1 <= zct <= zmax && BestSoFar(ip, pos, zct, zmax, ok, zctBest, posEnd)
      invariant ipCtBest == if zctBest == 0 then 0 else posEnd - pos
    {
      NextBest(ip, pos, zct, zmax, ok, zctBest, posEnd);
      var skip, ipCt, end, enough := Measure4(iplist, ipct, pos, zct, p, ip);
      if skip {
        zct := zct - 1;
        continue;
      }
      if ipCt == 1 {
        StopAtOne(ip, pos, zct, zmin, zmax, ok, zctBest, posEnd);
        break;
      }
      if enough {
        if ipCtBest == 0 || ipCt == ipCtBest {
          ipCtBest := ipCt;
          zctBest := zct;
          posEnd := end;
        } else {
          StopAtLess(ip, pos, zct, zmin, zmax, ok, zctBest, posEnd);
          break;
        }
      }
      zct := zct - 1;
    }
    BestIsChosen(ip, pos, zmin, zmax, ok, zctBest, posEnd);
    if zctBest == 0 {
      posEnd := pos + 1;
    }
  }

  /** The grouping loop for IPv4. */
  method Group4(iplist: array<uint32>, ipct: nat, p: Params, ghost ip: seq<nat>)
    returns (lines: seq<Line>, ghost blocks: seq<Block>)
    requires p.Valid(32) && ipct <= iplist.Length && ip == iplist[..ipct] && Ascending(ip)
    ensures Grouped(ip, p.zctMin, p.zctMax, Test4(p), blocks, ipct) && Printed(ip, blocks, lines)
  {
    var pos := 0;
    lines, blocks := [], [];
    while pos < ipct
      invariant pos <= ipct && Grouped(ip, p.zctMin, p.zctMax, Test4(p), blocks, pos) && Printed(ip, blocks, lines)
    {
      var zctBest, posEnd := FindSubnet4(iplist, ipct, pos, p, ip);
      GroupedMore(ip, p.zctMin, p.zctMax, Test4(p), blocks, pos, zctBest, posEnd);
      blocks := blocks + [Block(pos, zctBest, posEnd)];
      var ipStart := iplist[pos];
      if zctBest != 0 {
        SubnetBounds(ipStart, zctBest);
        ipStart := And(ipStart, MaskFromBitcount(zctBest));
      }
      lines := lines + [Line(ipStart, zctBest)];
      pos := posEnd;
    }
  }

  /** ucmp */
  function Ucmp(a: uint32, b: uint32): int {
    if a < b then -1 else if a > b then 1 else 0
  }

  lemma {:induction false} UcmpIsOrder()
    ensures TotalOrder(Ucmp)
  {
  }

  lemma {:induction false} SortedAscends(s: seq<uint32>)
    requires SortedTo(Ucmp, s, |s|)
    ensures Ascending(Dedup(s))
  {
    UcmpIsOrder();
    DedupAscends(Ucmp, s);
    forall i, j | 0 <= i < j < |Dedup(s)|
      ensures Dedup(s)[i] < Dedup(s)[j]
    {
      assert Ucmp(Dedup(s)[i], Dedup(s)[j]) < 0;
    }
  }

  lemma {:induction false} ListOfInput(input: seq<uint32>, sorted: seq<uint32>)
    requires multiset(input) == multiset(sorted) && SortedTo(Ucmp, sorted, |sorted|)
    ensures Ascending(Dedup(sorted)) && forall a: uint32 :: a in Dedup(sorted) <==> a in input
  {
    SortedAscends(sorted);
    forall a: uint32
      ensures a in Dedup(sorted) <==> a in input
    {
      InputKept(input, sorted, a);
    }
  }

  /** Sort, make unique, group: the IPv4 half of main after its input loop. */
  method Ip2net4(iplist: array<uint32>, p: Params)
    returns (lines: seq<Line>, ghost ip: seq<nat>, ghost blocks: seq<Block>)
    requires p.Valid(32) && iplist.Length < TWO_32
    modifies iplist
    ensures Ascending(ip) && forall a: uint32 :: a in ip <==> a in old(iplist[..])
    ensures Grouped(ip, p.zctMin, p.zctMax, Test4(p), blocks, |ip|) && Printed(ip, blocks, lines)
    ensures Separate(lines) && forall a :: a in old(iplist[..]) ==> Covered(a, lines)
  {
    ghost var input := iplist[..];
    UcmpIsOrder();
    FitsStack();
    GnuQuicksort(iplist, Ucmp);
    ghost var sorted := iplist[..];
    ListOfInput(input, sorted);
    assert iplist[..iplist.Length] == sorted;
    var ipct := Unique(iplist, iplist.Length);
    ip := iplist[..ipct];
    lines, blocks := Group4(iplist, ipct, p, ip);
    Test4IsTolerant(p);
    PrintedIsPartition(ip, p.zctMin, p.zctMax, Test4(p), blocks, lines);
  }

  lemma {:induction false} FitsStack()
    ensures TWO_32 < Pow2(STACK_SIZE)
  {
    Pow2Of32();
    Pow2Grows(33, STACK_SIZE);
  }

  // ---------------------------------------------------------------------------------------
  // The threshold and the early skip
  // ---------------------------------------------------------------------------------------

  /** How far into a subnet of s addresses the early skip lets the first listed one be. */
  function SkipReach(s: nat, p: Params): nat
    requires p.pctmult < p.pctdiv
  {
    Floor(Mul32(s, p.pctdiv - p.pctmult), p.pctdiv)
  }

  lemma {:induction false} WrapBelow(x: nat)
    ensures Wrap32(x) <= x && (Wrap32(x) == x <==> x < TWO_32) && (x >= TWO_32 ==> Wrap32(x) <= x - TWO_32)
  {
    if x >= TWO_32 {
      WrapBelow(x - TWO_32);
    }
  }

  lemma {:induction false} FloorApart(w: nat, x: nat, d: nat)
    requires d > 0 && w + d <= x
    ensures w / d < x / d
  {
    var q := w / d;
    FloorAtLeast(w, d, q);
    assert (q + 1) * d == q * d + d;
    FloorAtLeast(x, d, q + 1);
  }

  /** A quotient of a product that wrapped is less than it should be. */
  lemma {:induction false} WrappedFloor(x: nat, d: nat)
    requires 0 < d < TWO_32
    ensures Floor(Wrap32(x), d) <= Floor(x, d) && (Floor(Wrap32(x), d) == Floor(x, d) <==> x < TWO_32)
  {
    WrapBelow(x);
    if x >= TWO_32 {
      FloorApart(Wrap32(x), x, d);
    }
  }

  /** The computed threshold is the asked share of the subnet exactly when the product fits 32 bits. */
  lemma {:induction false} EnoughIff(z: nat, p: Params)
    requires p.Valid(32) && z < 32
    ensures Enough(Pow2(z), p) == Pow2(z) * p.pctmult / p.pctdiv <==> Pow2(z) * p.pctmult < TWO_32
    ensures Enough(Pow2(z), p) <= Pow2(z) * p.pctmult / p.pctdiv < Pow2(z)
  {
    WrappedFloor(Pow2(z) * p.pctmult, p.pctdiv);
    DivLess(Pow2(z), p.pctmult, p.pctdiv);
  }

  lemma {:induction false} ReachIff(z: nat, p: Params)
    requires p.Valid(32) && z < 32
    ensures SkipReach(Pow2(z), p) == Pow2(z) * (p.pctdiv - p.pctmult) / p.pctdiv <==>
      Pow2(z) * (p.pctdiv - p.pctmult) < TWO_32
    ensures SkipReach(Pow2(z), p) < Pow2(z)
  {
    WrappedFloor(Pow2(z) * (p.pctdiv - p.pctmult), p.pctdiv);
    DivLess(Pow2(z), p.pctdiv - p.pctmult, p.pctdiv);
  }

  /** The limit itself never wraps. */
  lemma {:induction false} SkippedIff(a: nat, z: nat, p: Params)
    requires p.Valid(32) && z < 32 && a < TWO_32
    ensures Shl(Shr(a, z), z) <= a && (Skipped(a, z, p) <==> a - Shl(Shr(a, z), z) > SkipReach(Pow2(z), p))
  {
    ShrSplit(a, z);
    LastInRange(a, z);
    ReachIff(z, p);
  }

  /**
    Every printed subnet holds as many addresses as the computed threshold, which is the asked
    share when that fits.
   */
  lemma {:induction false} PrintedIsFilled(ip: seq<nat>, p: Params, blocks: seq<Block>, n: nat, i: nat)
    requires p.Valid(32) && Grouped(ip, p.zctMin, p.zctMax, Test4(p), blocks, n) && i < |blocks| && blocks[i].z != 0
    ensures blocks[i].end - blocks[i].pos >= Enough(Pow2(blocks[i].z), p)
    ensures Pow2(blocks[i].z) * p.pctmult < TWO_32 ==>
      blocks[i].end - blocks[i].pos >= Pow2(blocks[i].z) * p.pctmult / p.pctdiv
  {
    assert Chosen(ip, blocks[i].pos, p.zctMin, p.zctMax, Test4(p), blocks[i].z, blocks[i].end);
    EnoughIff(blocks[i].z, p);
  }

  lemma {:induction false} AscendsByOne(ip: seq<nat>, i: nat, j: nat)
    requires Ascending(ip) && i <= j < |ip|
    ensures ip[j] >= ip[i] + (j - i)
    decreases j
  {
    if i < j {
      AscendsByOne(ip, i, j - 1);
    }
  }

  /** A run cannot hold more than the rest of its subnet. */
  lemma {:induction false} RunFits(ip: seq<nat>, pos: nat, z: nat)
    requires Ascending(ip) && pos < |ip|
    ensures ip[pos] + (End(ip, pos, z) - pos) <= Shl(Shr(ip[pos], z), z) + Pow2(z)
  {
    EndIs(ip, pos, z);
    var k := End(ip, pos, z) - 1;
    AscendsByOne(ip, pos, k);
    ShrSplit(ip[k], z);
  }

  /** What a subnet has to hold to be printed: at least two addresses, and the threshold. */
  function Needed(z: nat, p: Params): nat
    requires p.pctdiv > 0
  {
    Greatest(2, Enough(Pow2(z), p))
  }

  /** A sorted list of IPv4 addresses, and a position in it. */
  ghost predicate Listed(ip: seq<nat>, pos: nat) {
    Ascending(ip) && pos < |ip| && forall a :: a in ip ==> a < TWO_32
  }

  /** What qualifying means, in numbers. */
  lemma {:induction false} QualifiesIff(ip: seq<nat>, pos: nat, z: nat, p: Params)
    requires p.Valid(32) && z < 32 && Listed(ip, pos)
    ensures ip[pos] >= Shl(Shr(ip[pos], z), z)
    ensures Qualifies(ip, pos, z, Test4(p)) <==>
      && ip[pos] - Shl(Shr(ip[pos], z), z) <= SkipReach(Pow2(z), p)
      && End(ip, pos, z) - pos >= Needed(z, p)
  {
    assert ip[pos] in ip;
    SkippedIff(ip[pos], z, p);
  }

  /** The addresses from a to b - 1. */
  function Interval(a: nat, b: nat): (s: seq<nat>)
    requires a <= b
    ensures |s| == b - a && forall i :: 0 <= i < |s| ==> s[i] == a + i
  {
    seq(b - a, i requires i >= 0 => a + i)
  }

  /** All addresses below 2^z are in the same subnet. */
  lemma {:induction false} LowSubnet(ip: seq<nat>, z: nat)
    requires Ascending(ip) && ip != [] && forall a :: a in ip ==> a < Pow2(z)
    ensures End(ip, 0, z) == |ip| && Shl(Shr(ip[0], z), z) == 0
  {
    ShrOfZero(z);
    forall k | 0 <= k < |ip|
      ensures Shr(ip[k], z) == 0
    {
      assert ip[k] in ip;
      ShrUnique(ip[k], z, 0);
    }
    EndIs(ip, 0, z);
    assert Shr(ip[|ip| - 1], z) == Shr(ip[0], z);
  }

  /** k addresses from off on, all in the first subnet of size y and so of every larger size. */
  lemma {:induction false} FirstSubnet(ip: seq<nat>, off: nat, k: nat, y: nat, z: nat, p: Params)
    requires p.Valid(32) && k > 0 && y <= z < 32 && off + k <= Pow2(y) && ip == Interval(off, off + k)
    ensures Listed(ip, 0) && End(ip, 0, z) == k && (Skipped(off, z, p) <==> off > SkipReach(Pow2(z), p))
    ensures Qualifies(ip, 0, z, Test4(p)) <==> off <= SkipReach(Pow2(z), p) && k >= Needed(z, p)
  {
    Pow2Grows(y, z);
    MaskIs(z);
    LowSubnet(ip, z);
    SkippedIff(off, z, p);
    QualifiesIff(ip, 0, z, p);
  }

  // ---------------------------------------------------------------------------------------
  // What the early skip loses
  // ---------------------------------------------------------------------------------------

  /** The early skip drops a subnet that would have qualified. */
  ghost predicate Discards(ip: seq<nat>, pos: nat, z: nat, p: Params)
    requires p.pctmult < p.pctdiv
  {
    Listed(ip, pos) && Skipped(ip[pos], z, p) && End(ip, pos, z) - pos >= Needed(z, p)
  }

  lemma {:induction false} DiscardedHasRoom(ip: seq<nat>, pos: nat, z: nat, p: Params)
    requires p.Valid(32) && z < 32 && Discards(ip, pos, z, p)
    ensures SkipReach(Pow2(z), p) + Needed(z, p) < Pow2(z)
  {
    assert ip[pos] in ip;
    SkippedIff(ip[pos], z, p);
    RunFits(ip, pos, z);
  }

  lemma {:induction false} RoomIsDiscarded(z: nat, p: Params, ip: seq<nat>, k: nat)
    requires p.Valid(32) && z < 32 && k == Needed(z, p) && SkipReach(Pow2(z), p) + k < Pow2(z)
    requires ip == Interval(Pow2(z) - k, Pow2(z))
    ensures Discards(ip, 0, z, p)
  {
    FirstSubnet(ip, Pow2(z) - k, k, z, z, p);
  }

  /**
    The skip test can lose a subnet exactly when behind the place where it begins there is room for
    enough addresses.
   */
  lemma {:induction false} SkipLosesIff(z: nat, p: Params)
    requires p.Valid(32) && z < 32
    ensures (exists ip, pos :: Discards(ip, pos, z, p)) <==> SkipReach(Pow2(z), p) + Needed(z, p) < Pow2(z)
  {
    if ip, pos :| Discards(ip, pos, z, p) {
      DiscardedHasRoom(ip, pos, z, p);
    }
    if SkipReach(Pow2(z), p) + Needed(z, p) < Pow2(z) {
      RoomIsDiscarded(z, p, Interval(Pow2(z) - Needed(z, p), Pow2(z)), Needed(z, p));
    }
  }

  /** The products of the threshold computations fit 32 bits. */
  predicate NoOverflow(z: nat, p: Params)
    requires p.pctmult < p.pctdiv
  {
    Pow2(z) * p.pctmult < TWO_32 && Pow2(z) * (p.pctdiv - p.pctmult) < TWO_32
  }

  /** What is left of a subnet when a share of it, rounded down, is taken away. */
  lemma {:induction false} ComplementFloor(s: nat, m: nat, d: nat)
    requires 0 < m < d && s > 0
    ensures s * (d - m) / d == s - s * m / d - if s * m % d == 0 then 0 else 1
  {
    var f, r := s * m / d, s * m % d;
    DivLess(s, m, d);
    assert s * m == f * d + r;
    var x, q := s * (d - m), s - f - if r == 0 then 0 else 1;
    assert x == s * d - s * m;
    assert (s - f) * d == s * d - f * d && (s - f - 1) * d == s * d - f * d - d;
    FloorIs(x, d, q);
  }

  /** The two quantities, when nothing wraps: together they are the subnet, or one less. */
  lemma {:induction false} WithoutWrap(z: nat, p: Params)
    requires p.Valid(32) && z < 32 && NoOverflow(z, p)
    ensures Enough(Pow2(z), p) == Pow2(z) * p.pctmult / p.pctdiv
    ensures SkipReach(Pow2(z), p) ==
      Pow2(z) - Enough(Pow2(z), p) - if Pow2(z) * p.pctmult % p.pctdiv == 0 then 0 else 1
  {
    EnoughIff(z, p);
    ReachIff(z, p);
    ComplementFloor(Pow2(z), p.pctmult, p.pctdiv);
  }

  /**
    When nothing wraps, that is so exactly when the threshold is no whole number of addresses
    (and is at least two): the skip rounds the other way.
   */
  lemma {:induction false} SkipLosesWithoutWrap(z: nat, p: Params)
    requires p.Valid(32) && z < 32 && NoOverflow(z, p)
    ensures (exists ip, pos :: Discards(ip, pos, z, p)) <==>
      Pow2(z) * p.pctmult % p.pctdiv != 0 && Pow2(z) * p.pctmult / p.pctdiv >= 2
  {
    SkipLosesIff(z, p);
    WithoutWrap(z, p);
  }

  /** With the default sizes, and a threshold of two addresses in three. */
  const TWO_THIRDS := Params(2, 3, 2, 10, 5)

  /** A subnet of 4 has to hold two addresses; when the last two are listed it is skipped. */
  lemma {:induction false} SkipLosesTwo() returns (ip: seq<nat>)
    ensures TWO_THIRDS.Valid(32) && Needed(2, TWO_THIRDS) == 2 && ip == [2, 3] && Discards(ip, 0, 2, TWO_THIRDS)
  {
    assert Pow2(2) == 4;
    WithoutWrap(2, TWO_THIRDS);
    ip := Interval(2, 4);
    RoomIsDiscarded(2, TWO_THIRDS, ip, 2);
  }

  // ---------------------------------------------------------------------------------------
  // Is the chosen subnet the smallest?
  // ---------------------------------------------------------------------------------------

  /** The subnet of size z qualifies, and that of size y, with the same listed addresses in it, does not. */
  ghost predicate Outdone(ip: seq<nat>, pos: nat, y: nat, z: nat, p: Params)
    requires p.pctmult < p.pctdiv
  {
    && Listed(ip, pos) && End(ip, pos, y) == End(ip, pos, z)
    && Qualifies(ip, pos, z, Test4(p)) && !Qualifies(ip, pos, y, Test4(p))
  }

  /** The larger size asks for less, or lets the first address be further in. */
  predicate Laxer(y: nat, z: nat, p: Params)
    requires p.pctmult < p.pctdiv
  {
    || Needed(z, p) < Enough(Pow2(y), p)
    || (SkipReach(Pow2(y), p) < SkipReach(Pow2(z), p) && SkipReach(Pow2(y), p) + Needed(z, p) < Pow2(y))
  }

  lemma {:induction false} OutdoneIsLaxer(ip: seq<nat>, pos: nat, y: nat, z: nat, p: Params)
    requires p.Valid(32) && y < z < 32 && Outdone(ip, pos, y, z, p)
    ensures Laxer(y, z, p)
  {
    QualifiesIff(ip, pos, y, p);
    QualifiesIff(ip, pos, z, p);
    RunFits(ip, pos, y);
    StartNested(ip[pos], y, z);
  }

  /** A larger subnet starts no later than a smaller one around the same address. */
  lemma {:induction false} StartNested(a: nat, y: nat, z: nat)
    requires y <= z
    ensures Shl(Shr(a, z), z) <= Shl(Shr(a, y), y)
  {
    if y < z {
      StartNested(a, y, z - 1);
      StartDown(a, z);
    }
  }

  lemma {:induction false} StartDown(a: nat, z: nat)
    requires z > 0
    ensures Shl(Shr(a, z), z) <= Shl(Shr(a, z - 1), z - 1)
  {
    ShlDouble(Shr(a, z), z - 1);
    ShlMonotone(2 * Shr(a, z), Shr(a, z - 1), z - 1);
  }

  lemma {:induction false} LaxerOutdoes(y: nat, z: nat, p: Params, off: nat, k: nat, ip: seq<nat>)
    requires p.Valid(32) && y < z < 32 && Laxer(y, z, p) && k == Needed(z, p)
    requires off == if k < Enough(Pow2(y), p) then 0 else SkipReach(Pow2(y), p) + 1
    requires off + k <= Pow2(y) && ip == Interval(off, off + k)
    ensures Outdone(ip, 0, y, z, p)
  {
    FirstSubnet(ip, off, k, y, z, p);
    FirstSubnet(ip, off, k, y, y, p);
  }

  /** A size can be outdone by a larger one, on some list, exactly when that is laxer. */
  lemma {:induction false} OutdoneIff(y: nat, z: nat, p: Params)
    requires p.Valid(32) && y < z < 32
    ensures (exists ip, pos :: Outdone(ip, pos, y, z, p)) <==> Laxer(y, z, p)
  {
    if ip, pos :| Outdone(ip, pos, y, z, p) {
      OutdoneIsLaxer(ip, pos, y, z, p);
    }
    if Laxer(y, z, p) {
      EnoughIff(y, p);
      var k := Needed(z, p);
      var off := if k < Enough(Pow2(y), p) then 0 else SkipReach(Pow2(y), p) + 1;
      LaxerOutdoes(y, z, p, off, k, Interval(off, off + k));
    }
  }

  /** No smaller allowed subnet holds as many addresses as the chosen one, unless the chosen size is laxer. */
  lemma {:induction false} ChosenIsSmallest(ip: seq<nat>, pos: nat, p: Params, z: nat, end: nat, y: nat)
    requires p.Valid(32) && Listed(ip, pos) && z < 32
    requires Chosen(ip, pos, p.zctMin, p.zctMax, Test4(p), z, end) && z != 0 && p.zctMin <= y < z
    ensures End(ip, pos, y) <= end && (End(ip, pos, y) == end ==> Laxer(y, z, p))
  {
    EndMonotone(ip, pos, y, z);
    if End(ip, pos, y) == end {
      OutdoneIsLaxer(ip, pos, y, z, p);
    }
  }

  /** Nothing is laxer than a smaller size as long as nothing wraps. */
  lemma {:induction false} NotLaxer(y: nat, z: nat, p: Params)
    requires p.Valid(32) && y < z < 32 && NoOverflow(z, p)
    ensures !Laxer(y, z, p)
  {
    Pow2Grows(y + 1, z);
    TwiceProduct(Pow2(y), Pow2(z), p.pctmult);
    TwiceProduct(Pow2(y), Pow2(z), p.pctdiv - p.pctmult);
    WithoutWrap(y, p);
    EnoughIff(z, p);
    TwiceFloor(Pow2(y) * p.pctmult, Pow2(z) * p.pctmult, p.pctdiv);
  }

  lemma {:induction false} TwiceProduct(s: nat, t: nat, m: nat)
    requires 2 * s <= t
    ensures 2 * (s * m) <= t * m
  {
    MulMonotone(2 * s, t, m);
    assert 2 * s * m == 2 * (s * m);
  }

  lemma {:induction false} TwiceFloor(x: nat, y: nat, d: nat)
    requires 2 * x <= y && d > 0
    ensures 2 * (x / d) <= y / d
  {
    FloorAtLeast(x, d, x / d);
    FloorAtLeast(y, d, 2 * (x / d));
  }

  /** With the default sizes, 2 to 10 bits, and a threshold of nearly all addresses whose product wraps to 0. */
  const NEARLY_ALL := Params(0x40_0000, 0x40_0001, 2, 10, 5)

  lemma {:induction false} ThreeNeeded(y: nat, p: Params)
    requires p == NEARLY_ALL && 2 <= y < 10
    ensures Enough(Pow2(y), p) >= 3
  {
    var x := Pow2(y) * p.pctmult;
    Pow2Grows(2, y);
    Pow2Grows(y, 9);
    assert Pow2(2) == 4 && Pow2(9) == 512;
    assert 4 * p.pctmult <= x <= 512 * p.pctmult < TWO_32;
    FloorAtLeast(x, p.pctdiv, 3);
  }

  /** Two listed addresses are printed as a subnet of 1024, although 1023 are asked for and a subnet of 4 holds both. */
  lemma {:induction false} ThresholdWraps() returns (ip: seq<nat>)
    ensures NEARLY_ALL.Valid(32)
    ensures
      var p := NEARLY_ALL;
      && Pow2(10) * p.pctmult / p.pctdiv == 1023 && Enough(Pow2(10), p) == 0
      && Listed(ip, 0) && |ip| == 2 && Chosen(ip, 0, p.zctMin, p.zctMax, Test4(p), 10, 2) && End(ip, 0, 2) == 2
  {
    var p := NEARLY_ALL;
    assert Pow2(1) == 2 && Pow2(10) == 1024;
    ip := Interval(0, 2);
    FirstSubnet(ip, 0, 2, 1, 10, p);
    FirstSubnet(ip, 0, 2, 1, 2, p);
    FloorIs(1024 * p.pctmult, p.pctdiv, 1023);
    forall y | p.zctMin <= y < 10
      ensures End(ip, 0, y) == 2 && !Qualifies(ip, 0, y, Test4(p))
    {
      FirstSubnet(ip, 0, 2, 1, y, p);
      ThreeNeeded(y, p);
    }
  }
}

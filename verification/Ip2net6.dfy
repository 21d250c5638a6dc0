/** The IPv6 half of ip2net/ip2net.c: addresses are 16 bytes in network order. */
module Ip2net6 {
  import opened BitStrings
  import opened Blocks
  import opened Grouping
  import opened Ip2net
  import opened Order
  import opened QuickSort
  import opened Words

  /** struct in6_addr */
  type Addr6 = a: seq<byte> | |a| == 16 witness [0, 0, 0, 0, 0, 0, 0, 0, 0, 0, 0, 0, 0, 0, 0, 0]

  // ---------------------------------------------------------------------------------------
  // Addresses as numbers
  // ---------------------------------------------------------------------------------------

  /** The address as a big-endian number. */
  function Value(a: Addr6): nat {
    UintAt(a, 0, |a|)
  }

  /** Go on reading bytes i..n after a number. */
  function Read(a: seq<byte>, i: nat, n: nat, acc: nat): nat
    requires i <= n <= |a|
    decreases n - i
  {
    if i == n then acc else Read(a, i + 1, n, 256 * acc + a[i])
  }

  lemma {:induction false} ReadOn(a: seq<byte>, i: nat, n: nat)
    requires i <= n <= |a|
    ensures Read(a, i, n, UintAt(a, 0, i)) == UintAt(a, 0, n)
    decreases n - i
  {
    if i < n {
      ReadOn(a, i + 1, n);
    }
  }

  /** A smaller start stays smaller, whatever follows. */
  lemma {:induction false} ReadLess(a: seq<byte>, b: seq<byte>, i: nat, n: nat, x: nat, y: nat)
    requires i <= n <= |a| && n <= |b| && x < y
    ensures Read(a, i, n, x) < Read(b, i, n, y)
    decreases n - i
  {
    if i < n {
      ReadLess(a, b, i + 1, n, 256 * x + a[i], 256 * y + b[i]);
    }
  }

  /** After equal starts only the bytes that follow matter. */
  lemma {:induction false} ReadSameStart(a: seq<byte>, b: seq<byte>, i: nat, n: nat, x: nat, y: nat)
    requires i <= n <= |a| && n <= |b|
    ensures Read(a, i, n, x) < Read(b, i, n, x) <==> Read(a, i, n, y) < Read(b, i, n, y)
    ensures Read(a, i, n, x) == Read(b, i, n, x) <==> a[i..n] == b[i..n]
    decreases n - i
  {
    if i < n {
      var x', y' := 256 * x, 256 * y;
      if a[i] == b[i] {
        ReadSameStart(a, b, i + 1, n, x' + a[i], y' + a[i]);
        assert a[i..n] == [a[i]] + a[i + 1..n] && b[i..n] == [b[i]] + b[i + 1..n];
      } else if a[i] < b[i] {
        ReadLess(a, b, i + 1, n, x' + a[i], x' + b[i]);
        ReadLess(a, b, i + 1, n, y' + a[i], y' + b[i]);
        assert a[i..n][0] != b[i..n][0];
      } else {
        ReadLess(b, a, i + 1, n, x' + b[i], x' + a[i]);
        ReadLess(b, a, i + 1, n, y' + b[i], y' + a[i]);
        assert a[i..n][0] != b[i..n][0];
      }
    }
  }

  lemma {:induction false} ValueIsInjective(a: Addr6, b: Addr6)
    ensures Value(a) == Value(b) <==> a == b
  {
    ReadOn(a, 0, |a|);
    ReadOn(b, 0, |b|);
    ReadSameStart(a, b, 0, |a|, 0, 0);
    assert a[0..|a|] == a && b[0..|b|] == b;
  }

  // ---------------------------------------------------------------------------------------
  // cmp6
  // ---------------------------------------------------------------------------------------

  /** What a little-endian CPU reads from bytes i..n. */
  function Load(a: seq<byte>, i: nat, n: nat): nat
    requires i <= n <= |a|
    decreases n - i
  {
    if i == n then 0 else a[i] + 256 * Load(a, i + 1, n)
  }

  /** The lowest k bytes of x in reverse, after acc. */
  function Reverse(x: nat, k: nat, acc: nat): nat {
    if k == 0 then acc else Reverse(x / 256, k - 1, 256 * acc + x % 256)
  }

  lemma {:induction false} ReverseLoad(a: seq<byte>, i: nat, n: nat, acc: nat)
    requires i <= n <= |a|
    ensures Reverse(Load(a, i, n), n - i, acc) == Read(a, i, n, acc)
    decreases n - i
  {
    if i < n {
      ReverseLoad(a, i + 1, n, 256 * acc + a[i]);
    }
  }

  const WORD := 8

  /** __builtin_bswap64 of the w-th 64-bit word of an address */
  function SwappedWord(a: Addr6, w: nat): nat
    requires w < 2
  {
    Reverse(Load(a, WORD * w, WORD * w + WORD), WORD, 0)
  }

  /** cmp6 on a little-endian machine */
  function Cmp6(a: Addr6, b: Addr6): int {
    var aa, bb := SwappedWord(a, 0), SwappedWord(b, 0);
    if aa < bb then -1
    else if aa > bb then 1
    else
      var aa, bb := SwappedWord(a, 1), SwappedWord(b, 1);
      if aa < bb then -1 else if aa > bb then 1 else 0
  }

  lemma {:induction false} WordIs(a: Addr6, w: nat, i: nat, n: nat)
    requires w < 2 && i == WORD * w && n == i + WORD
    ensures n <= |a| && SwappedWord(a, w) == Read(a, i, n, 0)
  {
    ReverseLoad(a, i, n, 0);
  }

  /** The two swapped words order addresses as 128-bit numbers. */
  lemma {:induction false} Cmp6Orders(a: Addr6, b: Addr6)
    ensures Cmp6(a, b) < 0 <==> Value(a) < Value(b)
    ensures Cmp6(a, b) == 0 <==> a == b
    ensures Cmp6(a, b) > 0 <==> Value(a) > Value(b)
  {
    var h, n := WORD, |a|;
    WordIs(a, 0, 0, h);
    WordIs(b, 0, 0, h);
    WordIs(a, 1, h, n);
    WordIs(b, 1, h, n);
    HalvesOrder(a, b, h, n);
    HalvesOrder(b, a, h, n);
    ValueIsInjective(a, b);
  }

  lemma {:induction false} HalvesOrder(a: seq<byte>, b: seq<byte>, h: nat, n: nat)
    requires h <= n == |a| == |b|
    ensures UintAt(a, 0, n) < UintAt(b, 0, n) <==>
            Read(a, 0, h, 0) < Read(b, 0, h, 0)
              || (Read(a, 0, h, 0) == Read(b, 0, h, 0) && Read(a, h, n, 0) < Read(b, h, n, 0))
  {
    ReadOn(a, 0, h);
    ReadOn(b, 0, h);
    ReadOn(a, h, n);
    ReadOn(b, h, n);
    var x, y := UintAt(a, 0, h), UintAt(b, 0, h);
    if x < y {
      ReadLess(a, b, h, n, x, y);
    } else if y < x {
      ReadLess(b, a, h, n, y, x);
    } else {
      ReadSameStart(a, b, h, n, x, 0);
    }
  }

  lemma {:induction false} FirstByteDecides(a: Addr6, b: Addr6, i: nat)
    requires i < |a| && a[..i] == b[..i] && a[i] < b[i]
    ensures Cmp6(a, b) == -1 && Cmp6(b, a) == 1
  {
    forall k | 0 <= k < i
      ensures a[k] == b[k]
    {
      assert a[..i][k] == b[..i][k];
    }
    SamePre(a, b, i);
    ReadOn(a, i + 1, |a|);
    ReadOn(b, i + 1, |b|);
    ReadLess(a, b, i + 1, |a|, UintAt(a, 0, i + 1), UintAt(b, 0, i + 1));
    Cmp6Orders(a, b);
    Cmp6Orders(b, a);
  }

  /** The fallback case of cmp6 compares byte by byte; it agrees with the fast case. */
  method Cmp6Fallback(a: Addr6, b: Addr6) returns (r: int)
    ensures r == Cmp6(a, b)
  {
    for i := 0 to |a|
      invariant a[..i] == b[..i]
    {
      if a[i] < b[i] {
        FirstByteDecides(a, b, i);
        return -1;
      } else if a[i] > b[i] {
        FirstByteDecides(b, a, i);
        return 1;
      }
    }
    assert a[..|a|] == a && b[..|b|] == b;
    Cmp6Orders(a, b);
    return 0;
  }

  lemma {:induction false} Cmp6IsOrder()
    ensures TotalOrder(Cmp6) && forall a, b :: Cmp6(a, b) == 0 ==> a == b
  {
    forall a, b
      ensures Cmp6(a, b) < 0 <==> Value(a) < Value(b)
      ensures Cmp6(a, b) == 0 <==> a == b
      ensures Cmp6(a, b) > 0 <==> Value(a) > Value(b)
    {
      Cmp6Orders(a, b);
    }
  }

  // ---------------------------------------------------------------------------------------
  // Masks
  // ---------------------------------------------------------------------------------------

  /** The mask with z clear bits at the end. */
  function Mask6(z: nat): Addr6 {
    if z >= 128 then seq(16, i => 0)
    else
      var n := (127 - z) / 8;
      seq(16, i => if i < n then 255 else if i == n then TopBits(z % 8) else 0)
  }

  /** The low byte of ~((1u << r) - 1) */
  function TopBits(r: nat): byte {
    if r < 8 then Less256(r); 256 - Pow2(r) else 0
  }

  lemma {:induction false} Less256(r: nat)
    requires r < 8
    ensures Pow2(r) <= 128
  {
    Pow2Grows(r, 7);
  }

  /** mask_from_bitcount6_make */
  method MaskFromBitcount6Make(zct: nat, a: array<byte>)
    requires a.Length == 16 && zct <= 128
    modifies a
    ensures a[..] == Mask6(zct)
  {
    if zct >= 128 {
      forall i | 0 <= i < 16 {
        a[i] := 0;
      }
    } else {
      var n := (127 - zct) / 8;
      forall i | 0 <= i < n {
        a[i] := 255;
      }
      forall i | n <= i < 16 {
        a[i] := 0;
      }
      a[n] := TopBits(zct % 8);
    }
  }

  /** ip6_and: 128 bits at once, or 64 and 64, are 16 bytes side by side. */
  function Ip6And(a: Addr6, b: Addr6): Addr6 {
    seq(16, i requires 0 <= i < 16 => AndByte(a[i], b[i]))
  }

  function AndByte(a: byte, b: byte): byte {
    AndAtMost(a, b); And(a, b)
  }

  lemma {:induction false} AndAtMost(a: nat, b: nat)
    ensures And(a, b) <= a
  {
    if a > 0 {
      AndAtMost(a / 2, b / 2);
    }
  }

  lemma {:induction false} AndZero(a: nat)
    ensures And(a, 0) == 0
  {
    if a > 0 {
      AndZero(a / 2);
    }
  }

  lemma {:induction false} AndTop(c: byte, r: nat)
    requires r <= 8 && Pow2(r) <= 256
    ensures And(c, 256 - Pow2(r)) == Shl(Shr(c, r), r)
  {
    Pow2Of8();
    AndMask(8, c, r);
  }

  /** Dropping r bits from a number that ends in byte c. */
  lemma {:induction false} ShrByte(v: nat, c: byte, r: nat)
    requires r <= 8
    ensures Shr(256 * v + c, r) == Shl(v, 8 - r) + Shr(c, r)
  {
    if r == 0 {
      ShlByte(v);
    } else {
      ShrByte(v, c, r - 1);
    }
  }

  lemma {:induction false} SamePre(a: seq<byte>, b: seq<byte>, n: nat)
    requires n <= |a| && n <= |b| && forall i :: 0 <= i < n ==> a[i] == b[i]
    ensures UintAt(a, 0, n) == UintAt(b, 0, n)
  {
    if n > 0 {
      SamePre(a, b, n - 1);
    }
  }

  /** Bytes after position m drop off the end of the number eight bits at a time. */
  lemma {:induction false} DropBytes(a: seq<byte>, m: nat, n: nat)
    requires m <= n <= |a|
    ensures Shr(UintAt(a, 0, n), 8 * (n - m)) == UintAt(a, 0, m)
    decreases n
  {
    if m < n {
      ShrByte(UintAt(a, 0, n - 1), a[n - 1], 8);
      ShrBound(a[n - 1], 8, 8);
      ShrTwice(UintAt(a, 0, n), 8, 8 * (n - 1 - m));
      DropBytes(a, m, n - 1);
    }
  }

  lemma {:induction false} ZeroBytes(a: seq<byte>, m: nat, n: nat)
    requires m <= n <= |a| && forall i :: m <= i < n ==> a[i] == 0
    ensures UintAt(a, 0, n) == Shl(UintAt(a, 0, m), 8 * (n - m))
    decreases n
  {
    if m < n {
      ZeroBytes(a, m, n - 1);
      ShlTwice(UintAt(a, 0, m), 8 * (n - 1 - m), 8);
      ShlByte(UintAt(a, 0, n - 1));
    }
  }

  /** The byte that the mask cuts. */
  lemma {:induction false} MaskedByte(v: nat, c: byte, r: nat)
    requires r <= 8
    ensures 256 * v + Shl(Shr(c, r), r) == Shl(Shr(256 * v + c, r), r)
  {
    ShrByte(v, c, r);
    ShlSum(Shl(v, 8 - r), Shr(c, r), r);
    ShlTwice(v, 8 - r, r);
    ShlByte(v);
  }

  /** Masking clears the low z bits of the address as a number. */
  lemma {:induction false} MaskedValue(a: Addr6, z: nat)
    requires z < 128
    ensures Value(Ip6And(a, Mask6(z))) == Shl(Shr(Value(a), z), z)
  {
    var n, r := (127 - z) / 8, z % 8;
    var m := Ip6And(a, Mask6(z));
    var cut := 8 * (15 - n);
    assert z == cut + r;
    forall i | 0 <= i < n
      ensures m[i] == a[i]
    {
      AndTop(a[i], 0);
    }
    Less256(r);
    AndTop(a[n], r);
    forall i | n < i < 16
      ensures m[i] == 0
    {
      AndZero(a[i]);
    }
    MaskedParts(a, m, n, r, cut, z);
  }

  lemma {:induction false} MaskedParts(a: Addr6, m: Addr6, n: nat, r: nat, cut: nat, z: nat)
    requires n < 16 && r < 8 && cut == 8 * (15 - n) && z == cut + r
    requires (forall i :: 0 <= i < n ==> m[i] == a[i]) && (forall i :: n < i < 16 ==> m[i] == 0)
    requires m[n] == Shl(Shr(a[n], r), r)
    ensures Value(m) == Shl(Shr(Value(a), z), z)
  {
    SamePre(a, m, n);
    MaskedByte(UintAt(a, 0, n), a[n], r);
    var top := Shr(UintAt(a, 0, n + 1), r);
    assert UintAt(m, 0, n + 1) == Shl(top, r);
    ZeroBytes(m, n + 1, |m|);
    ShlTwice(top, r, cut);
    DropBytes(a, n + 1, |a|);
    ShrTwice(Value(a), cut, r);
  }

  /** Two addresses are the same under a mask exactly when they share the subnet. */
  lemma {:induction false} MaskedSame(a: Addr6, b: Addr6, z: nat)
    requires z < 128
    ensures Ip6And(a, Mask6(z)) == Ip6And(b, Mask6(z)) <==> Shr(Value(a), z) == Shr(Value(b), z)
  {
    MaskedValue(a, z);
    MaskedValue(b, z);
    ValueIsInjective(Ip6And(a, Mask6(z)), Ip6And(b, Mask6(z)));
    ShrShl(Shr(Value(a), z), z);
    ShrShl(Shr(Value(b), z), z);
  }

  // ---------------------------------------------------------------------------------------
  // The grouping loop
  // ---------------------------------------------------------------------------------------

  /** The test of the IPv6 loop: enough addresses, however large the subnet. */
  function Test6(p: Params): Test {
    (a: nat, z: nat, ct: nat) => ct >= p.v6Threshold
  }

  function Values(s: seq<Addr6>): seq<nat> {
    seq(|s|, i requires 0 <= i < |s| => Value(s[i]))
  }

  /** Count the listed addresses that are the same under the mask. */
  method CountMasked(iplist: array<Addr6>, ipct: nat, pos: nat, zct: nat, ghost ip: seq<nat>)
    returns (p: nat, ipCt: nat)
    requires pos < ipct <= iplist.Length && ip == Values(iplist[..ipct]) && zct < 128
    ensures p == End(ip, pos, zct) && ipCt == p - pos
  {
    var mask := Mask6(zct);
    var ipStart := Ip6And(iplist[pos], mask);
    p, ipCt := pos + 1, 1;
    while p < ipct
      invariant pos < p <= ipct && ipCt == p - pos && End(ip, pos, zct) == RunEnd(ip, pos, zct, p)
    {
      var other := Ip6And(iplist[p], mask);
      MaskedSame(iplist[pos], iplist[p], zct);
      if ipStart != other {
        break;
      }
      p := p + 1;
      ipCt := ipCt + 1;
    }
  }

  /** The search of the IPv6 loop at one position. */
  method FindSubnet6(iplist: array<Addr6>, ipct: nat, pos: nat, p: Params, ghost ip: seq<nat>)
    returns (zctBest: nat, posEnd: nat)
    requires p.Valid(128) && pos < ipct <= iplist.Length && ip == Values(iplist[..ipct]) && Ascending(ip)
    ensures Chosen(ip, pos, p.zctMin, p.zctMax, Test6(p), zctBest, posEnd)
  {
    ghost var ok, zmin, zmax := Test6(p), p.zctMin, p.zctMax;
    var ipCtBest, zct := 0, p.zctMax;
    zctBest, posEnd := 0, pos + 1;
    while zct >= p.zctMin
      invariant zmin - 1 <= zct <= zmax && BestSoFar(ip, pos, zct, zmax, ok, zctBest, posEnd)
      invariant ipCtBest == if zctBest == 0 then 0 else posEnd - pos
    {
      NextBest(ip, pos, zct, zmax, ok, zctBest, posEnd);
      var end, ipCt := CountMasked(iplist, ipct, pos, zct, ip);
      if ipCt == 1 {
        StopAtOne(ip, pos, zct, zmin, zmax, ok, zctBest, posEnd);
        break;
      }
      if ipCt >= p.v6Threshold {
        if ipCtBest == 0 || ipCt == ipCtBest {
          ipCtBest := ipCt;
          zctBest := zct;
          posEnd := end;
        } else {
          StopAtLess(ip, pos, zct, zmin, zmax, ok, zctBest, posEnd);
          break;
        }
      }
      zct := zct - 1;
    }
    BestIsChosen(ip, pos, zmin, zmax, ok, zctBest, posEnd);
    if zctBest == 0 {
      posEnd := pos + 1;
    }
  }

  /** A printed IPv6 line. */
  datatype Line6 = Line6(start: Addr6, z: nat) {
    function AsLine(): Line {
      Line(Value(start), z)
    }
  }

  function AsLines(lines: seq<Line6>): seq<Line> {
    seq(|lines|, i requires 0 <= i < |lines| => lines[i].AsLine())
  }

  method Group6(iplist: array<Addr6>, ipct: nat, p: Params, ghost ip: seq<nat>)
    returns (lines: seq<Line6>, ghost blocks: seq<Block>)
    requires p.Valid(128) && ipct <= iplist.Length && ip == Values(iplist[..ipct]) && Ascending(ip)
    ensures Grouped(ip, p.zctMin, p.zctMax, Test6(p), blocks, ipct) && Printed(ip, blocks, AsLines(lines))
  {
    var pos := 0;
    lines, blocks := [], [];
    while pos < ipct
      invariant pos <= ipct && Grouped(ip, p.zctMin, p.zctMax, Test6(p), blocks, pos)
        && Printed(ip, blocks, AsLines(lines))
    {
      var zctBest, posEnd := FindSubnet6(iplist, ipct, pos, p, ip);
      GroupedMore(ip, p.zctMin, p.zctMax, Test6(p), blocks, pos, zctBest, posEnd);
      blocks := blocks + [Block(pos, zctBest, posEnd)];
      var ipStart := iplist[pos];
      if zctBest != 0 {
        MaskedValue(ipStart, zctBest);
        ipStart := Ip6And(ipStart, Mask6(zctBest));
      }
      lines := lines + [Line6(ipStart, zctBest)];
      pos := posEnd;
    }
  }

  lemma {:induction false} SortedAscends6(s: seq<Addr6>)
    requires SortedTo(Cmp6, s, |s|)
    ensures Ascending(Values(Dedup(s)))
  {
    Cmp6IsOrder();
    DedupAscends(Cmp6, s);
    var d := Dedup(s);
    forall i, j | 0 <= i < j < |d|
      ensures Values(d)[i] < Values(d)[j]
    {
      Cmp6Orders(d[i], d[j]);
    }
  }

  /** Sort, make unique, group: the IPv6 half of main after its input loop. */
  method Ip2netV6(iplist: array<Addr6>, p: Params)
    returns (lines: seq<Line6>, ghost ip: seq<nat>, ghost blocks: seq<Block>)
    requires p.Valid(128) && iplist.Length < TWO_32
    modifies iplist
    ensures Ascending(ip) && forall a: Addr6 :: Value(a) in ip <==> a in old(iplist[..])
    ensures Grouped(ip, p.zctMin, p.zctMax, Test6(p), blocks, |ip|) && Printed(ip, blocks, AsLines(lines))
    ensures Separate(AsLines(lines)) && forall a :: a in old(iplist[..]) ==> Covered(Value(a), AsLines(lines))
  {
    ghost var input := iplist[..];
    Cmp6IsOrder();
    FitsStack();
    GnuQuicksort(iplist, Cmp6);
    ghost var sorted := iplist[..];
    SortedAscends6(sorted);
    assert iplist[..iplist.Length] == sorted;
    var ipct := Unique6(iplist, iplist.Length);
    ip := Values(Dedup(sorted));
    lines, blocks := Group6(iplist, ipct, p, ip);
    PrintedIsPartition(ip, p.zctMin, p.zctMax, Test6(p), blocks, AsLines(lines));
    ValuesKept(input, sorted);
  }

  lemma {:induction false} ValuesKept(input: seq<Addr6>, sorted: seq<Addr6>)
    requires multiset(input) == multiset(sorted)
    ensures forall a: Addr6 :: Value(a) in Values(Dedup(sorted)) <==> a in input
  {
    var d := Dedup(sorted);
    forall a: Addr6
      ensures Value(a) in Values(d) <==> a in input
    {
      InputKept(input, sorted, a);
      if a in d {
        var k :| 0 <= k < |d| && d[k] == a;
        assert Values(d)[k] == Value(a);
      }
      if Value(a) in Values(d) {
        var k :| 0 <= k < |d| && Values(d)[k] == Value(a);
        Cmp6Orders(d[k], a);
      }
    }
  }

  /**
    Every printed IPv6 subnet holds as many listed addresses as asked for, and no smaller allowed
    one holds as many.
   */
  lemma {:induction false} PrintedIsFilled6(ip: seq<nat>, p: Params, blocks: seq<Block>, n: nat, i: nat, y: nat)
    requires p.Valid(128) && Ascending(ip) && Grouped(ip, p.zctMin, p.zctMax, Test6(p), blocks, n) && i < |blocks|
      && blocks[i].z != 0
    requires p.zctMin <= y < blocks[i].z
    ensures blocks[i].end - blocks[i].pos >= p.v6Threshold
    ensures End(ip, blocks[i].pos, y) < blocks[i].end
  {
    var b := blocks[i];
    assert Chosen(ip, b.pos, p.zctMin, p.zctMax, Test6(p), b.z, b.end);
    EndMonotone(ip, b.pos, y, b.z);
  }
}

/**
  The CIDR sets of nfq2/pools.c: prefixes in an AVL tree under kavl_bit_cmp, which is an order only
  while the stored prefixes form an antichain, and kavl_bit_add, which keeps it so.
 */
module PrefixSet {
  import opened BitStrings
  import opened Kavl
  import opened KavlTree
  import opened Prefix
  import opened Words

  type Elem = Node<Key>

  // ---------------------------------------------------------------------------------------
  // What a run of additions means
  // ---------------------------------------------------------------------------------------

  /** Adding b to a set of prefixes, as kavl_bit_add does it. */
  ghost function Add(stored: set<Bits>, b: Bits): set<Bits> {
    if Contained(b, stored) then stored
    else (set c | c in stored && !(b <= c)) + {b}
  }

  ghost function AddAll(added: seq<Bits>): set<Bits> {
    if added == [] then {} else Add(AddAll(added[..|added| - 1]), added[|added| - 1])
  }

  ghost predicate Antichain(stored: set<Bits>) {
    forall a, b :: a in stored && b in stored && a != b ==> !Overlap(a, b)
  }

  /** Some member of s contains the address (or prefix) a. */
  ghost predicate Contained(a: Bits, s: set<Bits>) {
    exists c :: c in s && c <= a
  }

  lemma {:induction false} ElemsSplit(added: seq<Bits>)
    requires added != []
    ensures Elems(added) == Elems(added[..|added| - 1]) + {added[|added| - 1]}
  {
    assert added == added[..|added| - 1] + [added[|added| - 1]];
  }

  lemma {:induction false} AddAllNext(added: seq<Bits>, b: Bits)
    ensures AddAll(added + [b]) == Add(AddAll(added), b)
  {
    assert (added + [b])[..|added|] == added;
  }

  ghost function Elems(added: seq<Bits>): set<Bits> {
    set b | b in added
  }

  lemma {:induction false} AddContains(stored: set<Bits>, b: Bits, a: Bits)
    ensures Contained(a, Add(stored, b)) <==> Contained(a, stored) || b <= a
  {
    if c :| c in stored && c <= b {
      if b <= a {
        assert c <= a;
      }
    } else {
      assert b in Add(stored, b);
      if c :| c in stored && c <= a && c !in Add(stored, b) {
        assert b <= c <= a;
      }
    }
  }

  /** Dropping longer prefixes and refusing contained ones never loses or adds an address. */
  lemma {:induction false} AddAllContains(added: seq<Bits>, a: Bits)
    ensures Contained(a, AddAll(added)) <==> Contained(a, Elems(added))
  {
    if added != [] {
      var init, b := added[..|added| - 1], added[|added| - 1];
      AddAllContains(init, a);
      AddContains(AddAll(init), b, a);
      ElemsSplit(added);
    }
  }

  /** c is contained in no other member of s. */
  ghost predicate Minimal(c: Bits, s: set<Bits>) {
    c in s && forall d :: d in s && d <= c ==> d == c
  }

  /** What stays stored is exactly what was added and is contained in nothing else that was added. */
  lemma {:induction false} AddAllMinimal(added: seq<Bits>, c: Bits)
    ensures c in AddAll(added) <==> Minimal(c, Elems(added))
  {
    if added != [] {
      var init, b := added[..|added| - 1], added[|added| - 1];
      ElemsSplit(added);
      AddAllMinimal(init, c);
      AddAllContains(init, b);
      if m :| m in AddAll(init) && m <= b {
        AddAllMinimal(init, m);
        AddAllMinimal(init, b);
        RefusedIsNotMinimal(Elems(init), m, b, c);
      } else {
        AddedIsMinimal(Elems(init), b, c);
      }
    }
  }

  lemma {:induction false} RefusedIsNotMinimal(s: set<Bits>, m: Bits, b: Bits, c: Bits)
    requires Minimal(m, s) && m <= b
    ensures Minimal(c, s + {b}) <==> Minimal(c, s)
  {
    if Minimal(c, s) && b <= c {
      assert m <= c;
    }
    if Minimal(c, s + {b}) {
      assert m in s + {b};
      assert c == b ==> m == c;
    }
  }

  lemma {:induction false} AddedIsMinimal(s: set<Bits>, b: Bits, c: Bits)
    requires !Contained(b, s)
    ensures Minimal(c, s + {b}) <==> c == b || (Minimal(c, s) && !(b <= c))
  {
    if Minimal(c, s + {b}) && c != b {
      assert b in s + {b};
    }
  }

  lemma {:induction false} AddAllAntichain(added: seq<Bits>)
    ensures Antichain(AddAll(added))
  {
    forall a, b | a in AddAll(added) && b in AddAll(added) && a != b
      ensures !Overlap(a, b)
    {
      AddAllMinimal(added, a);
      AddAllMinimal(added, b);
    }
  }

  ghost predicate Hit(a: Bits, s: set<Bits>) {
    exists c :: c in s && Overlap(c, a)
  }

  /** A query hits the set when it overlaps something that was added, whatever its length. */
  lemma {:induction false} AddAllOverlaps(added: seq<Bits>, a: Bits)
    ensures Hit(a, AddAll(added)) <==> Hit(a, Elems(added))
  {
    if c :| c in AddAll(added) && Overlap(c, a) {
      AddAllMinimal(added, c);
    }
    if c :| c in Elems(added) && Overlap(c, a) {
      assert Contained(c, Elems(added));
      AddAllContains(added, c);
      var m :| m in AddAll(added) && m <= c;
      assert Overlap(m, a);
    }
  }

  /** For an address as long as any prefix, overlapping is being contained. */
  lemma {:induction false} FullAddressHit(a: Bits, s: set<Bits>)
    requires forall c :: c in s ==> |c| <= |a|
    ensures Hit(a, s) <==> Contained(a, s)
  {
    if c :| c in s && c <= a {
      assert Overlap(c, a);
    }
  }

  // ---------------------------------------------------------------------------------------
  // The tree as a set
  // ---------------------------------------------------------------------------------------

  ghost function Stored(s: seq<Elem>): set<Bits> {
    set n | n in s :: BitsOf(n.key)
  }

  ghost predicate InOrder(s: seq<Elem>) {
    forall i, j :: 0 <= i < j < |s| ==> Below(BitsOf(s[i].key), BitsOf(s[j].key))
  }

  /** On an antichain in address order every query finds its way, although the comparator is no order. */
  lemma {:induction false} InOrderIsSearchable(s: seq<Elem>, x: Key)
    requires InOrder(s)
    ensures Searchable(KavlBitCmp, x, s)
  {
    forall i, j | 0 <= i < j < |s|
      ensures KavlBitCmp(x, s[i].key) <= 0 ==> KavlBitCmp(x, s[j].key) <= 0
      ensures KavlBitCmp(x, s[i].key) < 0 ==> KavlBitCmp(x, s[j].key) < 0
    {
      var b, bi, bj := BitsOf(x), BitsOf(s[i].key), BitsOf(s[j].key);
      CmpOrdersPrefixes(x, s[i].key);
      CmpOrdersPrefixes(x, s[j].key);
      if Below(b, bi) {
        BelowTransitive(b, bi, bj);
      }
      if Below(bj, b) {
        BelowTransitive(bi, bj, b);
      }
    }
  }

  /** An antichain is needed: with 1/1 between its parts 10/2 and 11/2 a search for 11 stops at the wrong one. */
  lemma {:induction false} OverlapsBreakTheOrder()
    ensures var a, b, c := Key([0x80], 2), Key([0x80], 1), Key([0xC0], 2);
            KavlBitCmp(a, b) == 0 && KavlBitCmp(b, c) == 0 && KavlBitCmp(a, c) < 0
  {
    assert Shr(0x80, 6) == 2 by { assert Shr(0x80, 2) == 32; assert Shr(0x80, 4) == 8; }
    assert Shr(0xC0, 6) == 3 by { assert Shr(0xC0, 2) == 48; assert Shr(0xC0, 4) == 12; }
    assert Shr(0x80, 7) == 1;
    assert Shr(0xC0, 7) == 1;
  }

  lemma {:induction false} InOrderInserted(s: seq<Elem>, l: seq<Elem>, x: Elem, r: seq<Elem>)
    requires InOrder(s) && s == l + r && AllBelow(KavlBitCmp, x.key, l) && AllAbove(KavlBitCmp, x.key, r)
    ensures InOrder(l + [x] + r)
  {
    var s' := l + [x] + r;
    forall i, j | 0 <= i < j < |s'|
      ensures Below(BitsOf(s'[i].key), BitsOf(s'[j].key))
    {
      if i == |l| {
        assert s'[j] == r[j - |l| - 1];
        CmpOrdersPrefixes(x.key, s'[j].key);
      } else if j == |l| {
        assert s'[i] == l[i];
        CmpOrdersPrefixes(x.key, s'[i].key);
      } else {
        assert s'[i] == s[if i < |l| then i else i - 1] && s'[j] == s[if j < |l| then j else j - 1];
      }
    }
  }

  lemma {:induction false} InOrderErased(s: seq<Elem>, k: nat)
    requires InOrder(s) && k < |s|
    ensures InOrder(s[..k] + s[k + 1..])
    ensures Stored(s[..k] + s[k + 1..]) == Stored(s) - {BitsOf(s[k].key)}
  {
    var s' := s[..k] + s[k + 1..];
    forall i | 0 <= i < |s|
      ensures i == k || (s[i] in s' && BitsOf(s[i].key) != BitsOf(s[k].key))
    {
      if i < k {
        assert s[i] == s'[i];
        BelowOrOverlap(BitsOf(s[i].key), BitsOf(s[k].key));
      } else if i > k {
        assert s[i] == s'[i - 1];
        BelowOrOverlap(BitsOf(s[k].key), BitsOf(s[i].key));
      }
    }
    forall n | n in s'
      ensures BitsOf(n.key) in Stored(s) && BitsOf(n.key) != BitsOf(s[k].key)
    {
      assert n in s;
    }
  }

  lemma {:induction false} InOrderApart(s: seq<Elem>)
    requires InOrder(s)
    ensures Antichain(Stored(s))
  {
    forall m, n | m in s && n in s && BitsOf(m.key) != BitsOf(n.key)
      ensures !Overlap(BitsOf(m.key), BitsOf(n.key))
    {
      var i :| 0 <= i < |s| && s[i] == m;
      var j :| 0 <= j < |s| && s[j] == n;
      BelowOrOverlap(BitsOf(m.key), BitsOf(n.key));
      BelowOrOverlap(BitsOf(n.key), BitsOf(m.key));
    }
  }

  // ---------------------------------------------------------------------------------------
  // kavl_bit_add
  // ---------------------------------------------------------------------------------------

  /** What the deletions have left of the stored prefixes: only prefixes inside b are gone. */
  ghost predicate Trimmed(stored: set<Bits>, now: set<Bits>, b: Bits) {
    now <= stored && forall c :: c in stored ==> c in now || (b <= c && b != c)
  }

  /** One insertion at the end of the deletions. */
  lemma {:induction false} AddOutcome(stored: set<Bits>, e: Elem, s: seq<Elem>, s': seq<Elem>, v: Elem, cnt: nat)
    requires Antichain(stored) && InOrder(s) && Trimmed(stored, Stored(s), BitsOf(e.key))
    requires Inserted(KavlBitCmp, e, s, s', v, cnt) && (v != e ==> v.key.bitlen <= e.key.bitlen)
    ensures InOrder(s') && Stored(s') == Add(stored, BitsOf(e.key))
    ensures v in s' && BitsOf(v.key) <= BitsOf(e.key)
  {
    var b := BitsOf(e.key);
    if v == e {
      var l, r := s[..cnt], s[cnt..];
      assert s == l + r;
      InOrderInserted(s, l, e, r);
      forall n | n in s
        ensures !Overlap(BitsOf(n.key), b) && n in s'
      {
        CmpOrdersPrefixes(e.key, n.key);
        assert n in l || n in r;
      }
      assert forall n :: n in s' ==> n in s || n == e;
      assert s'[cnt] == e;
    } else {
      CmpOrdersPrefixes(e.key, v.key);
      assert v in s && BitsOf(v.key) in Stored(s);
      assert BitsOf(v.key) <= b;
      forall c | c in stored
        ensures c in Stored(s)
      {
        if b <= c && b != c {
          assert BitsOf(v.key) <= c;
        }
      }
    }
  }

  /** An element that the loop deletes lies inside the new prefix. */
  lemma {:induction false} TrimOne(stored: set<Bits>, e: Elem, s: seq<Elem>, v: Elem, k: nat)
    requires InOrder(s) && Trimmed(stored, Stored(s), BitsOf(e.key))
    requires k < |s| && s[k] == v && KavlBitCmp(e.key, v.key) == 0 && e.key.bitlen < v.key.bitlen
    ensures InOrder(s[..k] + s[k + 1..]) && Trimmed(stored, Stored(s[..k] + s[k + 1..]), BitsOf(e.key))
  {
    InOrderErased(s, k);
    CmpOrdersPrefixes(e.key, v.key);
  }

  /** kavl_bit_delete */
  method KavlBitDelete(hdr: Kavl<Key>, key: Key) returns (ghost k: nat)
    requires hdr.Valid() && InOrder(hdr.Contents())
    requires exists n :: n in hdr.Contents() && KavlBitCmp(key, n.key) == 0
    modifies hdr, Nodes<Key>(hdr.tree)
    ensures hdr.Valid() && k < |old(hdr.Contents())| && KavlBitCmp(key, old(hdr.Contents())[k].key) == 0
    ensures hdr.Contents() == old(hdr.Contents())[..k] + old(hdr.Contents())[k + 1..]
  {
    InOrderIsSearchable(hdr.Contents(), key);
    var p, cnt := hdr.Erase(key, KavlBitCmp);
    k := cnt - 1;
  }

  lemma {:induction false} SameElement(s: seq<Elem>, v: Elem, k: nat)
    requires InOrder(s) && v in s && k < |s| && KavlBitCmp(v.key, s[k].key) == 0
    ensures s[k] == v
  {
    var i :| 0 <= i < |s| && s[i] == v;
    CmpOrdersPrefixes(v.key, s[k].key);
    BelowOrOverlap(BitsOf(s[i].key), BitsOf(s[k].key));
    BelowOrOverlap(BitsOf(s[k].key), BitsOf(s[i].key));
  }

  lemma {:induction false} SelfOverlap(v: Elem)
    ensures KavlBitCmp(v.key, v.key) == 0
  {
    CmpOrdersPrefixes(v.key, v.key);
  }

  lemma {:induction false} NoNewElements(s: seq<Elem>, e: Elem, s': seq<Elem>, v: Elem, cnt: nat)
    requires Inserted(KavlBitCmp, e, s, s', v, cnt)
    ensures forall n :: n in s' ==> n in s || n == e
  {
    if v == e {
      assert forall n :: n in s' ==> n in s[..cnt] || n == e || n in s[cnt..];
    }
  }

  lemma {:induction false} FewerElements(s: seq<Elem>, k: nat)
    requires k < |s|
    ensures forall n :: n in s[..k] + s[k + 1..] ==> n in s
  {
    assert forall n :: n in s[..k] + s[k + 1..] ==> n in s[..k] || n in s[k + 1..];
  }

  /** The state of kavl_bit_add when e has been offered to the tree that held s. */
  ghost predicate Offered(hdr: Kavl<Key>, e: Elem, s: seq<Elem>, v: Elem, cnt: nat, stored: set<Bits>, all: set<Elem>)
    reads hdr, Nodes<Key>(hdr.tree)
  {
    && hdr.Valid() && Nodes<Key>(hdr.tree) <= all
    && InOrder(s) && Trimmed(stored, Stored(s), BitsOf(e.key)) && e !in s
    && Inserted(KavlBitCmp, e, s, hdr.Contents(), v, cnt)
  }

  method Offer(hdr: Kavl<Key>, e: Elem, ghost stored: set<Bits>, ghost all: set<Elem>) returns (v: Elem, cnt: nat)
    requires hdr.Valid() && Nodes<Key>(hdr.tree) <= all && e in all - Nodes<Key>(hdr.tree)
      && |hdr.Contents()| + 1 < 0x1_0000_0000
    requires InOrder(hdr.Contents()) && Trimmed(stored, Stored(hdr.Contents()), BitsOf(e.key))
    modifies hdr, all
    ensures Offered(hdr, e, old(hdr.Contents()), v, cnt, stored, all)
  {
    InorderFacts<Key>(hdr.tree);
    InOrderIsSearchable(hdr.Contents(), e.key);
    ghost var s := hdr.Contents();
    NodesWithin<Key>(hdr.tree, all);
    v, cnt := hdr.Insert(e, KavlBitCmp);
    NoNewElements(s, e, hdr.Contents(), v, cnt);
    NodesWithin<Key>(hdr.tree, all);
  }

  /** Delete the longer prefix v that kavl_insert met. */
  method DeleteLonger(hdr: Kavl<Key>, e: Elem, v: Elem, ghost s: seq<Elem>, ghost cnt: nat, ghost stored: set<Bits>,
      ghost all: set<Elem>)
    requires Offered(hdr, e, s, v, cnt, stored, all) && e != v && e.key.bitlen < v.key.bitlen
    modifies hdr, all
    ensures hdr.Valid() && Nodes<Key>(hdr.tree) <= all && e !in Nodes<Key>(hdr.tree) && |hdr.Contents()| == |s| - 1
    ensures InOrder(hdr.Contents()) && Trimmed(stored, Stored(hdr.Contents()), BitsOf(e.key))
  {
    SelfOverlap(v);
    InorderFacts<Key>(hdr.tree);
    ghost var k := KavlBitDelete(hdr, v.key);
    SameElement(s, v, k);
    TrimOne(stored, e, s, v, k);
    FewerElements(s, k);
    NodesWithin<Key>(hdr.tree, all);
    InorderFacts<Key>(hdr.tree);
  }

  /** kavl_bit_add: the retry loop ends, and what is stored afterwards is Add. */
  method KavlBitAdd(hdr: Kavl<Key>, key: Key) returns (v: Elem)
    requires hdr.Valid() && InOrder(hdr.Contents()) && |hdr.Contents()| + 1 < 0x1_0000_0000
    modifies hdr, Nodes<Key>(hdr.tree)
    ensures hdr.Valid() && InOrder(hdr.Contents()) && fresh(Nodes<Key>(hdr.tree) - old(Nodes<Key>(hdr.tree)))
    ensures Stored(hdr.Contents()) == Add(Stored(old(hdr.Contents())), BitsOf(key))
    ensures v in hdr.Contents() && BitsOf(v.key) <= BitsOf(key)
  {
    ghost var s, stored := hdr.Contents(), Stored(hdr.Contents());
    InOrderApart(s);
    NodesAllocated<Key>(hdr.tree);
    var e := new Node<Key>(key);
    ghost var all := Nodes<Key>(hdr.tree) + {e};
    var cnt;
    v, cnt := Offer(hdr, e, stored, all);
    while e != v && e.key.bitlen < v.key.bitlen
      invariant Offered(hdr, e, s, v, cnt, stored, all) && |s| <= |old(hdr.Contents())|
      decreases |s|
    {
      DeleteLonger(hdr, e, v, s, cnt, stored, all);
      s := hdr.Contents();
      v, cnt := Offer(hdr, e, stored, all);
    }
    AddOutcome(stored, e, s, hdr.Contents(), v, cnt);
  }

  /** kavl_bit_get */
  method KavlBitGet(hdr: Kavl<Key>, key: Key) returns (p: Node?<Key>)
    requires hdr.Valid() && InOrder(hdr.Contents())
    ensures p != null ==> p in hdr.Contents() && Overlap(BitsOf(p.key), BitsOf(key))
    ensures p != null <==> Hit(BitsOf(key), Stored(hdr.Contents()))
  {
    InOrderIsSearchable(hdr.Contents(), key);
    var cnt;
    p, cnt := hdr.Find(key, KavlBitCmp);
    forall n | n in hdr.Contents()
      ensures KavlBitCmp(key, n.key) == 0 <==> Overlap(BitsOf(n.key), BitsOf(key))
    {
      CmpOrdersPrefixes(key, n.key);
    }
  }

  // ---------------------------------------------------------------------------------------
  // ipset4Add, ipset4Check, ipset6Add, ipset6Check
  // ---------------------------------------------------------------------------------------

  /** The prefix that an address and a prefix length describe. */
  function Cidr(a: seq<byte>, preflen: nat): Bits
    requires preflen <= 8 * |a|
  {
    BitsOf(Key(a, preflen))
  }

  /** Only the bytes that hold prefix bits are copied, and they are enough. */
  lemma {:induction false} CopiedBytes(a: seq<byte>, preflen: nat)
    requires preflen <= 8 * |a|
    ensures (preflen + 7) / 8 <= |a| && preflen <= 8 * |a[..(preflen + 7) / 8]|
    ensures BitsOf(Key(a[..(preflen + 7) / 8], preflen)) == Cidr(a, preflen)
  {
  }

  /** One half of struct ipset: width is 32 for ips4 and 128 for ips6. */
  class Ipset {
    const hdr: Kavl<Key>
    const width: nat
    /** Every prefix that was ever added, in order. */
    ghost var added: seq<Bits>

    ghost predicate Valid()
      reads this, hdr, Nodes<Key>(hdr.tree)
    {
      && (width == 32 || width == 128)
      && hdr.Valid() && InOrder(hdr.Contents()) && Stored(hdr.Contents()) == AddAll(added)
      && forall b :: b in added ==> |b| <= width
    }

    constructor (width: nat)
      requires width == 32 || width == 128
      ensures Valid() && this.width == width && added == [] && fresh(hdr) && Nodes<Key>(hdr.tree) == {}
    {
      var tree := new Kavl<Key>();
      hdr, this.width, added := tree, width, [];
    }

    /** Add one prefix to the tree, and to the list. */
    method AddPrefix(key: Key, ghost b: Bits)
      requires Valid() && b == BitsOf(key) && |b| <= width && |hdr.Contents()| + 1 < 0x1_0000_0000
      modifies this, hdr, Nodes<Key>(hdr.tree)
      ensures Valid() && fresh(Nodes<Key>(hdr.tree) - old(Nodes<Key>(hdr.tree)))
      ensures added == old(added) + [b]
    {
      AddAllNext(added, b);
      var v := KavlBitAdd(hdr, key);
      added := added + [b];
    }

    /** ipset4Add or ipset6Add, with ipset_kavl_add */
    method Add(a: seq<byte>, preflen: byte) returns (ok: bool)
      requires Valid() && 8 * |a| == width && |hdr.Contents()| + 1 < 0x1_0000_0000
      modifies this, hdr, Nodes<Key>(hdr.tree)
      ensures Valid() && fresh(Nodes<Key>(hdr.tree) - old(Nodes<Key>(hdr.tree)))
      ensures ok <==> preflen <= width
      ensures added == if ok then old(added) + [Cidr(a, preflen)] else old(added)
      ensures !ok ==> Stored(hdr.Contents()) == old(Stored(hdr.Contents()))
    {
      if preflen > width {
        return false;
      }
      var bytelen := (preflen + 7) / 8;
      CopiedBytes(a, preflen);
      AddPrefix(Key(a[..bytelen], preflen), Cidr(a, preflen));
      return true;
    }

    /** ipset4Check or ipset6Check: the tree answers as a scan over everything ever added does. */
    method Check(a: seq<byte>, preflen: byte) returns (found: bool)
      requires Valid() && preflen <= width == 8 * |a|
      ensures found <==> Hit(Cidr(a, preflen), Elems(added))
      ensures preflen == width ==> (found <==> Contained(Cidr(a, preflen), Elems(added)))
    {
      var p := KavlBitGet(hdr, Key(a, preflen));
      found := p != null;
      AddAllOverlaps(added, Cidr(a, preflen));
      if preflen == width {
        FullAddressHit(Cidr(a, preflen), Elems(added));
      }
    }
  }
}

/** Unsigned machine words as natural numbers, with the C operators on them. */
module Words {

  type byte = x: nat | x < 256

  const TWO_32 := 0x1_0000_0000

  type uint32 = x: nat | x < TWO_32

  function Least(a: nat, b: nat): nat {
    if b < a then b else a
  }

  function Greatest(a: nat, b: int): nat {
    if b > a then b else a
  }

  function Pow2(k: nat): (p: nat)
    ensures p > 0
  {
    if k == 0 then 1 else 2 * Pow2(k - 1)
  }

  /** n >> k */
  function Shr(n: nat, k: nat): nat {
    if k == 0 then n else Shr(n, k - 1) / 2
  }

  /** x << k, without loss */
  function Shl(x: nat, k: nat): nat {
    if k == 0 then x else 2 * Shl(x, k - 1)
  }

  /** a & b */
  function And(a: nat, b: nat): nat {
    if a == 0 then 0 else 2 * And(a / 2, b / 2) + (if a % 2 == 1 && b % 2 == 1 then 1 else 0)
  }

  /** a | b */
  function Or(a: nat, b: nat): nat {
    if a == 0 then b else 2 * Or(a / 2, b / 2) + (if a % 2 == 1 || b % 2 == 1 then 1 else 0)
  }

  /** a ^ b */
  function Xor(a: nat, b: nat): nat {
    if a == 0 then b else 2 * Xor(a / 2, b / 2) + (if a % 2 == b % 2 then 0 else 1)
  }

  /** The lowest bit, and the bits above it. */
  lemma {:induction false} XorParts(a: nat, b: nat)
    ensures Xor(a, b) / 2 == Xor(a / 2, b / 2) && Xor(a, b) % 2 == if a % 2 == b % 2 then 0 else 1
  {
    assert Xor(a, b) == 2 * Xor(a / 2, b / 2) + (if a % 2 == b % 2 then 0 else 1);
  }

  lemma {:induction false} XorCommutes(a: nat, b: nat)
    ensures Xor(a, b) == Xor(b, a)
  {
    if a > 0 {
      XorCommutes(a / 2, b / 2);
    } else if b > 0 {
      XorCommutes(a / 2, b / 2);
    }
  }

  lemma {:induction false} XorAssociates(a: nat, b: nat, c: nat)
    ensures Xor(Xor(a, b), c) == Xor(a, Xor(b, c))
  {
    if a > 0 {
      XorAssociates(a / 2, b / 2, c / 2);
      XorParts(a, b);
      XorParts(b, c);
      SameParts(a, c, Xor(a, b), Xor(b, c));
    }
  }

  lemma {:induction false} SameParts(a: nat, c: nat, x: nat, y: nat)
    requires Xor(x / 2, c / 2) == Xor(a / 2, y / 2) && (x % 2 == c % 2 <==> a % 2 == y % 2)
    ensures Xor(x, c) == Xor(a, y)
  {
    XorParts(x, c);
    XorParts(a, y);
  }

  lemma {:induction false} XorCancels(a: nat)
    ensures Xor(0, a) == a && Xor(a, 0) == a && Xor(a, a) == 0
  {
    if a > 0 {
      XorCancels(a / 2);
    }
  }

  lemma {:induction false} XorBound(a: nat, b: nat, k: nat)
    requires a < Pow2(k) && b < Pow2(k)
    ensures Xor(a, b) < Pow2(k)
  {
    if a > 0 {
      XorBound(a / 2, b / 2, k - 1);
    }
  }

  lemma {:induction false} ShrMonotone(a: nat, b: nat, k: nat)
    requires a <= b
    ensures Shr(a, k) <= Shr(b, k)
  {
    if k > 0 {
      ShrMonotone(a, b, k - 1);
    }
  }

  /** Numbers that agree above bit k agree above every higher bit. */
  lemma {:induction false} ShrNested(a: nat, b: nat, k: nat, m: nat)
    requires k <= m && Shr(a, k) == Shr(b, k)
    ensures Shr(a, m) == Shr(b, m)
    decreases m
  {
    if k < m {
      ShrNested(a, b, k, m - 1);
    }
  }

  lemma {:induction false} ShrHalf(n: nat, k: nat)
    ensures Shr(n, k + 1) == Shr(n / 2, k)
  {
    if k > 0 {
      ShrHalf(n, k - 1);
    }
  }

  lemma {:induction false} ShrBound(n: nat, k: nat, m: nat)
    requires n < Pow2(m) && k <= m
    ensures Shr(n, k) < Pow2(m - k)
  {
    if k > 0 {
      ShrBound(n, k - 1, m);
    }
  }

  lemma {:induction false} ShrStays(n: nat, k: nat, m: nat)
    requires k <= m && Shr(n, k) == 0
    ensures Shr(n, m) == 0
    decreases m
  {
    if k < m {
      ShrStays(n, k, m - 1);
    }
  }

  lemma {:induction false} ShlDouble(x: nat, k: nat)
    ensures Shl(2 * x, k) == 2 * Shl(x, k)
  {
    if k > 0 {
      ShlDouble(x, k - 1);
    }
  }

  lemma {:induction false} ShlNext(x: nat, k: nat)
    ensures Shl(x + 1, k) == Shl(x, k) + Pow2(k)
  {
    if k > 0 {
      ShlNext(x, k - 1);
    }
  }

  lemma {:induction false} ShlMonotone(x: nat, y: nat, k: nat)
    requires x <= y
    ensures Shl(x, k) <= Shl(y, k)
  {
    if k > 0 {
      ShlMonotone(x, y, k - 1);
    }
  }

  /** n >> k << k clears the low k bits. */
  lemma {:induction false} ShrSplit(n: nat, k: nat)
    ensures Shl(Shr(n, k), k) <= n < Shl(Shr(n, k), k) + Pow2(k)
  {
    if k > 0 {
      ShrSplit(n, k - 1);
      var h := Shr(n, k - 1);
      ShlDouble(h / 2, k - 1);
      if h % 2 == 1 {
        ShlNext(2 * (h / 2), k - 1);
      }
    }
  }

  lemma {:induction false} ShrUnique(n: nat, k: nat, x: nat)
    requires Shl(x, k) <= n < Shl(x, k) + Pow2(k)
    ensures Shr(n, k) == x
  {
    ShrSplit(n, k);
    var y := Shr(n, k);
    ShlNext(x, k);
    ShlNext(y, k);
    if x < y {
      ShlMonotone(x + 1, y, k);
    } else if y < x {
      ShlMonotone(y + 1, x, k);
    }
  }

  lemma {:induction false} AndOnes(w: nat, a: nat)
    requires a < Pow2(w)
    ensures And(a, Pow2(w) - 1) == a
  {
    if a > 0 {
      AndOnes(w - 1, a / 2);
    }
  }

  /** Clearing the low z bits by a mask. */
  lemma {:induction false} AndMask(w: nat, a: nat, z: nat)
    requires a < Pow2(w) && z <= w && Pow2(z) <= Pow2(w)
    ensures And(a, Pow2(w) - Pow2(z)) == Shl(Shr(a, z), z)
  {
    if z == 0 {
      AndOnes(w, a);
    } else if a == 0 {
      ShrOfZero(z);
    } else {
      AndMask(w - 1, a / 2, z - 1);
      ShrHalf(a, z - 1);
    }
  }

  lemma {:induction false} ShrOfZero(k: nat)
    ensures Shr(0, k) == 0 && Shl(0, k) == 0
  {
    if k > 0 {
      ShrOfZero(k - 1);
    }
  }

  /** Setting the low z bits of a number whose low z bits are clear. */
  lemma {:induction false} OrLow(x: nat, z: nat, a: nat)
    requires a == Shl(x, z)
    ensures Or(a, Pow2(z) - 1) == a + Pow2(z) - 1
  {
    if z == 0 {
      OrZero(a);
    } else if a > 0 {
      var b := Pow2(z - 1) - 1;
      assert Pow2(z) - 1 == 2 * b + 1;
      assert (2 * b + 1) / 2 == b && (2 * b + 1) % 2 == 1;
      OrLow(x, z - 1, a / 2);
    }
  }

  lemma {:induction false} OrZero(a: nat)
    ensures Or(a, 0) == a
  {
    if a > 0 {
      OrZero(a / 2);
    }
  }

  lemma {:induction false} Pow2Grows(k: nat, m: nat)
    requires k <= m
    ensures Pow2(k) <= Pow2(m)
    decreases m
  {
    if k < m {
      Pow2Grows(k, m - 1);
    }
  }

  lemma {:induction false} ShrShl(x: nat, k: nat)
    ensures Shr(Shl(x, k), k) == x
  {
    ShrUnique(Shl(x, k), k, x);
  }

  lemma {:induction false} Pow2IsShl(k: nat)
    ensures Pow2(k) == Shl(1, k)
  {
    if k > 0 {
      Pow2IsShl(k - 1);
    }
  }

  lemma {:induction false} ShlOfPow2(m: nat, k: nat)
    ensures Shl(Pow2(m), k) == Pow2(m + k)
  {
    if k > 0 {
      ShlOfPow2(m, k - 1);
    }
  }

  lemma {:induction false} Pow2Of32()
    ensures Pow2(32) == TWO_32
  {
    assert Pow2(8) == 256;
    assert Pow2(16) == 256 * 256;
    assert Pow2(24) == 256 * 256 * 256;
  }

  lemma {:induction false} ShlByte(v: nat)
    ensures Shl(v, 8) == 256 * v
  {
    assert Shl(v, 1) == 2 * v;
    assert Shl(v, 2) == 4 * v;
    assert Shl(v, 3) == 8 * v;
    assert Shl(v, 4) == 16 * v;
    assert Shl(v, 5) == 32 * v;
    assert Shl(v, 6) == 64 * v;
    assert Shl(v, 7) == 128 * v;
  }

  lemma {:induction false} ShlSum(x: nat, y: nat, k: nat)
    ensures Shl(x + y, k) == Shl(x, k) + Shl(y, k)
  {
    if k > 0 {
      ShlSum(x, y, k - 1);
    }
  }

  lemma {:induction false} ShlTwice(x: nat, j: nat, k: nat)
    ensures Shl(Shl(x, j), k) == Shl(x, j + k)
  {
    if k > 0 {
      ShlTwice(x, j, k - 1);
    }
  }

  lemma {:induction false} ShrTwice(x: nat, j: nat, k: nat)
    ensures Shr(Shr(x, j), k) == Shr(x, j + k)
  {
    if k > 0 {
      ShrTwice(x, j, k - 1);
    }
  }
}

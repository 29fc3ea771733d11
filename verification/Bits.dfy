/** The bitwise operators the driver applies to its unsigned words and masks,
    on naturals, with the arithmetic they stand for. */
module Bits {

  function Pow2(k: nat): (p: nat)
    ensures p > 0
  {
    if k == 0 then 1 else 2 * Pow2(k - 1)
  }

  /** The bit of weight `Pow2(i)`. */
  predicate Bit(w: nat, i: nat)
  {
    if i == 0 then w % 2 == 1 else Bit(w / 2, i - 1)
  }

  /** C's `a & b`. */
  function And(a: nat, b: nat): nat
  {
    if a == 0 || b == 0 then 0
    else (if a % 2 == 1 && b % 2 == 1 then 1 else 0) + 2 * And(a / 2, b / 2)
  }

  /** C's `a | b`. */
  function Or(a: nat, b: nat): nat
    decreases a + b
  {
    if a == 0 then b else if b == 0 then a
    else (if a % 2 == 1 || b % 2 == 1 then 1 else 0) + 2 * Or(a / 2, b / 2)
  }

  /** C's `~w` on an `n`-bit word. */
  function Not(n: nat, w: nat): (r: nat)
    requires w < Pow2(n)
    ensures r < Pow2(n)
  {
    Pow2(n) - 1 - w
  }

  newtype byte = x: int | 0 <= x < 256

  /** Truncation to `uint32_t`. */
  const U32_LIMIT: nat := 0x1_0000_0000
  function U32(x: int): nat { x % U32_LIMIT }

  lemma {:induction false} ZeroBit(i: nat)
    ensures !Bit(0, i)
  {
    if i > 0 { ZeroBit(i - 1); }
  }

  lemma HalveAnd(a: nat, b: nat)
    ensures And(a, b) / 2 == And(a / 2, b / 2)
    ensures And(a, b) % 2 == 1 <==> a % 2 == 1 && b % 2 == 1
  {
  }

  lemma HalveOr(a: nat, b: nat)
    ensures Or(a, b) / 2 == Or(a / 2, b / 2)
    ensures Or(a, b) % 2 == 1 <==> a % 2 == 1 || b % 2 == 1
  {
  }

  lemma {:induction false} AndBit(a: nat, b: nat, i: nat)
    ensures Bit(And(a, b), i) <==> Bit(a, i) && Bit(b, i)
    decreases i
  {
    hide And;
    HalveAnd(a, b);
    if i > 0 { AndBit(a / 2, b / 2, i - 1); }
  }

  lemma {:induction false} OrBit(a: nat, b: nat, i: nat)
    ensures Bit(Or(a, b), i) <==> Bit(a, i) || Bit(b, i)
    decreases i
  {
    hide Or;
    HalveOr(a, b);
    if i > 0 { OrBit(a / 2, b / 2, i - 1); }
  }

  /** Every bit of `b` is a bit of `a`. */
  ghost predicate HasAll(a: nat, b: nat)
  {
    forall i: nat :: Bit(b, i) ==> Bit(a, i)
  }

  /** `a & b == b` tests just that. */
  lemma AndKeepsAll(a: nat, b: nat)
    ensures And(a, b) == b <==> HasAll(a, b)
  {
    hide And, Bit;
    if And(a, b) == b {
      forall i: nat | Bit(b, i) ensures Bit(a, i) { AndBit(a, b, i); }
    }
    if HasAll(a, b) { AllBitsKept(a, b); }
  }

  lemma {:induction false} AllBitsKept(a: nat, b: nat)
    requires HasAll(a, b)
    ensures And(a, b) == b
    decreases b
  {
    if b > 0 {
      forall i: nat | Bit(b / 2, i) ensures Bit(a / 2, i) { assert Bit(b, i + 1) && Bit(a, i + 1); }
      AllBitsKept(a / 2, b / 2);
      HalveAnd(a, b);
      assert b % 2 == 1 ==> Bit(b, 0);
      hide And;
      assert And(a, b) == 2 * (And(a, b) / 2) + And(a, b) % 2;
    }
  }

  /** `1 << k` has exactly bit `k`. */
  lemma {:induction false} Pow2Bit(k: nat, i: nat)
    ensures Bit(Pow2(k), i) <==> i == k
    decreases i
  {
    if k == 0 {
      if i > 0 { ZeroBit(i - 1); }
    } else if i > 0 {
      assert Pow2(k) / 2 == Pow2(k - 1);
      Pow2Bit(k - 1, i - 1);
    }
  }

  lemma {:induction false} NotBit(n: nat, w: nat, i: nat)
    requires w < Pow2(n) && i < n
    ensures Bit(Not(n, w), i) <==> !Bit(w, i)
    decreases i
  {
    if i > 0 {
      assert Not(n, w) / 2 == Not(n - 1, w / 2);
      NotBit(n - 1, w / 2, i - 1);
    }
  }

  lemma {:induction false} Pow2Increases(j: nat, k: nat)
    requires j < k
    ensures Pow2(j) < Pow2(k)
  {
    if j + 1 < k { Pow2Increases(j, k - 1); }
  }

  lemma {:induction false} OrBound(n: nat, a: nat, b: nat)
    requires a < Pow2(n) && b < Pow2(n)
    ensures Or(a, b) < Pow2(n)
  {
    if a != 0 && b != 0 { OrBound(n - 1, a / 2, b / 2); }
  }

  lemma {:induction false} AndBound(a: nat, b: nat)
    ensures And(a, b) <= a && And(a, b) <= b
  {
    if a != 0 && b != 0 { AndBound(a / 2, b / 2); }
  }

  /** A word none of whose bits is set is zero. */
  lemma {:induction false} AllClearIsZero(w: nat, n: nat)
    requires w < Pow2(n)
    requires forall i: nat :: i < n ==> !Bit(w, i)
    ensures w == 0
  {
    if n > 0 {
      assert !Bit(w, 0);
      forall i: nat | i < n - 1 ensures !Bit(w / 2, i) { assert !Bit(w, i + 1); }
      AllClearIsZero(w / 2, n - 1);
    }
  }

  /** Masking with `size - 1` is reduction modulo a power-of-two size. */
  lemma {:induction false} MaskIsModulo(x: nat, p: nat)
    requires IsPow2(p)
    ensures And(x, p - 1) == x % p
  {
    if p > 1 {
      var h := p / 2;
      HalveMask(x, h);
      MaskIsModulo(x / 2, h);
      HalveModulo(x, h);
      assert p == 2 * h;
    }
  }

  lemma HalveMask(x: nat, h: nat)
    requires h > 0
    ensures And(x, 2 * h - 1) == x % 2 + 2 * And(x / 2, h - 1)
  {
    assert (2 * h - 1) / 2 == h - 1 && (2 * h - 1) % 2 == 1;
  }

  lemma HalveModulo(x: nat, h: nat)
    requires h > 0
    ensures x % (2 * h) == x % 2 + 2 * ((x / 2) % h)
  {
    var q, r := x / 2 / h, (x / 2) % h;
    assert 2 * (h * q) == (2 * h) * q;
    ModuloIs(x, 2 * h, q, x % 2 + 2 * r);
  }

  /** The remainder is the only residue in range. */
  lemma ModuloIs(x: int, d: nat, q: int, r: nat)
    requires r < d && x == d * q + r
    ensures x % d == r
  {
    UniqueDivision(d, q, r, x / d, x % d);
  }

  lemma UniqueDivision(d: nat, q: int, r: nat, q': int, r': nat)
    requires r < d && r' < d && d * q + r == d * q' + r'
    ensures r == r'
  {
    assert d * (q - q') == r' - r;
    MulAtLeast(d, q - q');
    MulAtLeast(d, q' - q);
  }

  lemma MulAtLeast(d: nat, t: int)
    ensures t >= 1 ==> d * t >= d
  {
  }

  lemma {:induction false} PowersDivide(p: nat, w: nat) returns (t: nat)
    requires IsPow2(p) && IsPow2(w) && p <= w
    ensures w == p * t
  {
    if p == 1 {
      t := w;
    } else {
      t := PowersDivide(p / 2, w / 2);
      assert w == 2 * ((p / 2) * t) == (2 * (p / 2)) * t;
    }
  }

  /** `x & (p - 1)` on a 32-bit unsigned difference is `x` modulo `p`, wrapped or not. */
  lemma WrappedMask(x: int, p: nat)
    requires IsPow2(p) && p <= U32_LIMIT
    ensures And(U32(x), p - 1) == x % p
  {
    assert IsPow2(U32_LIMIT) by { WordIsPow2(32); WordSizes(); }
    var t := PowersDivide(p, U32_LIMIT);
    MaskIsModulo(U32(x), p);
    NestedModulo(x, p, t, x / U32_LIMIT, U32(x));
  }

  lemma NestedModulo(x: int, p: nat, t: nat, u: int, y: nat)
    requires p > 0 && x == (p * t) * u + y
    ensures x % p == y % p
  {
    var q, r := y / p, y % p;
    Distribute(p, t, u, q);
    ModuloIs(x, p, t * u + q, r);
  }

  lemma Distribute(p: int, t: int, u: int, q: int)
    ensures p * (t * u + q) == (p * t) * u + p * q
  {
  }

  lemma {:induction false} Pow2Add(a: nat, b: nat)
    ensures Pow2(a + b) == Pow2(a) * Pow2(b)
  {
    if a > 0 {
      Pow2Add(a - 1, b);
      assert Pow2(a) == 2 * Pow2(a - 1) && Pow2(a + b) == 2 * Pow2(a - 1 + b);
      Distribute(2, Pow2(a - 1), Pow2(b), 0);
    }
  }

  /** The word sizes in use: bytes of a node mask, ring offsets, words of port bits. */
  lemma WordSizes()
    ensures Pow2(8) == 256 && Pow2(32) == U32_LIMIT && Pow2(64) == 0x1_0000_0000_0000_0000
  {
    hide Pow2;
    Pow2Of4();
    Pow2Add(4, 4);
    Pow2Add(8, 8);
    Pow2Add(16, 16);
    Pow2Add(32, 32);
  }

  lemma Pow2Of4()
    ensures Pow2(4) == 16
  {
    assert Pow2(2) == 4;
  }

  lemma {:induction false} WordIsPow2(k: nat)
    ensures IsPow2(Pow2(k))
  {
    if k > 0 { WordIsPow2(k - 1); }
  }

  predicate IsPow2(n: nat)
  {
    n == 1 || (n > 0 && n % 2 == 0 && IsPow2(n / 2))
  }

  lemma {:induction false} Pow2Exponent(n: nat) returns (k: nat)
    requires IsPow2(n)
    ensures n == Pow2(k)
  {
    if n == 1 {
      k := 0;
    } else {
      k := Pow2Exponent(n / 2);
      k := k + 1;
    }
  }

  /** The driver's test `(size & (size - 1)) == 0` accepts exactly the powers of two. */
  lemma {:induction false} PowerOfTwoTest(n: nat)
    requires n > 0
    ensures And(n, n - 1) == 0 <==> IsPow2(n)
  {
    if n > 1 {
      if n % 2 == 0 {
        assert (n - 1) / 2 == n / 2 - 1;
        PowerOfTwoTest(n / 2);
      } else {
        assert (n - 1) / 2 == n / 2;
        AndSelf(n / 2);
      }
    }
  }

  lemma {:induction false} AndSelf(n: nat)
    ensures And(n, n) == n
  {
    if n > 0 { AndSelf(n / 2); }
  }

  /** Or-ing a multiple of a power of two with something smaller adds them. */
  lemma {:induction false} OrDisjoint(a: nat, b: nat, k: nat)
    requires a % Pow2(k) == 0 && b < Pow2(k)
    ensures Or(a, b) == a + b
    decreases k
  {
    if k > 0 {
      HalveMultiple(a, Pow2(k - 1));
      OrDisjoint(a / 2, b / 2, k - 1);
      HalveOr(a, b);
      hide Or;
      assert Or(a, b) == 2 * (Or(a, b) / 2) + Or(a, b) % 2;
    }
  }

  lemma HalveMultiple(a: nat, h: nat)
    requires h > 0 && a % (2 * h) == 0
    ensures a % 2 == 0 && (a / 2) % h == 0
  {
    HalveModulo(a, h);
  }
}

/** Bitwise operations on unsigned machine words, which are represented by naturals. */
module Bits {
  const U64_MAX: nat := 0xFFFF_FFFF_FFFF_FFFF

  type uint64 = n: nat | n <= U64_MAX

  function Pow2(k: nat): (p: nat)
    ensures p >= 1
  {
    if k == 0 then 1 else 2 * Pow2(k - 1)
  }

  /** Bitwise conjunction, least significant bit first. */
  function And(a: nat, b: nat): (r: nat)
    ensures r <= a
  {
    if a == 0 then 0 else 2 * And(a / 2, b / 2) + (if a % 2 == 1 && b % 2 == 1 then 1 else 0)
  }

  /** Bitwise disjunction, least significant bit first. */
  function Or(a: nat, b: nat): (r: nat)
    ensures r >= a && r >= b
    decreases a
  {
    if a == 0 then b else 2 * Or(a / 2, b / 2) + (if a % 2 == 1 || b % 2 == 1 then 1 else 0)
  }

  /** One's complement of a 64-bit word. */
  function Not64(a: uint64): uint64 {
    U64_MAX - a
  }

  // ----- powers of two

  lemma Pow2Plus4(k: nat)
    ensures Pow2(k + 4) == 16 * Pow2(k)
  {
    assert Pow2(k + 2) == 2 * Pow2(k + 1);
    assert Pow2(k + 4) == 2 * Pow2(k + 3) == 4 * Pow2(k + 2);
  }

  lemma Pow2Words()
    ensures Pow2(16) == 0x1_0000
    ensures Pow2(32) == 0x1_0000_0000
    ensures Pow2(64) == U64_MAX + 1
  {
    Pow2Plus4(0); Pow2Plus4(4); Pow2Plus4(8); Pow2Plus4(12);
    Pow2Plus4(16); Pow2Plus4(20); Pow2Plus4(24); Pow2Plus4(28);
    Pow2Plus4(32); Pow2Plus4(36); Pow2Plus4(40); Pow2Plus4(44);
    Pow2Plus4(48); Pow2Plus4(52); Pow2Plus4(56); Pow2Plus4(60);
  }

  lemma {:induction false} Pow2Sum(a: nat, b: nat)
    ensures Pow2(a + b) == Pow2(a) * Pow2(b)
  {
    if a > 0 {
      Pow2Sum(a - 1, b);
      MulAssoc(2, Pow2(a - 1), Pow2(b));
    }
  }

  lemma MulAssoc(a: int, b: int, c: int)
    ensures a * (b * c) == (a * b) * c
  {
  }

  lemma MulMono(d: int, a: int, b: int)
    requires d >= 0 && a <= b
    ensures d * a <= d * b
  {
    assert d * (b - a) >= 0;
  }

  lemma {:induction false} Pow2Mono(a: nat, b: nat)
    requires a <= b
    ensures Pow2(a) <= Pow2(b)
  {
    if a < b { Pow2Mono(a, b - 1); }
  }

  // ----- splitting a word at bit k

  /** The number formed by the low `k` bits. */
  function LowBits(x: nat, k: nat): (r: nat)
    ensures r <= x
  {
    if k == 0 then 0 else 2 * LowBits(x / 2, k - 1) + x % 2
  }

  /** The number formed by the bits from `k` upwards. */
  function HighBits(x: nat, k: nat): nat {
    if k == 0 then x else HighBits(x / 2, k - 1)
  }

  lemma {:induction false} SplitWord(x: nat, k: nat)
    ensures LowBits(x, k) < Pow2(k)
    ensures x == Pow2(k) * HighBits(x, k) + LowBits(x, k)
  {
    if k > 0 {
      SplitWord(x / 2, k - 1);
      MulAssoc(2, Pow2(k - 1), HighBits(x, k));
    }
  }

  // ----- masks

  lemma AndEven(x: nat, y: nat, m: nat)
    requires m == 2 * y
    ensures And(x, m) == 2 * And(x / 2, y)
  {
    assert m / 2 == y && m % 2 == 0;
  }

  lemma AndOdd(x: nat, y: nat, m: nat)
    requires m == 2 * y + 1
    ensures And(x, m) == 2 * And(x / 2, y) + x % 2
  {
    assert m / 2 == y && m % 2 == 1;
  }

  lemma OrOdd(x: nat, y: nat, m: nat)
    requires m == 2 * y + 1
    ensures Or(x, m) == 2 * Or(x / 2, y) + 1
  {
    assert m / 2 == y;
  }

  lemma OrStep(a: nat, b: nat)
    ensures Or(a, b) == 2 * Or(a / 2, b / 2) + (if a % 2 == 1 || b % 2 == 1 then 1 else 0)
  {
  }

  lemma {:induction false} AndZero(a: nat)
    ensures And(a, 0) == 0
  {
    if a != 0 { AndZero(a / 2); }
  }

  lemma {:induction false} OrZero(a: nat)
    ensures Or(a, 0) == a
  {
    if a != 0 { OrZero(a / 2); }
  }

  lemma {:induction false} AndSelf(a: nat)
    ensures And(a, a) == a
  {
    if a != 0 { AndSelf(a / 2); }
  }

  lemma {:induction false} OrBound(a: nat, b: nat, w: nat)
    requires a < Pow2(w) && b < Pow2(w)
    ensures Or(a, b) < Pow2(w)
  {
    if a != 0 { OrBound(a / 2, b / 2, w - 1); }
  }

  /** A mask of ones keeps a word that is narrow enough. */
  lemma {:induction false} AndOnes(x: nat, w: nat)
    requires x < Pow2(w)
    ensures And(x, Pow2(w) - 1) == x
  {
    if w > 0 {
      AndOnes(x / 2, w - 1);
      AndOdd(x, Pow2(w - 1) - 1, Pow2(w) - 1);
    }
  }

  lemma LowBitsStep(x: nat, k: nat)
    requires k > 0
    ensures x - LowBits(x, k) == 2 * (x / 2 - LowBits(x / 2, k - 1))
  {
  }

  lemma HalfHighMask(x: nat, k: nat, w: nat)
    requires 0 < k <= w && x < Pow2(w)
    ensures Pow2(k) <= Pow2(w) && Pow2(k - 1) <= Pow2(w - 1) && x / 2 < Pow2(w - 1)
    ensures Pow2(w) - Pow2(k) == 2 * (Pow2(w - 1) - Pow2(k - 1))
  {
    Pow2Mono(k - 1, w - 1);
  }

  lemma AndHighStep(x: nat, m: nat, y: nat, low: nat, lowHalf: nat)
    requires m == 2 * y && And(x / 2, y) == x / 2 - lowHalf && x - low == 2 * (x / 2 - lowHalf)
    ensures And(x, m) == x - low
  {
    hide And;
    AndEven(x, y, m);
  }

  /** Clearing the low `k` bits of a `w`-bit word. */
  lemma {:induction false} AndHighMask(x: nat, k: nat, w: nat)
    requires k <= w && x < Pow2(w)
    ensures Pow2(k) <= Pow2(w)
    ensures And(x, Pow2(w) - Pow2(k)) == x - LowBits(x, k)
  {
    hide And;
    if k == 0 {
      AndOnes(x, w);
      return;
    }
    hide Pow2, LowBits;
    HalfHighMask(x, k, w);
    AndHighMask(x / 2, k - 1, w - 1);
    LowBitsStep(x, k);
    AndHighStep(x, Pow2(w) - Pow2(k), Pow2(w - 1) - Pow2(k - 1), LowBits(x, k), LowBits(x / 2, k - 1));
  }

  /** Keeping the low `k` bits. */
  lemma {:induction false} AndLowMask(x: nat, k: nat)
    ensures And(x, Pow2(k) - 1) == LowBits(x, k)
  {
    if k == 0 {
      AndZero(x);
      return;
    }
    hide And;
    AndLowMask(x / 2, k - 1);
    AndOdd(x, Pow2(k - 1) - 1, Pow2(k) - 1);
  }

  /** Setting the low `k` bits. */
  lemma {:induction false} OrLowMask(x: nat, k: nat)
    ensures Or(x, Pow2(k) - 1) == x - LowBits(x, k) + Pow2(k) - 1
  {
    hide Or;
    if k == 0 {
      OrZero(x);
      return;
    }
    var m, y, h := Pow2(k) - 1, Pow2(k - 1) - 1, x / 2;
    LowBitsStep(x, k);
    assert m == 2 * y + 1;
    hide Pow2, LowBits;
    OrLowMask(h, k - 1);
    var low, lowH := LowBits(x, k), LowBits(h, k - 1);
    assert Or(h, y) == h - lowH + y && x - low == 2 * (h - lowH);
    OrOdd(x, y, m);
  }

  /** Words with disjoint bit ranges are joined by addition. */
  lemma {:induction false} OrDisjoint(a: nat, b: nat, k: nat)
    requires b < Pow2(k)
    ensures Or(Pow2(k) * a, b) == Pow2(k) * a + b
  {
    if k == 0 {
      OrZero(a);
      return;
    }
    hide Or;
    var y := Pow2(k - 1) * a;
    MulAssoc(2, Pow2(k - 1), a);
    OrDisjoint(a, b / 2, k - 1);
    OrStep(2 * y, b);
  }

  lemma {:induction false} OrCommutes(a: nat, b: nat)
    ensures Or(a, b) == Or(b, a)
    decreases a + b
  {
    if a == 0 { OrZero(b); }
    else if b == 0 { OrZero(a); }
    else { OrCommutes(a / 2, b / 2); }
  }

  // ----- prefix masks

  /** The sanity check on condition masks: the zero bits of the mask are its low bits. */
  predicate IsPrefixMask(mask: uint64) {
    And(Not64(mask), (Not64(mask) + 1) % (U64_MAX + 1)) == 0
  }

  lemma {:induction false} AllOnesBelow(n: nat) returns (k: nat)
    requires And(n, n + 1) == 0
    ensures n == Pow2(k) - 1
  {
    if n == 0 {
      k := 0;
    } else if n % 2 == 0 {
      AndSelf(n / 2);
      assert false;
    } else {
      assert (n + 1) / 2 == n / 2 + 1;
      k := AllOnesBelow(n / 2);
      k := k + 1;
    }
  }

  lemma ExponentBound(k: nat)
    requires Pow2(k) <= U64_MAX + 1
    ensures k <= 64
  {
    Pow2Words();
    if k > 64 { Pow2Mono(65, k); }
  }

  /** A prefix mask clears exactly the low k bits, for some k <= 64. */
  lemma PrefixMaskShape(mask: uint64) returns (k: nat)
    requires IsPrefixMask(mask)
    ensures k <= 64 && Not64(mask) == Pow2(k) - 1
  {
    if mask == 0 {
      Pow2Words();
      k := 64;
    } else {
      k := AllOnesBelow(Not64(mask));
      ExponentBound(k);
    }
  }

  // ----- masks that are not prefixes

  lemma AndStep(a: nat, b: nat)
    ensures And(a, b) == 2 * And(a / 2, b / 2) + (if a % 2 == 1 && b % 2 == 1 then 1 else 0)
  {
    if a == 0 { AndZero(b); }
  }

  /** The upper part of a mask and of its complement are complements again. */
  lemma HalfMask(x: nat, mask: nat, n: nat, w: nat)
    requires w > 0 && x < Pow2(w) && mask < Pow2(w) && n == Pow2(w) - 1 - mask
    ensures x / 2 < Pow2(w - 1) && mask / 2 < Pow2(w - 1) && n / 2 == Pow2(w - 1) - 1 - mask / 2
    ensures mask % 2 + n % 2 == 1
  {
  }

  /** In a word of width w: the bits of x kept by the mask, together with the bits n that it clears. */
  lemma {:induction false} OrIsSum(x: nat, mask: nat, n: nat, w: nat)
    requires x < Pow2(w) && mask < Pow2(w) && n == Pow2(w) - 1 - mask
    ensures Or(x, n) == And(x, mask) + n
  {
    if w == 0 {
      return;
    }
    hide And, Or, Pow2;
    HalfMask(x, mask, n, w);
    OrIsSum(x / 2, mask / 2, n / 2, w - 1);
    OrStep(x, n);
    AndStep(x, mask);
  }

  lemma {:induction false} OnesAndNext(k: nat)
    ensures And(Pow2(k) - 1, Pow2(k)) == 0
  {
    if k == 0 {
      return;
    }
    hide And;
    OnesAndNext(k - 1);
    AndEven(Pow2(k) - 1, Pow2(k - 1), Pow2(k));
    assert (Pow2(k) - 1) / 2 == Pow2(k - 1) - 1;
  }

  /** The check on masks, without the wrap-around of the word. */
  lemma PrefixByOnes(mask: uint64)
    ensures IsPrefixMask(mask) <==> And(Not64(mask), Not64(mask) + 1) == 0
  {
    hide And;
    if mask == 0 {
      Pow2Words();
      OnesAndNext(64);
      AndZero(U64_MAX);
    }
  }

  /** The lowest bit is kept by the mask, and some other is not. */
  lemma OutlierAtBottom(x: nat, mask: nat, n: nat, w: nat) returns (e: nat)
    requires w > 0 && x < Pow2(w) && mask < Pow2(w) && n == Pow2(w) - 1 - mask && n % 2 == 0 && n != 0
    ensures And(x, mask) <= e <= Or(x, n) && And(e, mask) != And(x, mask)
  {
    hide And, Or, Pow2;
    var low := And(x / 2, mask / 2);
    HalfMask(x, mask, n, w);
    OrIsSum(x / 2, mask / 2, n / 2, w - 1);
    OrStep(x, n);
    AndStep(x, mask);
    e := 2 * low + if x % 2 == 1 then 2 else 1;
    AndStep(e, mask);
  }

  /** If the cleared bits are not the low bits, some word between the first and the last key differs in a masked bit. */
  lemma {:induction false} Outlier(x: nat, mask: nat, n: nat, w: nat) returns (e: nat)
    requires x < Pow2(w) && mask < Pow2(w) && n == Pow2(w) - 1 - mask && And(n, n + 1) != 0
    ensures And(x, mask) <= e <= Or(x, n) && And(e, mask) != And(x, mask)
  {
    if w > 0 {
      hide And, Or, Pow2;
      HalfMask(x, mask, n, w);
      AndStep(n, n + 1);
      if n % 2 == 0 {
        e := OutlierAtBottom(x, mask, n, w);
      } else {
        assert (n + 1) / 2 == n / 2 + 1;
        var e' := Outlier(x / 2, mask / 2, n / 2, w - 1);
        OrStep(x, n);
        AndStep(x, mask);
        e := 2 * e';
        AndStep(e, mask);
        assert e / 2 == e' && mask % 2 == 0;
      }
    }
  }
}

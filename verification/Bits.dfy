/** The machine operators on unsigned words, and which bits their results have.  A word is a natural
    number of any width.  Where an operator cuts its result to a width, that width is a parameter;
    left shifts are not cut here. */
module Bits {

  function Pow2(n: nat): (r: nat)
    ensures r > 0
  {
    if n == 0 then 1 else 2 * Pow2(n - 1)
  }

  /** Bit k of n; bit 0 is the least significant. */
  predicate Bit(n: nat, k: nat) {
    if k == 0 then n % 2 == 1 else Bit(n / 2, k - 1)
  }

  function And(a: nat, b: nat): nat {
    if a == 0 then 0 else (a % 2) * (b % 2) + 2 * And(a / 2, b / 2)
  }

  function Or(a: nat, b: nat): nat
    decreases a + b
  {
    if a == 0 then b else if b == 0 then a
    else (if a % 2 == 1 || b % 2 == 1 then 1 else 0) + 2 * Or(a / 2, b / 2)
  }

  function Shl(a: nat, n: nat): nat {
    a * Pow2(n)
  }

  function Shr(a: nat, n: nat): nat {
    if n == 0 then a else Shr(a / 2, n - 1)
  }

  /** What is left of a in a word of w bits. */
  function Cut(a: nat, w: nat): (r: nat)
    ensures r < Pow2(w)
  {
    if w == 0 then 0 else 2 * Cut(a / 2, w - 1) + a % 2
  }

  function Mask(n: nat): nat {
    Pow2(n) - 1
  }

  /** All bits of a word of w bits inverted. */
  function Not(a: nat, w: nat): nat
    requires a < Pow2(w)
  {
    Pow2(w) - 1 - a
  }

  lemma {:induction false} NoBits(k: nat)
    ensures !Bit(0, k)
  {
    if k > 0 {
      NoBits(k - 1);
    }
  }

  lemma {:induction false} BitAnd(a: nat, b: nat, k: nat)
    ensures Bit(And(a, b), k) <==> Bit(a, k) && Bit(b, k)
  {
    if a == 0 {
      NoBits(k);
    } else {
      var low := (a % 2) * (b % 2);
      assert And(a, b) % 2 == low && And(a, b) / 2 == And(a / 2, b / 2) by {
        assert low == 0 || low == 1;
      }
      if k == 0 {
        assert low == 1 <==> a % 2 == 1 && b % 2 == 1;
      } else {
        BitAnd(a / 2, b / 2, k - 1);
      }
    }
  }

  lemma {:induction false} BitOr(a: nat, b: nat, k: nat)
    ensures Bit(Or(a, b), k) <==> Bit(a, k) || Bit(b, k)
    decreases a + b
  {
    if a == 0 || b == 0 {
      NoBits(k);
    } else {
      var low := if a % 2 == 1 || b % 2 == 1 then 1 else 0;
      assert Or(a, b) % 2 == low && Or(a, b) / 2 == Or(a / 2, b / 2);
      if k > 0 {
        BitOr(a / 2, b / 2, k - 1);
      }
    }
  }

  lemma {:induction false} BitShl(a: nat, n: nat, k: nat)
    ensures Bit(Shl(a, n), k) <==> k >= n && Bit(a, k - n)
  {
    if n > 0 {
      var half := Shl(a, n - 1);
      assert Shl(a, n) == 2 * half by {
        assert a * (2 * Pow2(n - 1)) == 2 * (a * Pow2(n - 1));
      }
      if k > 0 {
        BitShl(a, n - 1, k - 1);
      }
    }
  }

  lemma AtLeastOnce(d: int, k: int)
    requires d > 0 && k >= 1
    ensures d * k >= d
  {
    assert d * k == d + d * (k - 1);
    assert d * (k - 1) >= 0;
  }

  lemma DivUnique(n: int, d: int, q: int, r: int)
    requires d > 0 && 0 <= r < d && n == d * q + r
    ensures n / d == q && n % d == r
  {
    var q2, r2 := n / d, n % d;
    var k := q - q2;
    assert d * q2 + r2 == d * q + r;
    assert d * k == d * q - d * q2;
    if k > 0 {
      AtLeastOnce(d, k);
    } else if k < 0 {
      AtLeastOnce(d, -k);
    }
  }

  /** Half of a word, and the word of half the number. */
  lemma HalfOf(n: nat, m: nat)
    requires m > 0
    ensures n / (2 * m) == (n / 2) / m
    ensures n % (2 * m) == 2 * ((n / 2) % m) + n % 2
  {
    var q, r := (n / 2) / m, (n / 2) % m;
    assert n == (2 * m) * q + (2 * r + n % 2) by {
      assert n / 2 == m * q + r;
      assert 2 * (m * q) == (2 * m) * q;
    }
    DivUnique(n, 2 * m, q, 2 * r + n % 2);
  }

  /** Shifting right divides, and cutting takes the remainder. */
  lemma {:induction false} ShiftDivides(a: nat, n: nat)
    ensures Shr(a, n) == a / Pow2(n) && Cut(a, n) == a % Pow2(n)
  {
    if n > 0 {
      ShiftDivides(a / 2, n - 1);
      HalfOf(a, Pow2(n - 1));
    }
  }

  lemma {:induction false} BitShr(a: nat, n: nat, k: nat)
    ensures Bit(Shr(a, n), k) <==> Bit(a, n + k)
  {
    if n > 0 {
      BitShr(a / 2, n - 1, k);
    }
  }

  lemma {:induction false} BitCut(a: nat, w: nat, k: nat)
    ensures Bit(Cut(a, w), k) <==> k < w && Bit(a, k)
  {
    if w == 0 {
      NoBits(k);
    } else {
      assert Cut(a, w) / 2 == Cut(a / 2, w - 1);
      if k > 0 {
        BitCut(a / 2, w - 1, k - 1);
      }
    }
  }

  lemma {:induction false} BitMask(n: nat, k: nat)
    ensures Bit(Mask(n), k) <==> k < n
  {
    if n == 0 {
      NoBits(k);
    } else {
      assert Mask(n) == 2 * Mask(n - 1) + 1;
      if k > 0 {
        BitMask(n - 1, k - 1);
      }
    }
  }

  lemma {:induction false} BitNot(a: nat, w: nat, k: nat)
    requires a < Pow2(w)
    ensures Bit(Not(a, w), k) <==> k < w && !Bit(a, k)
  {
    if w == 0 {
      NoBits(k);
    } else {
      assert Not(a, w) == 2 * Not(a / 2, w - 1) + (1 - a % 2);
      if k > 0 {
        BitNot(a / 2, w - 1, k - 1);
      }
    }
  }

  /** A number is determined by its bits. */
  lemma {:induction false} SameBits(a: nat, b: nat)
    requires forall k: nat :: Bit(a, k) <==> Bit(b, k)
    ensures a == b
    decreases a + b
  {
    assert Bit(a, 0) <==> Bit(b, 0);
    if a != 0 || b != 0 {
      forall k: nat ensures Bit(a / 2, k) <==> Bit(b / 2, k) {
        assert Bit(a, k + 1) <==> Bit(b, k + 1);
      }
      SameBits(a / 2, b / 2);
    }
  }

  lemma {:induction false} NoHighBits(a: nat, w: nat, k: nat)
    requires a < Pow2(w) && w <= k
    ensures !Bit(a, k)
  {
    if k == 0 {
      assert a == 0;
    } else if w == 0 {
      NoBits(k);
    } else {
      NoHighBits(a / 2, w - 1, k - 1);
    }
  }

  /** A word without bits from w on fits in w bits. */
  lemma {:induction false} FewBits(a: nat, w: nat)
    requires forall k: nat :: w <= k ==> !Bit(a, k)
    ensures a < Pow2(w)
  {
    forall k: nat ensures Bit(Cut(a, w), k) <==> Bit(a, k) {
      BitCut(a, w, k);
    }
    SameBits(Cut(a, w), a);
  }

  lemma MaskCuts(a: nat, w: nat)
    ensures And(a, Mask(w)) == Cut(a, w)
  {
    forall k: nat ensures Bit(And(a, Mask(w)), k) <==> Bit(Cut(a, w), k) {
      BitAnd(a, Mask(w), k);
      BitMask(w, k);
      BitCut(a, w, k);
    }
    SameBits(And(a, Mask(w)), Cut(a, w));
  }
}

/**
 Bitwise operators of the source language on naturals: `&` and `|` of non-negative values, and
 `<<` and `^` at the width of a 64-bit word. A shift may have any count; bits beyond the word are lost.
 */
module Bits {
  import opened Arith

  const WORD := 0x1_0000_0000_0000_0000
  const ALL := WORD - 1

  function Pow2(n: nat): (p: nat)
    ensures p >= 1
  {
    if n == 0 then 1 else 2 * Pow2(n - 1)
  }

  function And(a: nat, b: nat): (r: nat)
    ensures r <= a && r <= b
  {
    if a == 0 || b == 0 then 0 else 2 * And(a / 2, b / 2) + (if a % 2 == 1 && b % 2 == 1 then 1 else 0)
  }

  function Or(a: nat, b: nat): (r: nat) {
    if a == 0 then b
    else if b == 0 then a
    else 2 * Or(a / 2, b / 2) + (if a % 2 == 1 || b % 2 == 1 then 1 else 0)
  }

  /** Complement of a 64-bit word. */
  function Not(a: nat): nat
    requires a < WORD
  {
    ALL - a
  }

  /** `m << n` on a 64-bit word. */
  function Shl(m: nat, n: nat): (r: nat)
    requires m < WORD
    ensures r < WORD
  {
    if n == 0 then m
    else
      var s := 2 * Shl(m, n - 1);
      if s < WORD then s else s - WORD
  }

  /** Binary digit `i` of `m`: what a mask means. */
  predicate Bit(m: nat, i: nat) {
    if i == 0 then m % 2 == 1 else Bit(m / 2, i - 1)
  }

  lemma {:induction false} AndBit(a: nat, b: nat, i: nat)
    ensures Bit(And(a, b), i) <==> Bit(a, i) && Bit(b, i)
  {
    if a == 0 || b == 0 {
      ZeroBit(i);
    } else if i > 0 {
      AndBit(a / 2, b / 2, i - 1);
    }
  }

  lemma {:induction false} OrBit(a: nat, b: nat, i: nat)
    ensures Bit(Or(a, b), i) <==> Bit(a, i) || Bit(b, i)
  {
    if a == 0 || b == 0 {
      ZeroBit(i);
    } else if i > 0 {
      OrBit(a / 2, b / 2, i - 1);
    }
  }

  lemma {:induction false} OrBelow(w: nat, a: nat, b: nat)
    requires a < Pow2(w) && b < Pow2(w)
    ensures Or(a, b) < Pow2(w)
  {
    if w > 0 && a > 0 && b > 0 {
      OrBelow(w - 1, a / 2, b / 2);
    }
  }

  lemma OrWord(a: nat, b: nat)
    requires a < WORD && b < WORD
    ensures Or(a, b) < WORD
  {
    WordWidth();
    OrBelow(64, a, b);
  }

  lemma {:induction false} ZeroBit(i: nat)
    ensures !Bit(0, i)
  {
    if i > 0 {
      ZeroBit(i - 1);
    }
  }

  /** Two naturals with the same binary digits are equal. */
  lemma {:induction false} BitsDetermine(a: nat, b: nat)
    requires forall i: nat :: Bit(a, i) <==> Bit(b, i)
    ensures a == b
    decreases a + b
  {
    assert Bit(a, 0) <==> Bit(b, 0);
    if a > 0 || b > 0 {
      forall i: nat ensures Bit(a / 2, i) <==> Bit(b / 2, i) {
        assert Bit(a, i + 1) <==> Bit(b, i + 1);
      }
      BitsDetermine(a / 2, b / 2);
    }
  }

  lemma {:induction false} PowBit(n: nat, i: nat)
    ensures Bit(Pow2(n), i) <==> n == i
  {
    if n > 0 && i > 0 {
      PowBit(n - 1, i - 1);
    } else if i > 0 {
      ZeroBit(i - 1);
    }
  }

  /** Digits below width `w` of `Pow2(w) - Pow2(n)` are those from `n` up. */
  lemma {:induction false} HighBits(w: nat, n: nat, i: nat)
    requires n <= w
    ensures Pow2(n) <= Pow2(w)
    ensures Bit(Pow2(w) - Pow2(n), i) <==> n <= i < w
    decreases w
  {
    if w == 0 {
      ZeroBit(i);
    } else if n > 0 {
      HighBits(w - 1, n - 1, if i > 0 then i - 1 else 0);
    } else {
      HighBits(w - 1, 0, if i > 0 then i - 1 else 0);
    }
  }

  lemma ComplementHalf(h: nat, a: nat)
    requires a < 2 * h
    ensures (2 * h - 1 - a) / 2 == h - 1 - a / 2 && a / 2 < h
    ensures (2 * h - 1 - a) % 2 == 1 - a % 2
  {
  }

  lemma {:induction false} ComplementBit(w: nat, a: nat, i: nat)
    requires a < Pow2(w) && i < w
    ensures Bit(Pow2(w) - 1 - a, i) <==> !Bit(a, i)
    decreases w
  {
    var h := Pow2(w - 1);
    assert Pow2(w) == 2 * h;
    hide Pow2;
    ComplementHalf(h, a);
    if i > 0 {
      ComplementBit(w - 1, a / 2, i - 1);
    }
  }

  lemma {:induction false} BitBelow(w: nat, a: nat, i: nat)
    requires a < Pow2(w) && w <= i
    ensures !Bit(a, i)
    decreases w
  {
    if w == 0 {
      ZeroBit(i);
    } else {
      BitBelow(w - 1, a / 2, i - 1);
    }
  }

  lemma Pow8(n: nat)
    ensures Pow2(n + 8) == 256 * Pow2(n)
  {
    assert Pow2(n + 2) == 4 * Pow2(n);
    assert Pow2(n + 4) == 16 * Pow2(n);
    assert Pow2(n + 6) == 64 * Pow2(n);
  }

  lemma WordWidth()
    ensures Pow2(64) == WORD
  {
    assert Pow2(0) == 1;
    hide Pow2;
    Pow8(0); Pow8(8); Pow8(16); Pow8(24); Pow8(32); Pow8(40); Pow8(48); Pow8(56);
  }

  lemma {:induction false} PowMonotone(n: nat, k: nat)
    requires n <= k
    ensures Pow2(n) <= Pow2(k)
  {
    if n < k {
      PowMonotone(n, k - 1);
    }
  }

  lemma HalfWord(n: nat)
    requires n < 64
    ensures 2 * Pow2(n) <= WORD
  {
    WordWidth();
    PowMonotone(n + 1, 64);
  }

  lemma {:induction false} ShlOne(n: nat)
    ensures Shl(1, n) == if n < 64 then Pow2(n) else 0
  {
    if n > 0 {
      ShlOne(n - 1);
      if n < 64 {
        HalfWord(n);
      } else if n == 64 {
        WordWidth();
      }
    }
  }

  lemma {:induction false} ShlOnes(n: nat)
    ensures n < 64 ==> Pow2(n) < WORD
    ensures Shl(ALL, n) == if n < 64 then WORD - Pow2(n) else 0
  {
    if n > 0 {
      ShlOnes(n - 1);
      if n < 64 {
        HalfWord(n);
      } else if n == 64 {
        WordWidth();
      }
    }
  }

  lemma {:induction false} PowAnd(i: nat, m: nat)
    ensures And(Pow2(i), m) != 0 <==> Bit(m, i)
  {
    if m == 0 {
      ZeroBit(i);
    } else if i > 0 {
      PowAnd(i - 1, m / 2);
    } else {
      assert Pow2(0) / 2 == 0;
    }
  }

  /** The test `1<<uint(i) & m != 0` reads binary digit `i` of the word `m`. */
  lemma MaskTest(m: nat, i: nat)
    requires m < WORD
    ensures And(Shl(1, i), m) != 0 <==> Bit(m, i)
  {
    ShlOne(i);
    if i < 64 {
      PowAnd(i, m);
    } else {
      WordWidth();
      BitBelow(64, m, i);
    }
  }

  /** `m |= 1 << n` adds digit `n`, when the word has one. */
  lemma SetBit(m: nat, n: nat, i: nat)
    ensures Bit(Or(m, Shl(1, n)), i) <==> Bit(m, i) || (i == n && n < 64)
  {
    OrBit(m, Shl(1, n), i);
    ShlOne(n);
    PowBit(n, i);
    ZeroBit(i);
  }

  /** The mask built for an unstepped range holds exactly the digits of that range. */
  lemma RangeMask(start: nat, end: nat, i: nat)
    requires end < 63
    ensures Bit(And(Not(Shl(ALL, end + 1)), Shl(ALL, start)), i) <==> start <= i <= end
  {
    hide And, Bit, Shl, Pow2;
    WordWidth();
    AndBit(Not(Shl(ALL, end + 1)), Shl(ALL, start), i);
    ShlOnes(end + 1);
    ShlOnes(start);
    ZeroBit(i);
    HighBits(64, end + 1, i);
    if start < 64 {
      HighBits(64, start, i);
    }
    if i < 64 {
      ComplementBit(64, Shl(ALL, end + 1), i);
    }
  }

  lemma AndOdd(x: nat, p: nat)
    requires p > 0
    ensures And(x, 2 * p - 1) == 2 * And(x / 2, p - 1) + x % 2
  {
    assert (2 * p - 1) / 2 == p - 1 && (2 * p - 1) % 2 == 1;
  }

  /** Masking with one less than a power of two is the remainder by that power. */
  lemma {:induction false} AndIsMod(x: nat, k: nat)
    ensures And(x, Pow2(k) - 1) == x % Pow2(k)
  {
    hide And, Pow2;
    if k == 0 {
      AndZero(x);
    } else {
      PowTwice(k);
      AndIsMod(x / 2, k - 1);
      AndIsModStep(x, Pow2(k - 1), Pow2(k));
    }
  }

  lemma PowTwice(k: nat)
    requires k > 0
    ensures Pow2(k) == 2 * Pow2(k - 1)
  {
  }

  lemma AndIsModStep(x: nat, p: nat, m: nat)
    requires m == 2 * p && p > 0 && And(x / 2, p - 1) == x / 2 % p
    ensures And(x, m - 1) == x % m
  {
    hide And;
    AndOdd(x, p);
    HalfMod(x, p);
  }

  lemma AndZero(x: nat)
    ensures And(x, 0) == 0 && Pow2(0) == 1
  {
  }

  lemma HalfMod(x: nat, p: nat)
    requires p > 0
    ensures x % (2 * p) == 2 * (x / 2 % p) + x % 2
  {
    var q, r := x / 2 / p, x / 2 % p;
    assert x == q * (2 * p) + (2 * r + x % 2) by {
      assert x / 2 == p * q + r;
    }
    QuotientUnique(x, 2 * p, q, 2 * r + x % 2);
  }
}

/** Powers of two, alignment and the few machine-word operations the kernel uses on sizes. */
module Bits {

  function Pow2(k: nat): (p: nat)
    ensures p >= 1
  {
    if k == 0 then 1 else 2 * Pow2(k - 1)
  }

  /** x is a multiple of 2^k; AlignedMeansMultiple gives the reading with `%`. */
  predicate Aligned(x: nat, k: nat) {
    k == 0 || (x % 2 == 0 && Aligned(x / 2, k - 1))
  }

  lemma {:induction false} AlignedMeansMultiple(x: nat, k: nat)
    ensures Aligned(x, k) <==> x % Pow2(k) == 0
  {
    if k > 0 {
      AlignedMeansMultiple(x / 2, k - 1);
      DoubleMod(x, Pow2(k - 1));
    }
  }

  lemma DoubleMod(x: nat, p: nat)
    requires p >= 1
    ensures x % (2 * p) == 0 <==> x % 2 == 0 && (x / 2) % p == 0
  {
    var q, r := x / (2 * p), x % (2 * p);
    assert x == 2 * (p * q) + r;
    var y := x / 2;
    assert y == p * q + r / 2;
    if r / 2 < p {
      DivModUnique(y, p, q, r / 2);
    }
  }

  lemma DivModUnique(y: nat, p: nat, q: nat, r: nat)
    requires p >= 1 && y == p * q + r && r < p
    ensures y % p == r && y / p == q
  {
    var d := y / p - q;
    assert p * (y / p) == p * q + p * d;
    assert p * d == r - y % p;
    assert d > 0 ==> p * d >= p;
    assert d < 0 ==> p * d + p <= 0;
  }

  lemma {:induction false} Pow2Monotone(j: nat, k: nat)
    requires j <= k
    ensures Pow2(j) <= Pow2(k)
    ensures j < k ==> 2 * Pow2(j) <= Pow2(k)
  {
    if j < k { Pow2Monotone(j, k - 1); }
  }

  lemma {:induction false} AlignedCoarser(x: nat, j: nat, k: nat)
    requires j <= k && Aligned(x, k)
    ensures Aligned(x, j)
  {
    if j > 0 { AlignedCoarser(x / 2, j - 1, k - 1); }
  }

  lemma {:induction false} AlignedZero(k: nat)
    ensures Aligned(0, k)
  {
    if k > 0 { AlignedZero(k - 1); }
  }

  /** The second half of an aligned block is aligned to the half, and adding the block keeps alignment. */
  lemma {:induction false} AlignedPlus(x: nat, j: nat, k: nat)
    requires j <= k && Aligned(x, j)
    ensures Aligned(x + Pow2(k), j)
  {
    if j > 0 {
      assert (x + Pow2(k)) / 2 == x / 2 + Pow2(k - 1);
      AlignedPlus(x / 2, j - 1, k - 1);
    }
  }

  /** Of two buddies exactly one starts a block of the next order. */
  lemma {:induction false} AlignedBuddy(x: nat, k: nat)
    requires Aligned(x, k)
    ensures Aligned(x, k + 1) ==> Aligned(x + Pow2(k), k) && !Aligned(x + Pow2(k), k + 1)
    ensures !Aligned(x, k + 1) ==> x >= Pow2(k) && Aligned(x - Pow2(k), k + 1)
  {
    if k > 0 {
      AlignedBuddy(x / 2, k - 1);
      assert (x + Pow2(k)) / 2 == x / 2 + Pow2(k - 1);
      if !Aligned(x, k + 1) {
        assert (x - Pow2(k)) / 2 == x / 2 - Pow2(k - 1);
      }
    } else {
      assert Aligned(x + 1, 1) <==> (x + 1) % 2 == 0;
      assert Aligned(x, 1) <==> x % 2 == 0;
    }
  }

  /** Aligned power-of-two blocks are nested or disjoint. */
  lemma {:induction false} NestedOrDisjoint(x: nat, j: nat, y: nat, k: nat)
    requires j <= k && Aligned(x, j) && Aligned(y, k)
    requires x < y + Pow2(k) && y < x + Pow2(j)
    ensures y <= x && x + Pow2(j) <= y + Pow2(k)
  {
    if j > 0 { NestedOrDisjoint(x / 2, j - 1, y / 2, k - 1); }
  }

  /** Scaling by 2^n shifts alignment by n. */
  lemma {:induction false} AlignedScale(x: nat, k: nat, n: nat)
    ensures Aligned(x * Pow2(n), k + n) == Aligned(x, k)
  {
    if n > 0 {
      AlignedScale(x, k, n - 1);
      assert x * Pow2(n) == 2 * (x * Pow2(n - 1));
    } else {
      assert x * Pow2(0) == x;
    }
  }

  lemma {:induction false} Pow2Add(j: nat, k: nat)
    ensures Pow2(j + k) == Pow2(j) * Pow2(k)
  {
    if j > 0 {
      Pow2Add(j - 1, k);
      assert Pow2(j + k) == 2 * (Pow2(j - 1) * Pow2(k));
    }
  }

  /** `^` on unsigned words. */
  function Xor(a: nat, b: nat): nat
    decreases a + b
  {
    if a == 0 && b == 0 then 0 else 2 * Xor(a / 2, b / 2) + (if a % 2 != b % 2 then 1 else 0)
  }

  /** `&` on unsigned words. */
  function And(a: nat, b: nat): nat {
    if a == 0 then 0 else 2 * And(a / 2, b / 2) + (if a % 2 == 1 && b % 2 == 1 then 1 else 0)
  }

  lemma {:induction false} XorZero(a: nat)
    ensures Xor(a, 0) == a
  {
    if a > 0 { XorZero(a / 2); }
  }

  /** Flipping bit k of a multiple of 2^k moves between the two halves of the enclosing 2^(k+1) block. */
  lemma {:induction false} XorBuddy(a: nat, k: nat)
    requires Aligned(a, k)
    ensures Aligned(a, k + 1) ==> Xor(a, Pow2(k)) == a + Pow2(k)
    ensures !Aligned(a, k + 1) ==> a >= Pow2(k) && Xor(a, Pow2(k)) == a - Pow2(k)
  {
    if k == 0 {
      XorZero(a / 2);
      assert Aligned(a, 1) <==> a % 2 == 0;
      assert Xor(a, 1) == 2 * Xor(a / 2, 0) + (if a % 2 != 1 then 1 else 0);
    } else {
      XorBuddy(a / 2, k - 1);
      assert Pow2(k) % 2 == 0 && Pow2(k) / 2 == Pow2(k - 1);
      assert Xor(a, Pow2(k)) == 2 * Xor(a / 2, Pow2(k - 1));
    }
  }

  /** Number of significant bits; 64 - __builtin_clzll(n) for 0 < n < 2^64. */
  function BitLength(n: nat): (l: nat)
    ensures n < Pow2(l)
    ensures n > 0 ==> l > 0 && Pow2(l - 1) <= n
  {
    if n == 0 then 0 else 1 + BitLength(n / 2)
  }

  lemma {:induction false} AndZero(n: nat)
    ensures And(n, 0) == 0
  {
    if n > 0 { AndZero(n / 2); }
  }

  lemma {:induction false} AndSelf(n: nat)
    ensures And(n, n) == n
  {
    if n > 0 { AndSelf(n / 2); }
  }

  /** n & (n - 1) is zero exactly for powers of two: then n has one significant bit. */
  lemma {:induction false} PowerOfTwoTest(n: nat)
    requires n > 0
    ensures And(n, n - 1) == 0 <==> n == Pow2(BitLength(n) - 1)
  {
    if n == 1 {
      assert BitLength(1) == 1;
      AndZero(1);
    } else if n % 2 == 1 {
      AndSelf(n / 2);
      assert (n - 1) / 2 == n / 2;
      assert BitLength(n) == 1 + BitLength(n / 2);
      assert Pow2(BitLength(n) - 1) == 2 * Pow2(BitLength(n) - 2);
    } else {
      assert (n - 1) / 2 == n / 2 - 1;
      PowerOfTwoTest(n / 2);
      assert BitLength(n) == 1 + BitLength(n / 2);
    }
  }

  /** BitLength is determined by the power-of-two bracket. */
  lemma BitLengthUnique(n: nat, l: nat)
    requires l > 0 && Pow2(l - 1) <= n < Pow2(l)
    ensures BitLength(n) == l
  {
    var b := BitLength(n);
    if b < l { Pow2Monotone(b, l - 1); }
    if l < b { Pow2Monotone(l, b - 1); }
  }
}

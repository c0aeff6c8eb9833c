/** Bit patterns as numbers: shifts, powers of two, and `&` with a run of ones. */
module Bits {
  import opened Arithmetic

  function Pow2(n: nat): (p: nat)
    ensures p > 0
  {
    if n == 0 then 1 else 2 * Pow2(n - 1)
  }

  /** `x << k`, unbounded. */
  function Shl(x: nat, k: nat): nat {
    if k == 0 then x else 2 * Shl(x, k - 1)
  }

  /** `x >> k`. */
  function Shr(x: nat, k: nat): nat {
    if k == 0 then x else Shr(x / 2, k - 1)
  }

  /** The last `k` bits of `x`. */
  function Low(x: nat, k: nat): nat {
    if k == 0 then 0 else x % 2 + 2 * Low(x / 2, k - 1)
  }

  /** `x & y`. */
  function And(x: nat, y: nat): nat {
    if x == 0 || y == 0 then 0 else (if x % 2 == 1 && y % 2 == 1 then 1 else 0) + 2 * And(x / 2, y / 2)
  }

  /** `x | y`. */
  function Or(x: nat, y: nat): nat {
    if x == 0 then y
    else if y == 0 then x
    else (if x % 2 == 1 || y % 2 == 1 then 1 else 0) + 2 * Or(x / 2, y / 2)
  }

  /** `b` ones with `k` zeros behind them. */
  function Ones(b: nat, k: nat): nat {
    if k > 0 then 2 * Ones(b, k - 1) else if b == 0 then 0 else 2 * Ones(b - 1, 0) + 1
  }

  lemma {:induction false} OnesValue(b: nat, k: nat)
    ensures Ones(b, k) + Pow2(k) == Pow2(b + k)
    decreases k, b
  {
    if k > 0 {
      OnesValue(b, k - 1);
    } else if b > 0 {
      OnesValue(b - 1, 0);
    }
  }

  lemma Double(a: nat, b: nat)
    ensures a * (2 * b) == 2 * (a * b) && (2 * b) * a == 2 * (b * a)
  {
  }

  lemma Pow2Next(n: nat)
    ensures Pow2(n + 1) == 2 * Pow2(n)
  {
  }

  lemma {:induction false} ShlIsProduct(x: nat, k: nat)
    ensures Shl(x, k) == x * Pow2(k)
  {
    if k > 0 {
      ShlIsProduct(x, k - 1);
      Double(x, Pow2(k - 1));
    }
  }

  lemma {:induction false} HighAndLow(x: nat, k: nat)
    ensures x == Shl(Shr(x, k), k) + Low(x, k) && Low(x, k) < Pow2(k)
    decreases k
  {
    if k > 0 {
      HighAndLow(x / 2, k - 1);
    }
  }

  /** A shifted number and one that fits under the shift have no bits in common. */
  lemma {:induction false} OrDisjoint(x: nat, y: nat, k: nat)
    requires y < Pow2(k)
    ensures Or(Shl(x, k), y) == Shl(x, k) + y
    decreases k
  {
    if k > 0 {
      OrDisjoint(x, y / 2, k - 1);
    }
  }

  lemma {:induction false} AndBelow(x: nat, y: nat)
    ensures And(x, y) <= x
    decreases x
  {
    if x > 0 && y > 0 {
      AndBelow(x / 2, y / 2);
    }
  }

  /** The powers the address families use. */
  lemma Powers()
    ensures Pow2(0) == 1 && Pow2(4) == 16 && Pow2(8) == 0x100 && Pow2(16) == 0x1_0000
    ensures Pow2(20) == 0x10_0000 && Pow2(24) == 0x100_0000 && Pow2(32) == 0x1_0000_0000
  {
    assert Pow2(4) == 16;
    Pow2Add(4, 4);
    Pow2Add(8, 8);
    Pow2Add(16, 4);
    Pow2Add(16, 8);
    Pow2Add(16, 16);
  }

  lemma {:induction false} Pow2Add(m: nat, n: nat)
    ensures Pow2(m + n) == Pow2(m) * Pow2(n)
  {
    if m > 0 {
      Pow2Add(m - 1, n);
      Pow2Next(m - 1);
      Pow2Next(m - 1 + n);
      hide Pow2;
      assert m - 1 + n + 1 == m + n;
      Double(Pow2(n), Pow2(m - 1));
    }
  }

  /** Shifts are division, and the last bits are the remainder. */
  lemma ShiftIsDivision(x: nat, k: nat)
    ensures Shr(x, k) == x / Pow2(k) && Low(x, k) == x % Pow2(k)
  {
    HighAndLow(x, k);
    ShlIsProduct(Shr(x, k), k);
    DivMod(Pow2(k), Shr(x, k), Low(x, k));
  }

  lemma {:induction false} ShrOf(s: nat, r: nat, k: nat)
    requires r < Pow2(k)
    ensures Shr(Shl(s, k) + r, k) == s && Low(Shl(s, k) + r, k) == r
    decreases k
  {
    if k > 0 {
      ShrOf(s, r / 2, k - 1);
      assert (Shl(s, k) + r) / 2 == Shl(s, k - 1) + r / 2;
    }
  }

  lemma {:induction false} ShrShr(x: nat, j: nat, k: nat)
    ensures Shr(Shr(x, j), k) == Shr(x, j + k)
    decreases j
  {
    if j > 0 {
      ShrShr(x / 2, j - 1, k);
    }
  }

  lemma {:induction false} ShrBelow(x: nat, b: nat, k: nat)
    requires x < Pow2(b + k)
    ensures Shr(x, k) < Pow2(b)
    decreases k
  {
    if k > 0 {
      ShrBelow(x / 2, b, k - 1);
    }
  }

  lemma {:induction false} LowWhole(x: nat, b: nat)
    requires x < Pow2(b)
    ensures Low(x, b) == x
    decreases b
  {
    if b > 0 {
      LowWhole(x / 2, b - 1);
    }
  }

  lemma {:induction false} AndLow(x: nat, b: nat)
    ensures And(x, Ones(b, 0)) == Low(x, b)
    decreases b
  {
    if b > 0 {
      AndLow(x / 2, b - 1);
      LowZero(b);
    }
  }

  lemma {:induction false} LowZero(b: nat)
    ensures Low(0, b) == 0
  {
    if b > 0 {
      LowZero(b - 1);
    }
  }

  lemma {:induction false} ShlZero(k: nat)
    ensures Shl(0, k) == 0 && Shr(0, k) == 0
  {
    if k > 0 {
      ShlZero(k - 1);
    }
  }

  /** `x & mask` keeps the bits under the ones of the mask. */
  lemma {:induction false} AndOnes(x: nat, b: nat, k: nat)
    ensures And(x, Ones(b, k)) == Shl(Low(Shr(x, k), b), k)
    decreases k
  {
    if k == 0 {
      AndLow(x, b);
    } else {
      AndOnes(x / 2, b, k - 1);
      if x == 0 {
        ShlZero(k);
        LowZero(b);
      }
    }
  }

  lemma {:induction false} OnesShifted(b: nat, k: nat)
    ensures Ones(b, k) == Shl(Ones(b, 0), k)
  {
    if k > 0 {
      OnesShifted(b, k - 1);
    }
  }

  /** Cutting a shifted run of ones to `n` bits. */
  lemma {:induction false} LowOnes(b: nat, k: nat, n: nat)
    requires k <= n <= b + k
    ensures Low(Ones(b, k), n) == Ones(n - k, k)
    decreases n
  {
    if k > 0 {
      LowOnes(b, k - 1, n - 1);
    } else if n > 0 {
      LowOnes(b - 1, 0, n - 1);
    }
  }

  lemma {:induction false} LowOnesZero(b: nat, k: nat, n: nat)
    requires n <= k
    ensures Low(Ones(b, k), n) == 0
    decreases n
  {
    hide Ones;
    if n > 0 {
      OnesHalf(b, k);
      LowOnesZero(b, k - 1, n - 1);
    }
  }

  lemma OnesHalf(b: nat, k: nat)
    ensures k > 0 ==> Ones(b, k) / 2 == Ones(b, k - 1) && Ones(b, k) % 2 == 0
    ensures k == 0 && b > 0 ==> Ones(b, 0) / 2 == Ones(b - 1, 0) && Ones(b, 0) % 2 == 1
  {
  }

  /** Shifting a run of ones to the right drops the zeros first, then ones. */
  lemma {:induction false} ShrOnes(b: nat, k: nat, m: nat)
    requires m <= b + k
    ensures Shr(Ones(b, k), m) == (if m <= k then Ones(b, k - m) else Ones(b + k - m, 0))
    decreases m
  {
    hide Ones;
    if m > 0 {
      OnesHalf(b, k);
      if k > 0 {
        ShrOnes(b, k - 1, m - 1);
      } else {
        ShrOnes(b - 1, 0, m - 1);
      }
    }
  }

  lemma {:induction false} LowLow(x: nat, m: nat, n: nat)
    requires n <= m
    ensures Low(Low(x, m), n) == Low(x, n)
    decreases n
  {
    if n > 0 {
      LowLow(x / 2, m - 1, n - 1);
    }
  }

  /** The first address of the block that `x` is in: its last `k` bits cleared. */
  function Base(x: nat, k: nat): nat {
    Shl(Shr(x, k), k)
  }

  /** For numbers of `b + k` bits, `x & mask` is `x` rounded down to a multiple of 2^k. */
  lemma AndMask(x: nat, b: nat, k: nat)
    requires x < Pow2(b + k)
    ensures And(x, Ones(b, k)) == Base(x, k)
  {
    AndOnes(x, b, k);
    ShrBelow(x, b, k);
    LowWhole(Shr(x, k), b);
  }

  /** A number lies in the block of `x` exactly when it has the same leading bits. */
  lemma InBlock(x: nat, y: nat, k: nat)
    ensures Base(x, k) <= y < Base(x, k) + Pow2(k) <==> Shr(y, k) == Shr(x, k)
    ensures Shr(y, k) == Shr(x, k) <==> Base(y, k) == Base(x, k)
  {
    hide Shr, Shl, Low, Pow2;
    HighAndLow(x, k);
    HighAndLow(y, k);
    if Base(x, k) <= y < Base(x, k) + Pow2(k) {
      ShrOf(Shr(x, k), y - Base(x, k), k);
    }
    ShrOf(Shr(x, k), 0, k);
    ShrOf(Shr(y, k), 0, k);
  }

  /** `y` is in the block of `x` that leaves `k` bits free. */
  predicate SameBlock(x: nat, y: nat, k: nat) {
    Shr(y, k) == Shr(x, k)
  }

  lemma SameLeading(x: nat, y: nat, j: nat, k: nat)
    requires j <= k && SameBlock(x, y, j)
    ensures SameBlock(x, y, k)
  {
    ShrShr(x, j, k - j);
    ShrShr(y, j, k - j);
  }

  /** Any two blocks are disjoint, or the one with the longer prefix lies within the other. */
  lemma Laminar(x: nat, j: nat, y: nat, k: nat)
    requires j <= k
    ensures (forall z: nat :: SameBlock(x, z, j) ==> SameBlock(y, z, k))
         || (forall z: nat :: !(SameBlock(x, z, j) && SameBlock(y, z, k)))
  {
    hide Shr;
    forall z: nat | SameBlock(x, z, j) ensures SameBlock(x, z, k) {
      SameLeading(x, z, j, k);
    }
  }
}

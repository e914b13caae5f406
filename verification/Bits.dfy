/** Bitwise operators of the C source on unsigned 32-bit words, kept as naturals, and the
    mask idioms of the kernel: `x & (2^k - 1)`, `x & ~(2^k - 1)` and `a | b` on disjoint bits. */
module Bits {

  const TWO_32: nat := 0x1_0000_0000

  /** MEM_PAGE_SIZE */
  const PAGE: nat := 4096

  function Pow2(k: nat): (p: nat)
    ensures p > 0
    decreases k
  {
    if k == 0 then 1 else 2 * Pow2(k - 1)
  }

  function And(x: nat, y: nat): nat
    decreases x
  {
    if x == 0 then 0 else 2 * And(x / 2, y / 2) + (x % 2) * (y % 2)
  }

  function Or(x: nat, y: nat): nat
    decreases x + y
  {
    if x == 0 && y == 0 then 0
    else 2 * Or(x / 2, y / 2) + (if x % 2 == 1 || y % 2 == 1 then 1 else 0)
  }

  function Not32(x: nat): nat
    requires x < TWO_32
  {
    TWO_32 - 1 - x
  }

  function Shr(x: nat, k: nat): nat
    decreases k
  {
    if k == 0 then x else Shr(x / 2, k - 1)
  }

  lemma EightBits(m: nat)
    ensures Pow2(m + 8) == 0x100 * Pow2(m)
  {
    hide *;
    FourBits(m);
    FourBits(m + 4);
  }

  lemma FourBits(m: nat)
    ensures Pow2(m + 4) == 0x10 * Pow2(m)
  {
    hide *;
    OneBitMore(m);
    OneBitMore(m + 1);
    OneBitMore(m + 2);
    OneBitMore(m + 3);
  }

  lemma OneBitMore(m: nat)
    ensures Pow2(m + 1) == 2 * Pow2(m)
  {
  }

  lemma {:induction false} Pow2Monotone(j: nat, k: nat)
    requires j <= k
    ensures Pow2(j) <= Pow2(k)
    decreases k
  {
    if j < k {
      Pow2Monotone(j, k - 1);
    }
  }

  /** A step of the bit-by-bit inductions: dividing by 2 commutes with `% 2^k`. */
  lemma HalfMod(x: nat, p: nat)
    requires p > 0
    ensures x / (2 * p) == x / 2 / p && x % (2 * p) == 2 * (x / 2 % p) + x % 2
  {
    var q, r := x / 2 / p, x / 2 % p;
    assert x / 2 == q * p + r;
    assert x == 2 * (x / 2) + x % 2;
    assert x == q * (2 * p) + (2 * r + x % 2) by {
      assert 2 * (q * p) == q * (2 * p);
    }
    DivModUnique(x, q, 2 * r + x % 2, 2 * p);
  }

  lemma DivModUnique(x: nat, q: nat, r: nat, n: nat)
    requires n > 0 && r < n && x == q * n + r
    ensures x / n == q && x % n == r
  {
    var q', r' := x / n, x % n;
    assert x == q' * n + r';
    QuotientUnique(q, r, q', r', n);
  }

  lemma QuotientUnique(q: int, r: int, q': int, r': int, n: int)
    requires 0 <= r < n && 0 <= r' < n && q * n + r == q' * n + r'
    ensures q == q' && r == r'
  {
    assert (q - q') * n == r' - r;
    if q != q' {
      ScaleGap(q - q', n);
    }
  }

  lemma ScaleGap(d: int, n: int)
    requires d != 0 && n > 0
    ensures d * n >= n || d * n <= -n
  {
    var k: nat := if d > 0 then d else -d;
    MulAtLeast(k, n);
    assert k * n == if d > 0 then d * n else -(d * n);
  }

  lemma MulAtLeast(k: nat, n: nat)
    requires k >= 1
    ensures k * n >= n
  {
    assert k * n == (k - 1) * n + n;
  }

  lemma ScaleStrict(a: nat, b: nat, n: nat)
    requires a < b
    ensures a * n + n <= b * n
  {
    assert b * n == a * n + (b - a) * n;
    MulAtLeast(b - a, n);
  }

  lemma MultipleMod(q: nat, n: nat)
    requires n > 0
    ensures (q * n) % n == 0 && (q * n) / n == q
  {
    DivModUnique(q * n, q, 0, n);
  }

  /** `x & (2^k - 1)` is the remainder. */
  lemma {:induction false} LowMask(x: nat, k: nat)
    ensures And(x, Pow2(k) - 1) == x % Pow2(k)
    decreases k
  {
    if k == 0 {
      AndZero(x);
    } else if x != 0 {
      var p := Pow2(k - 1);
      assert (Pow2(k) - 1) / 2 == p - 1 && (Pow2(k) - 1) % 2 == 1;
      LowMask(x / 2, k - 1);
      HalfMod(x, p);
    }
  }

  lemma {:induction false} AndZero(x: nat)
    ensures And(x, 0) == 0
  {
    if x != 0 {
      AndZero(x / 2);
    }
  }

  /** `x & (2^n - 2^k)` clears the low k bits of an n-bit word. */
  lemma {:induction false} HighMask(x: nat, n: nat, k: nat)
    requires k <= n && x < Pow2(n)
    ensures Pow2(k) <= Pow2(n)
    ensures And(x, Pow2(n) - Pow2(k)) == x - x % Pow2(k)
    decreases n
  {
    Pow2Monotone(k, n);
    if k == 0 {
      LowMask(x, n);
      SmallMod(x, Pow2(n));
    } else if x != 0 {
      HighMask(x / 2, n - 1, k - 1);
      HalfMod(x, Pow2(k - 1));
      HalfMask(n, k);
    } else {
      SmallMod(0, Pow2(k));
    }
  }

  lemma HalfMask(n: nat, k: nat)
    requires 1 <= k <= n
    ensures Pow2(k) <= Pow2(n)
    ensures (Pow2(n) - Pow2(k)) / 2 == Pow2(n - 1) - Pow2(k - 1)
    ensures (Pow2(n) - Pow2(k)) % 2 == 0
  {
    Pow2Monotone(k, n);
  }

  lemma SmallMod(x: nat, n: nat)
    requires x < n
    ensures x % n == x && x / n == 0
  {
    DivModUnique(x, 0, x, n);
  }

  /** `a | b` is addition when the low k bits of a are clear and b fits in them. */
  lemma {:induction false} OrDisjoint(a: nat, b: nat, k: nat)
    requires a % Pow2(k) == 0 && b < Pow2(k)
    ensures Or(a, b) == a + b
    decreases k
  {
    if k == 0 {
      OrZero(a);
    } else if a != 0 || b != 0 {
      HalfMod(a, Pow2(k - 1));
      OrDisjoint(a / 2, b / 2, k - 1);
    }
  }

  lemma {:induction false} OrZero(a: nat)
    ensures Or(a, 0) == a
  {
    if a != 0 {
      OrZero(a / 2);
    }
  }

  /** The values of the powers used as page, table and sector sizes. */
  lemma Powers()
    ensures Pow2(0) == 1 && Pow2(1) == 2 && Pow2(3) == 8 && Pow2(9) == 512 && Pow2(10) == 1024
    ensures Pow2(11) == 2048 && Pow2(12) == 4096 && Pow2(16) == 0x1_0000 && Pow2(22) == 0x40_0000 && Pow2(32) == TWO_32
  {
    assert Pow2(4) == 16 && Pow2(8) == 256 && Pow2(16) == 0x1_0000;
    assert Pow2(20) == 0x10_0000 && Pow2(24) == 0x100_0000 && Pow2(28) == 0x1000_0000;
  }
}

/** kernel/include/tools/klib.h: rounding to a multiple of a power of two. */
module Klib {
  import opened Bits

  function Down2(size: nat, bound: nat): nat
    requires size < TWO_32 && 0 < bound <= TWO_32
  {
    And(size, Not32(bound - 1))
  }

  function Up2(size: nat, bound: nat): nat
    requires size < TWO_32 && 0 < bound <= TWO_32
  {
    And((size + bound - 1) % TWO_32, Not32(bound - 1))
  }

  /** r is the least multiple of bound that is at least size. */
  ghost predicate IsRoundedUp(r: nat, size: nat, bound: nat)
    requires bound > 0
  {
    r % bound == 0 && size <= r < size + bound
  }

  /** The complement mask of the macro clears the low k bits. */
  lemma ClearLowBits(w: nat, k: nat)
    requires w < TWO_32 && k <= 32
    ensures Pow2(k) <= TWO_32
    ensures And(w, Not32(Pow2(k) - 1)) == w - w % Pow2(k)
  {
    Powers();
    HighMask(w, 32, k);
  }

  lemma Down2IsFloor(size: nat, k: nat)
    requires size < TWO_32 && k <= 32
    ensures Pow2(k) <= TWO_32
    ensures Down2(size, Pow2(k)) == size - size % Pow2(k)
  {
    ClearLowBits(size, k);
  }

  lemma Up2WithoutWrap(size: nat, k: nat)
    requires size < TWO_32 && k <= 32 && size + Pow2(k) - 1 < TWO_32
    ensures Pow2(k) <= TWO_32
    ensures Up2(size, Pow2(k)) == (size + Pow2(k) - 1) / Pow2(k) * Pow2(k)
    ensures IsRoundedUp(Up2(size, Pow2(k)), size, Pow2(k))
  {
    var b, s := Pow2(k), size + Pow2(k) - 1;
    SmallMod(s, TWO_32);
    ClearLowBits(s, k);
    RoundedSum(size, b);
  }

  lemma RoundedSum(size: nat, b: nat)
    requires b > 0
    ensures var s := size + b - 1;
            s - s % b == s / b * b && IsRoundedUp(s / b * b, size, b)
  {
    var s := size + b - 1;
    assert s == s / b * b + s % b;
    MultipleMod(s / b, b);
  }

  lemma Up2Wraps(size: nat, k: nat)
    requires size < TWO_32 && k <= 32 && size + Pow2(k) - 1 >= TWO_32
    ensures Pow2(k) <= TWO_32
    ensures Up2(size, Pow2(k)) == 0 < size
  {
    ClearLowBits(0, k);
    var s := size + Pow2(k) - 1;
    DivModUnique(s, 1, s - TWO_32, TWO_32);
    ClearLowBits(s - TWO_32, k);
    SmallMod(s - TWO_32, Pow2(k));
  }

  /** up2 rounds up exactly when the intermediate sum does not wrap around 2^32. */
  lemma Up2RoundsUpIff(size: nat, k: nat)
    requires size < TWO_32 && k <= 32
    ensures Pow2(k) <= TWO_32
    ensures IsRoundedUp(Up2(size, Pow2(k)), size, Pow2(k)) <==> size + Pow2(k) - 1 < TWO_32
  {
    ClearLowBits(0, k);
    if size + Pow2(k) - 1 < TWO_32 {
      Up2WithoutWrap(size, k);
    } else {
      Up2Wraps(size, k);
    }
  }
}

/** The numbers below a bound, and sums. */
module Counting {
  ghost function Below(n: nat): set<nat> {
    if n == 0 then {} else Below(n - 1) + {n - 1}
  }

  lemma {:induction false} BelowIs(n: nat)
    ensures |Below(n)| == n
    ensures forall p: nat :: p in Below(n) <==> p < n
  {
    if n > 0 {
      BelowIs(n - 1);
    }
  }

  function Sum(s: seq<nat>): nat {
    if s == [] then 0 else Sum(s[..|s| - 1]) + s[|s| - 1]
  }

  lemma SumNone(s: seq<nat>)
    ensures Sum(s[..0]) == 0
  {
  }

  lemma {:induction false} SumPrefix(s: seq<nat>, k: nat)
    requires k <= |s|
    ensures Sum(s[..k]) <= Sum(s)
  {
    if k < |s| {
      SumPrefix(s[..|s| - 1], k);
      assert s[..|s| - 1][..k] == s[..k];
    } else {
      assert s[..k] == s;
    }
  }

  lemma SumNext(s: seq<nat>, i: nat)
    requires i < |s|
    ensures Sum(s[..i + 1]) == Sum(s[..i]) + s[i] <= Sum(s) && |s| > 0
  {
    assert s[..i + 1][..i] == s[..i];
    SumPrefix(s, i + 1);
  }
}

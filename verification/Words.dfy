/** Unsigned 64-bit arithmetic, bit masks and ring slots. */
module Words {
  const WORD := 0x1_0000_0000_0000_0000

  /** A 64-bit unsigned value. */
  type Word = n: nat | n < WORD

  /** Unsigned arithmetic wraps around modulo 2^64, below zero as well as above. */
  function Wrap(n: int): Word {
    n % WORD
  }

  function Pow2(k: nat): nat {
    if k == 0 then 1 else 2 * Pow2(k - 1)
  }

  /** A power of two that fits a word. */
  ghost predicate PowerOfTwo(n: nat) {
    exists k: nat :: k <= 63 && n == Pow2(k)
  }

  /** Bitwise and. */
  function BitAnd(x: nat, y: nat): nat
    decreases x
  {
    if x == 0 || y == 0 then 0 else (if x % 2 == 1 && y % 2 == 1 then 1 else 0) + 2 * BitAnd(x / 2, y / 2)
  }

  /** The ring slot of an unbounded position. */
  function Slot(j: nat, n: nat): (r: nat)
    requires n > 0
    ensures r < n
  {
    j % n
  }

  lemma {:induction false} Pow2Positive(k: nat)
    ensures Pow2(k) > 0
  {
    if k > 0 {
      Pow2Positive(k - 1);
    }
  }

  lemma {:induction false} Pow2Sum(a: nat, b: nat)
    ensures Pow2(a + b) == Pow2(a) * Pow2(b)
  {
    if a > 0 {
      Pow2Sum(a - 1, b);
      assert a + b - 1 == a - 1 + b;
      MulAssociates(2, Pow2(a - 1), Pow2(b));
    }
  }

  lemma MulAssociates(a: int, b: int, c: int)
    ensures (a * b) * c == a * (b * c)
  {
  }

  lemma HalfMod(x: nat, m: nat)
    requires m > 0
    ensures x % (2 * m) == 2 * ((x / 2) % m) + x % 2
  {
    var q, r := (x / 2) / m, (x / 2) % m;
    assert x / 2 == q * m + r;
    ModUnique(x, 2 * m, q, 2 * r + x % 2);
  }

  lemma ModUnique(x: int, n: int, q: int, r: int)
    requires n > 0 && 0 <= r < n && x == q * n + r
    ensures x % n == r && x / n == q
  {
    var q', r' := x / n, x % n;
    assert (q - q') * n == r' - r;
    if q - q' > 0 {
      MulAtLeast(q - q', n);
    } else if q - q' < 0 {
      MulAtLeast(q' - q, n);
    }
  }

  lemma MulAtLeast(k: int, n: int)
    requires k >= 1 && n > 0
    ensures k * n >= n
  {
  }

  lemma OddHalves(m: nat)
    requires m > 0
    ensures (2 * m - 1) / 2 == m - 1 && (2 * m - 1) % 2 == 1
  {
  }

  lemma AndOdd(x: nat, y: nat)
    requires y % 2 == 1
    ensures BitAnd(x, y) == x % 2 + 2 * BitAnd(x / 2, y / 2)
  {
  }

  lemma MaskStep(x: nat, m: nat)
    requires m > 0 && BitAnd(x / 2, m - 1) == (x / 2) % m
    ensures BitAnd(x, 2 * m - 1) == x % (2 * m)
  {
    hide BitAnd;
    HalfMod(x, m);
    OddHalves(m);
    AndOdd(x, 2 * m - 1);
  }

  /** Masking with a power of two less one is reduction modulo that power. */
  lemma {:induction false} MaskIsMod(x: nat, k: nat)
    ensures Pow2(k) > 0 && BitAnd(x, Pow2(k) - 1) == x % Pow2(k)
    decreases k
  {
    hide BitAnd;
    if k == 0 {
      MaskNothing(x);
    } else {
      MaskIsMod(x / 2, k - 1);
      MaskStep(x, Pow2(k - 1));
    }
  }

  lemma MaskNothing(x: nat)
    ensures BitAnd(x, 0) == 0 == x % 1
  {
  }

  lemma Pow2Of64()
    ensures Pow2(64) == WORD
  {
    assert Pow2(8) == 256;
    Pow2Sum(8, 8);
    Pow2Sum(16, 16);
    Pow2Sum(32, 32);
  }

  lemma ModOfMod(x: nat, m: nat, n: nat)
    requires n > 0 && m * n > 0
    ensures (x % (m * n)) % n == x % n
  {
    var w, y := x / (m * n), x % (m * n);
    assert x == w * (m * n) + y;
    MulAssociates(w, m, n);
    Regroup(x, w * m, y / n, n, y % n);
    ModUnique(x, n, w * m + y / n, y % n);
  }

  lemma Regroup(x: int, p: int, q: int, n: int, r: int)
    requires x == p * n + (q * n + r)
    ensures x == (p + q) * n + r
  {
  }

  /** Reducing a wrapped count modulo a power of two forgets the wrap. */
  lemma WrappedSlot(x: nat, n: nat)
    requires PowerOfTwo(n)
    ensures n > 0 && BitAnd(Wrap(x), n - 1) == Slot(x, n)
  {
    hide BitAnd, Pow2;
    var k: nat :| k <= 63 && n == Pow2(k);
    MaskIsMod(Wrap(x), k);
    Pow2Sum(64 - k, k);
    Pow2Of64();
    ModOfMod(x, Pow2(64 - k), n);
  }

  lemma PowerOfTwoFits(n: nat)
    requires PowerOfTwo(n)
    ensures 0 < n < WORD
  {
    var k: nat :| k <= 63 && n == Pow2(k);
    Pow2Positive(k);
    Pow2Positive(64 - k - 1);
    Pow2Sum(64 - k, k);
    Pow2Of64();
    MulAtLeast(Pow2(64 - k - 1), n);
    MulAssociates(2, Pow2(64 - k - 1), n);
  }

  /** The wrapped difference of two wrapped counts is their true difference. */
  lemma WrappedDifference(a: nat, b: nat)
    requires b <= a < b + WORD
    ensures Wrap(Wrap(a) - Wrap(b)) == a - b
  {
  }

  lemma SmallWrap(a: nat)
    requires a < WORD
    ensures Wrap(a) == a
  {
  }

  /** The free-slot count computed on wrapped cursors is the true one. */
  lemma WrappedFree(n: nat, a: nat, b: nat)
    requires b <= a <= b + n && n < WORD
    ensures Wrap(n - Wrap(Wrap(a) - Wrap(b))) == n - (a - b)
  {
  }

  lemma WrappedSum(a: nat, b: nat)
    ensures Wrap(Wrap(a) + b) == Wrap(a + b)
  {
  }

  /** Less than a lap apart, different positions have different slots. */
  lemma SlotsDiffer(a: nat, b: nat, n: nat)
    requires n > 0 && a < b < a + n
    ensures Slot(a, n) != Slot(b, n)
  {
    if a % n == b % n {
      var k := b / n - a / n;
      assert b - a == k * n;
      if k >= 1 {
        MulAtLeast(k, n);
      } else {
        MulAtMost(k, n);
      }
    }
  }

  lemma MulAtMost(k: int, n: int)
    requires k <= 0 && n > 0
    ensures k * n <= 0
  {
  }

  lemma SlotNextLap(a: nat, n: nat)
    requires n > 0
    ensures Slot(a + n, n) == Slot(a, n)
  {
    ModUnique(a + n, n, a / n + 1, a % n);
  }
}

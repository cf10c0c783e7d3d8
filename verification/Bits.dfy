/** Bitwise operators of C on unsigned 64-bit values, written as functions on
    natural numbers. Shifts are division and multiplication by a power of two;
    `&` and `|` are defined bit by bit, and the lemmas below say what they do
    to whole bit fields. */
module Bits {

  const TWO64 := 0x1_0000_0000_0000_0000

  type Word = x: int | 0 <= x < TWO64

  function Pow2(k: nat): (p: nat)
    ensures p >= 1
  {
    if k == 0 then 1 else 2 * Pow2(k - 1)
  }

  function BitAnd(a: nat, b: nat): (r: nat)
    ensures r <= a && r <= b
    decreases a + b
  {
    if a == 0 && b == 0 then 0
    else 2 * BitAnd(a / 2, b / 2) + (if a % 2 == 1 && b % 2 == 1 then 1 else 0)
  }

  function BitOr(a: nat, b: nat): (r: nat)
    ensures a <= r && b <= r <= a + b
    decreases a + b
  {
    if a == 0 && b == 0 then 0
    else 2 * BitOr(a / 2, b / 2) + (if a % 2 == 1 || b % 2 == 1 then 1 else 0)
  }

  /** The bits of `a` from bit `k` up, as a number, and the bits below it. */
  ghost function High(a: nat, k: nat): nat {
    if k == 0 then a else High(a / 2, k - 1)
  }

  ghost function Low(a: nat, k: nat): nat {
    if k == 0 then 0 else 2 * Low(a / 2, k - 1) + a % 2
  }

  /** Cutting at a fixed bit is division with remainder. */
  lemma {:induction false} Cut(a: nat, k: nat)
    ensures a == High(a, k) * Pow2(k) + Low(a, k)
    ensures Low(a, k) < Pow2(k)
    decreases k
  {
    if k > 0 {
      var h, p, l := High(a / 2, k - 1), Pow2(k - 1), Low(a / 2, k - 1);
      assert High(a, k) == h && Pow2(k) == 2 * p && Low(a, k) == 2 * l + a % 2;
      hide High, Low, Pow2;
      Cut(a / 2, k - 1);
      Doubled(h, p);
    }
  }

  lemma Doubled(h: nat, p: nat)
    ensures h * (2 * p) == 2 * (h * p)
  {
  }

  lemma {:induction false} MulStep(x: int, y: int, d: int)
    requires x < y && 0 <= d
    ensures x * d + d <= y * d
    decreases y - x
  {
    assert y * d == (y - 1) * d + d;
    if x < y - 1 { MulStep(x, y - 1, d); }
  }

  lemma {:induction false} Quotient(a: nat, q: nat, r: nat, d: nat)
    requires r < d && a == q * d + r
    ensures a % d == r && a / d == q
  {
    if q < a / d { MulStep(q, a / d, d); }
    if a / d < q { MulStep(a / d, q, d); }
  }

  lemma {:induction false} CutAt(a: nat, k: nat, p: nat)
    requires p == Pow2(k)
    ensures High(a, k) == a / p && Low(a, k) == a % p
  {
    Cut(a, k);
    Quotient(a, High(a, k), Low(a, k), p);
  }

  lemma {:induction false} OrHalf(a: nat, b: nat)
    ensures BitOr(a, b) / 2 == BitOr(a / 2, b / 2)
    ensures BitOr(a, b) % 2 == BitOr(a % 2, b % 2)
  {}

  lemma {:induction false} AndHalf(a: nat, b: nat)
    ensures BitAnd(a, b) / 2 == BitAnd(a / 2, b / 2)
    ensures BitAnd(a, b) % 2 == BitAnd(a % 2, b % 2)
  {}

  lemma {:induction false} DoubleOr(x: nat, y: nat, b: nat, c: nat)
    requires b < 2 && c < 2
    ensures BitOr(2 * x + b, 2 * y + c) == 2 * BitOr(x, y) + BitOr(b, c)
  {
    hide BitOr;
    var p, q := 2 * x + b, 2 * y + c;
    OrHalf(p, q);
    assert p / 2 == x && q / 2 == y && p % 2 == b && q % 2 == c;
    assert BitOr(p, q) == 2 * (BitOr(p, q) / 2) + BitOr(p, q) % 2;
  }

  lemma {:induction false} DoubleAnd(x: nat, y: nat, b: nat, c: nat)
    requires b < 2 && c < 2
    ensures BitAnd(2 * x + b, 2 * y + c) == 2 * BitAnd(x, y) + BitAnd(b, c)
  {
    hide BitAnd;
    var p, q := 2 * x + b, 2 * y + c;
    AndHalf(p, q);
    assert p / 2 == x && q / 2 == y && p % 2 == b && q % 2 == c;
    assert BitAnd(p, q) == 2 * (BitAnd(p, q) / 2) + BitAnd(p, q) % 2;
  }

  /** `|` and `&` work on each side of a cut separately. */
  lemma {:induction false} OrHigh(a: nat, b: nat, k: nat)
    ensures High(BitOr(a, b), k) == BitOr(High(a, k), High(b, k))
    decreases k
  {
    hide BitOr;
    if k > 0 {
      OrHigh(a / 2, b / 2, k - 1);
      OrHalf(a, b);
    }
  }

  lemma LowStep(a: nat, k: nat)
    ensures Low(a, k) == if k == 0 then 0 else 2 * Low(a / 2, k - 1) + a % 2
  {}

  lemma {:induction false} OrLow(a: nat, b: nat, k: nat)
    ensures Low(BitOr(a, b), k) == BitOr(Low(a, k), Low(b, k))
    decreases k
  {
    hide BitOr, Low;
    LowStep(a, k);
    LowStep(b, k);
    LowStep(BitOr(a, b), k);
    OrZero(0);
    if k > 0 {
      OrLow(a / 2, b / 2, k - 1);
      OrHalf(a, b);
      DoubleOr(Low(a / 2, k - 1), Low(b / 2, k - 1), a % 2, b % 2);
    }
  }

  lemma {:induction false} AndHigh(a: nat, b: nat, k: nat)
    ensures High(BitAnd(a, b), k) == BitAnd(High(a, k), High(b, k))
    decreases k
  {
    hide BitAnd;
    if k > 0 {
      AndHigh(a / 2, b / 2, k - 1);
      AndHalf(a, b);
    }
  }

  lemma {:induction false} AndLowCut(a: nat, b: nat, k: nat)
    ensures Low(BitAnd(a, b), k) == BitAnd(Low(a, k), Low(b, k))
    decreases k
  {
    hide BitAnd, Low;
    LowStep(a, k);
    LowStep(b, k);
    LowStep(BitAnd(a, b), k);
    AndZero(0);
    if k > 0 {
      AndLowCut(a / 2, b / 2, k - 1);
      AndHalf(a, b);
      DoubleAnd(Low(a / 2, k - 1), Low(b / 2, k - 1), a % 2, b % 2);
    }
  }

  lemma {:induction false} OrCut(a: nat, b: nat, k: nat)
    ensures High(BitOr(a, b), k) == BitOr(High(a, k), High(b, k))
    ensures Low(BitOr(a, b), k) == BitOr(Low(a, k), Low(b, k))
  {
    OrHigh(a, b, k);
    OrLow(a, b, k);
  }

  lemma {:induction false} AndCut(a: nat, b: nat, k: nat)
    ensures High(BitAnd(a, b), k) == BitAnd(High(a, k), High(b, k))
    ensures Low(BitAnd(a, b), k) == BitAnd(Low(a, k), Low(b, k))
  {
    AndHigh(a, b, k);
    AndLowCut(a, b, k);
  }

  /** `a & (2^w - 1)` keeps the low `w` bits. */
  lemma {:induction false} AndLow(a: nat, w: nat)
    ensures BitAnd(a, Pow2(w) - 1) == Low(a, w)
  {
    hide BitAnd, Low;
    LowStep(a, w);
    AndZero(a);
    if w > 0 {
      AndLow(a / 2, w - 1);
      AndBit(a % 2);
      DoubleAnd(a / 2, Pow2(w - 1) - 1, a % 2, 1);
    }
  }

  lemma AndBit(b: nat)
    requires b < 2
    ensures BitAnd(b, 1) == b
  {}

  /** A field mask: with `m == (2^w - 1) << k`, `a & m` is the `w`-bit field of `a` at `k`, in place. */
  lemma {:induction false} AndField(a: nat, m: nat, k: nat, p: nat, w: nat, q: nat)
    requires p == Pow2(k) && q == Pow2(w) && m == (q - 1) * p
    ensures BitAnd(a, m) == a / p % q * p
  {
    hide BitAnd, High, Low, Pow2;
    AndZero(Low(a, k));
    AndCut(a, m, k);
    Quotient(m, q - 1, 0, p);
    CutAt(m, k, p);
    CutAt(a, k, p);
    CutAt(a / p, w, q);
    AndLow(a / p, w);
    Cut(BitAnd(a, m), k);
  }

  lemma {:induction false} OrZero(a: nat)
    ensures BitOr(a, 0) == a && BitOr(0, a) == a
  {
    if a > 0 { OrZero(a / 2); }
  }

  lemma {:induction false} OrSame(a: nat)
    ensures BitOr(a, a) == a
  {
    if a > 0 { OrSame(a / 2); }
  }

  lemma {:induction false} AndZero(a: nat)
    ensures BitAnd(a, 0) == 0 && BitAnd(0, a) == 0
  {
    if a > 0 { AndZero(a / 2); }
  }

  /** `|` adds operands whose set bits are on different sides of bit `k`. */
  lemma {:induction false} OrDisjoint(a: nat, b: nat, k: nat, p: nat)
    requires p == Pow2(k) && a % p == 0 && b < p
    ensures BitOr(a, b) == a + b
  {
    hide BitOr, High, Low, Pow2;
    OrCut(a, b, k);
    CutAt(a, k, p);
    Quotient(b, 0, b, p);
    CutAt(b, k, p);
    OrZero(High(a, k));
    OrZero(b);
    Cut(a, k);
    Cut(BitOr(a, b), k);
  }

  /** The powers of two used by the page-table words. */
  lemma Powers()
    ensures Pow2(0) == 1 && Pow2(1) == 2 && Pow2(7) == 0x80 && Pow2(9) == 0x200
    ensures Pow2(12) == 0x1000 && Pow2(16) == 0x1_0000
    ensures Pow2(21) == 0x20_0000 && Pow2(30) == 0x4000_0000 && Pow2(39) == 0x80_0000_0000
    ensures Pow2(51) == 0x8_0000_0000_0000 && Pow2(52) == 0x10_0000_0000_0000
    ensures Pow2(63) == 0x8000_0000_0000_0000 && Pow2(64) == TWO64
  {}
}

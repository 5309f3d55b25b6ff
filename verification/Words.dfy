/** 64-bit machine words as naturals, with the C bit operators defined digit by digit.
    The lemmas turn the masks the kernel uses into arithmetic. */
module Words {
  const TWO_64: nat := 0x1_0000_0000_0000_0000
  const PAGE_SIZE: nat := 4096

  type Word = w: nat | w < TWO_64

  /** Bitwise AND, least significant digit first. */
  function And(x: nat, y: nat): (r: nat)
    ensures r <= x && r <= y
  {
    if x == 0 || y == 0 then 0
    else (if x % 2 == 1 && y % 2 == 1 then 1 else 0) + 2 * And(x / 2, y / 2)
  }

  /** Bitwise OR, least significant digit first. */
  function Or(x: nat, y: nat): (r: nat)
    ensures x <= r && y <= r && r <= x + y
  {
    if x == 0 then y
    else if y == 0 then x
    else (if x % 2 == 1 || y % 2 == 1 then 1 else 0) + 2 * Or(x / 2, y / 2)
  }

  function Pow2(k: nat): (p: nat)
    ensures p >= 1
  {
    if k == 0 then 1 else 2 * Pow2(k - 1)
  }

  /** Division by a variable is determined by quotient and remainder. */
  lemma ModUnique(x: int, d: int, q: int, r: int)
    requires 0 <= r < d && x == q * d + r
    ensures x / d == q && x % d == r
  {
    var e := x / d - q;
    assert e * d == r - x % d;
    assert e >= 1 ==> e * d >= d;
    assert e <= -1 ==> e * d <= -d;
  }

  /** The quotient is determined by the interval the dividend lies in. */
  lemma DivIs(x: nat, d: nat, q: nat)
    requires d > 0 && q * d <= x < q * d + d
    ensures x / d == q && x % d == x - q * d
  {
    ModUnique(x, d, q, x - q * d);
  }

  /** Dropping digits below the divisor: (8a + s) / 8f is a / f. */
  lemma DivOfDigits(a: nat, s: nat, f: nat)
    requires s < 8 && f > 0
    ensures (8 * a + s) / (8 * f) == a / f
  {
    var q, t := a / f, a % f;
    assert a == q * f + t;
    assert 8 * a + s == q * (8 * f) + (8 * t + s) by {
      assert q * (8 * f) == 8 * (q * f);
    }
    ModUnique(8 * a + s, 8 * f, q, 8 * t + s);
  }

  lemma EvenPlus(a: nat, b: nat)
    ensures (2 * a + b) % 2 == b % 2
  {
  }

  /** A digit below bit 12 does not depend on the digits from bit 12 on. */
  lemma LowDigit(high: nat, low: nat, d: nat, e: nat)
    requires d > 0 && d * e == 2048
    ensures (high * 4096 + low) / d % 2 == low / d % 2
  {
    var q, r := low / d, low % d;
    assert low == q * d + r;
    var big := 2 * (e * high);
    assert high * 4096 + low == (big + q) * d + r by {
      assert (big + q) * d == big * d + q * d;
      assert big * d == 2 * (e * high) * d == 2 * (d * e) * high by {
        MulSwap(e, high, d);
      }
    }
    ModUnique(high * 4096 + low, d, big + q, r);
    EvenPlus(e * high, q);
  }

  lemma MulSwap(e: int, h: int, d: int)
    ensures 2 * (e * h) * d == 2 * (d * e) * h
  {
    assert e * h * d == d * e * h;
  }

  /** The remainder modulo 2p, one binary digit at a time. */
  lemma ModDouble(x: nat, p: nat)
    requires p >= 1
    ensures x % (2 * p) == x % 2 + 2 * (x / 2 % p)
  {
    var q, r := x / 2 / p, x / 2 % p;
    assert x / 2 == q * p + r;
    assert x == q * (2 * p) + (x % 2 + 2 * r) by {
      assert q * (2 * p) == 2 * (q * p);
    }
    ModUnique(x, 2 * p, q, x % 2 + 2 * r);
  }

  /** One digit of either operator, zero operands included. */
  lemma Digit(x: nat, y: nat)
    ensures And(x, y) == (if x % 2 == 1 && y % 2 == 1 then 1 else 0) + 2 * And(x / 2, y / 2)
    ensures Or(x, y) == (if x % 2 == 1 || y % 2 == 1 then 1 else 0) + 2 * Or(x / 2, y / 2)
  {
  }

  lemma AndOdd(x: nat, mask: nat)
    ensures And(x, 2 * mask + 1) == x % 2 + 2 * And(x / 2, mask)
  {
    hide And;
    Digit(x, 2 * mask + 1);
  }

  /** Masking with k ones is the remainder modulo 2^k. */
  lemma {:induction false} AndOnes(x: nat, k: nat)
    ensures And(x, Pow2(k) - 1) == x % Pow2(k)
  {
    if k > 0 {
      var p := Pow2(k - 1);
      assert Pow2(k) == 2 * p;
      hide And, Pow2;
      AndOnes(x / 2, k - 1);
      ModDouble(x, p);
      AndOdd(x, p - 1);
    }
  }

  lemma AndEven(x: nat, mask: nat)
    ensures And(x, 2 * mask) == 2 * And(x / 2, mask)
  {
    hide And;
    Digit(x, 2 * mask);
  }

  lemma AndAll(x: nat, w: nat)
    requires x < Pow2(w)
    ensures And(x, Pow2(w) - 1) == x == x - x % 1
  {
    AndOnes(x, w);
    ModUnique(x, Pow2(w), 0, x);
  }

  lemma RoundStep(x: nat, mask: nat, p: nat)
    requires p >= 1 && And(x / 2, mask) == x / 2 - x / 2 % p
    ensures And(x, 2 * mask) == x - x % (2 * p)
  {
    hide And;
    AndEven(x, mask);
    ModDouble(x, p);
  }

  /** Masking with `~(2^k - 1)` in a w-bit word rounds down to a multiple of 2^k. */
  lemma {:induction false} AndNotOnes(x: nat, w: nat, k: nat)
    requires k <= w && x < Pow2(w)
    ensures Pow2(k) <= Pow2(w)
    ensures And(x, Pow2(w) - Pow2(k)) == x - x % Pow2(k)
  {
    if k == 0 {
      AndAll(x, w);
    } else {
      assert Pow2(w) == 2 * Pow2(w - 1) && Pow2(k) == 2 * Pow2(k - 1);
      hide And, Pow2;
      AndNotOnes(x / 2, w - 1, k - 1);
      RoundStep(x, Pow2(w - 1) - Pow2(k - 1), Pow2(k - 1));
    }
  }

  /** OR of a multiple of 2^k with a k-bit number is their sum. */
  lemma {:induction false} OrDisjoint(x: nat, y: nat, k: nat)
    requires x % Pow2(k) == 0 && y < Pow2(k)
    ensures Or(x, y) == x + y
  {
    if k > 0 {
      ModDouble(x, Pow2(k - 1));
      OrDisjoint(x / 2, y / 2, k - 1);
    }
  }

  lemma PowersUsed()
    ensures Pow2(4) == 16 && Pow2(9) == 512 && Pow2(12) == 4096 && Pow2(64) == TWO_64
  {
    assert Pow2(2) == 4;
    Pow2Sum(2, 2);
    Pow2Sum(4, 4);
    Pow2Sum(8, 1);
    Pow2Sum(8, 4);
    Pow2Sum(8, 8);
    Pow2Sum(16, 16);
    Pow2Sum(32, 32);
  }

  lemma MulAssoc(x: int, y: int)
    ensures 2 * (x * y) == (2 * x) * y
  {
  }

  lemma {:induction false} Pow2Sum(a: nat, b: nat)
    ensures Pow2(a + b) == Pow2(a) * Pow2(b)
  {
    if a > 0 {
      Pow2Sum(a - 1, b);
      MulAssoc(Pow2(a - 1), Pow2(b));
    }
  }

  /** The masks of the memory code: `& 0x1FF`, `& 0xFFF`, `& ~0xFFF`, `& ~15`. */
  lemma Masks(x: Word)
    ensures And(x, 0x1FF) == x % 512
    ensures And(x, 0xFFF) == x % 4096
    ensures And(x, TWO_64 - 0x1000) == x - x % 4096
    ensures And(x, TWO_64 - 16) == x - x % 16
  {
    PowersUsed();
    AndOnes(x, 9);
    AndOnes(x, 12);
    AndNotOnes(x, 64, 12);
    AndNotOnes(x, 64, 4);
  }

  /** Tests and updates of bit 0 (`PAGE_PRESENT`). */
  lemma BitZero(x: nat)
    ensures And(x, 1) == x % 2
    ensures Or(x, 1) == x + 1 - x % 2
  {
    Digit(x, 1);
  }

  /** Tests and updates of bit 2 (`PAGE_USER`), for a word written out in its low digits. */
  lemma BitTwoDigits(a: nat, b: nat, c: nat)
    requires b < 2 && c < 2
    ensures And(4 * a + 2 * b + c, 4) == 4 * (a % 2)
    ensures Or(4 * a + 2 * b + c, 4) == 4 * (a + 1 - a % 2) + 2 * b + c
  {
    hide And, Or;
    var x := 4 * a + 2 * b + c;
    assert x / 2 == 2 * a + b && x % 2 == c;
    assert (2 * a + b) / 2 == a && (2 * a + b) % 2 == b;
    BitZero(a);
    Digit(2 * a + b, 2);
    Digit(x, 4);
  }

  lemma BitTwo(x: nat)
    ensures And(x, 4) == 4 * (x / 4 % 2)
    ensures Or(x, 4) == x + 4 * (1 - x / 4 % 2)
  {
    hide And, Or;
    var h := x / 2;
    assert x == 2 * h + x % 2 && h == 2 * (h / 2) + h % 2;
    DivIs(x, 4, h / 2);
    BitTwoDigits(x / 4, h % 2, x % 2);
  }

  /** `base | low` for a page-aligned base and a 12-bit value. */
  lemma OrPage(base: nat, low: nat)
    requires base % 4096 == 0 && low < 4096
    ensures Or(base, low) == base + low
  {
    PowersUsed();
    OrDisjoint(base, low, 12);
  }
}

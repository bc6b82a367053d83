/** Unsigned bit operations on naturals, as the C and GLSL code uses them on words. */
module Bits {

  /** Number of values of a 32-bit word. */
  const WORD: nat := 0x1_0000_0000

  function Pow2(k: nat): (p: nat)
    ensures p >= 1
  {
    if k == 0 then 1 else 2 * Pow2(k - 1)
  }

  lemma {:induction false} Pow2Add(a: nat, b: nat)
    ensures Pow2(a + b) == Pow2(a) * Pow2(b)
  {
    if a > 0 {
      Pow2Add(a - 1, b);
      assert Pow2(a + b) == 2 * Pow2(a - 1 + b);
      MulDouble(Pow2(b), Pow2(a - 1));
    }
  }

  lemma {:induction false} Pow2Monotone(a: nat, b: nat)
    requires a <= b
    ensures Pow2(a) <= Pow2(b)
    decreases b
  {
    if a < b {
      Pow2Monotone(a, b - 1);
    }
  }

  /** Bitwise and. */
  function And(x: nat, y: nat): nat
    decreases x
  {
    if x == 0 || y == 0 then 0
    else 2 * And(x / 2, y / 2) + (if x % 2 == 1 && y % 2 == 1 then 1 else 0)
  }

  /** Bitwise or. */
  function Or(x: nat, y: nat): nat
    decreases x + y
  {
    if x == 0 && y == 0 then 0
    else 2 * Or(x / 2, y / 2) + (if x % 2 == 1 || y % 2 == 1 then 1 else 0)
  }

  /** Bitwise exclusive or. */
  function Xor(x: nat, y: nat): nat
    decreases x + y
  {
    if x == 0 && y == 0 then 0
    else 2 * Xor(x / 2, y / 2) + (if x % 2 != y % 2 then 1 else 0)
  }

  lemma {:induction false} AndSelf(x: nat)
    ensures And(x, x) == x
  {
    if x > 0 {
      AndSelf(x / 2);
    }
  }

  /** Masking with 2^k - 1 keeps the remainder modulo 2^k. */
  lemma {:induction false} AndMask(x: nat, k: nat)
    ensures And(x, Pow2(k) - 1) == x % Pow2(k)
    decreases k
  {
    hide And;
    if k == 0 {
      AndZero(x);
    } else {
      var h := Pow2(k - 1);
      AndMask(x / 2, k - 1);
      ModHalf(x, h);
      AndOdd(x, h - 1);
    }
  }

  lemma AndOdd(x: nat, y: nat)
    ensures And(x, 2 * y + 1) == 2 * And(x / 2, y) + x % 2
  {
    assert (2 * y + 1) / 2 == y && (2 * y + 1) % 2 == 1;
    if x / 2 == 0 || y == 0 {
      AndZero(if y == 0 then x / 2 else y);
    }
  }

  lemma ModHalf(x: nat, h: nat)
    requires h >= 1
    ensures x % (2 * h) == 2 * ((x / 2) % h) + x % 2
    ensures x / (2 * h) == (x / 2) / h
  {
    var q, r := (x / 2) / h, (x / 2) % h;
    assert x == 2 * h * q + (2 * r + x % 2) by {
      assert x / 2 == h * q + r;
      assert 2 * (h * q) == 2 * h * q;
    }
    DivModUnique(x, 2 * h, q, 2 * r + x % 2);
  }

  function Quotient(x: nat, d: nat): nat
    requires d > 0
  {
    x / d
  }

  function Remainder(x: nat, d: nat): nat
    requires d > 0
  {
    x % d
  }

  lemma DivModUnique(x: int, d: int, q: int, r: int)
    requires d >= 1 && 0 <= r < d && x == d * q + r
    ensures x / d == q && x % d == r
  {
    var q', r' := x / d, x % d;
    if q < q' {
      MulGap(d, q, q');
    } else if q' < q {
      MulGap(d, q', q);
    }
  }

  lemma MulGap(d: int, a: int, b: int)
    requires d >= 1 && a < b
    ensures d * a + d <= d * b
  {
    var e := b - a - 1;
    assert d * b == d * a + d + d * e;
  }

  lemma MulMonotone(d: nat, a: nat, b: nat)
    requires a <= b
    ensures d * a <= d * b
  {
    assert d * b == d * a + d * (b - a);
  }

  /** Testing one bit: x & 2^k is zero exactly when digit k of x is 0. */
  lemma {:induction false} AndBit(x: nat, k: nat)
    ensures And(x, Pow2(k)) == 0 <==> (x / Pow2(k)) % 2 == 0
    decreases k
  {
    if k == 0 {
      assert And(x, 1) == x % 2 by {
        if x > 0 {
          assert And(x / 2, 0) == 0;
        }
      }
    } else {
      var h := Pow2(k - 1);
      AndBit(x / 2, k - 1);
      ModHalf(x, h);
      assert (2 * h) / 2 == h && (2 * h) % 2 == 0;
      assert And(x, 2 * h) == 2 * And(x / 2, h);
    }
  }

  lemma OrDouble(x: nat, y: nat)
    ensures Or(x, 2 * y) == 2 * Or(x / 2, y) + x % 2
  {
    assert 2 * y / 2 == y && 2 * y % 2 == 0;
    if x == 0 && y == 0 {
      OrZero(0);
    }
  }

  /** Setting a clear bit adds its weight. */
  lemma {:induction false} OrBit(x: nat, k: nat)
    requires Quotient(x, Pow2(k)) % 2 == 0
    ensures Or(x, Pow2(k)) == x + Pow2(k)
    decreases k
  {
    if k == 0 {
      OrZero(x / 2);
    } else {
      var h := Pow2(k - 1);
      hide Or, Quotient;
      HalveTwice(x, h);
      OrBit(x / 2, k - 1);
      OrDouble(x, h);
    }
  }

  lemma {:induction false} OrZero(x: nat)
    ensures Or(x, 0) == x
  {
    if x > 0 {
      OrZero(x / 2);
    }
  }

  ghost predicate IsPow2(n: nat) {
    exists k: nat :: n == Pow2(k)
  }

  /** The test n & (n - 1) == 0 recognises exactly the powers of two. */
  lemma {:induction false} PowerOfTwoTest(n: nat)
    requires n >= 1
    ensures And(n, n - 1) == 0 <==> IsPow2(n)
  {
    if n == 1 {
      assert n == Pow2(0);
    } else if n % 2 == 1 {
      AndSelf(n / 2);
      assert And(n, n - 1) == 2 * And(n / 2, n / 2);
      forall k: nat ensures n != Pow2(k) {
        if k > 0 {
          assert Pow2(k) == 2 * Pow2(k - 1);
        }
      }
    } else {
      PowerOfTwoTest(n / 2);
      assert (n - 1) / 2 == n / 2 - 1;
      assert And(n, n - 1) == 2 * And(n / 2, n / 2 - 1);
      if IsPow2(n / 2) {
        var k: nat :| n / 2 == Pow2(k);
        assert n == Pow2(k + 1);
      }
      if IsPow2(n) {
        var k: nat :| n == Pow2(k);
        assert k > 0;
        assert n / 2 == Pow2(k - 1);
      }
    }
  }

  /** Or-ing a value below 2^k into a multiple of 2^k is addition. */
  lemma {:induction false} OrShifted(a: nat, b: nat, k: nat)
    requires b < Pow2(k)
    ensures Or(a * Pow2(k), b) == a * Pow2(k) + b
    decreases k
  {
    if k == 0 {
      OrZero(a);
    } else {
      var p := a * Pow2(k - 1);
      assert a * Pow2(k) == 2 * p;
      OrShifted(a, b / 2, k - 1);
    }
  }

  lemma {:induction false} OrComm(x: nat, y: nat)
    ensures Or(x, y) == Or(y, x)
  {
    if x > 0 || y > 0 {
      OrComm(x / 2, y / 2);
    }
  }

  /** Xor-ing a number below 2^k touches the low k digits only. */
  lemma {:induction false} XorLow(a: nat, b: nat, c: nat, k: nat)
    requires b < Pow2(k) && c < Pow2(k)
    ensures Xor(a * Pow2(k) + b, c) == a * Pow2(k) + Xor(b, c)
    decreases k
  {
    hide Xor;
    if k == 0 {
      XorZero(a);
      XorZero(0);
    } else {
      var h := Pow2(k - 1);
      XorLow(a, b / 2, c / 2, k - 1);
      MulDouble(a, h);
      XorHalves(a * h, b, c);
    }
  }

  lemma XorHalves(p: nat, b: nat, c: nat)
    requires Xor(p + b / 2, c / 2) == p + Xor(b / 2, c / 2)
    ensures Xor(2 * p + b, c) == 2 * p + Xor(b, c)
  {
    assert (2 * p + b) / 2 == p + b / 2 && (2 * p + b) % 2 == b % 2;
    if b == 0 && c == 0 {
      XorZero(0);
    }
  }

  /** Exclusive or works digit by digit: the low k digits of the result come from the low k digits. */
  lemma {:induction false} XorRemainder(x: nat, y: nat, k: nat)
    ensures Remainder(Xor(x, y), Pow2(k)) == Xor(Remainder(x, Pow2(k)), Remainder(y, Pow2(k))) < Pow2(k)
    decreases k
  {
    hide Xor;
    if k == 0 {
      XorZero(0);
    } else {
      XorRemainder(x / 2, y / 2, k - 1);
      XorRemainderStep(x, y, Pow2(k - 1));
    }
  }

  lemma XorRemainderStep(x: nat, y: nat, h: nat)
    requires h > 0 && Remainder(Xor(x / 2, y / 2), h) == Xor(Remainder(x / 2, h), Remainder(y / 2, h))
    ensures Remainder(Xor(x, y), 2 * h) == Xor(Remainder(x, 2 * h), Remainder(y, 2 * h)) < 2 * h
  {
    hide Xor, Remainder;
    RemainderHalf(x, h);
    RemainderHalf(y, h);
    RemainderHalf(Xor(x, y), h);
    XorStep(x, y);
    var a, b := Remainder(x / 2, h), Remainder(y / 2, h);
    RemainderBelow(Xor(x / 2, y / 2), h);
    RemainderBelow(x / 2, h);
    RemainderBelow(y / 2, h);
    XorAppend(a, b, x % 2, y % 2);
  }

  lemma RemainderHalf(x: nat, h: nat)
    requires h > 0
    ensures Remainder(x, 2 * h) == 2 * Remainder(x / 2, h) + x % 2
  {
    ModHalf(x, h);
  }

  lemma XorAppend(a: nat, b: nat, c: nat, d: nat)
    requires c < 2 && d < 2
    ensures Xor(2 * a + c, 2 * b + d) == 2 * Xor(a, b) + if c != d then 1 else 0
  {
    hide Xor;
    XorStep(2 * a + c, 2 * b + d);
  }

  lemma RemainderBelow(x: nat, h: nat)
    requires h > 0
    ensures Remainder(x, h) < h
  {
  }

  lemma XorStep(x: nat, y: nat)
    ensures Xor(x, y) / 2 == Xor(x / 2, y / 2) && Xor(x, y) % 2 == if x % 2 != y % 2 then 1 else 0
  {
    if x == 0 && y == 0 {
      XorZero(0);
    }
  }

  lemma {:induction false} XorZero(x: nat)
    ensures Xor(x, 0) == x
  {
    if x > 0 {
      XorZero(x / 2);
    }
  }

  /** Reinterpretation of a 32-bit word as a signed integer. */
  function Signed32(x: int): int {
    var w := x % WORD;
    if w < 0x8000_0000 then w else w - WORD
  }

  /** Where row r of a row-major matrix with w columns begins. */
  function Base(r: nat, w: nat): nat { r * w }

  lemma RowBase(d: nat, w: nat, r: nat)
    requires r < d
    ensures 0 <= Base(r, w) && Base(r, w) + w <= Base(d, w)
  {
    MulMonotone(w, r + 1, d);
    assert w * (r + 1) == r * w + w && w * d == d * w;
  }

  lemma RowsApart(w: nat, r: nat, r': nat)
    requires r != r'
    ensures Base(r, w) + w <= Base(r', w) || Base(r', w) + w <= Base(r, w)
  {
    hide Base;
    if r < r' {
      RowBase(r', w, r);
    } else {
      RowBase(r, w, r');
    }
  }

  // ---------------------------------------------------------------- bit fields

  /** n bits of x from position k on. */
  function Field(x: nat, k: nat, n: nat): nat {
    Remainder(Quotient(x, Pow2(k)), Pow2(n))
  }

  /** Masking with n ones from position k on keeps that field in place. */
  lemma {:induction false} AndField(x: nat, k: nat, n: nat)
    ensures And(x, (Pow2(n) - 1) * Pow2(k)) == Field(x, k, n) * Pow2(k)
    decreases k
  {
    if k == 0 {
      AndMask(x, n);
      assert Pow2(0) == 1;
    } else {
      var h, m: nat := Pow2(k - 1), Pow2(n) - 1;
      AndField(x / 2, k - 1, n);
      FieldOfHalf(x, k, n);
      hide And, Field;
      MulDouble(m, h);
      MulDouble(Field(x, k, n), h);
      assert Pow2(k) == 2 * h;
      hide Pow2;
      AndDouble(x, m * h);
    }
  }

  lemma FieldOfHalf(x: nat, k: nat, n: nat)
    requires k > 0
    ensures Field(x, k, n) == Field(x / 2, k - 1, n)
  {
    assert Pow2(k) == 2 * Pow2(k - 1);
    hide Pow2, Remainder, Quotient;
    HalveTwice(x, Pow2(k - 1));
  }

  lemma MulDouble(a: nat, h: nat)
    ensures a * (2 * h) == 2 * (a * h)
  {
  }

  lemma AndDouble(x: nat, y: nat)
    ensures And(x, 2 * y) == 2 * And(x / 2, y)
  {
    assert 2 * y / 2 == y && 2 * y % 2 == 0;
    if x == 0 || y == 0 {
      AndZero(x / 2);
    }
  }

  lemma AndZero(x: nat)
    ensures And(x, 0) == 0 && And(0, x) == 0
  {
  }

  lemma HalveTwice(x: nat, h: nat)
    requires h > 0
    ensures Quotient(x / 2, h) == Quotient(x, 2 * h)
  {
    var q, r := x / 2 / h, x / 2 % h;
    assert x / 2 == h * q + r;
    assert 2 * (h * q) == (2 * h) * q;
    DivModUnique(x, 2 * h, q, 2 * r + x % 2);
  }
}

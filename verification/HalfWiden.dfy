/**
 Widening a binary float to a format with more significand bits and a larger exponent bias, with the
 loop that normalises a subnormal; the half to single conversion is one case. Section 3.4 of
 IEEE 754-2019 gives the value of a bit pattern.
 */
module HalfWiden {
  import opened Bits

  /** An interchange format: exponent bias, significand bits, and the exponent code of infinities and NaNs. */
  datatype Format = Format(bias: nat, p: nat, top: nat)

  const HALF: Format := Format(15, 10, 31)
  const SINGLE: Format := Format(127, 23, 255)

  /** `to` has at least as many significand bits, and its bias makes room for every normalised subnormal. */
  ghost predicate Wider(from: Format, to: Format) {
    to.p >= from.p && to.bias >= from.bias + from.p && from.top + (to.bias - from.bias) <= to.top
  }

  /** The three fields of a bit pattern. */
  datatype Fields = Fields(sign: nat, exp: nat, man: nat)

  /** 2^k for any integer k. */
  function Exp2(k: int): (r: real)
    ensures r > 0.0
  {
    if k >= 0 then Pow2(k) as real else 1.0 / (Pow2(-k) as real)
  }

  lemma Exp2Step(k: int)
    ensures Exp2(k + 1) == 2.0 * Exp2(k)
  {
    if k >= 0 {
      assert Pow2(k + 1) == 2 * Pow2(k);
    } else if k == -1 {
      assert Pow2(1) == 2 && Pow2(0) == 1;
    } else {
      var j := -(k + 1);
      assert Pow2(-k) == 2 * Pow2(j);
      HalfOfDouble(Pow2(j) as real);
    }
  }

  lemma HalfOfDouble(x: real)
    requires x > 0.0
    ensures 1.0 / x == 2.0 * (1.0 / (2.0 * x))
  {
  }

  /** m 2^j 2^k = m 2^(j+k) */
  lemma {:induction false} Exp2Shift(m: nat, j: nat, k: int)
    ensures Scaled(m * Pow2(j), k) == Scaled(m, k + j)
  {
    if j == 0 {
      assert Pow2(0) == 1;
    } else {
      Exp2Shift(m, j - 1, k + 1);
      assert Pow2(j) == 2 * Pow2(j - 1);
      hide Pow2, Exp2, Scaled;
      MulDouble(m, Pow2(j - 1));
      ScaledDouble(m * Pow2(j - 1), k);
    }
  }

  /** m 2^k */
  function Scaled(m: nat, k: int): real { m as real * Exp2(k) }

  lemma ScaledDouble(n: nat, k: int)
    ensures Scaled(2 * n, k) == Scaled(n, k + 1)
  {
    hide Exp2;
    Exp2Step(k);
    var r, e := n as real, Exp2(k);
    assert (2 * n) as real == 2.0 * r;
    assert 2.0 * r * e == r * (2.0 * e);
  }

  /** The magnitude of a finite pattern: subnormals have no leading one. */
  function Magnitude(t: Format, f: Fields): real
    requires f.exp < t.top
  {
    if f.exp == 0 then Scaled(f.man, 1 - t.bias - t.p) else Scaled(Pow2(t.p) + f.man, f.exp - t.bias - t.p)
  }

  // ---------------------------------------------------------------- normalising a subnormal

  /** Shift until the bit above the significand is set, counting down from 1. */
  method Normalise(man: nat, p: nat) returns (m: nat, e: int)
    requires 0 < man < Pow2(p)
    ensures Pow2(p) <= m < 2 * Pow2(p)
    ensures 1 - p <= e <= 0 && m == man * Pow2(1 - e)
  {
    m, e := man, 1;
    assert Pow2(0) == 1;
    hide And, Pow2;
    ghost var j: nat := 0;
    while And(m, Pow2(p)) == 0
      invariant j <= p && e == 1 - j && m == man * Pow2(j)
      invariant Pow2(j) <= m < 2 * Pow2(p) && (j == 0 ==> m < Pow2(p))
      decreases 2 * Pow2(p) - m
    {
      ClearTopBit(m, p);
      RoomToShift(m, j, p);
      MulDouble(man, Pow2(j));
      m := 2 * m;
      e := e - 1;
      j := j + 1;
    }
    ClearTopBit(m, p);
  }

  lemma RoomToShift(m: nat, j: nat, p: nat)
    requires Pow2(j) <= m < Pow2(p)
    ensures j < p && Pow2(j + 1) == 2 * Pow2(j)
  {
    if p <= j {
      Pow2Monotone(p, j);
    }
  }

  /** Below 2^(p+1), bit p is clear exactly below 2^p. */
  lemma ClearTopBit(m: nat, p: nat)
    requires m < 2 * Pow2(p)
    ensures And(m, Pow2(p)) == 0 <==> m < Pow2(p)
  {
    AndBit(m, p);
  }

  // ---------------------------------------------------------------- widening keeps the value

  /** A significand with its leading one, moved to a wider format, keeps its value. */
  lemma LeadingOneKept(from: Format, to: Format, m: nat, e: int)
    requires to.p >= from.p && m >= Pow2(from.p)
    ensures (m - Pow2(from.p)) * Pow2(to.p - from.p) + Pow2(to.p) == m * Pow2(to.p - from.p)
    ensures Scaled(m * Pow2(to.p - from.p), e - to.p) == Scaled(m, e - from.p)
  {
    hide Pow2, Scaled;
    var j := to.p - from.p;
    Pow2Add(from.p, j);
    SplitProduct(m, Pow2(from.p), Pow2(j));
    Exp2Shift(m, j, e - to.p);
  }

  lemma SplitProduct(m: nat, a: nat, b: nat)
    requires m >= a
    ensures (m - a) * b + a * b == m * b
  {
  }

  lemma NormalKept(from: Format, to: Format, f: Fields)
    requires Wider(from, to) && 0 < f.exp < from.top
    ensures var g := Fields(f.sign, f.exp + (to.bias - from.bias), f.man * Pow2(to.p - from.p));
            0 < g.exp < to.top && Magnitude(to, g) == Magnitude(from, f)
  {
    hide Pow2, Scaled;
    LeadingOneKept(from, to, Pow2(from.p) + f.man, f.exp - from.bias);
  }

  lemma SubnormalKept(from: Format, to: Format, f: Fields, m: nat, e: int)
    requires Wider(from, to) && f.exp == 0 < from.top
    requires Pow2(from.p) <= m < 2 * Pow2(from.p) && 1 - from.p <= e <= 0 && m == f.man * Pow2(1 - e)
    ensures var exp := e + (to.bias - from.bias);
            && 0 < exp < to.top
            && Magnitude(to, Fields(f.sign, exp, (m - Pow2(from.p)) * Pow2(to.p - from.p))) == Magnitude(from, f)
  {
    hide Pow2, Scaled;
    LeadingOneKept(from, to, m, e - from.bias);
    Exp2Shift(f.man, 1 - e, e - from.bias - from.p);
  }

  // ---------------------------------------------------------------- bit patterns

  /** The fields of a 16-bit word. */
  function HalfFields(h: nat): Fields {
    Fields(h / 0x8000 % 2, h / 0x400 % 0x20, h % 0x400)
  }

  /** The fields of a 32-bit word. */
  function SingleFields(x: nat): Fields {
    Fields(x / 0x8000_0000 % 2, x / 0x80_0000 % 0x100, x % 0x80_0000)
  }

  /** Where the fields of the two formats are: the patterns of one, of infinity, of the sign, and the extreme finite
      halves. */
  lemma FieldAnchors()
    ensures HalfFields(0x3C00) == Fields(0, 15, 0) && SingleFields(0x3F80_0000) == Fields(0, 127, 0)
    ensures HalfFields(1) == Fields(0, 0, 1) && HalfFields(0x7BFF) == Fields(0, 30, 1023)
    ensures HalfFields(0x7C00) == Fields(0, 31, 0) && SingleFields(0x7F80_0000) == Fields(0, 255, 0)
    ensures HalfFields(0x8000) == Fields(1, 0, 0) && SingleFields(0x8000_0000) == Fields(1, 0, 0)
    ensures HALF.top == 31 && SINGLE.top == 255
  {
  }

  /** What those patterns stand for: one, one, 2^-24, and 65504. */
  lemma ValueAnchors()
    ensures Magnitude(HALF, Fields(0, 15, 0)) == 1.0 && Magnitude(SINGLE, Fields(0, 127, 0)) == 1.0
    ensures Magnitude(HALF, Fields(0, 0, 1)) * 16777216.0 == 1.0
    ensures Magnitude(HALF, Fields(0, 30, 1023)) == 65504.0
  {
    Powers();
    Exp2Values();
    hide Pow2, Exp2;
  }

  lemma Exp2Values()
    ensures Exp2(-10) * 1024.0 == 1.0 && Exp2(-23) * 8388608.0 == 1.0 && Exp2(-24) * 16777216.0 == 1.0
    ensures Exp2(5) == 32.0
  {
    Powers();
    Pow2Add(14, 10);
    assert Pow2(14) == 0x4000;
    hide Pow2;
  }

  /** sign | (exp << 23) | (man << 13), the sign already in place. */
  function Pack(sign: nat, exp: nat, man: nat): nat {
    Or(Or(sign, exp * 0x80_0000), man * 0x2000)
  }

  lemma PackFields(s: nat, exp: nat, man: nat)
    requires s < 2 && exp < 0x100 && man < 0x400
    ensures Pack(s * 0x8000_0000, exp, man) < WORD
    ensures SingleFields(Pack(s * 0x8000_0000, exp, man)) == Fields(s, exp, man * 0x2000)
  {
    hide Or, Pow2;
    Powers();
    OrShifted(s, exp * 0x80_0000, 31);
    var high := s * 0x100 + exp;
    OrShifted(high, man * 0x2000, 23);
    FieldsOfSum(s, exp, man * 0x2000);
  }

  lemma FieldsOfSum(s: nat, exp: nat, man: nat)
    requires s < 2 && exp < 0x100 && man < 0x80_0000
    ensures SingleFields(s * 0x8000_0000 + exp * 0x80_0000 + man) == Fields(s, exp, man)
  {
    var x := s * 0x8000_0000 + exp * 0x80_0000 + man;
    DivModUnique(x, 0x80_0000, s * 0x100 + exp, man);
    DivModUnique(x, 0x8000_0000, s, exp * 0x80_0000 + man);
  }

  lemma Powers()
    ensures Pow2(5) == 0x20 && Pow2(10) == 0x400 && Pow2(13) == 0x2000 && Pow2(15) == 0x8000
    ensures Pow2(23) == 0x80_0000 && Pow2(31) == 0x8000_0000
  {
    assert Pow2(5) == 0x20;
    Pow2Add(5, 5);
    assert Pow2(3) == 8;
    Pow2Add(10, 3);
    Pow2Add(10, 5);
    Pow2Add(10, 13);
    Pow2Add(23, 3);
    Pow2Add(26, 5);
  }

  /** The masks pick out the fields. */
  lemma HalfMasks(h: nat)
    requires h < 0x1_0000
    ensures And(h, 0x8000) * 0x1_0000 == HalfFields(h).sign * 0x8000_0000
    ensures And(h, 0x7C00) / 0x400 == HalfFields(h).exp && And(h, 0x3FF) == HalfFields(h).man
  {
    Powers();
    assert Pow2(1) == 2;
    hide And, Pow2;
    AndField(h, 15, 1);
    AndField(h, 10, 5);
    AndMask(h, 10);
  }

  /** Half to single: the sign stays, a finite value stays exactly, and infinities and NaNs keep their payload. */
  method HalfToSingle(h: nat) returns (x: nat)
    requires h < 0x1_0000
    ensures x < WORD && SingleFields(x).sign == HalfFields(h).sign
    ensures HalfFields(h).exp < HALF.top ==>
              SingleFields(x).exp < SINGLE.top &&
              Magnitude(SINGLE, SingleFields(x)) == Magnitude(HALF, HalfFields(h))
    ensures HalfFields(h).exp == HALF.top ==>
              SingleFields(x).exp == SINGLE.top && SingleFields(x).man == HalfFields(h).man * 0x2000
  {
    hide And, Or, Pow2, Pack, Magnitude;
    HalfMasks(h);
    Powers();
    ghost var f := HalfFields(h);
    var sign, exp, man := And(h, 0x8000) * 0x1_0000, And(h, 0x7C00) / 0x400, And(h, 0x3FF);
    if exp == 0 {
      if man == 0 {
        x := sign;
        ZeroKept(f);
      } else {
        var m, e := Normalise(man, 10);
        AndMask(m, 10);
        m := And(m, 0x3FF);
        x := Pack(sign, e + 112, m);
        PackFields(f.sign, e + 112, m);
        SubnormalKept(HALF, SINGLE, f, m + 0x400, e);
      }
    } else if exp == 0x1F {
      x := Pack(sign, 0xFF, man);
      PackFields(f.sign, 0xFF, man);
    } else {
      x := Pack(sign, exp + 112, man);
      PackFields(f.sign, exp + 112, man);
      NormalKept(HALF, SINGLE, f);
    }
  }

  lemma ZeroKept(f: Fields)
    requires f.exp == 0 && f.man == 0 && f.sign < 2
    ensures SingleFields(f.sign * 0x8000_0000) == Fields(f.sign, 0, 0)
    ensures Magnitude(HALF, f) == Magnitude(SINGLE, Fields(f.sign, 0, 0))
  {
    ZeroScaled(1 - HALF.bias - HALF.p);
    ZeroScaled(1 - SINGLE.bias - SINGLE.p);
    hide Scaled, Exp2, Pow2;
  }

  lemma ZeroScaled(k: int)
    ensures Scaled(0, k) == 0.0
  {
    hide Exp2;
  }
}

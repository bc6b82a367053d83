/** The complex arithmetic of the FFT kernel, over the reals, as a ring the transform theorems apply to. */
module ComplexNumbers {
  import opened Algebra
  import opened Bits
  import opened FourierTransform

  datatype Complex = Complex(re: real, im: real)

  function Add(a: Complex, b: Complex): Complex { Complex(a.re + b.re, a.im + b.im) }

  function Neg(a: Complex): Complex { Complex(-a.re, -a.im) }

  /** The kernel's complex product. */
  function Mul(a: Complex, b: Complex): Complex {
    Complex(a.re * b.re - a.im * b.im, a.re * b.im + a.im * b.re)
  }

  const COMPLEX: Ring<Complex> := Ring(Complex(0.0, 0.0), Complex(1.0, 0.0), Add, Mul, Neg)

  lemma MulIsAssociative(a: Complex, b: Complex, c: Complex)
    ensures Mul(Mul(a, b), c) == Mul(a, Mul(b, c))
  {
  }

  lemma MulDistributes(a: Complex, b: Complex, c: Complex)
    ensures Mul(a, Add(b, c)) == Add(Mul(a, b), Mul(a, c))
  {
  }

  lemma ComplexIsRing()
    ensures IsCommutativeRing(COMPLEX)
  {
    forall a: Complex, b: Complex, c: Complex
      ensures OpAssocAt(COMPLEX.Multiplicative(), a, b, c) && DistribAt(COMPLEX, a, b, c)
    {
      MulIsAssociative(a, b, c);
      MulDistributes(a, b, c);
    }
  }

  function Conjugate(a: Complex): Complex { Complex(a.re, -a.im) }

  /** The inverse direction negates the angle of a twiddle on the unit circle, which inverts it. */
  lemma ConjugateInverts(w: Complex)
    requires w.re * w.re + w.im * w.im == 1.0
    ensures Mul(w, Conjugate(w)) == COMPLEX.one
  {
    assert w.im * -w.im == -(w.im * w.im);
  }

  lemma QuarterSquared()
    ensures Mul(Complex(0.0, -1.0), Complex(0.0, -1.0)) == Neg(COMPLEX.one)
  {
  }

  lemma QuarterHalfTurn()
    ensures HalfTurn(COMPLEX, Complex(0.0, -1.0), 2)
  {
    hide IsCommutativeRing, Pow;
    ComplexIsRing();
    SquareIsPow2(COMPLEX, Complex(0.0, -1.0));
    QuarterSquared();
    hide Mul, Neg;
  }

  lemma TwoAndFour()
    ensures Pow2(1) == 2 && Pow2(2) == 4
  {
    assert Pow2(0) == 1;
  }

  /** A quarter turn clockwise, the forward twiddle for n = 4, is a root the transform theorems accept. */
  lemma QuarterTurn()
    ensures HalfTurn(COMPLEX, Complex(0.0, -1.0), 2)
    ensures PrincipalRoot(COMPLEX, Complex(0.0, -1.0), 4)
  {
    hide IsCommutativeRing, HalfTurn, PrincipalRoot, Pow2;
    ComplexIsRing();
    QuarterHalfTurn();
    TwoAndFour();
    HalfTurnIsPrincipal(COMPLEX, Complex(0.0, -1.0), 2);
  }
}

/** Exact complex arithmetic over pairs of reals, finite sums, and the powers of
    a primitive root of unity.  It stands in for `cmath`: rounding is ignored. */
module ComplexNumbers {
  import opened Arithmetic

  datatype Complex = Complex(re: real, im: real)

  const ZERO := Complex(0.0, 0.0)
  const ONE := Complex(1.0, 0.0)

  function Add(a: Complex, b: Complex): Complex {
    Complex(a.re + b.re, a.im + b.im)
  }

  function Sub(a: Complex, b: Complex): Complex {
    Complex(a.re - b.re, a.im - b.im)
  }

  function Mul(a: Complex, b: Complex): Complex {
    Complex(a.re * b.re - a.im * b.im, a.re * b.im + a.im * b.re)
  }

  function Scale(r: real, a: Complex): Complex {
    Complex(r * a.re, r * a.im)
  }

  function Times(x: real, y: real): real {
    x * y
  }

  lemma TimesPositive(x: real, y: real)
    requires (x > 0.0 && y > 0.0) || (x < 0.0 && y < 0.0)
    ensures Times(x, y) > 0.0
  {}

  function Square(x: real): (r: real)
    ensures r >= 0.0
    ensures x != 0.0 ==> r > 0.0
  {
    if x == 0.0 then 0.0 else
      TimesPositive(x, x);
      Times(x, x)
  }

  function NormSquared(a: Complex): real {
    Square(a.re) + Square(a.im)
  }

  lemma NormPositive(a: Complex)
    requires a != ZERO
    ensures NormSquared(a) > 0.0
  {
    assert a.re != 0.0 || a.im != 0.0;
  }

  function Conjugate(a: Complex): Complex {
    Complex(a.re, -a.im)
  }

  /** Division as `complex.__truediv__` computes it for a nonzero divisor. */
  function Div(a: Complex, b: Complex): Complex
    requires b != ZERO
  {
    NormPositive(b);
    Scale(1.0 / NormSquared(b), Mul(a, Conjugate(b)))
  }

  // --- Ring laws ---

  lemma MulAssociative(a: Complex, b: Complex, c: Complex)
    ensures Mul(Mul(a, b), c) == Mul(a, Mul(b, c))
  {}

  lemma MulCommutative(a: Complex, b: Complex)
    ensures Mul(a, b) == Mul(b, a)
  {}

  lemma Distributes(a: Complex, b: Complex, c: Complex)
    ensures Mul(a, Add(b, c)) == Add(Mul(a, b), Mul(a, c))
  {}

  lemma MulSwap(a: Complex, b: Complex, c: Complex)
    ensures Mul(a, Mul(b, c)) == Mul(b, Mul(a, c))
  {
    MulAssociative(a, b, c);
    MulCommutative(a, b);
    MulAssociative(b, a, c);
  }

  lemma ScaleMul(r: real, a: Complex, b: Complex)
    ensures Mul(Scale(r, a), b) == Scale(r, Mul(a, b))
    ensures Mul(a, Scale(r, b)) == Scale(r, Mul(a, b))
  {
    hide Mul, Scale;
    var factor := Complex(r, 0.0);
    MulReal(a, r);
    MulReal(b, r);
    MulReal(Mul(a, b), r);
    MulAssociative(a, factor, b);
    MulCommutative(factor, b);
    MulAssociative(a, b, factor);
  }

  lemma MulOne(a: Complex)
    ensures Mul(ONE, a) == a
  {}

  lemma ConjugateProduct(b: Complex)
    ensures Mul(b, Conjugate(b)) == Complex(NormSquared(b), 0.0)
  {
    SquareIsProduct(b.re);
    SquareIsProduct(b.im);
  }

  lemma SquareIsProduct(x: real)
    ensures Square(x) == x * x
  {}

  lemma MulReal(a: Complex, n: real)
    ensures Mul(a, Complex(n, 0.0)) == Scale(n, a)
  {}

  /** Dividing undoes multiplying, and multiplying undoes dividing. */
  lemma DivCancels(a: Complex, b: Complex)
    requires b != ZERO
    ensures Div(Mul(a, b), b) == a
    ensures Mul(Div(a, b), b) == a
  {
    NormPositive(b);
    var n, c := NormSquared(b), Conjugate(b);
    hide Mul, Scale, NormSquared, Conjugate;
    ConjugateProduct(b);
    MulReal(a, n);
    MulAssociative(a, b, c);
    MulAssociative(a, c, b);
    MulCommutative(c, b);
    ScaleMul(1.0 / n, Mul(a, c), b);
    ScaleCancels(n, a);
  }

  lemma NoZeroDivisors(a: Complex, b: Complex)
    requires Mul(a, b) == ZERO && a != ZERO
    ensures b == ZERO
  {
    MulCommutative(a, b);
    DivCancels(b, a);
  }

  lemma ScaleCancels(n: real, a: Complex)
    requires n != 0.0
    ensures Scale(1.0 / n, Scale(n, a)) == a
  {
    assert (1.0 / n) * n == 1.0;
    assert (1.0 / n) * (n * a.re) == ((1.0 / n) * n) * a.re;
    assert (1.0 / n) * (n * a.im) == ((1.0 / n) * n) * a.im;
  }

  // --- Finite sums ---

  function Sum(n: nat, f: int -> Complex): Complex {
    if n == 0 then ZERO else Add(Sum(n - 1, f), f(n - 1))
  }

  lemma {:induction false} SumEqual(n: nat, f: int -> Complex, g: int -> Complex)
    requires forall i :: 0 <= i < n ==> f(i) == g(i)
    ensures Sum(n, f) == Sum(n, g)
  {
    if n > 0 {
      SumEqual(n - 1, f, g);
    }
  }

  lemma {:induction false} SumOfZeros(n: nat, f: int -> Complex)
    requires forall i :: 0 <= i < n ==> f(i) == ZERO
    ensures Sum(n, f) == ZERO
  {
    if n > 0 {
      SumOfZeros(n - 1, f);
    }
  }

  /** A sum whose only nonzero term sits at position p. */
  lemma {:induction false} SumSingle(n: nat, p: nat, f: int -> Complex)
    requires p < n && forall i :: 0 <= i < n && i != p ==> f(i) == ZERO
    ensures Sum(n, f) == f(p)
  {
    if p == n - 1 {
      SumOfZeros(n - 1, f);
    } else {
      SumSingle(n - 1, p, f);
    }
  }

  /** Trailing zero terms may be dropped. */
  lemma {:induction false} SumPadded(n: nat, m: nat, f: int -> Complex)
    requires n <= m && forall i :: n <= i < m ==> f(i) == ZERO
    ensures Sum(m, f) == Sum(n, f)
  {
    if n < m {
      SumPadded(n, m - 1, f);
    }
  }

  lemma {:induction false} SumPrepended(n: nat, f: int -> Complex)
    ensures Sum(n + 1, f) == Add(f(0), Sum(n, i => f(i + 1)))
  {
    var g := i => f(i + 1);
    if n > 0 {
      SumPrepended(n - 1, f);
      assert g(n - 1) == f(n);
    }
  }

  /** The terms from the last to the first. */
  ghost function Backwards(n: int, f: int -> Complex): int -> Complex {
    i => f(n - 1 - i)
  }

  lemma {:induction false} SumReversed(n: nat, f: int -> Complex)
    ensures Sum(n, Backwards(n, f)) == Sum(n, f)
  {
    if n > 0 {
      SumReversed(n - 1, f);
      var back := Backwards(n, f);
      SumPrepended(n - 1, back);
      SumEqual(n - 1, i => back(i + 1), Backwards(n - 1, f));
    }
  }

  lemma {:induction false} SumScaled(n: nat, c: Complex, f: int -> Complex)
    ensures Sum(n, i => Mul(c, f(i))) == Mul(c, Sum(n, f))
  {
    var g := i => Mul(c, f(i));
    if n == 0 {
      MulReal(c, 0.0);
    } else {
      hide Mul, Add;
      SumScaled(n - 1, c, f);
      Distributes(c, Sum(n - 1, f), f(n - 1));
      assert g(n - 1) == Mul(c, f(n - 1));
    }
  }

  lemma {:induction false} SumRescaled(n: nat, r: real, f: int -> Complex)
    ensures Sum(n, i => Scale(r, f(i))) == Scale(r, Sum(n, f))
  {
    var g := i => Scale(r, f(i));
    if n > 0 {
      hide Scale, Add;
      SumRescaled(n - 1, r, f);
      ScaleAdds(r, Sum(n - 1, f), f(n - 1));
      assert g(n - 1) == Scale(r, f(n - 1));
    }
  }

  lemma ScaleAdds(r: real, a: Complex, b: Complex)
    ensures Scale(r, Add(a, b)) == Add(Scale(r, a), Scale(r, b))
  {}

  lemma {:induction false} SumOfSums(n: nat, f: int -> Complex, g: int -> Complex)
    ensures Sum(n, i => Add(f(i), g(i))) == Add(Sum(n, f), Sum(n, g))
  {
    var h := i => Add(f(i), g(i));
    if n > 0 {
      SumOfSums(n - 1, f, g);
      assert h(n - 1) == Add(f(n - 1), g(n - 1));
    }
  }

  /** Exchanging the order of a double sum. */
  lemma {:induction false} SumSwap(m: nat, n: nat, f: (int, int) -> Complex)
    ensures Sum(m, i => Sum(n, j => f(i, j))) == Sum(n, j => Sum(m, i => f(i, j)))
  {
    var left := i => Sum(n, j => f(i, j));
    var right := j => Sum(m, i => f(i, j));
    if m == 0 {
      SumOfZeros(n, right);
    } else {
      SumSwap(m - 1, n, f);
      var shorter := j => Sum(m - 1, i => f(i, j));
      var last := j => f(m - 1, j);
      SumOfSums(n, shorter, last);
      SumEqual(n, right, j => Add(shorter(j), last(j)));
    }
  }

  /** A full period of a periodic sequence has the same sum wherever it starts. */
  lemma {:induction false} SumShifted(n: nat, d: nat, g: int -> Complex)
    requires forall i :: g(i) == g(i + n)
    ensures Sum(n, i => g(i - d)) == Sum(n, g)
    decreases d
  {
    if d == 0 {
      SumEqual(n, i => g(i - d), g);
    } else {
      var h := i => g(i - 1);
      SumShiftedByOne(n, g);
      forall i ensures h(i) == h(i + n) {
        assert g(i - 1) == g(i - 1 + n);
      }
      SumShifted(n, d - 1, h);
      SumEqual(n, i => g(i - d), i => h(i - (d - 1)));
      assert Sum(n, h) == Add(Sum(n, g), Sub(g(-1), g(n - 1)));
      assert g(-1) == g(-1 + n);
    }
  }

  lemma {:induction false} SumShiftedByOne(n: nat, g: int -> Complex)
    ensures Sum(n, i => g(i - 1)) == Add(Sum(n, g), Sub(g(-1), g(n - 1)))
  {
    var h := i => g(i - 1);
    if n > 0 {
      SumShiftedByOne(n - 1, g);
      assert h(n - 1) == g(n - 2);
      Telescopes(Sum(n - 1, g), g(-1), g(n - 2), g(n - 1));
    }
  }

  lemma Telescopes(s: Complex, first: Complex, previous: Complex, last: Complex)
    ensures Add(Add(s, Sub(first, previous)), previous) == Add(Add(s, last), Sub(first, last))
  {}

  // --- Powers of a root of unity ---

  function Pow(z: Complex, k: nat): Complex {
    if k == 0 then ONE else Mul(Pow(z, k - 1), z)
  }

  lemma {:induction false} PowAdds(z: Complex, a: nat, b: nat)
    ensures Pow(z, a + b) == Mul(Pow(z, a), Pow(z, b))
  {
    if b > 0 {
      PowAdds(z, a, b - 1);
      MulAssociative(Pow(z, a), Pow(z, b - 1), z);
    }
  }

  /** w plays exp(-2*pi*j/n): its powers first return to 1 at exponent n. */
  predicate PrimitiveRoot(w: Complex, n: nat) {
    && n >= 1
    && Pow(w, n) == ONE
    && forall j :: 0 < j < n ==> Pow(w, j) != ONE
  }

  /** exp(-2*pi*j*m/n) for every integer m. */
  function Twiddle(w: Complex, n: nat, m: int): Complex
    requires n >= 1
  {
    Pow(w, m % n)
  }

  lemma TwiddleAdds(w: Complex, n: nat, a: int, b: int)
    requires PrimitiveRoot(w, n)
    ensures Twiddle(w, n, a + b) == Mul(Twiddle(w, n, a), Twiddle(w, n, b))
  {
    hide Mul, Pow;
    ModAdds(a, b, n);
    var x, y := a % n, b % n;
    PowAdds(w, x, y);
    if x + y >= n {
      PowAdds(w, n, x + y - n);
      MulOne(Pow(w, x + y - n));
      assert n + (x + y - n) == x + y;
    }
  }

  lemma ModAdds(a: int, b: int, n: nat)
    requires n >= 1
    ensures (a + b) % n == if a % n + b % n < n then a % n + b % n else a % n + b % n - n
  {
    var x, y, q := a % n, b % n, a / n + b / n;
    assert n * q == n * (a / n) + n * (b / n);
    if x + y < n {
      DivideUnique(a + b, n, q, x + y);
    } else {
      assert n * (q + 1) == n * q + n;
      DivideUnique(a + b, n, q + 1, x + y - n);
    }
  }

  lemma MulNext(k: int, a: int)
    ensures (k + 1) * a == k * a + a
  {}

  lemma TwiddlePeriodic(w: Complex, n: nat, m: int, q: int)
    requires n >= 1
    ensures Twiddle(w, n, m + n * q) == Twiddle(w, n, m)
  {
    DivideUnique(m + n * q, n, m / n + q, m % n);
  }

  lemma {:induction false} PowOfMultiple(w: Complex, n: nat, q: nat)
    requires Pow(w, n) == ONE
    ensures n * q >= 0 && Pow(w, n * q) == ONE
  {
    hide Mul, Pow;
    if q == 0 {
      PowZero(w);
      assert n * q == 0;
    } else {
      PowOfMultiple(w, n, q - 1);
      OneMoreTime(n, q);
      PowAdds(w, n * (q - 1), n);
      MulOne(ONE);
    }
  }

  lemma {:induction false} PowZero(z: Complex)
    ensures Pow(z, 0) == ONE
  {}

  lemma OneMoreTime(n: nat, q: nat)
    requires q > 0
    ensures n * (q - 1) >= 0 && n * q == n * (q - 1) + n
  {}

  /** A twiddle with a nonnegative exponent is that power of w itself. */
  lemma {:induction false} TwiddleIsPower(w: Complex, n: nat, m: int)
    requires PrimitiveRoot(w, n) && m >= 0
    ensures Twiddle(w, n, m) == Pow(w, m)
  {
    var q, r := m / n, m % n;
    DivisionSplits(m, n);
    PowReduces(w, n, q, r);
  }

  lemma DivisionSplits(m: int, n: int)
    requires n >= 1 && m >= 0
    ensures m / n >= 0 && 0 <= m % n < n && m == n * (m / n) + m % n
  {}

  lemma PowReduces(w: Complex, n: nat, q: nat, r: nat)
    requires Pow(w, n) == ONE
    ensures n * q >= 0 && Pow(w, n * q + r) == Pow(w, r)
  {
    hide Mul, Pow;
    PowOfMultiple(w, n, q);
    PowAdds(w, n * q, r);
    MulOne(Pow(w, r));
  }

  /** A twiddle with a nonpositive exponent is the inverse of that power. */
  lemma {:induction false} TwiddleInverts(w: Complex, n: nat, m: int)
    requires PrimitiveRoot(w, n) && m >= 0
    ensures Mul(Twiddle(w, n, -m), Pow(w, m)) == ONE
  {
    hide Mul;
    TwiddleIsPower(w, n, m);
    TwiddleAdds(w, n, -m, m);
    assert Twiddle(w, n, 0) == ONE;
    hide *;
  }

  /** Orthogonality: the powers of a twiddle other than 1 sum to zero. */
  lemma {:induction false} TwiddleSum(w: Complex, n: nat, a: int)
    requires PrimitiveRoot(w, n)
    ensures Sum(n, k => Twiddle(w, n, k * a)) == if a % n == 0 then Complex(n as real, 0.0) else ZERO
  {
    var z := Twiddle(w, n, a);
    var f := k => Twiddle(w, n, k * a);
    if a % n == 0 {
      hide Pow, Sum;
      forall k | 0 <= k < n ensures f(k) == ONE {
        MultipleTwiddle(w, n, a, k);
      }
      SumOfOnes(n, f);
    } else {
      assert f(0) == ONE;
      assert z != ONE;
      hide Mul, Sub, Pow, Sum;
      forall i | 0 <= i < n ensures f(i + 1) == Mul(f(i), z) {
        TwiddleAdds(w, n, i * a, a);
        MulNext(i, a);
      }
      GeometricSum(z, f, n);
      TwiddlePeriodic(w, n, 0, a);
      NotOne(z, Sum(n, f), f(n));
    }
  }

  lemma MultipleTwiddle(w: Complex, n: nat, a: int, k: int)
    requires PrimitiveRoot(w, n) && a % n == 0
    ensures Twiddle(w, n, k * a) == ONE
  {
    TwiddlePeriodic(w, n, 0, k * (a / n));
    assert k * a == n * (k * (a / n)) by {
      assert a == n * (a / n);
    }
  }

  lemma NotOne(z: Complex, s: Complex, last: Complex)
    requires z != ONE && last == ONE && Mul(Sub(z, ONE), s) == Sub(last, ONE)
    ensures s == ZERO
  {
    NoZeroDivisors(Sub(z, ONE), s);
  }

  lemma {:induction false} SumOfOnes(n: nat, f: int -> Complex)
    requires forall k :: 0 <= k < n ==> f(k) == ONE
    ensures Sum(n, f) == Complex(n as real, 0.0)
  {
    if n > 0 {
      SumOfOnes(n - 1, f);
    }
  }

  lemma {:induction false} GeometricSum(z: Complex, f: int -> Complex, k: nat)
    requires f(0) == ONE && forall i :: 0 <= i < k ==> f(i + 1) == Mul(f(i), z)
    ensures Mul(Sub(z, ONE), Sum(k, f)) == Sub(f(k), ONE)
  {
    if k > 0 {
      GeometricSum(z, f, k - 1);
      assert f(k - 1 + 1) == Mul(f(k - 1), z);
      GeometricStep(z, Sum(k - 1, f), f(k - 1));
    }
  }

  lemma GeometricStep(z: Complex, s: Complex, y: Complex)
    requires Mul(Sub(z, ONE), s) == Sub(y, ONE)
    ensures Mul(Sub(z, ONE), Add(s, y)) == Sub(Mul(y, z), ONE)
  {
    Distributes(Sub(z, ONE), s, y);
    assert Mul(Sub(z, ONE), y) == Sub(Mul(y, z), y);
  }
}

/** learning/wireless-communications/examples/ofdm_model.py: an OFDM link with a
    cyclic prefix, in exact arithmetic. */
module Ofdm {
  import opened Arithmetic
  import opened ComplexNumbers

  datatype Received = Recovered(carriers: seq<Complex>) | ZeroDivision

  /** The sample at position i, and silence outside the signal. */
  function At(s: seq<Complex>, i: int): Complex {
    if 0 <= i < |s| then s[i] else ZERO
  }

  /** The exponent of carrier k at sample n, in units of 2*pi*j/N. */
  function Angle(sign: int, k: int, n: int): int {
    sign * (k * n)
  }

  /** x[n] * exp(-+2*pi*j*k*n/N); `sign` is 1 for the DFT, -1 for its inverse. */
  function Rotated(w: Complex, sign: int, x: seq<Complex>, k: int): int -> Complex
    requires |x| >= 1
  {
    n => Mul(At(x, n), Twiddle(w, |x|, Angle(sign, k, n)))
  }

  function Bin(w: Complex, sign: int, x: seq<Complex>, k: int): Complex
    requires |x| >= 1
  {
    Sum(|x|, Rotated(w, sign, x, k))
  }

  function Dft(w: Complex, x: seq<Complex>): (r: seq<Complex>)
    requires |x| >= 1
    ensures |r| == |x|
  {
    seq(|x|, k => Bin(w, 1, x, k))
  }

  function Idft(w: Complex, x: seq<Complex>): (r: seq<Complex>)
    requires |x| >= 1
    ensures |r| == |x|
  {
    seq(|x|, n => Scale(1.0 / |x| as real, Bin(w, -1, x, n)))
  }

  // --- Linear convolution ---

  function Product(samples: seq<Complex>, taps: seq<Complex>, i: int): int -> Complex {
    n => Mul(At(samples, n), At(taps, i - n))
  }

  function Convolution(samples: seq<Complex>, taps: seq<Complex>): (r: seq<Complex>)
    requires |samples| + |taps| >= 1
    ensures |r| == |samples| + |taps| - 1
  {
    seq(|samples| + |taps| - 1, i => Sum(|samples|, Product(samples, taps, i)))
  }

  /** Output i after n samples are spread completely and d taps of sample n. */
  ghost function Accumulated(samples: seq<Complex>, taps: seq<Complex>, n: nat, d: nat, i: int): Complex {
    if n <= i < n + d then Sum(n + 1, Product(samples, taps, i)) else Sum(n, Product(samples, taps, i))
  }

  lemma AccumulatedStep(samples: seq<Complex>, taps: seq<Complex>, n: nat, d: nat, i: int)
    requires n < |samples| && d < |taps|
    ensures Accumulated(samples, taps, n, d + 1, i)
         == if i == n + d then Add(Accumulated(samples, taps, n, d, i), Mul(samples[n], taps[d]))
            else Accumulated(samples, taps, n, d, i)
  {
    if i == n + d {
      assert Product(samples, taps, i)(n) == Mul(samples[n], taps[d]);
    }
  }

  lemma {:induction false} AccumulatedRow(samples: seq<Complex>, taps: seq<Complex>, n: nat, i: int)
    requires n < |samples|
    ensures Accumulated(samples, taps, n, |taps|, i) == Sum(n + 1, Product(samples, taps, i))
  {
    if !(n <= i < n + |taps|) {
      MulZero(samples[n]);
      assert Product(samples, taps, i)(n) == ZERO;
    }
  }

  method ChannelConvolution(samples: seq<Complex>, taps: seq<Complex>) returns (output: array<Complex>)
    requires |samples| + |taps| >= 1
    ensures fresh(output) && output[..] == Convolution(samples, taps)
  {
    hide Mul, Add;
    output := new Complex[|samples| + |taps| - 1](_ => ZERO);
    for n := 0 to |samples|
      invariant forall i :: 0 <= i < output.Length ==> output[i] == Sum(n, Product(samples, taps, i))
    {
      for delay := 0 to |taps|
        invariant forall i :: 0 <= i < output.Length ==> output[i] == Accumulated(samples, taps, n, delay, i)
      {
        forall i | 0 <= i < output.Length {
          AccumulatedStep(samples, taps, n, delay, i);
        }
        output[n + delay] := Add(output[n + delay], Mul(samples[n], taps[delay]));
      }
      forall i | 0 <= i < output.Length {
        AccumulatedRow(samples, taps, n, i);
      }
    }
  }

  lemma MulZero(a: Complex)
    ensures Mul(a, ZERO) == ZERO == Mul(ZERO, a)
  {}

  // --- The DFT and its inverse undo each other ---

  /** What sample n contributes to bin j through bin k of the first transform. */
  ghost function Round(w: Complex, sign: int, x: seq<Complex>, j: int, k: int, n: int): Complex
    requires |x| >= 1
  {
    Mul(At(x, n), Twiddle(w, |x|, Angle(sign, k, n - j)))
  }

  /** Transforming with one sign and then with the other multiplies by the size. */
  lemma DoubleTransform(w: Complex, sign: int, x: seq<Complex>, y: seq<Complex>, j: nat)
    requires |x| == |y| >= 1 && PrimitiveRoot(w, |x|) && j < |x| && (sign == 1 || sign == -1)
    requires forall k :: 0 <= k < |x| ==> y[k] == Bin(w, sign, x, k)
    ensures Bin(w, -sign, y, j) == Scale(|x| as real, x[j])
  {
    hide Mul, Add, Scale, Twiddle, Angle, Round, Bin;
    var N := |x|;
    var round := (k: int, n: int) => Round(w, sign, x, j, k, n);
    var rows := k => Sum(N, n => round(k, n));
    var columns := n => Sum(N, k => round(k, n));
    forall k | 0 <= k < N ensures Rotated(w, -sign, y, j)(k) == rows(k) {
      DoubleRow(w, sign, x, k, j);
      SumEqual(N, n => Round(w, sign, x, j, k, n), n => round(k, n));
    }
    assert Bin(w, -sign, y, j) == Sum(N, rows) by {
      BinIs(w, -sign, y, j);
      SumEqual(N, Rotated(w, -sign, y, j), rows);
    }
    SumSwap(N, N, round);
    forall n | 0 <= n < N ensures columns(n) == if n == j then Scale(N as real, x[j]) else ZERO {
      DoubleColumn(w, sign, x, n, j);
      SumEqual(N, k => round(k, n), k => Round(w, sign, x, j, k, n));
    }
    SumSingle(N, j, columns);
  }

  lemma {:induction false} BinIs(w: Complex, sign: int, x: seq<Complex>, k: int)
    requires |x| >= 1
    ensures Bin(w, sign, x, k) == Sum(|x|, Rotated(w, sign, x, k))
  {}

  lemma {:induction false} DoubleRow(w: Complex, sign: int, x: seq<Complex>, k: nat, j: nat)
    requires |x| >= 1 && PrimitiveRoot(w, |x|)
    ensures Mul(Bin(w, sign, x, k), Twiddle(w, |x|, Angle(-sign, j, k)))
         == Sum(|x|, n => Round(w, sign, x, j, k, n))
  {
    hide Mul, Add, Scale, Twiddle, Angle;
    var N := |x|;
    var e := Twiddle(w, N, Angle(-sign, j, k));
    var inner := Rotated(w, sign, x, k);
    SumScaled(N, e, inner);
    MulCommutative(Bin(w, sign, x, k), e);
    forall n: int ensures Mul(e, inner(n)) == Round(w, sign, x, j, k, n) {
      AnglesAdd(sign, k, n, j);
      CombineTwiddles(w, N, At(x, n), Angle(-sign, j, k), Angle(sign, k, n), Angle(sign, k, n - j));
    }
    SumEqual(N, n => Mul(e, inner(n)), n => Round(w, sign, x, j, k, n));
  }

  lemma AnglesAdd(sign: int, k: int, n: int, j: int)
    ensures Angle(sign, k, n - j) == Angle(-sign, j, k) + Angle(sign, k, n)
    ensures Angle(sign, k, n) == k * (sign * n)
  {}

  lemma {:induction false} DoubleColumn(w: Complex, sign: int, x: seq<Complex>, n: nat, j: nat)
    requires |x| >= 1 && PrimitiveRoot(w, |x|) && n < |x| && j < |x| && (sign == 1 || sign == -1)
    ensures Sum(|x|, k => Round(w, sign, x, j, k, n))
         == if n == j then Scale(|x| as real, x[j]) else ZERO
  {
    hide Mul, Add, Scale, Twiddle, Sum, Round, PrimitiveRoot;
    var N, a := |x|, sign * (n - j);
    var f := k => Twiddle(w, N, k * a);
    SumScaled(N, x[n], f);
    forall k: int ensures Mul(x[n], f(k)) == Round(w, sign, x, j, k, n) {
      RoundIs(w, sign, x, j, k, n);
    }
    SumEqual(N, k => Mul(x[n], f(k)), k => Round(w, sign, x, j, k, n));
    TwiddleSum(w, N, a);
    OffsetDivides(sign, n, j, N);
    MulReal(x[n], N as real);
    MulZero(x[n]);
  }

  lemma RoundIs(w: Complex, sign: int, x: seq<Complex>, j: nat, k: int, n: nat)
    requires |x| >= 1 && n < |x|
    ensures Round(w, sign, x, j, k, n) == Mul(x[n], Twiddle(w, |x|, k * (sign * (n - j))))
  {
    hide Mul, Twiddle;
    AnglesAdd(sign, k, n - j, 0);
  }

  lemma OffsetDivides(sign: int, n: nat, j: nat, N: nat)
    requires n < N && j < N && (sign == 1 || sign == -1)
    ensures (sign * (n - j)) % N == 0 <==> n == j
  {
    var a := sign * (n - j);
    DivideUnique(a, N, if a < 0 then -1 else 0, if a < 0 then a + N else a);
  }

  lemma CombineTwiddles(w: Complex, N: nat, x: Complex, a: int, b: int, c: int)
    requires PrimitiveRoot(w, N) && c == a + b
    ensures Mul(Twiddle(w, N, a), Mul(x, Twiddle(w, N, b))) == Mul(x, Twiddle(w, N, c))
  {
    hide Mul, Twiddle;
    TwiddleAdds(w, N, a, b);
    MulSwap(Twiddle(w, N, a), x, Twiddle(w, N, b));
  }

  /** The DFT and the IDFT are mutually inverse on every vector. */
  lemma DftInverts(w: Complex, x: seq<Complex>)
    requires |x| >= 1 && PrimitiveRoot(w, |x|)
    ensures Dft(w, Idft(w, x)) == x
    ensures Idft(w, Dft(w, x)) == x
  {
    hide Mul, Add, Scale, Bin;
    var N := |x|;
    forall j | 0 <= j < N
      ensures Dft(w, Idft(w, x))[j] == x[j]
      ensures Idft(w, Dft(w, x))[j] == x[j]
    {
      ScaleCancels(N as real, x[j]);
      DoubleTransform(w, 1, x, Dft(w, x), j);
      var y := seq(N, k => Bin(w, -1, x, k));
      DoubleTransform(w, -1, x, y, j);
      RescaledBin(w, y, Idft(w, x), j);
    }
  }

  lemma RescaledBin(w: Complex, y: seq<Complex>, z: seq<Complex>, j: nat)
    requires |y| == |z| >= 1 && forall k :: 0 <= k < |y| ==> z[k] == Scale(1.0 / |y| as real, y[k])
    ensures Bin(w, 1, z, j) == Scale(1.0 / |y| as real, Bin(w, 1, y, j))
  {
    hide Mul, Add, Scale, Twiddle, Angle;
    var N, r := |y|, 1.0 / |y| as real;
    var f, g := Rotated(w, 1, y, j), Rotated(w, 1, z, j);
    forall n | 0 <= n < N ensures g(n) == Scale(r, f(n)) {
      ScaleMul(r, y[n], Twiddle(w, N, Angle(1, j, n)));
    }
    SumRescaled(N, r, f);
    SumEqual(N, g, n => Scale(r, f(n)));
  }

  // --- The DFT turns circular convolution into a pointwise product ---

  /** Tap d times the sample d places earlier on the circle of |x| samples. */
  ghost function Echo(x: seq<Complex>, h: seq<Complex>, m: int): int -> Complex
    requires |x| >= 1
  {
    d => Mul(At(h, d), x[(m - d) % |x|])
  }

  // --- What the transforms compute, in powers of exp(-2*pi*j/N) ---

  ghost function Exponent(k: nat, n: nat): nat {
    k * n
  }

  /** x[n] * exp(-2*pi*j*k*n/N), for n from 0 on. */
  ghost function Forward(w: Complex, x: seq<Complex>, k: nat): int -> Complex {
    n => if n < 0 then ZERO else Mul(At(x, n), Pow(w, Exponent(k, n)))
  }

  /** The sum over n of x[n] * exp(-2*pi*j*k*n/N). */
  ghost function Spectrum(w: Complex, x: seq<Complex>, k: nat): Complex {
    Sum(|x|, Forward(w, x, k))
  }

  lemma ForwardIsRotated(w: Complex, x: seq<Complex>, k: nat, n: nat)
    requires |x| >= 1 && PrimitiveRoot(w, |x|)
    ensures Rotated(w, 1, x, k)(n) == Forward(w, x, k)(n)
  {
    hide Mul, Twiddle, Pow, PrimitiveRoot;
    TwiddleIsPower(w, |x|, Exponent(k, n));
  }

  lemma DftIs(w: Complex, x: seq<Complex>, k: nat)
    requires |x| >= 1 && PrimitiveRoot(w, |x|) && k < |x|
    ensures Dft(w, x)[k] == Spectrum(w, x, k)
  {
    hide Rotated, Forward, Sum, PrimitiveRoot;
    forall n | 0 <= n < |x| ensures Rotated(w, 1, x, k)(n) == Forward(w, x, k)(n) {
      ForwardIsRotated(w, x, k, n);
    }
    SumEqual(|x|, Rotated(w, 1, x, k), Forward(w, x, k));
  }

  ghost predicate IsUnit(x: seq<Complex>, i: nat) {
    i < |x| && x[i] == ONE && forall m | 0 <= m < |x| && m != i :: x[m] == ZERO
  }

  /** The DFT of a unit impulse at sample n has exp(-2*pi*j*k*n/N) in bin k. */
  lemma {:induction false} ImpulseSpectrum(w: Complex, x: seq<Complex>, n: nat, k: nat)
    requires PrimitiveRoot(w, |x|) && IsUnit(x, n) && k < |x|
    ensures Dft(w, x)[k] == Pow(w, Exponent(k, n))
  {
    DftIs(w, x, k);
    hide Dft, Mul, Pow, Sum, PrimitiveRoot;
    forall m | 0 <= m < |x| && m != n ensures Forward(w, x, k)(m) == ZERO {
      MulZero(Pow(w, Exponent(k, m)));
    }
    SumSingle(|x|, n, Forward(w, x, k));
    MulOne(Pow(w, Exponent(k, n)));
  }

  /** The IDFT of a unit carrier k has exp(+2*pi*j*k*n/N) / N at sample n. */
  lemma {:induction false} CarrierSamples(w: Complex, x: seq<Complex>, k: nat, n: nat)
    requires PrimitiveRoot(w, |x|) && IsUnit(x, k) && n < |x|
    ensures Mul(Idft(w, x)[n], Pow(w, Exponent(k, n))) == Complex(1.0 / |x| as real, 0.0)
  {
    hide Mul, Scale, Pow, Sum, PrimitiveRoot, Twiddle;
    var N, m: int := |x|, Exponent(k, n);
    forall i | 0 <= i < N && i != k ensures Rotated(w, -1, x, n)(i) == ZERO {
      MulZero(Twiddle(w, N, Angle(-1, n, i)));
    }
    SumSingle(N, k, Rotated(w, -1, x, n));
    MulOne(Twiddle(w, N, -m));
    assert Angle(-1, n, k) == -m by {
      assert n * k == k * n;
    }
    TwiddleInverts(w, N, m);
    ScaleMul(1.0 / N as real, Twiddle(w, N, -m), Pow(w, m));
    MulReal(ONE, 1.0 / N as real);
    MulOne(Complex(1.0 / N as real, 0.0));
  }

  ghost function Circular(x: seq<Complex>, h: seq<Complex>): (r: seq<Complex>)
    requires |x| >= 1
    ensures |r| == |x|
  {
    seq(|x|, m => Sum(|x|, Echo(x, h, m)))
  }

  lemma ConvolutionTheorem(w: Complex, x: seq<Complex>, h: seq<Complex>, k: nat)
    requires |x| == |h| >= 1 && PrimitiveRoot(w, |x|) && k < |x|
    ensures Dft(w, Circular(x, h))[k] == Mul(Dft(w, x)[k], Dft(w, h)[k])
  {
    hide Mul, Add, Twiddle, Angle, Bin, Rotated;
    var N := |x|;
    var c := Circular(x, h);
    var part := (m: int, d: int) => Mul(Echo(x, h, m)(d), Twiddle(w, N, Angle(1, k, m)));
    var rows := m => Sum(N, d => part(m, d));
    var columns := d => Sum(N, m => part(m, d));
    forall m | 0 <= m < N ensures Rotated(w, 1, c, k)(m) == rows(m) {
      var e, f := Twiddle(w, N, Angle(1, k, m)), Echo(x, h, m);
      RotatedIs(w, 1, c, k, m);
      SumScaled(N, e, f);
      MulCommutative(c[m], e);
      forall d ensures Mul(e, f(d)) == part(m, d) {
        MulCommutative(e, f(d));
      }
      SumEqual(N, d => Mul(e, f(d)), d => part(m, d));
    }
    assert Bin(w, 1, c, k) == Sum(N, rows) by {
      BinIs(w, 1, c, k);
      SumEqual(N, Rotated(w, 1, c, k), rows);
    }
    SumSwap(N, N, part);
    var X := Bin(w, 1, x, k);
    var g := Rotated(w, 1, h, k);
    forall d | 0 <= d < N ensures columns(d) == Mul(X, g(d)) {
      EchoColumn(w, x, h, k, d);
      SumEqual(N, m => part(m, d), m => Mul(Echo(x, h, m)(d), Twiddle(w, N, Angle(1, k, m))));
    }
    SumEqual(N, columns, d => Mul(X, g(d)));
    SumScaled(N, X, g);
    BinIs(w, 1, h, k);
  }

  lemma RotatedIs(w: Complex, sign: int, x: seq<Complex>, k: int, n: int)
    requires |x| >= 1
    ensures Rotated(w, sign, x, k)(n) == Mul(At(x, n), Twiddle(w, |x|, Angle(sign, k, n)))
  {}

  /** Carrier k of the periodic extension of x. */
  ghost function Cycle(w: Complex, x: seq<Complex>, k: nat): int -> Complex
    requires |x| >= 1
  {
    i => Mul(x[i % |x|], Twiddle(w, |x|, Angle(1, k, i)))
  }

  lemma CycleRepeats(w: Complex, x: seq<Complex>, k: nat, i: int)
    requires |x| >= 1
    ensures Cycle(w, x, k)(i) == Cycle(w, x, k)(i + |x|)
  {
    hide Mul, Twiddle, Angle;
    var N := |x|;
    DivideUnique(i + N, N, i / N + 1, i % N);
    AngleWraps(k, i, N);
    TwiddlePeriodic(w, N, Angle(1, k, i), k);
  }

  lemma {:induction false} CycleSum(w: Complex, x: seq<Complex>, k: nat, d: nat)
    requires |x| >= 1
    ensures Sum(|x|, m => Cycle(w, x, k)(m - d)) == Bin(w, 1, x, k)
  {
    hide Sum, Bin, Rotated, Cycle;
    var N := |x|;
    var cycle := Cycle(w, x, k);
    forall i ensures cycle(i) == cycle(i + N) {
      CycleRepeats(w, x, k, i);
    }
    SumShifted(N, d, cycle);
    forall n | 0 <= n < N ensures cycle(n) == Rotated(w, 1, x, k)(n) {
      CycleIsRotated(w, x, k, n);
    }
    SumEqual(N, cycle, Rotated(w, 1, x, k));
    BinIs(w, 1, x, k);
    SumEqual(N, m => Cycle(w, x, k)(m - d), i => cycle(i - d));
  }

  lemma CycleIsRotated(w: Complex, x: seq<Complex>, k: nat, n: nat)
    requires n < |x|
    ensures Cycle(w, x, k)(n) == Rotated(w, 1, x, k)(n)
  {
    hide Mul, Twiddle, Angle, Rotated;
    DivideUnique(n, |x|, 0, n);
    RotatedIs(w, 1, x, k, n);
  }

  /** A delay of d samples multiplies carrier k by exp(-2*pi*j*k*d/N). */
  lemma {:induction false} EchoColumn(w: Complex, x: seq<Complex>, h: seq<Complex>, k: nat, d: nat)
    requires |x| == |h| >= 1 && PrimitiveRoot(w, |x|) && d < |x|
    ensures Sum(|x|, m => Mul(Echo(x, h, m)(d), Twiddle(w, |x|, Angle(1, k, m))))
         == Mul(Bin(w, 1, x, k), Rotated(w, 1, h, k)(d))
  {
    hide Mul, Add, Twiddle, Angle, Bin, Rotated, Sum, Cycle;
    var N := |x|;
    var lift := Mul(h[d], Twiddle(w, N, Angle(1, k, d)));
    var late := m => Cycle(w, x, k)(m - d);
    var echo := m => Mul(Echo(x, h, m)(d), Twiddle(w, N, Angle(1, k, m)));
    forall m: int ensures Mul(lift, late(m)) == echo(m) {
      EchoTerm(w, x, h, k, m, d);
    }
    SumScaled(N, lift, late);
    SumEqual(N, m => Mul(lift, late(m)), echo);
    CycleSum(w, x, k, d);
    RotatedIs(w, 1, h, k, d);
    MulCommutative(lift, Bin(w, 1, x, k));
  }

  lemma EchoTerm(w: Complex, x: seq<Complex>, h: seq<Complex>, k: nat, m: int, d: nat)
    requires |x| == |h| >= 1 && PrimitiveRoot(w, |x|) && d < |x|
    ensures Mul(Mul(h[d], Twiddle(w, |x|, Angle(1, k, d))), Cycle(w, x, k)(m - d))
         == Mul(Echo(x, h, m)(d), Twiddle(w, |x|, Angle(1, k, m)))
  {
    hide Mul, Twiddle, Angle;
    AnglesSplit(k, m, d);
    Regroup(w, |x|, h[d], x[(m - d) % |x|], Angle(1, k, d), Angle(1, k, m - d), Angle(1, k, m));
  }

  lemma AnglesSplit(k: int, m: int, d: int)
    ensures Angle(1, k, m) == Angle(1, k, d) + Angle(1, k, m - d)
  {}

  lemma AngleWraps(k: int, i: int, N: int)
    ensures Angle(1, k, i + N) == Angle(1, k, i) + N * k
  {}

  lemma Regroup(w: Complex, N: nat, h: Complex, x: Complex, a: int, b: int, c: int)
    requires PrimitiveRoot(w, N) && c == a + b
    ensures Mul(Mul(h, Twiddle(w, N, a)), Mul(x, Twiddle(w, N, b))) == Mul(Mul(h, x), Twiddle(w, N, c))
  {
    hide Mul, Twiddle;
    var u, v := Twiddle(w, N, a), Twiddle(w, N, b);
    TwiddleAdds(w, N, a, b);
    MulAssociative(h, u, Mul(x, v));
    MulSwap(u, x, v);
    MulAssociative(h, x, Mul(u, v));
  }

  // --- The link ---

  /** The last p samples repeated in front. */
  function WithPrefix(signal: seq<Complex>, p: nat): (r: seq<Complex>)
    requires p <= |signal|
    ensures |r| == p + |signal|
  {
    (if p != 0 then signal[|signal| - p..] else []) + signal
  }

  function Padded(taps: seq<Complex>, n: nat): (r: seq<Complex>)
    requires |taps| <= n
    ensures |r| == n
  {
    taps + seq(n - |taps|, _ => ZERO)
  }

  /** The N samples the receiver keeps after dropping the prefix. */
  function Useful(signal: seq<Complex>, taps: seq<Complex>, p: nat): (r: seq<Complex>)
    requires p <= |signal| && |taps| >= 1
    ensures |r| == |signal|
  {
    Convolution(WithPrefix(signal, p), taps)[p..p + |signal|]
  }

  predicate ChannelReady(w: Complex, carriers: seq<Complex>, taps: seq<Complex>, p: nat) {
    && 1 <= |taps| <= |carriers|
    && p <= |carriers|
    && PrimitiveRoot(w, |carriers|)
  }

  function Response(w: Complex, taps: seq<Complex>, n: nat): (r: seq<Complex>)
    requires 1 <= |taps| <= n
    ensures |r| == n
  {
    Dft(w, Padded(taps, n))
  }

  function Equalize(values: seq<Complex>, response: seq<Complex>): Received
    requires |values| == |response|
  {
    if ZERO in response then ZeroDivision
    else Recovered(seq(|values|, k requires 0 <= k < |values| => Div(values[k], response[k])))
  }

  function Link(w: Complex, carriers: seq<Complex>, taps: seq<Complex>, p: nat): Received
    requires ChannelReady(w, carriers, taps, p)
  {
    Equalize(Dft(w, Useful(Idft(w, carriers), taps, p)), Response(w, taps, |carriers|))
  }

  method Transmit(w: Complex, carriers: seq<Complex>, taps: seq<Complex>, prefixSize: nat)
    returns (r: Received)
    requires ChannelReady(w, carriers, taps, prefixSize)
    ensures r == Link(w, carriers, taps, prefixSize)
    ensures Equalized(w, taps, Useful(Idft(w, carriers), taps, prefixSize), r)
  {
    var signal := Idft(w, carriers);
    var received := ChannelConvolution(WithPrefix(signal, prefixSize), taps);
    var useful := received[prefixSize..prefixSize + |carriers|];
    assert useful == Useful(signal, taps, prefixSize);
    r := Equalize(Dft(w, useful), Response(w, taps, |carriers|));
    EqualizedBySpectra(w, taps, useful);
  }

  /** Every carrier received, times the channel's spectrum there, is the spectrum of the samples kept; with a zero
      in the channel's spectrum the division fails. */
  ghost predicate Equalized(w: Complex, taps: seq<Complex>, useful: seq<Complex>, r: Received) {
    match r
    case ZeroDivision => exists k: nat | k < |useful| :: Spectrum(w, taps, k) == ZERO
    case Recovered(carriers) =>
      |carriers| == |useful| && forall k: nat | k < |useful| ::
        Spectrum(w, taps, k) != ZERO && Mul(carriers[k], Spectrum(w, taps, k)) == Spectrum(w, useful, k)
  }

  lemma PaddedSpectrum(w: Complex, taps: seq<Complex>, n: nat, k: nat)
    requires |taps| <= n
    ensures Spectrum(w, Padded(taps, n), k) == Spectrum(w, taps, k)
  {
    hide Mul, Pow, Sum;
    var h := Padded(taps, n);
    forall m | 0 <= m < |taps| ensures Forward(w, h, k)(m) == Forward(w, taps, k)(m) {}
    forall m | |taps| <= m < n ensures Forward(w, h, k)(m) == ZERO {
      MulZero(Pow(w, Exponent(k, m)));
    }
    SumPadded(|taps|, n, Forward(w, h, k));
    SumEqual(|taps|, Forward(w, h, k), Forward(w, taps, k));
  }

  lemma EqualizedBySpectra(w: Complex, taps: seq<Complex>, useful: seq<Complex>)
    requires 1 <= |taps| <= |useful| && PrimitiveRoot(w, |useful|)
    ensures Equalized(w, taps, useful, Equalize(Dft(w, useful), Response(w, taps, |useful|)))
  {
    var N := |useful|;
    var response, values := Response(w, taps, N), Dft(w, useful);
    forall k: nat | k < N ensures response[k] == Spectrum(w, taps, k) && values[k] == Spectrum(w, useful, k) {
      DftIs(w, Padded(taps, N), k);
      DftIs(w, useful, k);
      PaddedSpectrum(w, taps, N, k);
    }
    hide Dft, Response, Spectrum, Mul, Div, PrimitiveRoot;
    if ZERO in response {
      var k :| 0 <= k < N && response[k] == ZERO;
      assert Spectrum(w, taps, k) == ZERO;
    } else {
      forall k: nat | k < N
        ensures Spectrum(w, taps, k) != ZERO && Mul(Div(values[k], response[k]), response[k]) == values[k]
      {
        assert response[k] in response;
        DivCancels(values[k], response[k]);
      }
    }
  }

  /** Tap d times the sample d places before output i. */
  ghost function ByTap(s: seq<Complex>, t: seq<Complex>, i: int): int -> Complex {
    d => Mul(At(t, d), At(s, i - d))
  }

  /** Convolution read tap by tap instead of sample by sample. */
  lemma {:induction false} ConvolutionByTaps(s: seq<Complex>, t: seq<Complex>, n: nat, i: nat)
    requires |t| <= n && i < |s| + |t| - 1
    ensures Convolution(s, t)[i] == Sum(n, ByTap(s, t, i))
  {
    hide Mul, Sum, At;
    var f, g := Product(s, t, i), ByTap(s, t, i);
    var M := |s| + n + i + 1;
    forall j: int
      ensures g(j) == f(i - j)
      ensures j < 0 || j >= |s| || j > i ==> f(j) == ZERO
      ensures j < 0 || j >= |t| || j > i ==> g(j) == ZERO
    {
      ProductTerm(s, t, i, j);
    }
    SumPadded(|s|, M, f);
    SumPadded(i + 1, M, f);
    SumReversed(i + 1, f);
    SumEqual(i + 1, Backwards(i + 1, f), g);
    SumPadded(i + 1, M, g);
    SumPadded(n, M, g);
  }

  /** How the two readings of a convolution term relate, and where each is silent. */
  lemma ProductTerm(s: seq<Complex>, t: seq<Complex>, i: nat, j: int)
    ensures ByTap(s, t, i)(j) == Product(s, t, i)(i - j)
    ensures j < 0 || j >= |s| || j > i ==> Product(s, t, i)(j) == ZERO
    ensures j < 0 || j >= |t| || j > i ==> ByTap(s, t, i)(j) == ZERO
  {
    hide Mul;
    MulCommutative(At(t, j), At(s, i - j));
    MulZero(At(t, i - j));
    MulZero(At(s, j));
    MulZero(At(s, i - j));
    MulZero(At(t, j));
  }

  /** The prefix turns linear convolution into circular convolution exactly when no tap reaches past it. */
  lemma PrefixMakesCircular(x: seq<Complex>, taps: seq<Complex>, p: nat)
    requires 1 <= |taps| <= |x| && p <= |x|
    requires forall d :: p < d < |taps| ==> taps[d] == ZERO
    ensures Useful(x, taps, p) == Circular(x, Padded(taps, |x|))
  {
    hide Mul, Useful, Sum, WithPrefix, Echo, ByTap;
    var N, h := |x|, Padded(taps, |x|);
    forall m | 0 <= m < N ensures Useful(x, taps, p)[m] == Circular(x, h)[m] {
      UsefulIsSlice(x, taps, p, m);
      ConvolutionByTaps(WithPrefix(x, p), taps, N, p + m);
      forall d | 0 <= d < N ensures ByTap(WithPrefix(x, p), taps, p + m)(d) == Echo(x, h, m)(d) {
        HeardIsEcho(x, taps, p, m, d);
      }
      SumEqual(N, ByTap(WithPrefix(x, p), taps, p + m), Echo(x, h, m));
    }
  }

  lemma HeardIsEcho(x: seq<Complex>, taps: seq<Complex>, p: nat, m: nat, d: nat)
    requires 1 <= |taps| <= |x| && p <= |x| && m < |x| && d < |x|
    requires d <= p + m || At(taps, d) == ZERO
    ensures ByTap(WithPrefix(x, p), taps, p + m)(d) == Echo(x, Padded(taps, |x|), m)(d)
  {
    hide Mul;
    if d <= p + m {
      PrefixSample(x, p, m, d);
    } else {
      MulZero(x[(m - d) % |x|]);
      MulZero(At(WithPrefix(x, p), p + m - d));
    }
  }

  lemma UsefulIsSlice(x: seq<Complex>, taps: seq<Complex>, p: nat, m: nat)
    requires 1 <= |taps| <= |x| && p <= |x| && m < |x|
    ensures Useful(x, taps, p)[m] == Convolution(WithPrefix(x, p), taps)[p + m]
  {}

  lemma PrefixSample(x: seq<Complex>, p: nat, m: nat, d: nat)
    requires |x| >= 1 && p <= |x| && m < |x| && d < |x| && d <= p + m
    ensures At(WithPrefix(x, p), p + m - d) == x[(m - d) % |x|]
  {
    if m >= d {
      DivideUnique(m - d, |x|, 0, m - d);
    } else {
      DivideUnique(m - d, |x|, -1, m - d + |x|);
    }
  }

  /** Without a zero in the response, the link is the identity when the prefix covers the channel. */
  lemma LinkIsIdentity(w: Complex, carriers: seq<Complex>, taps: seq<Complex>, p: nat)
    requires ChannelReady(w, carriers, taps, p)
    requires forall d :: p < d < |taps| ==> taps[d] == ZERO
    requires ZERO !in Response(w, taps, |carriers|)
    ensures Link(w, carriers, taps, p) == Recovered(carriers)
  {
    hide Mul, Add, Div, Useful;
    var N := |carriers|;
    var signal, h := Idft(w, carriers), Padded(taps, N);
    PrefixMakesCircular(signal, taps, p);
    DftInverts(w, carriers);
    var values := Dft(w, Useful(signal, taps, p));
    forall k | 0 <= k < N
      ensures Dft(w, h)[k] != ZERO && Div(values[k], Dft(w, h)[k]) == carriers[k]
    {
      ConvolutionTheorem(w, signal, h, k);
      DivCancels(carriers[k], Dft(w, h)[k]);
    }
  }

  // --- A tap beyond the prefix always breaks some transmission ---

  /** One sample at N - d, placed so that only tap d carries it around the circle to sample 0. */
  ghost function Probe(n: nat, d: nat): (r: seq<Complex>)
    ensures |r| == n
  {
    seq(n, i => if i == n - d then ONE else ZERO)
  }

  lemma ProbeOnCircle(n: nat, d: nat, e: nat)
    requires 0 < d < n && e < n
    ensures Probe(n, d)[(0 - e) % n] == if e == d then ONE else ZERO
  {
    var m: int := 0 - e;
    DivideUnique(m, n, if e == 0 then 0 else -1, if e == 0 then 0 else n - e);
  }

  /** The receiver hears nothing of the probe at sample 0. */
  lemma ProbeMissed(taps: seq<Complex>, n: nat, p: nat, d: nat)
    requires 1 <= |taps| <= n && p < d < |taps|
    ensures Useful(Probe(n, d), taps, p)[0] == ZERO
  {
    hide Mul, Sum, Useful;
    var x := Probe(n, d);
    forall e | 0 <= e < n ensures ByTap(WithPrefix(x, p), taps, p)(e) == ZERO {
      ProbeOnCircle(n, d, e);
      MulZero(At(taps, e));
      if e <= p {
        PrefixSample(x, p, 0, e);
      }
    }
    UsefulIsSlice(x, taps, p, 0);
    ConvolutionByTaps(WithPrefix(x, p), taps, n, p);
    SumOfZeros(n, ByTap(WithPrefix(x, p), taps, p));
  }

  /** The circular channel would deliver tap d there. */
  lemma ProbeEchoed(taps: seq<Complex>, n: nat, d: nat)
    requires 1 <= |taps| <= n && 0 < d < |taps|
    ensures Circular(Probe(n, d), Padded(taps, n))[0] == taps[d]
  {
    hide Mul, Sum;
    var x, h := Probe(n, d), Padded(taps, n);
    forall e | 0 <= e < n ensures Echo(x, h, 0)(e) == if e == d then taps[d] else ZERO {
      ProbeOnCircle(n, d, e);
      MulZero(At(taps, e));
      MulReal(taps[d], 1.0);
    }
    SumSingle(n, d, Echo(x, h, 0));
  }

  lemma LateTapBreaksLink(w: Complex, taps: seq<Complex>, n: nat, p: nat, d: nat)
    requires 1 <= |taps| <= n && PrimitiveRoot(w, n) && p < d < |taps| && taps[d] != ZERO
    requires ZERO !in Response(w, taps, n)
    ensures |Dft(w, Probe(n, d))| == n && Link(w, Dft(w, Probe(n, d)), taps, p) != Recovered(Dft(w, Probe(n, d)))
  {
    hide Mul, Div, Useful, Circular, Probe;
    var x, h := Probe(n, d), Padded(taps, n);
    var carriers, useful, circle := Dft(w, x), Useful(x, taps, p), Circular(x, h);
    DftInverts(w, x);
    if Link(w, carriers, taps, p) == Recovered(carriers) {
      forall k | 0 <= k < n ensures Dft(w, useful)[k] == Dft(w, circle)[k] {
        var response := Dft(w, h)[k];
        assert response in Dft(w, h);
        assert Div(Dft(w, useful)[k], response) == Recovered(carriers).carriers[k];
        DivCancels(Dft(w, useful)[k], response);
        ConvolutionTheorem(w, x, h, k);
      }
      assert Dft(w, useful) == Dft(w, circle);
      DftInverts(w, useful);
      DftInverts(w, circle);
      ProbeMissed(taps, n, p, d);
      ProbeEchoed(taps, n, d);
      assert false;
    }
  }

  /** With no zero in the response, the link returns every carrier vector unchanged
      if and only if every tap later than the prefix is zero. */
  lemma IdentityExactlyWithinPrefix(w: Complex, taps: seq<Complex>, n: nat, p: nat)
    requires 1 <= |taps| <= n && p <= n && PrimitiveRoot(w, n)
    requires ZERO !in Response(w, taps, n)
    ensures (forall carriers: seq<Complex> | |carriers| == n :: Link(w, carriers, taps, p) == Recovered(carriers))
       <==> (forall d | p < d < |taps| :: taps[d] == ZERO)
  {
    hide Link, Response;
    if forall d | p < d < |taps| :: taps[d] == ZERO {
      forall carriers: seq<Complex> | |carriers| == n
        ensures Link(w, carriers, taps, p) == Recovered(carriers)
      {
        LinkIsIdentity(w, carriers, taps, p);
      }
    } else {
      var d :| p < d < |taps| && taps[d] != ZERO;
      LateTapBreaksLink(w, taps, n, p, d);
    }
  }

  /** The twiddle of the example's eight carriers, exp(-2*pi*j/8), is a primitive root. */
  lemma EighthRoot(s: real)
    requires s * s == 0.5
    ensures PrimitiveRoot(Complex(s, -s), 8)
  {
    var w := Complex(s, -s);
    assert Mul(w, w) == Complex(0.0, -1.0);
    assert Pow(w, 1) == w;
    assert Pow(w, 2) == Complex(0.0, -1.0);
    assert Pow(w, 3) == Complex(-s, -s);
    assert Pow(w, 4) == Complex(-1.0, 0.0);
    assert Pow(w, 5) == Complex(-s, s);
    assert Pow(w, 6) == Complex(0.0, 1.0);
    assert Pow(w, 7) == Complex(s, s);
    assert Pow(w, 8) == ONE;
  }
}

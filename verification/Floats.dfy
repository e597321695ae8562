/** The IEEE-754 single-precision values that travel as four opaque bytes, and
    the distances computed from them. Values are exact reals: rounding of `double`
    arithmetic is not modelled. */
module Floats {
  import opened Words
  import opened Wrappers

  datatype Float = Finite(value: real) | Infinite(negative: bool) | NaN

  function Pow2(e: int): (r: real)
    ensures r > 0.0
    decreases if e < 0 then -e else e
  {
    if e == 0 then 1.0 else if e > 0 then 2.0 * Pow2(e - 1) else Pow2(e + 1) / 2.0
  }

  /** The value a bit pattern stands for: sign, 8-bit exponent, 23-bit fraction. */
  function FloatOf(bits: uint32): Float
  {
    var negative := bits >= 0x8000_0000;
    var exponent := bits / 0x80_0000 % 0x100;
    var fraction := bits % 0x80_0000;
    if exponent == 0xFF then
      if fraction == 0 then Infinite(negative) else NaN
    else
      var magnitude := Magnitude(exponent, fraction);
      Finite(if negative then -magnitude else magnitude)
  }

  function Magnitude(exponent: int, fraction: int): real {
    Significand(exponent, fraction) as real * Pow2(Scale(exponent))
  }

  function Significand(exponent: int, fraction: int): int {
    if exponent == 0 then fraction else 0x80_0000 + fraction
  }

  function Scale(exponent: int): int {
    if exponent == 0 then -149 else exponent - 150
  }

  /** `f < x`; every comparison with NaN is false. */
  predicate Less(f: Float, x: real) {
    match f
    case Finite(v) => v < x
    case Infinite(negative) => negative
    case NaN => false
  }

  /** `f > x`; every comparison with NaN is false. */
  predicate Greater(f: Float, x: real) {
    match f
    case Finite(v) => v > x
    case Infinite(negative) => !negative
    case NaN => false
  }

  lemma {:induction false} Pow2Sum(a: int, b: nat)
    ensures Pow2(a + b) == Pow2(a) * Pow2(b)
  {
    if b > 0 {
      Pow2Sum(a, b - 1);
      Pow2Doubles(a + b);
      Pow2Doubles(b);
      Doubled(Pow2(a), Pow2(b - 1));
    } else {
      assert Pow2(b) == 1.0;
    }
  }

  lemma Pow2Doubles(e: int)
    ensures Pow2(e) == 2.0 * Pow2(e - 1)
  {
  }

  lemma Doubled(x: real, y: real)
    ensures 2.0 * (x * y) == x * (2.0 * y)
  {
  }

  lemma {:induction false} Pow2Monotone(a: int, b: int)
    requires a <= b
    ensures Pow2(a) <= Pow2(b)
    decreases b - a
  {
    if a < b {
      Pow2Monotone(a, b - 1);
      assert b > 0 ==> Pow2(b) == 2.0 * Pow2(b - 1);
      assert b <= 0 ==> Pow2(b - 1) == Pow2(b) / 2.0;
    }
  }

  lemma ProductBelow(m: real, x: real, bound: real, y: real)
    requires 0.0 <= m < bound && 0.0 < x <= y
    ensures 0.0 <= m * x < bound * y
  {
    assert m * x <= m * y;
  }

  lemma SignificandBelow(exponent: int, fraction: int, bits: int)
    requires 0 <= fraction < 0x80_0000 && bits == 24
    ensures 0.0 <= Significand(exponent, fraction) as real < Pow2(bits)
  {
    Pow2Sum(6, 6);
    Pow2Sum(12, 12);
    assert Pow2(6) == 64.0;
  }

  lemma MagnitudeBelow(exponent: int, fraction: int, bound: real, scale: real)
    requires 0.0 <= Significand(exponent, fraction) as real < bound
    requires Pow2(Scale(exponent)) <= scale
    ensures 0.0 <= Magnitude(exponent, fraction) < bound * scale
  {
    ProductBelow(Significand(exponent, fraction) as real, Pow2(Scale(exponent)), bound, scale);
  }

  lemma MagnitudeBounded(exponent: int, fraction: int, bits: nat, top: nat)
    requires 0 <= exponent < 0xFF && 0 <= fraction < 0x80_0000 && bits == 24 && top == 104
    ensures 0.0 <= Magnitude(exponent, fraction) < Pow2(top + bits)
  {
    hide Magnitude, Significand, Pow2;
    SignificandBelow(exponent, fraction, bits);
    Pow2Monotone(Scale(exponent), top);
    Pow2Sum(top, bits);
    MagnitudeBelow(exponent, fraction, Pow2(bits), Pow2(top));
  }

  /** Every finite single lies strictly within 2^128. */
  lemma FloatBounded(bits: uint32, top: nat)
    requires FloatOf(bits).Finite? && top == 128
    ensures -Pow2(top) < FloatOf(bits).value < Pow2(top)
  {
    MagnitudeBounded(bits / 0x80_0000 % 0x100, bits % 0x80_0000, 24, top - 24);
  }

  /** The bit pattern of infinity: the patterns below it are the finite values from 0 up. */
  const INFINITE: uint32 := 0x7F80_0000

  /** The sign bit aside, the patterns below that of infinity are numbers, and those above it NaN. */
  lemma FloatClasses(bits: uint32)
    ensures FloatOf(bits).Finite? <==> bits % 0x8000_0000 < INFINITE
    ensures FloatOf(bits).NaN? <==> bits % 0x8000_0000 > INFINITE
    ensures FloatOf(INFINITE) == Infinite(false) && FloatOf(INFINITE + 0x8000_0000) == Infinite(true)
  {
    var exponent, fraction := bits / 0x80_0000 % 0x100, bits % 0x80_0000;
    assert bits % 0x8000_0000 == exponent * 0x80_0000 + fraction;
  }

  /** The sign bit negates. */
  lemma SignNegates(bits: uint32)
    requires bits < INFINITE
    ensures FloatOf(bits + 0x8000_0000) == Finite(-FloatOf(bits).value)
  {
    hide Magnitude;
    FloatClasses(bits);
    assert (bits + 0x8000_0000) / 0x80_0000 == bits / 0x80_0000 + 0x100;
    assert (bits + 0x8000_0000) % 0x80_0000 == bits % 0x80_0000;
  }

  /** Zero is zero, and each pattern exceeds the one before by one unit of the latter's binade. Together with
      `FloatClasses` and `SignNegates` this determines what every pattern stands for. */
  lemma FloatSpacing(bits: uint32)
    requires bits + 1 < INFINITE
    ensures FloatOf(0) == Finite(0.0)
    ensures FloatOf(bits).Finite? && FloatOf(bits + 1) == Finite(FloatOf(bits).value + Pow2(Scale(bits / 0x80_0000)))
  {
    hide Pow2;
    FloatClasses(bits);
    var exponent, fraction := bits / 0x80_0000, bits % 0x80_0000;
    assert exponent < 0xFF && exponent % 0x100 == exponent;
    OneMore(Significand(exponent, fraction), Pow2(Scale(exponent)));
    if fraction < 0x7F_FFFF {
      assert (bits + 1) / 0x80_0000 == exponent && (bits + 1) % 0x80_0000 == fraction + 1;
    } else {
      assert (bits + 1) / 0x80_0000 == exponent + 1 && (bits + 1) % 0x80_0000 == 0;
      Pow2Doubles(exponent - 149);
      if exponent > 0 {
        Doubled(0x80_0000 as real, Pow2(exponent - 150));
      }
    }
  }

  lemma OneMore(n: int, unit: real)
    ensures (n + 1) as real * unit == n as real * unit + unit
  {
  }

  /** So the order of the patterns is the order of the numbers. */
  lemma {:induction false} FloatsAscend(a: uint32, b: uint32)
    requires a < b < INFINITE
    ensures FloatOf(a).Finite? && FloatOf(b).Finite? && FloatOf(a).value < FloatOf(b).value
    decreases b
  {
    hide FloatOf;
    FloatSpacing(b - 1);
    if a < b - 1 {
      FloatsAscend(a, b - 1);
    }
  }

  /** No number lies between two neighbours. */
  lemma NoFloatBetween(below: uint32, x: uint32)
    requires below + 1 < INFINITE && FloatOf(x).Finite?
    ensures FloatOf(below).Finite? && FloatOf(below + 1).Finite?
    ensures FloatOf(x).value <= FloatOf(below).value || FloatOf(x).value >= FloatOf(below + 1).value
    ensures FloatOf(x).value == FloatOf(below + 1).value ==> x == below + 1
  {
    hide FloatOf;
    FloatClasses(x);
    FloatsAscend(below, below + 1);
    if x >= 0x8000_0000 {
      SignNegates(x - 0x8000_0000);
      NotBelowZero(x - 0x8000_0000);
      NotBelowZero(below);
    } else if x < below {
      FloatsAscend(x, below);
    } else if x > below + 1 {
      FloatsAscend(below + 1, x);
    }
  }

  lemma NotBelowZero(bits: uint32)
    requires bits < INFINITE
    ensures FloatOf(bits).Finite? && FloatOf(bits).value >= 0.0
  {
    hide FloatOf;
    FloatClasses(bits);
    FloatSpacing(0);
    if bits > 0 {
      FloatsAscend(0, bits);
    }
  }

  /** The largest finite `double`: `std::numeric_limits<double>::max()`. */
  const DBL_MAX: real := 9007199254740991.0 * Pow2(971)

  /** Squared planar distance, or None when it is infinite or NaN, which fails every `<`. */
  function Distance(latA: Float, lonA: Float, latB: Float, lonB: Float): Option<real> {
    match (latA, lonA, latB, lonB)
    case (Finite(a), Finite(b), Finite(c), Finite(d)) => Some((a - c) * (a - c) + (b - d) * (b - d))
    case _ => None
  }

  ghost predicate Within(f: Float, bound: real) {
    f.Finite? ==> -bound < f.value < bound
  }

  lemma SumOfSquaresBelow(x: real, y: real, r: real, max: real)
    requires -r < x < r && -r < y < r && 2.0 * (r * r) < max
    ensures x * x + y * y < max
  {
    assert x * x < r * r;
    assert y * y < r * r;
  }

  lemma DistanceBelow(latA: Float, lonA: Float, latB: Float, lonB: Float, half: real, r: real, max: real)
    requires Within(latA, half) && Within(lonA, half) && Within(latB, half) && Within(lonB, half)
    requires r == 2.0 * half && 2.0 * (r * r) < max
    ensures var d := Distance(latA, lonA, latB, lonB); d.Some? ==> d.value < max
  {
    if Distance(latA, lonA, latB, lonB).Some? {
      SumOfSquaresBelow(latA.value - latB.value, lonA.value - lonB.value, r, max);
    }
  }

  lemma SquareOfPow2(e: nat)
    requires e == 129
    ensures 2.0 * (Pow2(e) * Pow2(e)) < DBL_MAX
  {
    Pow2Sum(e, e);
    Pow2Monotone(2 * e, 971);
  }

  /** The distance between two wire coordinates, when finite, never reaches the
      initial minimum of the nearest-lot scan. */
  lemma DistanceBelowMax(latA: uint32, lonA: uint32, latB: uint32, lonB: uint32)
    ensures var d := Distance(FloatOf(latA), FloatOf(lonA), FloatOf(latB), FloatOf(lonB));
            d.Some? ==> d.value < DBL_MAX
  {
    forall bits | bits in {latA, lonA, latB, lonB} && FloatOf(bits).Finite?
      ensures Within(FloatOf(bits), Pow2(128))
    {
      FloatBounded(bits, 128);
    }
    SquareOfPow2(129);
    DistanceBelow(FloatOf(latA), FloatOf(lonA), FloatOf(latB), FloatOf(lonB), Pow2(128), Pow2(129), DBL_MAX);
  }
}

/** The vehicle's map: the float constants of the simulator, exactly, and the box they span. */
module Coordinates {
  import opened Words
  import opened Floats

  /** A float constant of the source: its bit pattern and its exact value. */
  datatype Single = Single(bits: uint32, value: real)

  const START_LAT: uint32 := 0x42001AEE  // 32.0263f
  const START_LON: uint32 := 0x420B4D84  // 34.8257f
  const LAT_MIN := Single(0x41EC0000, 29.5)                     // 29.5f
  const LAT_MAX := Single(0x42053333, 33.299999237060546875)    // 33.3f
  const LON_MIN := Single(0x4208CCCD, 34.200000762939453125)    // 34.2f
  const LON_MAX := Single(0x420F999A, 35.90000152587890625)     // 35.9f

  predicate InRange(x: uint32, low: real, high: real) {
    FloatOf(x).Finite? && low <= FloatOf(x).value <= high
  }

  /** The box the vehicle is kept in. */
  predicate InBox(lat: uint32, lon: uint32) {
    InRange(lat, LAT_MIN.value, LAT_MAX.value) && InRange(lon, LON_MIN.value, LON_MAX.value)
  }

  /** `if (x < low) x = low; if (x > high) x = high;` on floats, for `low <= high`. */
  function Clamp(x: uint32, low: Single, high: Single): uint32 {
    if Less(FloatOf(x), low.value) then low.bits
    else if Greater(FloatOf(x), high.value) then high.bits
    else x
  }

  lemma Pow2OfNegative(k: int)
    requires 0 <= k
    ensures Pow2(-k) * Pow2(k) == 1.0
  {
    Pow2Sum(-k, k);
    assert Pow2(0) == 1.0;
  }

  lemma SmallPowers()
    ensures Pow2(-18) == 1.0 / 262144.0 && Pow2(-19) == 1.0 / 524288.0
  {
    Pow2OfNegative(18);
    Pow2Sum(9, 9);
    assert Pow2(9) == 512.0;
    assert Pow2(-18) == 2.0 * Pow2(-19);
  }

  lemma PositiveFloat(bits: uint32, exponent: int, fraction: int)
    requires 0 <= exponent < 0xFF && 0 <= fraction < 0x80_0000 && bits == exponent * 0x80_0000 + fraction
    ensures FloatOf(bits) == Finite(Magnitude(exponent, fraction))
  {
    hide Magnitude;
    assert bits / 0x80_0000 == exponent && bits % 0x80_0000 == fraction;
  }

  /** The floats from 16 up to 32, and from 32 up to 64. */
  lemma MagnitudeInBinade(fraction: int)
    ensures Magnitude(131, fraction) == (0x80_0000 + fraction) as real / 524288.0
    ensures Magnitude(132, fraction) == (0x80_0000 + fraction) as real / 262144.0
  {
    SmallPowers();
  }

  lemma LatitudesAreExact()
    ensures FloatOf(LAT_MIN.bits) == Finite(LAT_MIN.value) && FloatOf(LAT_MAX.bits) == Finite(LAT_MAX.value)
  {
    hide FloatOf, Magnitude;
    PositiveFloat(LAT_MIN.bits, 131, 0x6C0000);
    MagnitudeInBinade(0x6C0000);
    PositiveFloat(LAT_MAX.bits, 132, 0x053333);
    MagnitudeInBinade(0x053333);
  }

  lemma LongitudesAreExact()
    ensures FloatOf(LON_MIN.bits) == Finite(LON_MIN.value) && FloatOf(LON_MAX.bits) == Finite(LON_MAX.value)
  {
    hide FloatOf, Magnitude;
    PositiveFloat(LON_MIN.bits, 132, 0x08CCCD);
    MagnitudeInBinade(0x08CCCD);
    PositiveFloat(LON_MAX.bits, 132, 0x0F999A);
    MagnitudeInBinade(0x0F999A);
  }

  lemma StartIsExact()
    ensures FloatOf(START_LAT) == Finite(32.02629852294921875)
    ensures FloatOf(START_LON) == Finite(34.8256988525390625)
  {
    hide FloatOf, Magnitude;
    PositiveFloat(START_LAT, 132, 0x001AEE);
    MagnitudeInBinade(0x001AEE);
    PositiveFloat(START_LON, 132, 0x0B4D84);
    MagnitudeInBinade(0x0B4D84);
  }

  lemma StartInBox()
    ensures InBox(START_LAT, START_LON)
  {
    hide FloatOf;
    StartIsExact();
  }

  /** How far apart two floats are. */
  function Gap(a: uint32, b: uint32): real
    requires FloatOf(a).Finite? && FloatOf(b).Finite?
  {
    var d := FloatOf(a).value - FloatOf(b).value;
    if d < 0.0 then -d else d
  }

  /** Clamping takes the nearest value of the range. */
  lemma ClampIsNearest(x: uint32, low: Single, high: Single, y: uint32)
    requires FloatOf(low.bits) == Finite(low.value) && FloatOf(high.bits) == Finite(high.value)
    requires low.value <= high.value && FloatOf(x).Finite? && InRange(y, low.value, high.value)
    ensures InRange(Clamp(x, low, high), low.value, high.value)
    ensures Gap(x, Clamp(x, low, high)) <= Gap(x, y)
  {
    hide FloatOf;
  }

  /** Clamping brings everything but NaN into the range, and leaves alone what is in it. */
  lemma ClampInRange(x: uint32, low: Single, high: Single)
    requires FloatOf(low.bits) == Finite(low.value) && FloatOf(high.bits) == Finite(high.value)
    requires low.value <= high.value
    ensures InRange(Clamp(x, low, high), low.value, high.value) <==> !FloatOf(x).NaN?
    ensures InRange(x, low.value, high.value) ==> Clamp(x, low, high) == x
  {
  }
}

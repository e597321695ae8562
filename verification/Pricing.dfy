/** The price formula applied when a session is closed. Money is exact: rounding
    of `double` is not modelled. */
module Pricing {
  import opened Words

  function Max(a: int, b: int): int { if a < b then b else a }

  function Min(a: real, b: real): real { if b < a then b else a }

  /** `(std::max(duration_sec, 0) + 3599) / 3600` in `int` arithmetic. */
  function Hours(duration: int32): int {
    TruncatedDiv(Int32(Max(duration, 0) + 3599), 3600)
  }

  function Price(hourly: bool, price: real, maxDaily: real, duration: int32): real {
    if !hourly then price else Capped(Hours(duration), price, maxDaily)
  }

  function Capped(hours: int, price: real, maxDaily: real): real {
    Min(hours as real * price, maxDaily)
  }

  /** `h` is the least whole number of `unit`s that covers `x`. */
  predicate IsCeiling(h: int, x: int, unit: int) {
    unit * (h - 1) < x <= unit * h
  }

  const LONGEST_PRICED: int := INT_MAX - 3599

  /** The hour count is the exact ceiling for every duration up to `LONGEST_PRICED`,
      and for no longer one: there the addition overflows. */
  lemma HoursExact(duration: int32)
    ensures IsCeiling(Hours(duration), Max(duration, 0), 3600) <==> duration <= LONGEST_PRICED
  {
    if duration > LONGEST_PRICED {
      assert Int32(duration + 3599) == duration + 3599 - 0x1_0000_0000;
      assert Hours(duration) <= 0;
    }
  }

  /** Exactly the stays that are longer are charged a negative number of hours. */
  lemma LongStayPricedNegative(duration: int32)
    ensures Hours(duration) < 0 <==> duration > LONGEST_PRICED
  {
    if duration > LONGEST_PRICED {
      assert Int32(duration + 3599) == duration + 3599 - 0x1_0000_0000;
    }
  }

  /** A stay on a flat-rate lot costs the lot's price, however long it is and whatever the cap. */
  lemma FlatRateIgnoresStay(price: real, maxDaily: real, duration: int32)
    ensures Price(false, price, maxDaily, duration) == price
  {
  }

  /** An hourly stay costs its begun hours or the cap, whichever is less. */
  lemma ChargeIsHoursOrCap(price: real, maxDaily: real, duration: int32, hours: int)
    requires duration <= LONGEST_PRICED && IsCeiling(hours, Max(duration, 0), 3600)
    ensures var charge := Price(true, price, maxDaily, duration);
            && charge <= hours as real * price && charge <= maxDaily
            && (charge == hours as real * price || charge == maxDaily)
  {
    HoursExact(duration);
    assert Hours(duration) == hours;
  }

  lemma HoursMonotone(a: int32, b: int32)
    requires a <= b <= LONGEST_PRICED
    ensures 0 <= Hours(a) <= Hours(b)
  {
  }

  lemma HoursSubadditive(a: int32, b: int32)
    requires 0 <= a && 0 <= b && a + b <= LONGEST_PRICED
    ensures Hours(a + b) <= Hours(a) + Hours(b)
  {
    HoursExact(a);
    HoursExact(b);
    HoursExact(a + b);
  }

  lemma CappedMonotone(m: int, n: int, price: real, maxDaily: real)
    requires 0 <= m <= n && price >= 0.0 && maxDaily >= 0.0
    ensures 0.0 <= Capped(m, price, maxDaily) <= Capped(n, price, maxDaily) <= maxDaily
  {
    var x, y := m as real, n as real;
    assert 0.0 <= x * price;
    assert 0.0 <= (y - x) * price == y * price - x * price;
  }

  lemma CappedSubadditive(m: int, n: int, price: real, maxDaily: real)
    requires 0 <= m && 0 <= n && price >= 0.0 && maxDaily >= 0.0
    ensures Capped(m + n, price, maxDaily) <= Capped(m, price, maxDaily) + Capped(n, price, maxDaily)
  {
    var x, y := m as real, n as real;
    assert (x + y) * price == x * price + y * price;
    assert 0.0 <= x * price;
    assert 0.0 <= y * price;
  }

  /** An hourly lot never charges above its cap, and never charges less for a longer stay. */
  lemma PriceMonotoneAndCapped(price: real, maxDaily: real, a: int32, b: int32)
    requires price >= 0.0 && maxDaily >= 0.0 && a <= b <= LONGEST_PRICED
    ensures 0.0 <= Price(true, price, maxDaily, a) <= Price(true, price, maxDaily, b) <= maxDaily
  {
    HoursMonotone(a, b);
    CappedMonotone(Hours(a), Hours(b), price, maxDaily);
  }

  /** Splitting a stay in two never saves money. */
  lemma SplittingNeverSaves(price: real, maxDaily: real, a: int32, b: int32)
    requires price >= 0.0 && maxDaily >= 0.0 && 0 <= a && 0 <= b && a + b <= LONGEST_PRICED
    ensures Price(true, price, maxDaily, a + b)
         <= Price(true, price, maxDaily, a) + Price(true, price, maxDaily, b)
  {
    HoursMonotone(0, a);
    HoursMonotone(0, b);
    HoursMonotone(0, a + b);
    HoursSubadditive(a, b);
    CappedMonotone(Hours(a + b), Hours(a) + Hours(b), price, maxDaily);
    CappedSubadditive(Hours(a), Hours(b), price, maxDaily);
  }

  /** An hourly lot added without a cap gets cap 0 and is free, although the usage text calls the cap optional;
      only the stays whose hours overflow are not free there but are paid for by the lot. */
  lemma OmittedCapIsFree(price: real, duration: int32)
    requires price >= 0.0
    ensures Price(true, price, 0.0, duration) == 0.0 <==> price == 0.0 || duration <= LONGEST_PRICED
    ensures Price(true, price, 0.0, duration) <= 0.0
  {
    LongStayPricedNegative(duration);
    if duration <= LONGEST_PRICED {
      PriceMonotoneAndCapped(price, 0.0, duration, duration);
    } else if price > 0.0 {
      NegativeProduct(Hours(duration) as real, price);
    }
  }

  lemma NegativeProduct(x: real, y: real)
    requires x < 0.0 && y > 0.0
    ensures x * y < 0.0
  {
  }
}

/** The BeagleBone's I2C process: validates what it reads from the vehicle and forwards
    STARTs and STOPs into the pipe. */
module I2cProcesses {
  import opened Words
  import opened Floats
  import opened Pricing
  import opened Wire
  import opened Coordinates
  import opened Simulator
  import opened Journeys

  const MIN_LICENSE: uint32 := 1000000
  const MIN_UTC: uint32 := 1751371200

  // The double-precision constants 29.5, 33.3, 34.2 and 35.9, exactly.
  const LAT_LOW: real := 29.5
  const LAT_HIGH: real := 33.2999999999999971578290569599592565155029296875
  const LON_LOW: real := 34.2000000000000028421709430404007434844970703125
  const LON_HIGH: real := 35.89999999999999857891452847979962825775146484375

  /** The checks of `memcpy_validate` at clock reading `now`. */
  predicate Accepts(m: Msg, now: int) {
    && m.kind <= MSG_STOP
    && m.license >= MIN_LICENSE
    && !(Less(FloatOf(m.lat), LAT_LOW) || Greater(FloatOf(m.lat), LAT_HIGH))
    && !(Less(FloatOf(m.lon), LON_LOW) || Greater(FloatOf(m.lon), LON_HIGH))
    && MIN_UTC <= m.utc <= now
  }

  predicate Forwards(m: Msg, now: int) {
    Accepts(m, now) && IsMark(m)
  }

  /** The process, with the bytes its pipe has not given up yet. */
  class I2cProcess {
    var msg: Msg
    var pipe: seq<byte>

    constructor ()
      ensures pipe == []
    {
      msg := Msg(0, 0, 0, 0, 0);
      pipe := [];
    }

    method MemcpyValidate(buf: array<byte>, now: int) returns (ok: bool)
      requires buf.Length == MSG_LEN
      modifies this`msg
      ensures msg == Decode(buf[..])
      ensures ok <==> Accepts(msg, now)
    {
      msg := Decode(buf[..]);
      if msg.kind > MSG_STOP {
        return false;
      }
      if msg.license < MIN_LICENSE {
        return false;
      }
      if Less(FloatOf(msg.lat), LAT_LOW) || Greater(FloatOf(msg.lat), LAT_HIGH)
         || Less(FloatOf(msg.lon), LON_LOW) || Greater(FloatOf(msg.lon), LON_HIGH) {
        return false;
      }
      if msg.utc < MIN_UTC || msg.utc > now {
        return false;
      }
      return true;
    }

    /** One pass of the endless loop: `rd` is what `read` returns, `wrote` whether the 17-byte pipe
        write succeeds, which it does as a whole or not at all. */
    method Pass(rd: int, data: seq<byte>, now: int, wrote: bool)
      requires rd >= 0 ==> |data| == rd <= MSG_LEN
      modifies this
      ensures pipe == old(pipe) +
                if rd == MSG_LEN && Forwards(Decode(data), now) && wrote then data else []
    {
      if rd < 0 {
        return;
      }
      if rd != MSG_LEN {
        return;
      }
      var buf := new byte[MSG_LEN](i requires 0 <= i < MSG_LEN => data[i]);
      assert buf[..] == data;
      var ok := MemcpyValidate(buf, now);
      if ok {
        if msg.kind == MSG_START || msg.kind == MSG_STOP {
          if wrote {
            EncodeDecode(data);
            pipe := pipe + Encode(msg);
          }
        }
      }
    }
  }

  // ---------------------------------------------------------------- which messages get through

  /** The neighbours of the box's edges that the validator's `double` bounds fall next to. */
  lemma NeighboursAreExact()
    ensures FloatOf(LAT_MAX.bits + 1) == Finite(33.3000030517578125)
    ensures FloatOf(LON_MIN.bits - 1) == Finite(34.1999969482421875)
    ensures FloatOf(LON_MAX.bits - 1) == Finite(35.8999977111816406250)
  {
    hide FloatOf, Magnitude;
    PositiveFloat(LAT_MAX.bits + 1, 132, 0x053334);
    MagnitudeInBinade(0x053334);
    PositiveFloat(LON_MIN.bits - 1, 132, 0x08CCCC);
    MagnitudeInBinade(0x08CCCC);
    PositiveFloat(LON_MAX.bits - 1, 132, 0x0F9999);
    MagnitudeInBinade(0x0F9999);
  }

  /** Within the vehicle's box, one float exceeds the validator's bound: `35.9f`, which lies above `35.9`. */
  lemma OnlyTopLongitudeExceeds(x: uint32)
    requires InRange(x, LON_MIN.value, LON_MAX.value)
    ensures FloatOf(x).value > LON_HIGH <==> x == LON_MAX.bits
  {
    hide FloatOf;
    LongitudesAreExact();
    NeighboursAreExact();
    NoFloatBetween(LON_MAX.bits - 1, x);
  }

  /** On floats, the validator's latitude bounds are those of the vehicle's box. */
  lemma LatitudeBoundsAgree(x: uint32)
    requires FloatOf(x).Finite?
    ensures LAT_LOW <= FloatOf(x).value <= LAT_HIGH <==> InRange(x, LAT_MIN.value, LAT_MAX.value)
  {
    hide FloatOf;
    LatitudesAreExact();
    NeighboursAreExact();
    NoFloatBetween(LAT_MAX.bits, x);
  }

  /** So are its longitude bounds, but for the eastern edge. */
  lemma LongitudeBoundsAgree(x: uint32)
    requires FloatOf(x).Finite?
    ensures LON_LOW <= FloatOf(x).value <= LON_HIGH <==>
            InRange(x, LON_MIN.value, LON_MAX.value) && x != LON_MAX.bits
  {
    hide FloatOf;
    LongitudesAreExact();
    NeighboursAreExact();
    NoFloatBetween(LON_MIN.bits - 1, x);
    NoFloatBetween(LON_MAX.bits - 1, x);
  }

  /** What the validator accepts, of all messages: a known type, a licence of at least seven digits, a time between
      the factory clock and now, and a place in the vehicle's box except on its eastern edge. A coordinate that is
      NaN passes too, since it compares with nothing. */
  lemma AcceptedIff(m: Msg, now: int)
    ensures Accepts(m, now) <==>
            && m.kind in {MSG_IDLE, MSG_START, MSG_STOP}
            && m.license >= 1000000
            && START_UTC <= m.utc <= now
            && (FloatOf(m.lat).NaN? || InRange(m.lat, LAT_MIN.value, LAT_MAX.value))
            && (FloatOf(m.lon).NaN? || (InRange(m.lon, LON_MIN.value, LON_MAX.value) && m.lon != LON_MAX.bits))
  {
    hide FloatOf;
    LongitudesAreExact();
    if FloatOf(m.lat).Finite? {
      LatitudeBoundsAgree(m.lat);
    }
    if FloatOf(m.lon).Finite? {
      LongitudeBoundsAgree(m.lon);
    }
  }

  /** For whole runs: what a vehicle that starts at its factory clock gets past the validator. */
  lemma SentMessageAcceptedIff(rand: nat, os: seq<Tick>, license: uint32, m: Msg, now: int)
    requires ClockHolds(START_UTC, os) && NumericSteps(os)
    requires m in Sent(Initial(rand, START_UTC), os, license)
    ensures Accepts(m, now) <==> license >= 1000000 && m.utc <= now && m.lon != LON_MAX.bits
  {
    hide Accepts, FloatOf;
    var v := Initial(rand, START_UTC);
    StartInBox();
    StaysInBox(v, os, license);
    ClockIsMonotone(v, os, license);
    SentIsWellFormed(v, os, license);
    AcceptedIff(m, now);
  }

  lemma {:induction false} SentIsWellFormed(v: Vehicle, os: seq<Tick>, license: uint32)
    ensures forall m :: m in Sent(v, os, license) ==> m.kind <= MSG_STOP && m.license == license
  {
    hide Clamp;
    if os != [] {
      SentIsWellFormed(v, os[..|os| - 1], license);
    }
  }

  // ---------------------------------------------------------------- arithmetic across the machines

  /** With the BeagleBone's clock below 2^31, everything the server computes from two accepted
      timestamps is exact: the conversions to `int`, the difference, and the rounding up to hours. */
  lemma AcceptedTimesAreExact(start: Msg, stop: Msg, nowStart: int, nowStop: int)
    requires Accepts(start, nowStart) && Accepts(stop, nowStop)
    requires nowStart <= INT_MAX && nowStop <= INT_MAX
    ensures Int32(start.utc) == start.utc && Int32(stop.utc) == stop.utc
    ensures Int32(Int32(stop.utc) - Int32(start.utc)) == stop.utc - start.utc <= LONGEST_PRICED
    ensures IsCeiling(Hours(stop.utc - start.utc), Max(stop.utc - start.utc, 0), 3600)
  {
    HoursExact(stop.utc - start.utc);
  }
}

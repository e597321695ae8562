/** The vehicle: a counter machine that wanders, parks and announces every second what it does. */
module Simulator {
  import opened Words
  import opened Floats
  import opened Wire
  import opened Coordinates
  import opened Sequences

  const PARK_INTERVAL_MIN: nat := 5
  const PARK_INTERVAL_MAX: nat := 15
  const PARK_DURATION_MIN: nat := 1
  const PARK_DURATION_MAX: nat := 10
  const START_UTC: uint32 := 1751371200

  /** The globals of the GPS task. */
  datatype Vehicle = Vehicle(parking: bool, counter: uint32, duration: uint32, untilPark: uint32,
                             lat: uint32, lon: uint32, utc: uint32)

  /** What one iteration of the task meets: the timer interrupts since the last one, the value
      `rand` returns for a counter, and the coordinates after the random step, before clamping. */
  datatype Tick = Tick(elapsed: nat, rand: nat, lat: uint32, lon: uint32)

  function RandRange(min: nat, max: nat, rand: nat): nat
    requires min <= max
  {
    min + rand % (max - min + 1)
  }

  /** What is drawn: the one number of the range that differs from `min` by what `rand` leaves over. */
  lemma DrawIsCongruent(min: nat, max: nat, rand: nat, drawn: nat)
    requires min <= drawn <= max
    ensures RandRange(min, max, rand) == drawn <==> rand % (max - min + 1) == drawn - min
  {
  }

  function Initial(rand: nat, utc: uint32): Vehicle {
    Vehicle(false, 0, 0, RandRange(PARK_INTERVAL_MIN, PARK_INTERVAL_MAX, rand), START_LAT, START_LON, utc)
  }

  function Moved(v: Vehicle, o: Tick): Vehicle {
    var w := v.(utc := Uint32(v.utc + o.elapsed));
    if v.parking then w
    else w.(lat := Clamp(o.lat, LAT_MIN, LAT_MAX), lon := Clamp(o.lon, LON_MIN, LON_MAX))
  }

  function Kind(v: Vehicle): byte {
    if !v.parking then MSG_IDLE
    else if v.counter == 0 then MSG_START
    else if v.counter >= v.duration then MSG_STOP
    else MSG_IDLE
  }

  /** The message one iteration sends. */
  function Announce(v: Vehicle, o: Tick, license: uint32): Msg {
    var w := Moved(v, o);
    Msg(Kind(v), license, w.utc, w.lat, w.lon)
  }

  /** The globals after one iteration. */
  function Next(v: Vehicle, o: Tick): Vehicle {
    var w := Moved(v, o);
    if v.parking then
      if v.counter > 0 && v.counter >= v.duration then
        w.(parking := false, untilPark := RandRange(PARK_INTERVAL_MIN, PARK_INTERVAL_MAX, o.rand), counter := 1)
      else w.(counter := Uint32(v.counter + 1))
    else
      var left := Uint32(v.untilPark - 1);
      if left == 0 then
        var duration := RandRange(PARK_DURATION_MIN, PARK_DURATION_MAX, o.rand);
        w.(parking := true, untilPark := 0, duration := duration, counter := 0)
      else w.(untilPark := left)
  }

  function After(v: Vehicle, os: seq<Tick>): Vehicle {
    if os == [] then v else Next(After(v, os[..|os| - 1]), os[|os| - 1])
  }

  /** Everything sent during a run. */
  function Sent(v: Vehicle, os: seq<Tick>, license: uint32): (ms: seq<Msg>)
    ensures |ms| == |os|
  {
    if os == [] then []
    else Sent(v, os[..|os| - 1], license) + [Announce(After(v, os[..|os| - 1]), os[|os| - 1], license)]
  }

  lemma SentSnoc(v: Vehicle, os: seq<Tick>, o: Tick, license: uint32)
    ensures Sent(v, os + [o], license) == Sent(v, os, license) + [Announce(After(v, os), o, license)]
  {
    hide Announce, Next;
    assert (os + [o])[..|os|] == os;
  }

  /** The task itself: one method call is one pass of its endless loop. */
  class GpsTask {
    var isParking: bool
    var parkCounter: uint32
    var parkDuration: uint32
    var untilNextPark: uint32
    var lat: uint32
    var lon: uint32
    var utcSeconds: uint32

    function View(): Vehicle
      reads this
    {
      Vehicle(isParking, parkCounter, parkDuration, untilNextPark, lat, lon, utcSeconds)
    }

    constructor (rand: nat, utc: uint32)
      ensures View() == Initial(rand, utc)
    {
      isParking, parkCounter, parkDuration, utcSeconds := false, 0, 0, utc;
      lat, lon := START_LAT, START_LON;
      untilNextPark := RandRange(PARK_INTERVAL_MIN, PARK_INTERVAL_MAX, rand);
    }

    method Iterate(o: Tick, license: uint32) returns (msg: Msg)
      modifies this
      ensures View() == Next(old(View()), o)
      ensures msg == Announce(old(View()), o, license)
    {
      utcSeconds := Uint32(utcSeconds + o.elapsed);
      if isParking {
        if parkCounter == 0 {
          msg := GpsMsg(MSG_START, license);
        } else if parkCounter >= parkDuration {
          msg := GpsMsg(MSG_STOP, license);
          isParking := false;
          untilNextPark := RandRange(PARK_INTERVAL_MIN, PARK_INTERVAL_MAX, o.rand);
          parkCounter := 0;
        } else {
          msg := GpsMsg(MSG_IDLE, license);
        }
        parkCounter := Uint32(parkCounter + 1);
      } else {
        UpdatePosition(o);
        msg := GpsMsg(MSG_IDLE, license);
        untilNextPark := Uint32(untilNextPark - 1);
        if untilNextPark == 0 {
          isParking := true;
          parkDuration := RandRange(PARK_DURATION_MIN, PARK_DURATION_MAX, o.rand);
          parkCounter := 0;
        }
      }
    }

    function GpsMsg(kind: byte, license: uint32): Msg
      reads this
    {
      Msg(kind, license, utcSeconds, lat, lon)
    }

    /** `o` holds the coordinates after the random step. Whatever they are, unless NaN, the vehicle ends in the
        box, and exactly where the step took it if that is within. */
    method UpdatePosition(o: Tick)
      modifies this`lat, this`lon
      ensures lat == Clamp(o.lat, LAT_MIN, LAT_MAX) && lon == Clamp(o.lon, LON_MIN, LON_MAX)
      ensures InBox(lat, lon) <==> !FloatOf(o.lat).NaN? && !FloatOf(o.lon).NaN?
      ensures InBox(o.lat, o.lon) ==> lat == o.lat && lon == o.lon
    {
      hide FloatOf;
      LatitudesAreExact();
      LongitudesAreExact();
      ClampInRange(o.lat, LAT_MIN, LAT_MAX);
      ClampInRange(o.lon, LON_MIN, LON_MAX);
      lat, lon := o.lat, o.lon;
      if Less(FloatOf(lat), LAT_MIN.value) { lat := LAT_MIN.bits; }
      if Greater(FloatOf(lat), LAT_MAX.value) { lat := LAT_MAX.bits; }
      if Less(FloatOf(lon), LON_MIN.value) { lon := LON_MIN.bits; }
      if Greater(FloatOf(lon), LON_MAX.value) { lon := LON_MAX.bits; }
    }
  }

  // ---------------------------------------------------------------- trace grammar

  /** One parking and the drive after it: START IDLE^(d-1) STOP IDLE^n. */
  datatype Cycle = Cycle(d: nat, n: nat)

  predicate ValidCycle(c: Cycle) {
    && PARK_DURATION_MIN <= c.d <= PARK_DURATION_MAX
    && PARK_INTERVAL_MIN <= c.n <= PARK_INTERVAL_MAX
  }

  predicate ValidCycles(n0: nat, cs: seq<Cycle>) {
    && PARK_INTERVAL_MIN <= n0 <= PARK_INTERVAL_MAX
    && forall i :: 0 <= i < |cs| ==> ValidCycle(cs[i])
  }

  function Idles(n: nat): (s: seq<byte>)
    ensures |s| == n
  {
    seq(n, i => MSG_IDLE)
  }

  /** The first `d` messages of a parking. */
  function Parked(d: nat): (s: seq<byte>)
    ensures |s| == d
  {
    if d == 0 then [] else [MSG_START] + Idles(d - 1)
  }

  /** IDLE^n0 followed by the cycles. */
  function Sentence(n0: nat, cs: seq<Cycle>): seq<byte>
  {
    if cs == [] then Idles(n0)
    else
      var c := cs[|cs| - 1];
      Sentence(n0, cs[..|cs| - 1]) + Parked(c.d) + [MSG_STOP] + Idles(c.n)
  }

  function Kinds(ms: seq<Msg>): (s: seq<byte>)
    ensures |s| == |ms|
  {
    seq(|ms|, i requires 0 <= i < |ms| => ms[i].kind)
  }

  /** What the counters can hold: no counter ever overflows, and the one counted down is positive
      whenever it is decremented. */
  ghost predicate Sane(v: Vehicle) {
    if v.parking then
      v.counter <= v.duration && PARK_DURATION_MIN <= v.duration <= PARK_DURATION_MAX
    else
      1 <= v.untilPark <= PARK_INTERVAL_MAX
  }

  /** What has been sent, stated through the grammar: complete cycles, then the part of the current
      one that the counters stand for. */
  ghost predicate Tracks(v: Vehicle, kinds: seq<byte>, n0: nat, cs: seq<Cycle>) {
    && Sane(v)
    && ValidCycles(n0, cs)
    && if v.parking then
         kinds == Sentence(n0, cs) + Parked(v.counter)
       else
         kinds + Idles(v.untilPark) == Sentence(n0, cs)
  }

  lemma IdlesSnoc(n: nat)
    ensures Idles(n + 1) == Idles(n) + [MSG_IDLE] == [MSG_IDLE] + Idles(n)
  {
  }

  lemma ParkedStep(v: Vehicle, o: Tick, kinds: seq<byte>, n0: nat, cs: seq<Cycle>) returns (ds: seq<Cycle>)
    requires Tracks(v, kinds, n0, cs) && v.parking
    ensures Tracks(Next(v, o), kinds + [Kind(v)], n0, ds)
  {
    hide Clamp;
    var w := Next(v, o);
    if Kind(v) == MSG_STOP {
      ds := cs + [Cycle(v.duration, w.untilPark)];
      assert ds[..|cs|] == cs;
      assert kinds + [MSG_STOP] + Idles(w.untilPark) == Sentence(n0, ds);
    } else {
      ds := cs;
      if v.counter > 0 {
        IdlesSnoc(v.counter - 1);
      }
      assert kinds + [Kind(v)] == Sentence(n0, cs) + Parked(w.counter);
    }
  }

  lemma DrivenStep(v: Vehicle, o: Tick, kinds: seq<byte>, n0: nat, cs: seq<Cycle>)
    requires Tracks(v, kinds, n0, cs) && !v.parking
    ensures Tracks(Next(v, o), kinds + [Kind(v)], n0, cs)
  {
    hide Clamp, Sentence;
    IdlesSnoc(v.untilPark - 1);
    assert kinds + [MSG_IDLE] + Idles(v.untilPark - 1) == Sentence(n0, cs);
    if Next(v, o).parking {
      assert kinds + [MSG_IDLE] == Sentence(n0, cs);
    }
  }

  lemma {:induction false} RunTracks(rand: nat, utc: uint32, os: seq<Tick>, license: uint32)
    returns (n0: nat, cs: seq<Cycle>)
    ensures Tracks(After(Initial(rand, utc), os), Kinds(Sent(Initial(rand, utc), os, license)), n0, cs)
  {
    var v := Initial(rand, utc);
    if os == [] {
      n0, cs := v.untilPark, [];
      assert [] + Idles(n0) == Sentence(n0, cs);
    } else {
      var front, o := os[..|os| - 1], os[|os| - 1];
      n0, cs := RunTracks(rand, utc, front, license);
      if After(v, front).parking {
        cs := ParkedStep(After(v, front), o, Kinds(Sent(v, front, license)), n0, cs);
      } else {
        DrivenStep(After(v, front), o, Kinds(Sent(v, front, license)), n0, cs);
      }
      assert Kinds(Sent(v, os, license)) == Kinds(Sent(v, front, license)) + [Kind(After(v, front))];
    }
  }

  /** Every trace is a prefix of IDLE^n0 (START IDLE^(d-1) STOP IDLE^n)* with all counts in range, and
      no counter ever wraps. */
  lemma TraceIsInGrammar(rand: nat, utc: uint32, os: seq<Tick>, license: uint32)
    ensures Sane(After(Initial(rand, utc), os))
    ensures exists n0, cs :: ValidCycles(n0, cs) && Kinds(Sent(Initial(rand, utc), os, license)) <= Sentence(n0, cs)
  {
    hide After, Sent, Kinds, Sentence, Parked, Idles;
    var v := After(Initial(rand, utc), os);
    var kinds := Kinds(Sent(Initial(rand, utc), os, license));
    var n0, cs := RunTracks(rand, utc, os, license);
    if v.parking {
      var c := Cycle(v.duration, PARK_INTERVAL_MIN);
      ParkedPrefix(n0, cs, c, v.counter);
      assert ValidCycles(n0, cs + [c]) && kinds <= Sentence(n0, cs + [c]);
    } else {
      assert kinds <= Sentence(n0, cs);
    }
  }

  lemma ParkedPrefix(n0: nat, cs: seq<Cycle>, c: Cycle, n: nat)
    requires n <= c.d
    ensures Sentence(n0, cs) + Parked(n) <= Sentence(n0, cs + [c])
  {
    assert (cs + [c])[..|cs|] == cs;
    var rest := Parked(c.d)[n..] + [MSG_STOP] + Idles(c.n);
    assert Parked(c.d) == Parked(n) + Parked(c.d)[n..];
    assert Sentence(n0, cs + [c]) == Sentence(n0, cs) + Parked(n) + rest;
  }
}

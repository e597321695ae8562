/** Whole runs of the vehicle: every word of the trace grammar can occur, and a parked vehicle
    neither moves nor turns its clock back. */
module Journeys {
  import opened Words
  import opened Floats
  import opened Wire
  import opened Coordinates
  import opened Sequences
  import opened Simulator

  lemma {:induction false} SentConcat(v: Vehicle, a: seq<Tick>, b: seq<Tick>, license: uint32)
    ensures After(v, a + b) == After(After(v, a), b)
    ensures Sent(v, a + b, license) == Sent(v, a, license) + Sent(After(v, a), b, license)
  {
    if b == [] {
      assert a + b == a;
    } else {
      var front := b[..|b| - 1];
      assert (a + b)[..|a + b| - 1] == a + front;
      SentConcat(v, a, front, license);
    }
  }

  lemma SentPrefix(v: Vehicle, os: seq<Tick>, n: nat, license: uint32)
    requires n <= |os|
    ensures Sent(v, os[..n], license) == Sent(v, os, license)[..n]
  {
    assert os == os[..n] + os[n..];
    SentConcat(v, os[..n], os[n..], license);
  }

  lemma KindsConcat(a: seq<Msg>, b: seq<Msg>)
    ensures Kinds(a + b) == Kinds(a) + Kinds(b)
  {
  }

  // ---------------------------------------------------------------- every word occurs

  /** An iteration in which only the drawn number matters. */
  function Draw(v: Vehicle, rand: nat): Tick {
    Tick(0, rand, v.lat, v.lon)
  }

  lemma Join(v: Vehicle, a: seq<Tick>, b: seq<Tick>, license: uint32)
    ensures After(v, a + b) == After(After(v, a), b)
    ensures Kinds(Sent(v, a + b, license)) == Kinds(Sent(v, a, license)) + Kinds(Sent(After(v, a), b, license))
  {
    SentConcat(v, a, b, license);
    KindsConcat(Sent(v, a, license), Sent(After(v, a), b, license));
  }

  lemma Extend(v: Vehicle, o: Tick, rest: seq<Tick>, license: uint32)
    ensures After(v, [o] + rest) == After(Next(v, o), rest)
    ensures Kinds(Sent(v, [o] + rest, license)) == [Kind(v)] + Kinds(Sent(Next(v, o), rest, license))
  {
    hide Moved, Kind;
    assert [o][..0] == [];
    assert After(v, [o]) == Next(v, o);
    assert Sent(v, [o], license) == [Announce(v, o, license)];
    Join(v, [o], rest, license);
  }

  lemma {:induction false} DriveFor(v: Vehicle, d: nat, license: uint32) returns (os: seq<Tick>)
    requires !v.parking && 1 <= v.untilPark && PARK_DURATION_MIN <= d <= PARK_DURATION_MAX
    ensures Kinds(Sent(v, os, license)) == Idles(v.untilPark)
    ensures var w := After(v, os); w.parking && w.counter == 0 && w.duration == d
    decreases v.untilPark
  {
    hide Clamp;
    var o := Draw(v, d - 1);
    if v.untilPark == 1 {
      os := [o];
      Extend(v, o, [], license);
    } else {
      var rest := DriveFor(Next(v, o), d, license);
      os := [o] + rest;
      Extend(v, o, rest, license);
      IdlesSnoc(v.untilPark - 1);
    }
  }

  lemma NothingSent(v: Vehicle, license: uint32)
    ensures After(v, []) == v && Kinds(Sent(v, [], license)) == []
  {
  }

  lemma ParkedTail(d: nat, c: nat)
    requires c < d
    ensures Parked(d)[c..] == [if c == 0 then MSG_START else MSG_IDLE] + Parked(d)[c + 1..]
  {
  }

  lemma StopsNow(v: Vehicle, n: nat, license: uint32) returns (os: seq<Tick>)
    requires v.parking && v.counter == v.duration && 1 <= v.duration
    requires PARK_INTERVAL_MIN <= n <= PARK_INTERVAL_MAX
    ensures Kinds(Sent(v, os, license)) == [MSG_STOP]
    ensures var w := After(v, os); !w.parking && w.untilPark == n
  {
    hide Clamp, Sent, Kinds;
    var o := Draw(v, n - PARK_INTERVAL_MIN);
    os := [o];
    Extend(v, o, [], license);
    NothingSent(Next(v, o), license);
    assert [o] + [] == [o];
  }

  lemma StaysParked(v: Vehicle, o: Tick)
    requires v.parking && v.counter < v.duration <= PARK_DURATION_MAX
    ensures Next(v, o) == v.(counter := v.counter + 1, utc := Next(v, o).utc)
    ensures Kind(v) == if v.counter == 0 then MSG_START else MSG_IDLE
  {
  }

  lemma {:induction false} ParkFor(v: Vehicle, n: nat, license: uint32) returns (os: seq<Tick>)
    requires v.parking && v.counter <= v.duration && 1 <= v.duration <= PARK_DURATION_MAX
    requires PARK_INTERVAL_MIN <= n <= PARK_INTERVAL_MAX
    ensures Kinds(Sent(v, os, license)) == Parked(v.duration)[v.counter..] + [MSG_STOP]
    ensures var w := After(v, os); !w.parking && w.untilPark == n
    decreases v.duration - v.counter
  {
    hide Parked, Sent, After, Kinds, Next, Kind;
    if v.counter == v.duration {
      os := StopsNow(v, n, license);
      assert Parked(v.duration)[v.counter..] == [];
    } else {
      var o := Draw(v, 0);
      StaysParked(v, o);
      var rest := ParkFor(Next(v, o), n, license);
      os := [o] + rest;
      Extend(v, o, rest, license);
      ParkedTail(v.duration, v.counter);
    }
  }

  lemma {:induction false} Realize(v: Vehicle, cs: seq<Cycle>, d: nat, license: uint32) returns (os: seq<Tick>)
    requires !v.parking && ValidCycles(v.untilPark, cs) && PARK_DURATION_MIN <= d <= PARK_DURATION_MAX
    ensures Kinds(Sent(v, os, license)) == Sentence(v.untilPark, cs)
    ensures var w := After(v, os); w.parking && w.counter == 0 && w.duration == d
    decreases |cs|
  {
    if cs == [] {
      os := DriveFor(v, d, license);
    } else {
      var c := cs[|cs| - 1];
      assert ValidCycle(c);
      var os1 := Realize(v, cs[..|cs| - 1], c.d, license);
      var v1 := After(v, os1);
      var os2 := ParkFor(v1, c.n, license);
      var v2 := After(v1, os2);
      var os3 := DriveFor(v2, d, license);
      Join(v, os1, os2, license);
      Join(v, os1 + os2, os3, license);
      os := os1 + os2 + os3;
      var front := Sentence(v.untilPark, cs[..|cs| - 1]);
      assert front + (Parked(c.d)[0..] + [MSG_STOP]) == front + Parked(c.d) + [MSG_STOP];
    }
  }

  /** Together with `TraceIsInGrammar`: the traces are exactly the prefixes of the grammar's words. */
  lemma EveryPrefixOccurs(n0: nat, cs: seq<Cycle>, trace: seq<byte>, utc: uint32, license: uint32)
    requires ValidCycles(n0, cs) && trace <= Sentence(n0, cs)
    ensures exists rand, os :: Kinds(Sent(Initial(rand, utc), os, license)) == trace
  {
    var rand := n0 - PARK_INTERVAL_MIN;
    var v := Initial(rand, utc);
    assert !v.parking && v.untilPark == n0;
    var os := Realize(v, cs, PARK_DURATION_MIN, license);
    SentPrefix(v, os, |trace|, license);
    assert Kinds(Sent(v, os[..|trace|], license)) == trace;
  }

  // ---------------------------------------------------------------- sessions

  /** The session that begins at `i` is still going on at `j`. */
  ghost predicate SameSession(ms: seq<Msg>, i: nat, j: nat) {
    && i <= j < |ms|
    && ms[i].kind == MSG_START
    && forall k :: i < k < j ==> ms[k].kind != MSG_STOP
  }

  lemma SentAt(v: Vehicle, os: seq<Tick>, j: nat, license: uint32)
    requires j < |os|
    ensures Sent(v, os, license)[j] == Announce(After(v, os[..j]), os[j], license)
    ensures Sent(v, os[..j], license) == Sent(v, os, license)[..j]
  {
    SentPrefix(v, os, j, license);
    SentPrefix(v, os, j + 1, license);
    assert os[..j + 1][..j] == os[..j];
  }

  lemma {:induction false} SessionHeld(rand: nat, utc: uint32, os: seq<Tick>, license: uint32, i: nat)
    requires var ms := Sent(Initial(rand, utc), os, license);
             i < |ms| && ms[i].kind == MSG_START && forall k :: i < k < |ms| ==> ms[k].kind != MSG_STOP
    ensures var v, ms := After(Initial(rand, utc), os), Sent(Initial(rand, utc), os, license);
            v.parking && v.counter >= 1 && v.lat == ms[i].lat && v.lon == ms[i].lon
  {
    var n := |os| - 1;
    var v0 := Initial(rand, utc);
    var n0, cs := RunTracks(rand, utc, os[..n], license);
    if i < n {
      SentPrefix(v0, os, n, license);
      assert Sent(v0, os, license)[n].kind != MSG_STOP;
      SessionHeld(rand, utc, os[..n], license, i);
    }
  }

  /** From START to STOP, every message of a session carries the same coordinates. */
  lemma SessionNeverMoves(rand: nat, utc: uint32, os: seq<Tick>, license: uint32, i: nat, j: nat)
    requires SameSession(Sent(Initial(rand, utc), os, license), i, j)
    ensures var ms := Sent(Initial(rand, utc), os, license);
            ms[j].lat == ms[i].lat && ms[j].lon == ms[i].lon
  {
    if i < j {
      SentAt(Initial(rand, utc), os, j, license);
      SessionHeld(rand, utc, os[..j], license, i);
    }
  }

  predicate InSession(v: Vehicle) {
    v.parking && v.counter >= 1
  }

  lemma StepMark(v: Vehicle, o: Tick, license: uint32)
    requires Sane(v)
    ensures var w, m := Next(v, o), Announce(v, o, license);
            && (if m.kind == MSG_START then !InSession(v) && InSession(w)
                else if m.kind == MSG_STOP then InSession(v) && !InSession(w)
                else InSession(v) == InSession(w))
            && (InSession(v) ==> m.lat == v.lat && m.lon == v.lon)
            && m.lat == w.lat && m.lon == w.lon && m.license == license
  {
  }

  /** A vehicle in a session has sent the session's START, and no STOP since. */
  lemma {:induction false} SessionHasStart(rand: nat, utc: uint32, os: seq<Tick>, license: uint32) returns (i: nat)
    requires InSession(After(Initial(rand, utc), os))
    ensures var ms := Sent(Initial(rand, utc), os, license);
            i < |ms| && ms[i].kind == MSG_START && forall k :: i < k < |ms| ==> ms[k].kind != MSG_STOP
  {
    var v0, n := Initial(rand, utc), |os| - 1;
    var v, o := After(v0, os[..n]), os[n];
    var n0, cs := RunTracks(rand, utc, os[..n], license);
    StepMark(v, o, license);
    if Announce(v, o, license).kind == MSG_START {
      i := n;
    } else {
      i := SessionHasStart(rand, utc, os[..n], license);
      SentPrefix(v0, os, n, license);
    }
  }

  /** Where a coordinate goes when the random step takes it to `x`. */
  ghost predicate StepsTo(x: uint32, low: Single, high: Single, y: uint32) {
    && (InRange(x, low.value, high.value) ==> y == x)
    && (Less(FloatOf(x), low.value) ==> y == low.bits)
    && (Greater(FloatOf(x), high.value) ==> y == high.bits)
  }

  /** A parked vehicle is in a session, which begins with this message at the latest. */
  lemma ParkedHasSession(rand: nat, utc: uint32, os: seq<Tick>, license: uint32, j: nat) returns (i: nat)
    requires j < |os| && After(Initial(rand, utc), os[..j]).parking
    ensures SameSession(Sent(Initial(rand, utc), os, license), i, j)
  {
    hide Moved;
    var v0 := Initial(rand, utc);
    SentAt(v0, os, j, license);
    if InSession(After(v0, os[..j])) {
      i := SessionHasStart(rand, utc, os[..j], license);
    } else {
      i := j;
    }
  }

  /** Outside its sessions the vehicle moves: it sends the place its step took it to, or the edge that the step
      went past. */
  lemma DrivingMoves(rand: nat, utc: uint32, os: seq<Tick>, license: uint32, j: nat)
    requires j < |os| && forall i: nat :: !SameSession(Sent(Initial(rand, utc), os, license), i, j)
    ensures var m := Sent(Initial(rand, utc), os, license)[j];
            && StepsTo(os[j].lat, LAT_MIN, LAT_MAX, m.lat)
            && StepsTo(os[j].lon, LON_MIN, LON_MAX, m.lon)
  {
    hide FloatOf;
    var v0 := Initial(rand, utc);
    SentAt(v0, os, j, license);
    if After(v0, os[..j]).parking {
      var i := ParkedHasSession(rand, utc, os, license, j);
    }
  }

  // ---------------------------------------------------------------- clock and box

  /** Timer interrupts during a run. */
  function Elapsed(os: seq<Tick>): nat {
    if os == [] then 0 else Elapsed(os[..|os| - 1]) + os[|os| - 1].elapsed
  }

  /** The clock does not wrap during the run. */
  predicate ClockHolds(utc: uint32, os: seq<Tick>) {
    utc + Elapsed(os) < 0x1_0000_0000
  }

  /** The timestamps never decrease, and lie between `lo` and `hi`. */
  ghost predicate SortedWithin(ms: seq<Msg>, lo: int, hi: int) {
    && (forall i :: 0 <= i < |ms| ==> lo <= ms[i].utc <= hi)
    && (forall i, j :: 0 <= i <= j < |ms| ==> ms[i].utc <= ms[j].utc)
  }

  lemma SortedSnoc(ms: seq<Msg>, m: Msg, lo: int, hi: int)
    requires SortedWithin(ms, lo, hi) && lo <= hi <= m.utc
    ensures SortedWithin(ms + [m], lo, m.utc)
  {
  }

  /** Timestamps never decrease, and the clock reads at least the last of them. */
  lemma {:induction false} ClockIsMonotone(v: Vehicle, os: seq<Tick>, license: uint32)
    requires ClockHolds(v.utc, os)
    ensures After(v, os).utc == v.utc + Elapsed(os)
    ensures SortedWithin(Sent(v, os, license), v.utc, After(v, os).utc)
  {
    if os != [] {
      var front, o := os[..|os| - 1], os[|os| - 1];
      ClockIsMonotone(v, front, license);
      StepClock(After(v, front), o, license);
      SortedSnoc(Sent(v, front, license), Announce(After(v, front), o, license), v.utc, After(v, front).utc);
    }
  }

  lemma StepClock(v: Vehicle, o: Tick, license: uint32)
    requires v.utc + o.elapsed < 0x1_0000_0000
    ensures Announce(v, o, license).utc == Next(v, o).utc == v.utc + o.elapsed
  {
  }

  lemma ClockStep(v: Vehicle, o: Tick, license: uint32)
    ensures Announce(v, o, license).utc == Next(v, o).utc == Uint32(v.utc + o.elapsed)
  {
    hide Clamp, RandRange;
  }

  lemma {:induction false} ClockCounts(v: Vehicle, os: seq<Tick>)
    ensures After(v, os).utc == Uint32(v.utc + Elapsed(os))
  {
    hide Next, Uint32;
    if os != [] {
      var front, o := os[..|os| - 1], os[|os| - 1];
      ClockCounts(v, front);
      ClockStep(After(v, front), o, 0);
      WrapsOnce(v.utc + Elapsed(front), o.elapsed);
    }
  }

  lemma AfterNext(v: Vehicle, os: seq<Tick>)
    requires os != []
    ensures After(v, os) == Next(After(v, os[..|os| - 1]), os[|os| - 1])
  {
  }

  /** Every message carries the clock as it is when it is sent: the interrupts since the start are counted, up to
      the last before the message, modulo 2^32. */
  lemma TimesAreExact(v: Vehicle, os: seq<Tick>, license: uint32, j: nat)
    requires j < |os|
    ensures Sent(v, os, license)[j].utc == Uint32(v.utc + Elapsed(os[..j + 1]))
  {
    hide Announce, Next, After, Sent, Uint32;
    SentAt(v, os, j, license);
    ClockStep(After(v, os[..j]), os[j], license);
    ClockCounts(v, os[..j + 1]);
    assert os[..j + 1][..j] == os[..j];
    AfterNext(v, os[..j + 1]);
  }

  /** The random step adds two numbers of moderate size, so it never produces NaN. */
  predicate NumericSteps(os: seq<Tick>) {
    forall i :: 0 <= i < |os| ==> !FloatOf(os[i].lat).NaN? && !FloatOf(os[i].lon).NaN?
  }

  lemma {:induction false} StaysInBox(v: Vehicle, os: seq<Tick>, license: uint32)
    requires InBox(v.lat, v.lon) && NumericSteps(os)
    ensures InBox(After(v, os).lat, After(v, os).lon)
    ensures forall m :: m in Sent(v, os, license) ==> InBox(m.lat, m.lon)
  {
    if os != [] {
      var o := os[|os| - 1];
      StaysInBox(v, os[..|os| - 1], license);
      LatitudesAreExact();
      LongitudesAreExact();
      ClampInRange(o.lat, LAT_MIN, LAT_MAX);
      ClampInRange(o.lon, LON_MIN, LON_MAX);
    }
  }

  // ---------------------------------------------------------------- STARTs and STOPs

  /** The STARTs and STOPs of a run: session `s` is announced at positions `2 * s` and `2 * s + 1`. */
  function Marks(ms: seq<Msg>): seq<Msg> {
    Filter(ms, IsMark)
  }

  /** STARTs and STOPs alternate, and each STOP was sent from where, and not before, its START was. */
  ghost predicate Paired(marks: seq<Msg>) {
    && (forall k :: 0 <= k < |marks| ==> marks[k].kind == if k % 2 == 0 then MSG_START else MSG_STOP)
    && (forall k :: 0 < k < |marks| && k % 2 == 1 ==>
          && marks[k].lat == marks[k - 1].lat
          && marks[k].lon == marks[k - 1].lon
          && marks[k - 1].utc <= marks[k].utc)
  }

  /** The marks so far fit the vehicle's state. */
  ghost predicate MarksFit(v: Vehicle, marks: seq<Msg>, license: uint32) {
    && Paired(marks)
    && (|marks| % 2 == 1 <==> InSession(v))
    && (forall k :: 0 <= k < |marks| ==> marks[k].utc <= v.utc && marks[k].license == license)
    && (|marks| % 2 == 1 ==> var last := marks[|marks| - 1]; last.lat == v.lat && last.lon == v.lon)
  }

  lemma {:induction false} MarksArePaired(rand: nat, utc: uint32, os: seq<Tick>, license: uint32)
    requires ClockHolds(utc, os)
    ensures var v, marks := After(Initial(rand, utc), os), Marks(Sent(Initial(rand, utc), os, license));
            MarksFit(v, marks, license)
  {
    if os != [] {
      var v0, front, o := Initial(rand, utc), os[..|os| - 1], os[|os| - 1];
      MarksArePaired(rand, utc, front, license);
      ClockIsMonotone(v0, front, license);
      var n0, cs := RunTracks(rand, utc, front, license);
      var v := After(v0, front);
      StepClock(v, o, license);
      StepMark(v, o, license);
      PairedSnoc(v, Next(v, o), Marks(Sent(v0, front, license)), Announce(v, o, license), license);
      FilterSnoc(Sent(v0, front, license), Announce(v, o, license), IsMark);
    }
  }

  lemma PairedSnoc(v: Vehicle, w: Vehicle, marks: seq<Msg>, m: Msg, license: uint32)
    requires MarksFit(v, marks, license)
    requires v.utc <= m.utc == w.utc && m.license == license && m.lat == w.lat && m.lon == w.lon
    requires InSession(v) ==> m.lat == v.lat && m.lon == v.lon
    requires if m.kind == MSG_START then !InSession(v) && InSession(w)
             else if m.kind == MSG_STOP then InSession(v) && !InSession(w)
             else InSession(v) == InSession(w)
    ensures MarksFit(w, marks + if IsMark(m) then [m] else [], license)
  {
  }
}

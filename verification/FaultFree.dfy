/** The other half of the story: where nothing fails, everything that should happen does. Each session of a
    vehicle is carried all the way and ends as its own closed row. */
module FaultFree {
  import opened Words
  import opened Wrappers
  import opened Wire
  import opened Sequences
  import opened Coordinates
  import opened Tables
  import opened Nearest
  import opened Matching
  import opened History
  import opened Servers
  import opened Simulator
  import opened Journeys
  import opened I2cProcesses
  import opened EthProcesses
  import opened Pipelines
  import opened Sessions
  import Threads

  // ---------------------------------------------------------------- what the server is sent

  /** A START or STOP sent from anywhere but the eastern edge. */
  predicate OffEdge(m: Msg) {
    m.lon != LON_MAX.bits
  }

  predicate Passes(m: Msg) {
    IsMark(m) && OffEdge(m)
  }

  /** The BeagleBone's clock is never behind the vehicle's. */
  ghost predicate ClocksAgree(ms: seq<Msg>, nows: seq<int>) {
    |ms| == |nows| && forall j :: 0 <= j < |ms| ==> ms[j].utc <= nows[j]
  }

  lemma {:induction false} ForwardedIsFiltered(ms: seq<Msg>, nows: seq<int>)
    requires |ms| == |nows| && forall j :: 0 <= j < |ms| ==> (Forwards(ms[j], nows[j]) <==> Passes(ms[j]))
    ensures Forwarded(ms, nows) == Filter(ms, Passes)
  {
    hide Forwards, Passes;
    if ms != [] {
      ForwardedIsFiltered(ms[..|ms| - 1], nows[..|nows| - 1]);
    }
  }

  /** Of a vehicle with a valid licence that started at the factory clock, the validator forwards the STARTs and STOPs
      sent off the edge. */
  lemma ForwardsMarksOffEdge(rand: nat, os: seq<Tick>, license: uint32, nows: seq<int>)
    requires license >= 1000000 && ClockHolds(START_UTC, os) && NumericSteps(os)
    requires ClocksAgree(Sent(Initial(rand, START_UTC), os, license), nows)
    ensures var ms := Sent(Initial(rand, START_UTC), os, license);
            Forwarded(ms, nows) == Filter(Marks(ms), OffEdge)
  {
    hide Accepts, Filter;
    var ms := Sent(Initial(rand, START_UTC), os, license);
    forall j | 0 <= j < |ms| ensures Forwards(ms[j], nows[j]) <==> Passes(ms[j]) {
      SentMessageAcceptedIff(rand, os, license, ms[j], nows[j]);
    }
    ForwardedIsFiltered(ms, nows);
    FilterTwice(ms, IsMark, OffEdge, Passes);
  }

  // ---------------------------------------------------------------- what the server does with it

  function AllWell(): nat -> Env {
    (k: nat) => Threads.ALL_WELL
  }

  /** The call history once a connection has been served, with no statement failing. */
  function ServedWell(g: seq<Call>, ms: seq<Msg>): seq<Call> {
    ServeAll(Lineages(g, None), ms, AllWell()).runtime
  }

  /** The request can be booked: it is a START or STOP, and some lot is nearest to it. */
  predicate Bookable(lots: seq<Lot>, m: Msg, license: uint32) {
    IsMark(m) && m.license == license && ClosestId(lots, m.lat, m.lon).Some?
  }

  lemma ServedOneMore(g: seq<Call>, ms: seq<Msg>, m: Msg)
    ensures ServedWell(g, ms + [m]) ==
            ServedWell(g, ms) + CallsFor(Run(ServedWell(g, ms)), m, Threads.ALL_WELL)
  {
    hide CallsFor, Run, Apply;
    ServeAllSnoc(Lineages(g, None), ms, m, AllWell());
  }

  lemma BookableIsCalled(h: seq<Call>, m: Msg, license: uint32)
    requires Bookable(Run(h).lots, m, license)
    ensures var calls := CallsFor(Run(h), m, Threads.ALL_WELL);
            && |calls| == 1 && calls[0].env == Threads.ALL_WELL
            && Run(h + calls).lots == Run(h).lots
            && CallMarks(h + calls, license) == CallMarks(h, license) + MarksOf([m])
  {
    hide ClosestId, Run, NewestOpen, ClosingOf, UpdateLog;
    var calls := CallsFor(Run(h), m, Threads.ALL_WELL);
    assert (h + calls)[..|h|] == h;
    RunSnoc(h, calls[0]);
    assert calls == [calls[0]];
  }

  /** Every request leads to one call, and every call succeeds as far as SQL goes. */
  lemma {:induction false} ServingBooksAll(g: seq<Call>, ms: seq<Msg>, license: uint32)
    requires forall m :: m in ms ==> Bookable(Run(g).lots, m, license)
    ensures var h := ServedWell(g, ms);
            && |h| == |g| + |ms| && h[..|g|] == g && Run(h).lots == Run(g).lots
            && CallMarks(h, license) == CallMarks(g, license) + MarksOf(ms)
            && forall p :: |g| <= p < |h| ==> h[p].env == Threads.ALL_WELL
  {
    hide Run, CallMarks, Bookable, CallsFor;
    if ms == [] {
      ServeNone(Lineages(g, None), AllWell());
      assert CallMarks(g, license) + MarksOf(ms) == CallMarks(g, license);
    } else {
      var front, m := ms[..|ms| - 1], ms[|ms| - 1];
      assert ms == front + [m];
      ServingBooksAll(g, front, license);
      ServedOneMore(g, front, m);
      BookableIsCalled(ServedWell(g, front), m, license);
      assert MarksOf(ms) == MarksOf(front) + MarksOf([m]);
    }
  }

  // ---------------------------------------------------------------- each session's calls

  lemma {:induction false} CallAtRank(h: seq<Call>, customer: uint32, r: nat) returns (p: nat)
    requires r < |CallMarks(h, customer)|
    ensures p < |h| && CallOf(h[p], customer) && Rank(h, customer, p) == r
  {
    var n := |h| - 1;
    if r < |CallMarks(h[..n], customer)| {
      p := CallAtRank(h[..n], customer, r);
      assert h[..n][..p] == h[..p];
    } else {
      p := n;
    }
  }

  lemma NoCallsBefore(g: seq<Call>, customer: uint32, p: nat)
    requires CallMarks(g, customer) == [] && p < |g|
    ensures !CallOf(g[p], customer)
  {
    RankSteps(g, customer, p, |g|);
    assert g[..|g|] == g;
  }

  /** The customer's calls met no SQL error. */
  ghost predicate CallsWell(h: seq<Call>, customer: uint32) {
    forall p :: 0 <= p < |h| && CallOf(h[p], customer) ==> h[p].env == Threads.ALL_WELL
  }

  /** When a session's START and STOP both reach the database, both take effect. */
  lemma SessionTakes(h: seq<Call>, customer: uint32, marks: seq<Msg>, f: seq<nat>, p: nat, q: nat, s: nat)
    requires |Starts(h)| <= INT_MAX && Paired(marks) && StemsFrom(h, customer, marks, f) && CallsWell(h, customer)
    requires Stems(h, customer, f, p, 2 * s) && Stems(h, customer, f, q, 2 * s + 1)
    ensures StartTook(h, p) && StopTook(h, q)
  {
    hide Run, Starts, Balance, CallMarks, NeverNegative;
    RankedMark(h, customer, marks, f, p);
    RankedMark(h, customer, marks, f, q);
    KindsOfPair(marks, s);
    ConsecutiveRanks(h, customer, marks, f, p, q, 2 * s);
    NothingBetween(h, customer, p + 1, q);
    assert Matches(h, customer, p, q);
    MatchesInPrefix(h, q + 1, customer, p, q);
    assert h[..q] + [h[q]] == h[..q + 1];
    StartsOfPrefix(h, q);
    StopAcknowledgedIffMatched(h[..q], h[q]);
  }

  lemma KindsOfPair(marks: seq<Msg>, s: nat)
    requires Paired(marks) && 2 * s + 1 < |marks|
    ensures marks[2 * s].kind == MSG_START && marks[2 * s + 1].kind == MSG_STOP
    ensures marks[2 * s].lon == marks[2 * s + 1].lon
  {
    assert 2 * s % 2 == 0 && (2 * s + 1) % 2 == 1;
  }

  /** Each session announced off the edge, by STARTs and STOPs that were all called, owns a true row. */
  lemma CalledSessionIsBooked(h: seq<Call>, customer: uint32, marks: seq<Msg>, s: nat) returns (p: nat, k: nat)
    requires |Starts(h)| <= INT_MAX && Paired(marks) && CallsWell(h, customer)
    requires CallMarks(h, customer) == MarksOf(Filter(marks, OffEdge))
    requires 2 * s + 1 < |marks| && OffEdge(marks[2 * s])
    ensures TrueRow(h, customer, marks, p, s, k)
  {
    hide CallMarks, Filter, Paired, Starts, TrueRow, CallsWell;
    var f := FilterPositions(marks, OffEdge);
    KindsOfPair(marks, s);
    assert StemsFrom(h, customer, marks, f);
    var r :| 0 <= r < |f| && f[r] == 2 * s;
    var r' :| 0 <= r' < |f| && f[r'] == 2 * s + 1;
    p := CallAtRank(h, customer, r);
    var q := CallAtRank(h, customer, r');
    SessionTakes(h, customer, marks, f, p, q, s);
    OwnStopClosesOwnRow(h, customer, marks, f, p, q, s);
    k :| TrueRow(h, customer, marks, p, s, k);
  }

  // ---------------------------------------------------------------- the whole path

  lemma {:induction false} FewStarts(h: seq<Call>)
    ensures |Starts(h)| <= |h|
  {
    if h != [] {
      FewStarts(h[..|h| - 1]);
    }
  }

  /** Every decoded message can be booked, if the lot table has a lot with a place. */
  lemma DecodedAreBookable(rand: nat, os: seq<Tick>, license: uint32, lots: seq<Lot>)
    requires NumericSteps(os) && exists l :: l in lots && HasPlace(l)
    ensures var ms := Filter(Marks(Sent(Initial(rand, START_UTC), os, license)), OffEdge);
            forall m :: m in ms ==> Bookable(lots, m, license)
  {
    hide Filter, ClosestId, Closest, HasPlace;
    var v := Initial(rand, START_UTC);
    var sent := Sent(v, os, license);
    FilterElements(sent, IsMark);
    FilterElements(Marks(sent), OffEdge);
    StartInBox();
    StaysInBox(v, os, license);
    SentIsWellFormed(v, os, license);
    forall m | m in Filter(Marks(sent), OffEdge) ensures Bookable(lots, m, license) {
      AnsweredIffPlaced(lots, m.lat, m.lon);
      ClosestHasId(lots, m);
    }
  }

  lemma ServedAreWell(g: seq<Call>, ms: seq<Msg>, license: uint32)
    requires forall m :: m in ms ==> Bookable(Run(g).lots, m, license)
    requires CallMarks(g, license) == [] && |g| + |ms| <= INT_MAX
    ensures var h := ServedWell(g, ms);
            CallsWell(h, license) && CallMarks(h, license) == MarksOf(ms) && |Starts(h)| <= INT_MAX
  {
    hide Run, CallMarks, Bookable, ServedWell, Starts;
    var h := ServedWell(g, ms);
    ServingBooksAll(g, ms, license);
    FewStarts(h);
    assert [] + MarksOf(ms) == MarksOf(ms);
    forall p | 0 <= p < |h| && CallOf(h[p], license) ensures h[p].env == Threads.ALL_WELL {
      if p < |g| {
        assert h[p] == g[p];
        NoCallsBefore(g, license, p);
      }
    }
  }

  /** Row `k` of the log belongs to session `s`. */
  ghost predicate Booked(h: seq<Call>, license: uint32, marks: seq<Msg>, s: nat) {
    exists p, k :: TrueRow(h, license, marks, p, s, k)
  }

  /** Without faults, the system does its job. Take any run of a vehicle with a valid licence that starts at the factory
      clock, and any history of a database with at least one lot that has a place. There is a run of the whole system
      after which nothing is on its way any more, and serving what was decoded leaves a database in which every
      finished session, unless it was parked on the eastern edge, has its own closed row with its true times. */
  lemma EverySessionIsBooked(rand: nat, os: seq<Tick>, license: uint32, nows: seq<int>, g: seq<Call>)
    returns (actions: seq<Action>)
    requires license >= 1000000 && ClockHolds(START_UTC, os) && NumericSteps(os)
    requires ClocksAgree(Sent(Initial(rand, START_UTC), os, license), nows)
    requires CallMarks(g, license) == [] && |g| + |os| <= INT_MAX
    requires exists l :: l in Run(g).lots && HasPlace(l)
    ensures var r := Exec(Pipelines.Init(license, Initial(rand, START_UTC)), actions);
            var marks, h := Marks(r.emitted), ServedWell(g, Decoded(r.eth.links));
            && r.ticks == os && AtRest(r)
            && forall s: nat :: 2 * s + 1 < |marks| && OffEdge(marks[2 * s]) ==> Booked(h, license, marks, s)
  {
    hide Run, CallMarks, ServedWell, Starts, TrueRow, Bookable, CallsWell, Paired, HasPlace, Exec, Filter, AtRest;
    var v := Initial(rand, START_UTC);
    actions := FaultFreeDelivers(license, v, os, nows);
    var r := Exec(Pipelines.Init(license, v), actions);
    var marks, ms := Marks(r.emitted), Decoded(r.eth.links);
    ForwardsMarksOffEdge(rand, os, license, nows);
    DecodedAreBookable(rand, os, license, Run(g).lots);
    FewPass(r.emitted);
    ServedAreWell(g, ms, license);
    MarksArePaired(rand, START_UTC, os, license);
    forall s: nat | 2 * s + 1 < |marks| && OffEdge(marks[2 * s]) ensures Booked(ServedWell(g, ms), license, marks, s) {
      var p, k := CalledSessionIsBooked(ServedWell(g, ms), license, marks, s);
    }
  }

  lemma FewPass(ms: seq<Msg>)
    ensures |Filter(Marks(ms), OffEdge)| <= |ms|
  {
    FilterShortens(ms, IsMark);
    FilterShortens(Marks(ms), OffEdge);
  }
}

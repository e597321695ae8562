/** From the parked vehicle to the row in the log: which row a STOP closes when any messages
    of any vehicles have been lost on the way. */
module Sessions {
  import opened Words
  import opened Wrappers
  import opened Wire
  import opened Sequences
  import opened Tables
  import opened Nearest
  import opened Matching
  import opened History
  import opened Servers
  import opened Simulator
  import opened Journeys
  import opened EthProcesses
  import opened Pipelines
  import Threads

  /** What a START or STOP says apart from its place. */
  datatype Mark = Mark(kind: byte, utc: uint32)

  function MarksOf(ms: seq<Msg>): (r: seq<Mark>)
    ensures |r| == |ms|
  {
    seq(|ms|, i requires 0 <= i < |ms| => Mark(ms[i].kind, ms[i].utc))
  }

  predicate CallOf(c: Call, customer: uint32) {
    (c.op.StartParking? || c.op.EndParking?) && c.op.customer == customer
  }

  function MarkOf(c: Call): Mark
    requires c.op.StartParking? || c.op.EndParking?
  {
    Mark(if c.op.StartParking? then MSG_START else MSG_STOP, c.op.time)
  }

  /** The parking calls of one customer in a history shared by all, successful or not. */
  function CallMarks(h: seq<Call>, customer: uint32): seq<Mark> {
    if h == [] then []
    else
      var c := h[|h| - 1];
      CallMarks(h[..|h| - 1], customer) + if CallOf(c, customer) then [MarkOf(c)] else []
  }

  /** How many calls of the customer come before position `p`. */
  function Rank(h: seq<Call>, customer: uint32, p: nat): nat
    requires p <= |h|
  {
    |CallMarks(h[..p], customer)|
  }

  /** `marks` is what the vehicle announced; `f` says which announcement each call of the customer stems
      from. Losing messages leaves gaps in `f`; other vehicles' calls are in between. */
  ghost predicate StemsFrom(h: seq<Call>, customer: uint32, marks: seq<Msg>, f: seq<nat>) {
    Embeds(CallMarks(h, customer), MarksOf(marks), f)
  }

  /** The call at `p` stems from announcement `n` of the customer's vehicle. */
  ghost predicate Stems(h: seq<Call>, customer: uint32, f: seq<nat>, p: nat, n: nat) {
    p < |h| && CallOf(h[p], customer) && Rank(h, customer, p) < |f| && f[Rank(h, customer, p)] == n
  }

  // ---------------------------------------------------------------- ranks

  lemma {:induction false} RankSteps(h: seq<Call>, customer: uint32, p: nat, q: nat)
    requires p <= q <= |h|
    ensures Rank(h, customer, p) <= Rank(h, customer, q)
    ensures CallMarks(h[..p], customer) <= CallMarks(h[..q], customer)
    ensures p < q && CallOf(h[p], customer) ==>
              Rank(h, customer, p) < Rank(h, customer, q)
              && CallMarks(h[..q], customer)[Rank(h, customer, p)] == MarkOf(h[p])
    decreases q
  {
    if p < q {
      RankSteps(h, customer, p, q - 1);
      assert h[..q][..q - 1] == h[..q - 1];
    }
  }

  lemma RankedMark(h: seq<Call>, customer: uint32, marks: seq<Msg>, f: seq<nat>, p: nat)
    requires StemsFrom(h, customer, marks, f) && p < |h| && CallOf(h[p], customer)
    ensures Rank(h, customer, p) < |f|
    ensures var n := f[Rank(h, customer, p)]; n < |marks| && MarkOf(h[p]) == Mark(marks[n].kind, marks[n].utc)
  {
    RankSteps(h, customer, p, |h|);
    assert h[..|h|] == h;
  }

  /** Calls stemming from consecutive announcements have no call of the customer between them. */
  lemma ConsecutiveRanks(h: seq<Call>, customer: uint32, marks: seq<Msg>, f: seq<nat>, p: nat, q: nat, n: nat)
    requires StemsFrom(h, customer, marks, f) && Stems(h, customer, f, p, n) && Stems(h, customer, f, q, n + 1)
    ensures p < q && forall k :: p < k < q ==> !CallOf(h[k], customer)
  {
    if q <= p {
      RankSteps(h, customer, q, p);
    }
    RankSteps(h, customer, p, q);
    var r := Rank(h, customer, p);
    assert f[r] < f[r + 1] <= f[Rank(h, customer, q)];
    forall k | p < k < q ensures !CallOf(h[k], customer) {
      RankSteps(h, customer, p, k);
      RankSteps(h, customer, k, q);
    }
  }

  lemma {:induction false} NothingBetween(h: seq<Call>, customer: uint32, lo: nat, hi: nat)
    requires lo <= hi <= |h| && forall k :: lo <= k < hi ==> !CallOf(h[k], customer)
    ensures NeverNegative(h, customer, lo, hi) && Balance(h, customer, lo, hi) == 0
  {
    if lo < hi {
      NothingBetween(h, customer, lo, hi - 1);
    }
  }

  // ---------------------------------------------------------------- pairing survives loss

  /** The STOP call at `q` was acknowledged. */
  predicate StopTook(h: seq<Call>, q: nat) {
    q < |h| && h[q].op.EndParking? && Apply(Run(h[..q]), h[q]).status == PDB_OK
  }

  predicate StartTook(h: seq<Call>, p: nat) {
    p < |h| && StartDone(h[p])
  }

  /** Whatever was lost and however vehicles interleave: if a session's START and its own STOP both take
      effect, they are partners. */
  lemma OwnStopIsPartner(h: seq<Call>, customer: uint32, marks: seq<Msg>, f: seq<nat>, p: nat, q: nat, s: nat)
    requires StemsFrom(h, customer, marks, f) && Stems(h, customer, f, p, 2 * s) && Stems(h, customer, f, q, 2 * s + 1)
    requires StartTook(h, p) && StopTook(h, q)
    ensures Matches(h, customer, p, q)
  {
    ConsecutiveRanks(h, customer, marks, f, p, q, 2 * s);
    NothingBetween(h, customer, p + 1, q);
  }

  /** Row `k` is the row of the START at `p`, with the true timestamps of session `s` of the vehicle: as they are
      while they fit an `int`, and else as the `uint32_t` read back. Its duration is their true, non-negative
      difference if and only if that fits. */
  ghost predicate TrueRow(h: seq<Call>, customer: uint32, marks: seq<Msg>, p: nat, s: nat, k: nat) {
    && 2 * s + 1 < |marks|
    && k < |Run(h).log| && k < |Starts(h)| && Starts(h)[k] == p
    && var row, start, stop := Run(h).log[k], marks[2 * s].utc, marks[2 * s + 1].utc;
       && Uint32(row.customer) == customer
       && start <= stop
       && row.closing.Some?
       && Uint32(row.start) == start && (start <= INT_MAX ==> row.start == start)
       && var closing := row.closing.value;
          && Uint32(closing.endTime) == stop && (stop <= INT_MAX ==> closing.endTime == stop)
          && (closing.duration == stop - start <==> stop - start <= INT_MAX)
  }

  lemma OwnStopClosesOwnRow(h: seq<Call>, customer: uint32, marks: seq<Msg>, f: seq<nat>, p: nat, q: nat, s: nat)
    requires |Starts(h)| <= INT_MAX && Paired(marks) && StemsFrom(h, customer, marks, f)
    requires Stems(h, customer, f, p, 2 * s) && Stems(h, customer, f, q, 2 * s + 1)
    requires StartTook(h, p) && StopTook(h, q)
    ensures Matches(h, customer, p, q)
    ensures exists k :: TrueRow(h, customer, marks, p, s, k)
  {
    hide Run, Starts, Matches, CalculatePrice, Apply, CallMarks, Embeds;
    OwnStopIsPartner(h, customer, marks, f, p, q, s);
    LogIsBracketMatching(h);
    var k := StartsComplete(h, p);
    RankedMark(h, customer, marks, f, p);
    RankedMark(h, customer, marks, f, q);
    assert Reflects(h, k, Run(h).log[k]);
    WrapRoundTrip(customer, 0);
    WrapRoundTrip(marks[2 * s].utc, 0);
    WrapRoundTrip(marks[2 * s + 1].utc, 0);
    WrappedDifference(marks[2 * s].utc, marks[2 * s + 1].utc);
    assert TrueRow(h, customer, marks, p, s, k);
  }

  /** An acknowledged STOP always closes a row of its own vehicle, and never a later session's. It is its own
      session's row exactly if that session's START took effect; otherwise an older session's. */
  lemma StopClosesOwnOrOlder(h: seq<Call>, customer: uint32, marks: seq<Msg>, f: seq<nat>, q: nat, s: nat)
    returns (p: nat, r: nat)
    requires |Starts(h)| <= INT_MAX && Paired(marks)
    requires StemsFrom(h, customer, marks, f) && Stems(h, customer, f, q, 2 * s + 1) && StopTook(h, q)
    ensures Matches(h, customer, p, q) && Stems(h, customer, f, p, 2 * r) && r <= s
    ensures r == s <==> exists p' :: Stems(h, customer, f, p', 2 * s) && StartTook(h, p')
  {
    hide Run, Starts, Balance, NeverNegative, Apply, CallMarks;
    RankedMark(h, customer, marks, f, q);
    StartsOfPrefix(h, q);
    StopAcknowledgedIffMatched(h[..q], h[q]);
    var g := h[..q] + [h[q]];
    assert g == h[..q + 1];
    var i: nat :| Matches(g, customer, i, q);
    p := i;
    MatchesInPrefix(h, q + 1, customer, p, q);
    RankedMark(h, customer, marks, f, p);
    RankSteps(h, customer, p, q);
    var n := f[Rank(h, customer, p)];
    r := n / 2;
    assert n == 2 * r;
    assert StartTook(h, p);
    if p' :| Stems(h, customer, f, p', 2 * s) && StartTook(h, p') {
      OwnStopIsPartner(h, customer, marks, f, p', q, s);
      MatchIsUnique(h, customer, p, q, p', q);
    }
  }

  lemma {:induction false} StartsOfPrefix(h: seq<Call>, n: nat)
    requires n <= |h|
    ensures |Starts(h[..n])| <= |Starts(h)|
  {
    if n < |h| {
      assert h[..|h| - 1][..n] == h[..n];
      StartsOfPrefix(h[..|h| - 1], n);
    } else {
      assert h[..n] == h;
    }
  }

  // ---------------------------------------------------------------- end to end

  lemma {:induction false} DecodedFollowCompleted(links: seq<Link>)
    requires forall c :: 0 <= c < |links| ==> links[c].got <= links[c].full
    ensures Subsequence(Decoded(links), Completed(links))
  {
    if links == [] {
      SubsequenceReflexive(Decoded(links));
    } else {
      var n := |links| - 1;
      DecodedFollowCompleted(links[..n]);
      var got, full := links[n].got, links[n].full;
      SubsequenceReflexive(got);
      SubsequenceExtend(got, got, full[|got|..]);
      assert got + full[|got|..] == full;
      SubsequenceConcat(Decoded(links[..n]), Completed(links[..n]), got, full);
    }
  }

  /** What the server decodes from a vehicle, over all its connections, is a subsequence of the STARTs and
      STOPs the vehicle announced. */
  lemma DecodedFollowMarks(license: uint32, origin: Vehicle, actions: seq<Action>)
    ensures var s := Exec(Pipelines.Init(license, origin), actions);
            Subsequence(Decoded(s.eth.links), Marks(Sent(origin, s.ticks, license)))
  {
    var s := Exec(Pipelines.Init(license, origin), actions);
    NoDuplicateNoShiftedFrame(license, origin, actions);
    Conservation(license, origin, actions);
    DecodedFollowCompleted(s.eth.links);
    SubsequenceTransitive(Decoded(s.eth.links), Completed(s.eth.links), s.emitted);
    SubsequenceFilter(Decoded(s.eth.links), s.emitted, IsMark);
    forall m | m in Decoded(s.eth.links) ensures IsMark(m) {
      SubsequenceMembers(Decoded(s.eth.links), Completed(s.eth.links), m);
      assert m in s.piped;
    }
    FilterAll(Decoded(s.eth.links), IsMark);
  }

  lemma SubsequenceMembers<T>(a: seq<T>, b: seq<T>, x: T)
    requires Subsequence(a, b) && x in a
    ensures x in b
  {
    var f :| Embeds(a, b, f);
    var i :| 0 <= i < |a| && a[i] == x;
    assert b[f[i]] == x;
  }

  lemma MarksOfSubsequence(a: seq<Msg>, b: seq<Msg>)
    requires Subsequence(a, b)
    ensures Subsequence(MarksOf(a), MarksOf(b))
  {
    var f :| Embeds(a, b, f);
    assert Embeds(MarksOf(a), MarksOf(b), f);
  }

  /** Every session of the vehicle whose START and STOP both took effect owns a true row. */
  ghost predicate SessionsIntact(h: seq<Call>, customer: uint32, marks: seq<Msg>, f: seq<nat>) {
    forall p: nat, q: nat, s: nat ::
      Stems(h, customer, f, p, 2 * s) && Stems(h, customer, f, q, 2 * s + 1) && StartTook(h, p) && StopTook(h, q) ==>
        Matches(h, customer, p, q) && exists k :: TrueRow(h, customer, marks, p, s, k)
  }

  /** The customer's calls stem from these announcements in at least one way, and in whichever way they do, every
      session whose START and STOP both took effect owns a true row. */
  ghost predicate AllIntact(h: seq<Call>, customer: uint32, marks: seq<Msg>) {
    && (exists f :: StemsFrom(h, customer, marks, f))
    && (forall f :: StemsFrom(h, customer, marks, f) ==> SessionsIntact(h, customer, marks, f))
  }

  /** The whole path. Take any run of a vehicle and of its pipeline, with any losses and failures, and any history
      of the database, with any other calls in it, in which the vehicle's calls keep the order in which the server
      decoded them. Then each session whose START and STOP both take effect has its own row with its true times. */
  lemma EndToEnd(rand: nat, utc: uint32, license: uint32, actions: seq<Action>, h: seq<Call>)
    requires var s := Exec(Pipelines.Init(license, Simulator.Initial(rand, utc)), actions);
             && ClockHolds(utc, s.ticks)
             && Subsequence(CallMarks(h, license), MarksOf(Decoded(s.eth.links)))
    requires |Starts(h)| <= INT_MAX
    ensures var s := Exec(Pipelines.Init(license, Simulator.Initial(rand, utc)), actions);
            AllIntact(h, license, Marks(s.emitted))
  {
    hide CallMarks, Marks, Exec, Paired, SessionsIntact, Subsequence;
    var origin := Simulator.Initial(rand, utc);
    var s := Exec(Pipelines.Init(license, origin), actions);
    var marks := Marks(s.emitted);
    Conservation(license, origin, actions);
    DecodedFollowMarks(license, origin, actions);
    MarksOfSubsequence(Decoded(s.eth.links), marks);
    SubsequenceTransitive(CallMarks(h, license), MarksOf(Decoded(s.eth.links)), MarksOf(marks));
    MarksArePaired(rand, utc, s.ticks, license);
    assert exists f :: StemsFrom(h, license, marks, f) by { SomeStem(h, license, marks); }
    forall f | StemsFrom(h, license, marks, f) ensures SessionsIntact(h, license, marks, f) {
      Intact(h, license, marks, f);
    }
  }

  lemma SomeStem(h: seq<Call>, customer: uint32, marks: seq<Msg>)
    requires Subsequence(CallMarks(h, customer), MarksOf(marks))
    ensures exists f :: StemsFrom(h, customer, marks, f)
  {
    hide CallMarks, Embeds;
    var f :| Embeds(CallMarks(h, customer), MarksOf(marks), f);
    assert StemsFrom(h, customer, marks, f);
  }

  lemma Intact(h: seq<Call>, customer: uint32, marks: seq<Msg>, f: seq<nat>)
    requires |Starts(h)| <= INT_MAX && Paired(marks) && StemsFrom(h, customer, marks, f)
    ensures SessionsIntact(h, customer, marks, f)
  {
    forall p: nat, q: nat, s: nat |
      Stems(h, customer, f, p, 2 * s) && Stems(h, customer, f, q, 2 * s + 1) && StartTook(h, p) && StopTook(h, q)
      ensures Matches(h, customer, p, q) && exists k :: TrueRow(h, customer, marks, p, s, k)
    {
      OwnStopClosesOwnRow(h, customer, marks, f, p, q, s);
    }
  }

  /** The part of the history that the message adds for the customer. */
  function Added(t: Image, m: Msg, env: Env, customer: uint32): seq<Mark> {
    var calls := CallsFor(t, m, env);
    if calls != [] && CallOf(calls[0], customer) then [MarkOf(calls[0])] else []
  }

  lemma ServeAdds(s: Lineages, m: Msg, env: Env, customer: uint32)
    ensures CallMarks(Serve(s, m, env).runtime, customer)
            == CallMarks(s.runtime, customer) + Added(Run(s.runtime), m, env, customer)
  {
    var calls := CallsFor(Run(s.runtime), m, env);
    if calls != [] {
      assert (s.runtime + calls)[..|s.runtime|] == s.runtime;
    } else {
      assert s.runtime + [] == s.runtime;
    }
  }

  lemma AddedFollows(t: Image, m: Msg, env: Env, customer: uint32)
    ensures Subsequence(Added(t, m, env, customer), MarksOf(if OfLicense(customer)(m) then [m] else []))
  {
    var kept := MarksOf(if OfLicense(customer)(m) then [m] else []);
    if Added(t, m, env, customer) == [] {
      assert Embeds([], kept, []);
    } else {
      assert Added(t, m, env, customer) == kept;
      SubsequenceReflexive(kept);
    }
  }

  /** The premise of `EndToEnd` is what the server's connection loop does: serving messages one after the
      other adds, for each customer, a subsequence of that customer's messages to the history. */
  lemma {:induction false} ServingKeepsOrder(s: Lineages, ms: seq<Msg>, env: nat -> Env, customer: uint32)
    ensures Subsequence(CallMarks(ServeAll(s, ms, env).runtime, customer),
                        CallMarks(s.runtime, customer) + MarksOf(Filter(ms, OfLicense(customer))))
  {
    hide Serve, Added, Run, CallMarks, Subsequence;
    var base := CallMarks(s.runtime, customer);
    if ms == [] {
      assert base + MarksOf(Filter(ms, OfLicense(customer))) == base;
      SubsequenceReflexive(base);
    } else {
      var n := |ms| - 1;
      var before := ServeAll(s, ms[..n], env);
      var kept := MarksOf(Filter(ms[..n], OfLicense(customer)));
      var last := MarksOf(if OfLicense(customer)(ms[n]) then [ms[n]] else []);
      ServingKeepsOrder(s, ms[..n], env, customer);
      ServeAdds(before, ms[n], env(n), customer);
      AddedFollows(Run(before.runtime), ms[n], env(n), customer);
      SubsequenceConcat(CallMarks(before.runtime, customer), base + kept,
                        Added(Run(before.runtime), ms[n], env(n), customer), last);
      assert MarksOf(Filter(ms, OfLicense(customer))) == kept + last;
      assert base + kept + last == base + (kept + last);
    }
  }

  function OfLicense(customer: uint32): Msg -> bool {
    (m: Msg) => m.license == customer && IsMark(m)
  }

  // ---------------------------------------------------------------- end to end, on interleaved threads

  /** A customer's requests that have taken effect are the first of those that arrived. */
  lemma CommitsFollowArrivals(s: Threads.State, customer: uint32)
    requires Threads.InArrivalOrder(s, customer)
    ensures Filter(Threads.Messages(s.commits), OfLicense(customer)) <= Filter(s.received, OfLicense(customer))
  {
    hide Filter;
    var done, arrived, of := Threads.Messages(s.commits), s.received, Threads.LicensedTo(customer);
    FilterTwice(done, of, IsMark, OfLicense(customer));
    FilterTwice(arrived, of, IsMark, OfLicense(customer));
    FilterConcat(Filter(done, of), Threads.WaitingOf(s.threads, customer), IsMark);
  }

  /** The customer's calls in the serial history keep the order in which the requests arrived at the threads. */
  lemma ThreadsKeepOrder(g: seq<Call>, n: nat, steps: seq<Threads.Action>, customer: uint32)
    requires Threads.Disciplined(Threads.Init(Run(g), n), steps) && CallMarks(g, customer) == []
    ensures var s := Threads.Exec(Threads.Init(Run(g), n), steps);
            Subsequence(CallMarks(Threads.HistoryOf(g, s.commits), customer),
                        MarksOf(Filter(s.received, OfLicense(customer))))
  {
    hide Run, CallMarks, Subsequence, Filter, Threads.Exec, Threads.Init, Threads.InArrivalOrder;
    var s := Threads.Exec(Threads.Init(Run(g), n), steps);
    var ms, of := Threads.Messages(s.commits), OfLicense(customer);
    ServingKeepsOrder(Lineages(g, None), ms, Threads.EnvOf(s.commits), customer);
    Threads.ArrivalOrderKept(Run(g), n, steps, customer);
    CommitsFollowArrivals(s, customer);
    var done, arrived := Filter(ms, of), Filter(s.received, of);
    assert CallMarks(g, customer) + MarksOf(done) == MarksOf(done);
    SubsequenceReflexive(done);
    SubsequenceExtend(done, done, arrived[|done|..]);
    assert done + arrived[|done|..] == arrived;
    MarksOfSubsequence(done, arrived);
    SubsequenceTransitive(CallMarks(Threads.HistoryOf(g, s.commits), customer), MarksOf(done), MarksOf(arrived));
  }

  /** The whole path through the server's threads. Take any run of a vehicle and its pipeline, any database history
      `g` in which the vehicle does not occur yet, and any statement-level interleaving of the server's threads, busy
      with any requests, of which no customer ever has two in flight. If the vehicle's requests reach the threads in
      the order in which they were decoded, then the database is that of a call history in which every session whose
      START and STOP both take effect has its own row with its true times. */
  lemma InterleavedEndToEnd(rand: nat, utc: uint32, license: uint32, actions: seq<Action>,
                            g: seq<Call>, n: nat, steps: seq<Threads.Action>)
    requires var p := Exec(Pipelines.Init(license, Simulator.Initial(rand, utc)), actions);
             var s := Threads.Exec(Threads.Init(Run(g), n), steps);
             && ClockHolds(utc, p.ticks) && CallMarks(g, license) == []
             && Threads.Disciplined(Threads.Init(Run(g), n), steps) && Fits(s.image)
             && Subsequence(Filter(s.received, OfLicense(license)), Decoded(p.eth.links))
    ensures var p := Exec(Pipelines.Init(license, Simulator.Initial(rand, utc)), actions);
            var s := Threads.Exec(Threads.Init(Run(g), n), steps);
            var h := Threads.HistoryOf(g, s.commits);
            s.image == Run(h) && AllIntact(h, license, Marks(p.emitted))
  {
    hide Run, CallMarks, Subsequence, Filter, Exec, Threads.Exec, Marks, AllIntact, Fits, Starts, ClockHolds;
    var p := Exec(Pipelines.Init(license, Simulator.Initial(rand, utc)), actions);
    var s := Threads.Exec(Threads.Init(Run(g), n), steps);
    var h := Threads.HistoryOf(g, s.commits);
    RunKeepsOrder(g);
    Threads.InterleavingIsSerial(Run(g), n, steps);
    Threads.SerialIsServeAll(Lineages(g, None), s.commits, Threads.EnvOf(s.commits));
    NextIdCountsStarts(h);
    ThreadsKeepOrder(g, n, steps, license);
    var arrived := Filter(s.received, OfLicense(license));
    MarksOfSubsequence(arrived, Decoded(p.eth.links));
    SubsequenceTransitive(CallMarks(h, license), MarksOf(arrived), MarksOf(Decoded(p.eth.links)));
    EndToEnd(rand, utc, license, actions, h);
  }

  // ---------------------------------------------------------------- the lot of a session

  lemma {:induction false} RunConcat(g: seq<Call>, h: seq<Call>)
    ensures Run(g + h) == RunFrom(Run(g), h)
  {
    hide Apply;
    if h == [] {
      assert g + h == g;
    } else {
      var front, c := h[..|h| - 1], h[|h| - 1];
      RunConcat(g, front);
      RunSnoc(g + front, c);
      assert g + h == g + front + [c];
    }
  }

  /** A START is served by adding one open row, booked on the lot nearest to where it was sent. */
  lemma StartIsBookedOnNearestLot(g: seq<Call>, m: Msg, env: Env)
    requires m.kind == MSG_START && env.scan && env.write
    requires ClosestId(Run(g).lots, m.lat, m.lon).Some?
    ensures var t, calls := Run(g), CallsFor(Run(g), m, env);
            && |Run(g + calls).log| == |t.log| + 1 && Run(g + calls).log[..|t.log|] == t.log
            && var row := Run(g + calls).log[|t.log|];
               && Some(Uint32(row.lot)) == ClosestId(t.lots, m.lat, m.lon)
               && Uint32(row.customer) == m.license && Uint32(row.start) == m.utc && row.closing.None?
  {
    hide ClosestId, Run;
    var lot := ClosestId(Run(g).lots, m.lat, m.lon).value;
    RunSnoc(g, Call(StartParking(lot, m.license, m.utc), env));
    WrapRoundTrip(lot, 0);
    WrapRoundTrip(m.license, 0);
    WrapRoundTrip(m.utc, 0);
  }

  /** Later calls leave the lot of a row alone. */
  lemma RowKeepsLot(h: seq<Call>, n: nat, k: nat)
    requires n <= |h| && |Starts(h)| <= INT_MAX && k < |Run(h[..n]).log|
    ensures k < |Run(h).log| && Run(h).log[k].lot == Run(h[..n]).log[k].lot
  {
    hide Run, Starts;
    HistoryIsFrozen(h, n);
  }

  /** The row that a START created is booked on its nearest lot for ever. */
  lemma BookingStays(g: seq<Call>, start: Msg, env: Env, h: seq<Call>)
    requires start.kind == MSG_START && env.scan && env.write
    requires ClosestId(Run(g).lots, start.lat, start.lon).Some?
    requires |Starts(g + CallsFor(Run(g), start, env) + h)| <= INT_MAX
    ensures var log, booked := Run(g + CallsFor(Run(g), start, env) + h).log, |Run(g).log|;
            booked < |log| && Some(Uint32(log[booked].lot)) == ClosestId(Run(g).lots, start.lat, start.lon)
  {
    hide ClosestId, Run, CallsFor, Starts;
    var made := g + CallsFor(Run(g), start, env);
    StartIsBookedOnNearestLot(g, start, env);
    assert (made + h)[..|made|] == made;
    RowKeepsLot(made + h, |made|, |Run(g).log|);
  }

  /** The lot at `k` is nearest to the START after the history `g`, and after `all` it is still there, at `k'`, with
      none added nearer. */
  ghost predicate StillNearest(g: seq<Call>, start: Msg, all: seq<Call>, k: nat, k': nat) {
    && Closest(Run(g).lots, start.lat, start.lon) == Some(k)
    && NoneNearer(Run(g), Run(all).lots, k, start.lat, start.lon)
    && k' < |Run(all).lots| && Run(all).lots[k'].id == Run(g).lots[k].id
  }

  lemma StillResolved(g: seq<Call>, start: Msg, h: seq<Call>, k: nat, k': nat)
    requires StillNearest(g, start, g + h, k, k')
    ensures ClosestId(Run(g + h).lots, start.lat, start.lon) == ClosestId(Run(g).lots, start.lat, start.lon)
    ensures ClosestId(Run(g).lots, start.lat, start.lon).Some?
  {
    hide Closest, ClosestId, NoneNearer, Ordered, RunFrom, Run;
    RunConcat(g, h);
    RunKeepsOrder(g);
    NearestIsStable(Run(g), h, k, k', start.lat, start.lon);
    ClosestHasId(Run(g).lots, start);
  }

  lemma StopRepeatsPlace(rand: nat, utc: uint32, os: seq<Tick>, license: uint32, s: nat)
    requires ClockHolds(utc, os) && 2 * s + 1 < |Marks(Sent(Simulator.Initial(rand, utc), os, license))|
    ensures var marks := Marks(Sent(Simulator.Initial(rand, utc), os, license));
            && marks[2 * s].kind == MSG_START
            && marks[2 * s + 1].lat == marks[2 * s].lat && marks[2 * s + 1].lon == marks[2 * s].lon
  {
    hide Marks, Sent, Simulator.Initial, ClockHolds, Paired;
    MarksArePaired(rand, utc, os, license);
    PairAt(Marks(Sent(Simulator.Initial(rand, utc), os, license)), s);
  }

  lemma PairAt(marks: seq<Msg>, s: nat)
    requires Paired(marks) && 2 * s + 1 < |marks|
    ensures marks[2 * s].kind == MSG_START
    ensures marks[2 * s + 1].lat == marks[2 * s].lat && marks[2 * s + 1].lon == marks[2 * s].lon
  {
    assert 2 * s % 2 == 0 && (2 * s + 1) % 2 == 1;
  }

  /** So whatever happens in between, if the booked lot stays and none is added nearer, a session's STOP
      resolves to the lot stored in the row that its START created. */
  lemma StopResolvesToBookedLot(rand: nat, utc: uint32, os: seq<Tick>, license: uint32, s: nat,
                                g: seq<Call>, env: Env, h: seq<Call>, all: seq<Call>, k: nat, k': nat)
    requires ClockHolds(utc, os) && env.scan && env.write && |Starts(all)| <= INT_MAX
    requires var marks := Marks(Sent(Simulator.Initial(rand, utc), os, license));
             && 2 * s + 1 < |marks|
             && all == g + CallsFor(Run(g), marks[2 * s], env) + h
             && StillNearest(g, marks[2 * s], all, k, k')
    ensures var stop, booked := Marks(Sent(Simulator.Initial(rand, utc), os, license))[2 * s + 1], |Run(g).log|;
            && booked < |Run(all).log|
            && ClosestId(Run(all).lots, stop.lat, stop.lon) == Some(Uint32(Run(all).log[booked].lot))
  {
    hide StillNearest, ClosestId, Marks, Sent, Run, CallsFor, Starts, Simulator.Initial, ClockHolds;
    var marks := Marks(Sent(Simulator.Initial(rand, utc), os, license));
    StopRepeatsPlace(rand, utc, os, license, s);
    var calls := CallsFor(Run(g), marks[2 * s], env);
    assert all == g + (calls + h);
    StillResolved(g, marks[2 * s], calls + h, k, k');
    BookingStays(g, marks[2 * s], env, h);
  }

  lemma ClosestHasId(lots: seq<Lot>, m: Msg)
    ensures ClosestId(lots, m.lat, m.lon).Some? <==> Closest(lots, m.lat, m.lon).Some?
  {
  }
}

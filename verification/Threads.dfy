/** The server's threads, one per client, interleaved at the granularity of single SQL statements
    on the shared database. The lot table is fixed: no server thread writes it. */
module Threads {
  import opened Words
  import opened Wrappers
  import opened Wire
  import opened Sequences
  import opened Tables
  import opened Nearest
  import opened Servers

  /** Where a thread is: before the statement named, carrying what earlier statements returned. */
  datatype Thread =
    | Idle
    | Locating(m: Msg)
    | Inserting(m: Msg, lot: uint32)
    | Finding(m: Msg)
    | Pricing(m: Msg, id: int32, rowLot: int32, start: int32)
    | Updating(m: Msg, id: int32, closing: Closing, priced: bool)
    | Flushing(m: Msg)

  /** A request with what the environment answered while it was served. */
  datatype Commit = Commit(m: Msg, env: Env)

  /** `received` and `commits` record the requests that arrived, and the order in which they took effect:
      at their write, or where they failed. */
  datatype State = State(image: Image, disk: Image, threads: seq<Thread>, received: seq<Msg>, commits: seq<Commit>)

  datatype Action = Accept(i: nat, m: Msg) | Advance(i: nat, ok: bool)

  const ALL_WELL := Env(true, true, true, true, true, true, true)

  function Init(t: Image, n: nat): State {
    State(t, t, seq(n, i => Idle), [], [])
  }

  /** The thread takes its effect, or fails, and goes on to `next`. */
  function Commits(s: State, i: nat, m: Msg, env: Env, image: Image, next: Thread): State
    requires i < |s.threads|
  {
    s.(image := image, threads := s.threads[i := next], commits := s.commits + [Commit(m, env)])
  }

  function Moves(s: State, i: nat, next: Thread): State
    requires i < |s.threads|
  {
    s.(threads := s.threads[i := next])
  }

  /** One statement of thread `i`; `ok` is whether SQLite, or the copy to disk, succeeds. */
  function Advanced(s: State, i: nat, ok: bool): State
    requires i < |s.threads|
  {
    match s.threads[i]
    case Idle => s
    case Locating(m) =>
      var lot := ClosestId(s.image.lots, m.lat, m.lon);
      if ok && lot.Some? && m.kind == MSG_START then Moves(s, i, Inserting(m, lot.value))
      else if ok && lot.Some? && m.kind == MSG_STOP then Moves(s, i, Finding(m))
      else Commits(s, i, m, ALL_WELL.(scan := ok), s.image, Idle)
    case Inserting(m, lot) =>
      if ok then
        Commits(s, i, m, ALL_WELL, InsertLog(s.image, Int32(lot), Int32(m.license), Int32(m.utc)), Flushing(m))
      else Commits(s, i, m, ALL_WELL.(write := false), s.image, Idle)
    case Finding(m) =>
      var hit := NewestOpen(s.image.log, Int32(m.license));
      if ok && hit.Some? then
        var row := s.image.log[hit.value];
        Moves(s, i, Pricing(m, Int32(row.id), row.lot, row.start))
      else Commits(s, i, m, ALL_WELL.(find := ok), s.image, Idle)
    case Pricing(m, id, rowLot, start) =>
      Moves(s, i, Updating(m, id, ClosingOf(s.image.lots, rowLot, start, m.utc, ok), ok))
    case Updating(m, id, closing, priced) =>
      if ok then
        Commits(s, i, m, ALL_WELL.(price := priced), s.image.(log := UpdateLog(s.image.log, id, closing)), Flushing(m))
      else Commits(s, i, m, ALL_WELL.(price := priced, write := false), s.image, Idle)
    case Flushing(m) =>
      Moves(if ok then s.(disk := s.image) else s, i, Idle)
  }

  function Step(s: State, a: Action): State {
    if a.i >= |s.threads| then s
    else
      match a
      case Accept(i, m) =>
        if s.threads[i].Idle? then s.(threads := s.threads[i := Locating(m)], received := s.received + [m]) else s
      case Advance(i, ok) => Advanced(s, i, ok)
  }

  function Exec(s: State, actions: seq<Action>): State {
    if actions == [] then s else Step(Exec(s, actions[..|actions| - 1]), actions[|actions| - 1])
  }

  // ---------------------------------------------------------------- the serial reference

  /** A request served from beginning to end without interruption. */
  function ServeWhole(t: Image, c: Commit): Image {
    var calls := CallsFor(t, c.m, c.env);
    if calls == [] then t else Apply(t, calls[0]).image
  }

  function RunSerial(t: Image, cs: seq<Commit>): Image {
    if cs == [] then t else ServeWhole(RunSerial(t, cs[..|cs| - 1]), cs[|cs| - 1])
  }

  // ---------------------------------------------------------------- at most one request per customer

  /** The action does not start a second request of a customer that has one in flight. */
  ghost predicate Allowed(s: State, a: Action) {
    a.Accept? && a.i < |s.threads| && s.threads[a.i].Idle? ==>
      forall j :: 0 <= j < |s.threads| && !s.threads[j].Idle? ==> s.threads[j].m.license != a.m.license
  }

  ghost predicate Disciplined(s: State, actions: seq<Action>) {
    forall k :: 0 <= k < |actions| ==> Allowed(Exec(s, actions[..k]), actions[k])
  }

  ghost predicate Exclusive(threads: seq<Thread>) {
    forall i, j :: 0 <= i < j < |threads| && !threads[i].Idle? && !threads[j].Idle? ==>
      threads[i].m.license != threads[j].m.license
  }

  /** What the thread remembers is still what the database says. */
  ghost predicate UpToDate(t: Image, th: Thread) {
    match th
    case Inserting(m, lot) => m.kind == MSG_START && ClosestId(t.lots, m.lat, m.lon) == Some(lot)
    case Finding(m) => m.kind == MSG_STOP && ClosestId(t.lots, m.lat, m.lon).Some?
    case Pricing(m, id, rowLot, start) =>
      m.kind == MSG_STOP && ClosestId(t.lots, m.lat, m.lon).Some? && Holds(t, m, id, rowLot, start)
    case Updating(m, id, closing, priced) =>
      m.kind == MSG_STOP && ClosestId(t.lots, m.lat, m.lon).Some? && Closes(t, m, id, closing, priced)
    case _ => true
  }

  /** The remembered row is still the customer's newest open one. */
  ghost predicate Holds(t: Image, m: Msg, id: int32, rowLot: int32, start: int32) {
    var hit := NewestOpen(t.log, Int32(m.license));
    hit.Some? && var row := t.log[hit.value]; Int32(row.id) == id && row.lot == rowLot && row.start == start
  }

  ghost predicate Closes(t: Image, m: Msg, id: int32, closing: Closing, priced: bool) {
    var hit := NewestOpen(t.log, Int32(m.license));
    hit.Some? && var row := t.log[hit.value];
                 Int32(row.id) == id && closing == ClosingOf(t.lots, row.lot, row.start, m.utc, priced)
  }

  function Waiting(th: Thread): multiset<Msg> {
    if th.Idle? || th.Flushing? then multiset{} else multiset{th.m}
  }

  /** The requests received that have not taken effect yet. */
  function Pending(threads: seq<Thread>): multiset<Msg> {
    if threads == [] then multiset{}
    else Pending(threads[..|threads| - 1]) + Waiting(threads[|threads| - 1])
  }

  function Messages(cs: seq<Commit>): (ms: seq<Msg>)
    ensures |ms| == |cs|
  {
    seq(|cs|, i requires 0 <= i < |cs| => cs[i].m)
  }

  ghost predicate Inv(t0: Image, s: State) {
    && s.image == RunSerial(t0, s.commits)
    && s.image.lots == t0.lots
    && Ordered(s.image)
    && Exclusive(s.threads)
    && (forall i :: 0 <= i < |s.threads| ==> UpToDate(s.image, s.threads[i]))
    && multiset(s.received) == multiset(Messages(s.commits)) + Pending(s.threads)
  }

  // ---------------------------------------------------------------- what one customer's write leaves alone

  /** Another customer's newest open row is the same row, unchanged. */
  ghost predicate Undisturbed(a: seq<Row>, b: seq<Row>, customer: int32) {
    NewestOpen(a, customer) == NewestOpen(b, customer)
    && (var hit := NewestOpen(a, customer); hit.Some? ==> a[hit.value] == b[hit.value])
  }

  lemma InsertUndisturbed(log: seq<Row>, row: Row, customer: int32)
    requires row.customer != customer
    ensures Undisturbed(log, log + [row], customer)
  {
    assert (log + [row])[..|log|] == log;
  }

  lemma {:induction false} ReplaceUndisturbed(log: seq<Row>, k: nat, row: Row, customer: int32)
    requires k < |log| && log[k].customer != customer && row.customer != customer
    ensures Undisturbed(log, log[k := row], customer)
  {
    var n := |log| - 1;
    if k < n {
      assert log[k := row][..n] == log[..n][k := row];
      ReplaceUndisturbed(log[..n], k, row, customer);
      var hit := NewestOpen(log[..n], customer);
      assert hit.Some? ==> log[k := row][hit.value] == log[k := row][..n][hit.value];
    } else {
      assert log[k := row][..n] == log[..n];
    }
  }

  lemma StaysUpToDate(a: Image, b: Image, th: Thread)
    requires UpToDate(a, th) && a.lots == b.lots
    requires !th.Idle? ==> Undisturbed(a.log, b.log, Int32(th.m.license))
    ensures UpToDate(b, th)
  {
  }

  lemma {:induction false} PendingReplaced(threads: seq<Thread>, i: nat, th: Thread)
    requires i < |threads|
    ensures Pending(threads[i := th]) + Waiting(threads[i]) == Pending(threads) + Waiting(th)
  {
    hide Waiting;
    var n := |threads| - 1;
    if i < n {
      assert threads[i := th][..n] == threads[..n][i := th];
      PendingReplaced(threads[..n], i, th);
      var a, b, last := Pending(threads[..n][i := th]), Pending(threads[..n]), Waiting(threads[n]);
      assert a + last + Waiting(threads[i]) == a + Waiting(threads[i]) + last;
      assert b + last + Waiting(th) == b + Waiting(th) + last;
    } else {
      assert threads[i := th][..n] == threads[..n];
      var b := Pending(threads[..n]);
      assert b + Waiting(th) + Waiting(threads[i]) == b + Waiting(threads[i]) + Waiting(th);
    }
  }

  lemma Balanced(received: multiset<Msg>, done: multiset<Msg>, before: multiset<Msg>, after: multiset<Msg>,
                 out: multiset<Msg>, into: multiset<Msg>)
    requires received == done + before && after + out == before + into
    ensures out == into ==> received == done + after
    ensures into == multiset{} ==> received == done + out + after
    ensures out == multiset{} ==> received + into == done + after
  {
    assert out == into ==> after == after + out - out == before;
    assert into == multiset{} ==> before == before + into && done + out + after == done + (after + out);
    assert out == multiset{} ==> after == after + out && received + into == done + (before + into);
  }

  // ---------------------------------------------------------------- steps

  lemma MoveKeeps(t0: Image, s: State, i: nat, next: Thread)
    requires Inv(t0, s) && i < |s.threads| && !s.threads[i].Idle?
    requires UpToDate(s.image, next)
    requires next.Idle? || next.m == s.threads[i].m
    requires (next.Idle? || next.Flushing?) <==> s.threads[i].Flushing?
    ensures Inv(t0, Moves(s, i, next))
  {
    hide UpToDate, ServeWhole, Pending;
    PendingReplaced(s.threads, i, next);
    Balanced(multiset(s.received), multiset(Messages(s.commits)), Pending(s.threads), Pending(s.threads[i := next]),
             Waiting(s.threads[i]), Waiting(next));
  }

  lemma CommitKeeps(t0: Image, s: State, i: nat, m: Msg, env: Env, image: Image, next: Thread)
    requires Inv(t0, s) && i < |s.threads| && !s.threads[i].Idle? && !s.threads[i].Flushing? && s.threads[i].m == m
    requires image == ServeWhole(s.image, Commit(m, env)) && image.lots == s.image.lots && Ordered(image)
    requires forall c: int32 :: c != Int32(m.license) ==> Undisturbed(s.image.log, image.log, c)
    requires next == Idle || next == Flushing(m)
    ensures Inv(t0, Commits(s, i, m, env, image, next))
  {
    var r := Commits(s, i, m, env, image, next);
    assert r.commits[..|s.commits|] == s.commits;
    forall j | 0 <= j < |r.threads| ensures UpToDate(image, r.threads[j]) {
      if j != i {
        OtherStaysUpToDate(s, i, j, image);
      }
    }
    CommitCounts(s, i, m, env, image, next);
  }

  lemma OtherStaysUpToDate(s: State, i: nat, j: nat, image: Image)
    requires i < |s.threads| && j < |s.threads| && i != j && !s.threads[i].Idle?
    requires Exclusive(s.threads) && UpToDate(s.image, s.threads[j]) && image.lots == s.image.lots
    requires forall c: int32 :: c != Int32(s.threads[i].m.license) ==> Undisturbed(s.image.log, image.log, c)
    ensures UpToDate(image, s.threads[j])
  {
    hide Undisturbed, UpToDate;
    if !s.threads[j].Idle? {
      WrapRoundTrip(s.threads[i].m.license, 0);
      WrapRoundTrip(s.threads[j].m.license, 0);
    }
    StaysUpToDate(s.image, image, s.threads[j]);
  }

  lemma CommitCounts(s: State, i: nat, m: Msg, env: Env, image: Image, next: Thread)
    requires i < |s.threads| && !s.threads[i].Idle? && !s.threads[i].Flushing? && s.threads[i].m == m
    requires multiset(s.received) == multiset(Messages(s.commits)) + Pending(s.threads)
    requires next == Idle || next == Flushing(m)
    ensures var r := Commits(s, i, m, env, image, next);
            multiset(r.received) == multiset(Messages(r.commits)) + Pending(r.threads)
  {
    hide Pending;
    var r := Commits(s, i, m, env, image, next);
    PendingReplaced(s.threads, i, next);
    Balanced(multiset(s.received), multiset(Messages(s.commits)), Pending(s.threads), Pending(r.threads),
             Waiting(s.threads[i]), Waiting(next));
    assert Messages(r.commits) == Messages(s.commits) + [m];
  }

  lemma InsertKeeps(t0: Image, s: State, i: nat)
    requires Inv(t0, s) && i < |s.threads| && s.threads[i].Inserting?
    ensures Inv(t0, Advanced(s, i, true))
  {
    var th := s.threads[i];
    var image := InsertLog(s.image, Int32(th.lot), Int32(th.m.license), Int32(th.m.utc));
    assert UpToDate(s.image, th);
    forall c: int32 | c != Int32(th.m.license) ensures Undisturbed(s.image.log, image.log, c) {
      InsertUndisturbed(s.image.log, image.log[|s.image.log|], c);
    }
    CommitKeeps(t0, s, i, th.m, ALL_WELL, image, Flushing(th.m));
  }

  lemma UpdateKeeps(t0: Image, s: State, i: nat)
    requires Inv(t0, s) && Fits(s.image) && i < |s.threads| && s.threads[i].Updating?
    ensures Inv(t0, Advanced(s, i, true))
  {
    var th := s.threads[i];
    var image := s.image.(log := UpdateLog(s.image.log, th.id, th.closing));
    assert UpToDate(s.image, th);
    var hit := NewestOpen(s.image.log, Int32(th.m.license)).value;
    NewestOpenIsLast(s.image.log, Int32(th.m.license));
    UpdateHitsOneRow(s.image, hit, th.closing);
    forall c: int32 | c != Int32(th.m.license) ensures Undisturbed(s.image.log, image.log, c) {
      ReplaceUndisturbed(s.image.log, hit, image.log[hit], c);
    }
    CommitKeeps(t0, s, i, th.m, ALL_WELL.(price := th.priced), image, Flushing(th.m));
  }

  /** A request that fails at this statement takes no effect, as it does when served whole. */
  lemma FailureKeeps(t0: Image, s: State, i: nat, env: Env)
    requires Inv(t0, s) && i < |s.threads| && !s.threads[i].Idle? && !s.threads[i].Flushing?
    requires ServeWhole(s.image, Commit(s.threads[i].m, env)) == s.image
    ensures Inv(t0, Commits(s, i, s.threads[i].m, env, s.image, Idle))
  {
    hide ServeWhole;
    CommitKeeps(t0, s, i, s.threads[i].m, env, s.image, Idle);
  }

  lemma AdvanceKeeps(t0: Image, s: State, i: nat, ok: bool)
    requires Inv(t0, s) && Fits(s.image) && i < |s.threads|
    ensures Inv(t0, Advanced(s, i, ok))
  {
    hide Inv;
    assert UpToDate(s.image, s.threads[i]) by { UpToDateAt(t0, s, i); }
    match s.threads[i]
    case Idle =>
    case Locating(m) =>
      var lot := ClosestId(s.image.lots, m.lat, m.lon);
      if ok && lot.Some? && m.kind == MSG_START {
        MoveKeeps(t0, s, i, Inserting(m, lot.value));
      } else if ok && lot.Some? && m.kind == MSG_STOP {
        MoveKeeps(t0, s, i, Finding(m));
      } else {
        FailureKeeps(t0, s, i, ALL_WELL.(scan := ok));
      }
    case Inserting(m, lot) =>
      if ok {
        InsertKeeps(t0, s, i);
      } else {
        FailureKeeps(t0, s, i, ALL_WELL.(write := false));
      }
    case Finding(m) =>
      var hit := NewestOpen(s.image.log, Int32(m.license));
      if ok && hit.Some? {
        var row := s.image.log[hit.value];
        MoveKeeps(t0, s, i, Pricing(m, Int32(row.id), row.lot, row.start));
      } else {
        FailureKeeps(t0, s, i, ALL_WELL.(find := ok));
      }
    case Pricing(m, id, rowLot, start) =>
      MoveKeeps(t0, s, i, Updating(m, id, ClosingOf(s.image.lots, rowLot, start, m.utc, ok), ok));
    case Updating(m, id, closing, priced) =>
      if ok {
        UpdateKeeps(t0, s, i);
      } else {
        FailureKeeps(t0, s, i, ALL_WELL.(price := priced, write := false));
      }
    case Flushing(m) =>
      FlushKeeps(t0, s);
      MoveKeeps(t0, if ok then s.(disk := s.image) else s, i, Idle);
  }

  lemma UpToDateAt(t0: Image, s: State, i: nat)
    requires Inv(t0, s) && i < |s.threads|
    ensures UpToDate(s.image, s.threads[i])
  {
  }

  lemma FlushKeeps(t0: Image, s: State)
    requires Inv(t0, s)
    ensures Inv(t0, s.(disk := s.image))
  {
  }

  lemma AcceptKeeps(t0: Image, s: State, i: nat, m: Msg)
    requires Inv(t0, s) && Allowed(s, Accept(i, m))
    ensures Inv(t0, Step(s, Accept(i, m)))
  {
    hide ServeWhole, Pending;
    if i < |s.threads| && s.threads[i].Idle? {
      PendingReplaced(s.threads, i, Locating(m));
      Balanced(multiset(s.received), multiset(Messages(s.commits)), Pending(s.threads),
               Pending(s.threads[i := Locating(m)]), Waiting(s.threads[i]), Waiting(Locating(m)));
    }
  }

  lemma InitKeeps(t: Image, n: nat)
    requires Ordered(t)
    ensures Inv(t, Init(t, n))
  {
    NothingPending(n);
  }

  lemma {:induction false} NothingPending(n: nat)
    ensures Pending(seq(n, i => Idle)) == multiset{}
  {
    if n > 0 {
      assert seq(n, i => Idle)[..n - 1] == seq(n - 1, i => Idle);
      NothingPending(n - 1);
    }
  }

  lemma LogOnlyGrows(s: State, a: Action)
    ensures s.image.nextLog <= Step(s, a).image.nextLog
  {
  }

  lemma {:induction false} ExecKeeps(t: Image, n: nat, actions: seq<Action>)
    requires Ordered(t) && Disciplined(Init(t, n), actions) && Fits(Exec(Init(t, n), actions).image)
    ensures Inv(t, Exec(Init(t, n), actions))
  {
    hide Inv, Step, Allowed;
    if actions == [] {
      InitKeeps(t, n);
    } else {
      var front, a := actions[..|actions| - 1], actions[|actions| - 1];
      var s := Exec(Init(t, n), front);
      LogOnlyGrows(s, a);
      forall k | 0 <= k < |front| ensures Allowed(Exec(Init(t, n), front[..k]), front[k]) {
        assert front[..k] == actions[..k];
      }
      ExecKeeps(t, n, front);
      StepKeeps(t, s, a);
    }
  }

  lemma StepKeeps(t0: Image, s: State, a: Action)
    requires Inv(t0, s) && Fits(s.image) && Allowed(s, a)
    ensures Inv(t0, Step(s, a))
  {
    hide Inv, Advanced, Allowed;
    if a.i < |s.threads| {
      match a
      case Accept(i, m) => AcceptKeeps(t0, s, i, m);
      case Advance(i, ok) => AdvanceKeeps(t0, s, i, ok);
    }
  }

  // ---------------------------------------------------------------- each customer's order

  predicate Waits(th: Thread) {
    !th.Idle? && !th.Flushing?
  }

  /** The customer's requests that have not taken effect yet. */
  function WaitingOf(threads: seq<Thread>, customer: uint32): seq<Msg> {
    if threads == [] then []
    else
      var last := threads[|threads| - 1];
      WaitingOf(threads[..|threads| - 1], customer)
      + if Waits(last) && last.m.license == customer then [last.m] else []
  }

  function LicensedTo(customer: uint32): Msg -> bool {
    (m: Msg) => m.license == customer
  }

  /** The customer's requests take effect in the order in which they arrived. */
  ghost predicate InArrivalOrder(s: State, customer: uint32) {
    Filter(s.received, LicensedTo(customer))
    == Filter(Messages(s.commits), LicensedTo(customer)) + WaitingOf(s.threads, customer)
  }

  lemma {:induction false} WaitingUnchanged(threads: seq<Thread>, i: nat, th: Thread, customer: uint32)
    requires i < |threads|
    requires Waits(th) == Waits(threads[i]) && (Waits(th) ==> th.m == threads[i].m)
    ensures WaitingOf(threads[i := th], customer) == WaitingOf(threads, customer)
  {
    var n := |threads| - 1;
    if i < n {
      assert threads[i := th][..n] == threads[..n][i := th];
      WaitingUnchanged(threads[..n], i, th, customer);
    } else {
      assert threads[i := th][..n] == threads[..n];
    }
  }

  /** One thread at most waits for the customer, and it is this one if it does. */
  lemma {:induction false} WaitingAlone(threads: seq<Thread>, i: nat, customer: uint32)
    requires i < |threads|
    requires forall j :: 0 <= j < |threads| && j != i && Waits(threads[j]) ==> threads[j].m.license != customer
    ensures WaitingOf(threads, customer)
            == if Waits(threads[i]) && threads[i].m.license == customer then [threads[i].m] else []
  {
    var n := |threads| - 1;
    var front, last := threads[..n], threads[n];
    assert forall j :: 0 <= j < n ==> front[j] == threads[j];
    if i < n {
      assert !(Waits(last) && last.m.license == customer);
      WaitingAlone(front, i, customer);
    } else {
      NoneWaiting(front, customer);
    }
  }

  lemma {:induction false} NoneWaiting(threads: seq<Thread>, customer: uint32)
    requires forall j :: 0 <= j < |threads| && Waits(threads[j]) ==> threads[j].m.license != customer
    ensures WaitingOf(threads, customer) == []
  {
    if threads != [] {
      NoneWaiting(threads[..|threads| - 1], customer);
    }
  }

  /** Another customer's requests do not notice thread `i`. */
  lemma {:induction false} WaitingElsewhere(threads: seq<Thread>, i: nat, th: Thread, customer: uint32)
    requires i < |threads|
    requires Waits(threads[i]) ==> threads[i].m.license != customer
    requires Waits(th) ==> th.m.license != customer
    ensures WaitingOf(threads[i := th], customer) == WaitingOf(threads, customer)
  {
    var n := |threads| - 1;
    if i < n {
      assert threads[i := th][..n] == threads[..n][i := th];
      WaitingElsewhere(threads[..n], i, th, customer);
    } else {
      assert threads[i := th][..n] == threads[..n];
    }
  }

  /** Advancing a thread either lets its request take effect or leaves it waiting, or not, as it was. */
  lemma AdvanceShape(s: State, i: nat, ok: bool) returns (next: Thread)
    requires i < |s.threads|
    ensures var r, th := Advanced(s, i, ok), s.threads[i];
            && r.received == s.received && r.threads == s.threads[i := next]
            && (next.Idle? || (!th.Idle? && next.m == th.m))
            && Messages(r.commits) == Messages(s.commits) + (if Waits(th) && !Waits(next) then [th.m] else [])
            && (Waits(next) ==> Waits(th))
            && (Remaining(next) < Remaining(th) || th.Idle?)
  {
    hide NewestOpen, ClosestId, ClosingOf, UpdateLog, InsertLog;
    next := Advanced(s, i, ok).threads[i];
  }

  lemma AdvanceKeepsArrival(s: State, i: nat, ok: bool, customer: uint32)
    requires i < |s.threads| && Exclusive(s.threads) && InArrivalOrder(s, customer)
    ensures Exclusive(Advanced(s, i, ok).threads) && InArrivalOrder(Advanced(s, i, ok), customer)
  {
    hide Advanced, Filter, WaitingOf;
    var th := s.threads[i];
    var next := AdvanceShape(s, i, ok);
    var keep := LicensedTo(customer);
    if Waits(th) && !Waits(next) {
      FilterSnoc(Messages(s.commits), th.m, keep);
      if th.m.license == customer {
        WaitingAlone(s.threads, i, customer);
        WaitingAlone(s.threads[i := next], i, customer);
      } else {
        WaitingElsewhere(s.threads, i, next, customer);
      }
    } else {
      assert Messages(s.commits) + [] == Messages(s.commits);
      WaitingUnchanged(s.threads, i, next, customer);
    }
  }

  lemma AcceptKeepsArrival(s: State, i: nat, m: Msg, customer: uint32)
    requires Exclusive(s.threads) && InArrivalOrder(s, customer) && Allowed(s, Accept(i, m))
    ensures Exclusive(Step(s, Accept(i, m)).threads) && InArrivalOrder(Step(s, Accept(i, m)), customer)
  {
    hide Filter, WaitingOf;
    if i < |s.threads| && s.threads[i].Idle? {
      FilterSnoc(s.received, m, LicensedTo(customer));
      if m.license == customer {
        WaitingAlone(s.threads, i, customer);
        WaitingAlone(s.threads[i := Locating(m)], i, customer);
      } else {
        WaitingElsewhere(s.threads, i, Locating(m), customer);
      }
    }
  }

  /** If no customer ever has two requests in flight, every customer's requests take effect in the order in which
      they arrived, and at most one of them is still on its way. */
  lemma {:induction false} ArrivalOrderKept(t: Image, n: nat, actions: seq<Action>, customer: uint32)
    requires Disciplined(Init(t, n), actions)
    ensures var s := Exec(Init(t, n), actions);
            Exclusive(s.threads) && InArrivalOrder(s, customer) && |WaitingOf(s.threads, customer)| <= 1
  {
    hide InArrivalOrder, Advanced, Allowed, WaitingOf;
    var s := Exec(Init(t, n), actions);
    if actions == [] {
      NoneWaiting(s.threads, customer);
      assert InArrivalOrder(s, customer) by { NothingArrived(s, customer); }
    } else {
      var front, a := actions[..|actions| - 1], actions[|actions| - 1];
      forall k | 0 <= k < |front| ensures Allowed(Exec(Init(t, n), front[..k]), front[k]) {
        assert front[..k] == actions[..k];
      }
      ArrivalOrderKept(t, n, front, customer);
      var before := Exec(Init(t, n), front);
      if a.Accept? {
        AcceptKeepsArrival(before, a.i, a.m, customer);
      } else if a.i < |before.threads| {
        AdvanceKeepsArrival(before, a.i, a.ok, customer);
      }
    }
    AtMostOneWaits(s.threads, customer);
  }

  lemma NothingArrived(s: State, customer: uint32)
    requires s.received == [] && s.commits == [] && WaitingOf(s.threads, customer) == []
    ensures InArrivalOrder(s, customer)
  {
  }

  lemma AtMostOneWaits(threads: seq<Thread>, customer: uint32)
    requires Exclusive(threads)
    ensures |WaitingOf(threads, customer)| <= 1
  {
    if i :| 0 <= i < |threads| && Waits(threads[i]) && threads[i].m.license == customer {
      WaitingAlone(threads, i, customer);
    } else {
      NoneWaiting(threads, customer);
    }
  }

  // ---------------------------------------------------------------- the serial order as a history

  /** Serving requests one after the other is the server's own sequential loop: the serial reference is a run of the
      call history that loop leaves. */
  lemma {:induction false} SerialIsServeAll(s: Lineages, cs: seq<Commit>, env: nat -> Env)
    requires forall k :: 0 <= k < |cs| ==> env(k) == cs[k].env
    ensures RunSerial(Run(s.runtime), cs) == Run(ServeAll(s, Messages(cs), env).runtime)
  {
    hide Run, RunFrom, Serve;
    if cs != [] {
      var n := |cs| - 1;
      assert Messages(cs)[..n] == Messages(cs[..n]);
      SerialIsServeAll(s, cs[..n], env);
      WholeIsServe(ServeAll(s, Messages(cs[..n]), env), cs[n]);
    }
  }

  /** What the environment answered to the `k`-th request. */
  function EnvOf(cs: seq<Commit>): nat -> Env {
    (k: nat) => if k < |cs| then cs[k].env else ALL_WELL
  }

  /** The call history that `g` has become once the requests are served in turn. */
  function HistoryOf(g: seq<Call>, cs: seq<Commit>): seq<Call> {
    ServeAll(Lineages(g, None), Messages(cs), EnvOf(cs)).runtime
  }

  lemma WholeIsServe(s: Lineages, c: Commit)
    ensures ServeWhole(Run(s.runtime), c) == Run(Serve(s, c.m, c.env).runtime)
  {
    hide Run, RunFrom, Apply;
    var calls := CallsFor(Run(s.runtime), c.m, c.env);
    if calls == [] {
      assert s.runtime + calls == s.runtime;
    } else {
      assert calls == [calls[0]];
      RunSnoc(s.runtime, calls[0]);
    }
  }

  // ---------------------------------------------------------------- results

  /** If no customer ever has two requests in flight, every statement-level interleaving leaves the database as some
      serial order of whole requests does: the order `commits`, which holds each received request that is not still
      on its way exactly once, and each customer's in order of arrival. And every STOP about to update a row does so
      while that row is still open and still its customer's newest. */
  lemma InterleavingIsSerial(t: Image, n: nat, actions: seq<Action>)
    requires Ordered(t) && Disciplined(Init(t, n), actions) && Fits(Exec(Init(t, n), actions).image)
    ensures var s := Exec(Init(t, n), actions);
            && s.image == RunSerial(t, s.commits)
            && multiset(s.received) == multiset(Messages(s.commits)) + Pending(s.threads)
            && (forall c: uint32 :: InArrivalOrder(s, c))
            && forall i :: 0 <= i < |s.threads| && s.threads[i].Updating? ==>
                 var hit := NewestOpen(s.image.log, Int32(s.threads[i].m.license));
                 hit.Some? && s.image.log[hit.value].id == s.threads[i].id
  {
    hide InArrivalOrder, WaitingOf;
    ExecKeeps(t, n, actions);
    var s := Exec(Init(t, n), actions);
    forall c: uint32 ensures InArrivalOrder(s, c) {
      ArrivalOrderKept(t, n, actions, c);
    }
    forall i | 0 <= i < |s.threads| && s.threads[i].Updating?
      ensures var hit := NewestOpen(s.image.log, Int32(s.threads[i].m.license));
              hit.Some? && s.image.log[hit.value].id == s.threads[i].id
    {
      UpToDateAt(t, s, i);
    }
  }

  /** No copy to disk fails. */
  ghost predicate FlushesSucceed(s: State, actions: seq<Action>) {
    forall k :: 0 <= k < |actions| && actions[k].Advance? && !actions[k].ok ==>
      var r := Exec(s, actions[..k]); actions[k].i < |r.threads| ==> !r.threads[actions[k].i].Flushing?
  }

  /** While the disk copy differs from the database, some thread is between its write and its own
      flush; so the two agree whenever no request is in flight. This needs no discipline among requests. */
  lemma {:induction false} DirtyMeansPendingFlush(t: Image, n: nat, actions: seq<Action>)
    requires FlushesSucceed(Init(t, n), actions)
    ensures var s := Exec(Init(t, n), actions);
            s.disk != s.image ==> exists i :: 0 <= i < |s.threads| && s.threads[i].Flushing?
  {
    if actions != [] {
      var front, a := actions[..|actions| - 1], actions[|actions| - 1];
      forall k | 0 <= k < |front| ensures front[..k] == actions[..k] {
      }
      DirtyMeansPendingFlush(t, n, front);
      DirtyStep(Exec(Init(t, n), front), a);
    }
  }

  lemma DirtyStep(s: State, a: Action)
    requires s.disk != s.image ==> exists i :: 0 <= i < |s.threads| && s.threads[i].Flushing?
    requires a.Advance? && !a.ok && a.i < |s.threads| ==> !s.threads[a.i].Flushing?
    ensures var r := Step(s, a);
            r.disk != r.image ==> exists i :: 0 <= i < |r.threads| && r.threads[i].Flushing?
  {
    hide NewestOpen, ClosestId, ClosingOf, InsertLog, UpdateLog;
    var r := Step(s, a);
    if r.disk != r.image {
      if r.image != s.image {
        assert r.threads[a.i].Flushing?;
      } else {
        var i :| 0 <= i < |s.threads| && s.threads[i].Flushing?;
        assert r.threads[i].Flushing?;
      }
    }
  }

  // ---------------------------------------------------------------- a thread by itself

  /** A request with no other thread in between: it arrives, and five statements at most serve it. */
  function Serving(i: nat, m: Msg, env: Env): seq<Action> {
    var start := m.kind == MSG_START;
    [Accept(i, m), Advance(i, env.scan),
     Advance(i, if start then env.write else env.find), Advance(i, if start then env.flush else env.price),
     Advance(i, env.write), Advance(i, env.flush)]
  }

  lemma ExecServing(s: State, i: nat, m: Msg, env: Env)
    requires i < |s.threads| && s.threads[i].Idle?
    ensures var os := Serving(i, m, env);
            var located := Step(Step(s, os[0]), os[1]);
            Exec(s, os) == Step(Step(Step(Step(located, os[2]), os[3]), os[4]), os[5])
  {
    hide Step;
    var os := Serving(i, m, env);
    assert os[..0] == [] && os[..6] == os;
    ExecTwo(s, os, 0);
    ExecTwo(s, os, 2);
    ExecTwo(s, os, 4);
  }

  /** The request has a database call, and the call succeeds. */
  predicate Acknowledged(t: Image, m: Msg, env: Env) {
    var calls := CallsFor(t, m, env);
    calls != [] && Apply(t, calls[0]).status == PDB_OK
  }

  /** `r` is `s` after thread `i` has served the request to the end, with effect `image`. */
  ghost predicate Served(s: State, r: State, i: nat, m: Msg, env: Env)
    requires i < |s.threads|
  {
    && r.image == ServeWhole(s.image, Commit(m, env))
    && r.disk == (if Acknowledged(s.image, m, env) && env.flush then r.image else s.disk)
    && r.threads == s.threads
    && r.received == s.received + [m]
    && Messages(r.commits) == Messages(s.commits) + [m]
  }

  lemma IdleStays(s: State, i: nat, ok: bool, ok': bool)
    requires i < |s.threads| && s.threads[i].Idle?
    ensures Step(Step(s, Advance(i, ok)), Advance(i, ok')) == s
  {
  }

  lemma StartLocated(s: State, i: nat, m: Msg, scan: bool)
    requires i < |s.threads| && s.threads[i].Idle? && m.kind == MSG_START
    ensures var r, lot := Step(Step(s, Accept(i, m)), Advance(i, scan)), ClosestId(s.image.lots, m.lat, m.lon);
            && r.image == s.image && r.disk == s.disk && r.received == s.received + [m]
            && r.threads == s.threads[i := if scan && lot.Some? then Inserting(m, lot.value) else Idle]
            && Messages(r.commits) == Messages(s.commits) + if scan && lot.Some? then [] else [m]
  {
    hide ClosestId;
  }

  lemma StartInserted(s: State, i: nat, write: bool, flush: bool)
    requires i < |s.threads| && s.threads[i].Inserting?
    ensures var r, th := Step(Step(s, Advance(i, write)), Advance(i, flush)), s.threads[i];
            && r.threads == s.threads[i := Idle] && r.received == s.received
            && Messages(r.commits) == Messages(s.commits) + [th.m]
            && r.image == (if write then InsertLog(s.image, Int32(th.lot), Int32(th.m.license), Int32(th.m.utc))
                           else s.image)
            && r.disk == if write && flush then r.image else s.disk
  {
    hide InsertLog;
  }

  /** What a START does when it is served whole. */
  lemma StartEffect(t: Image, m: Msg, env: Env)
    requires m.kind == MSG_START
    ensures var lot := ClosestId(t.lots, m.lat, m.lon);
            var done := env.scan && lot.Some? && env.write;
            && (Acknowledged(t, m, env) <==> done)
            && ServeWhole(t, Commit(m, env)) ==
               if done then InsertLog(t, Int32(lot.value), Int32(m.license), Int32(m.utc)) else t
  {
    hide ClosestId, InsertLog;
  }

  lemma StartServed(s: State, i: nat, m: Msg, env: Env)
    requires i < |s.threads| && s.threads[i].Idle? && m.kind == MSG_START
    ensures Served(s, Exec(s, Serving(i, m, env)), i, m, env)
  {
    hide ClosestId, Exec, InsertLog, Step, ServeWhole, Acknowledged, Messages;
    ExecServing(s, i, m, env);
    StartEffect(s.image, m, env);
    StartLocated(s, i, m, env.scan);
    var located := Step(Step(s, Accept(i, m)), Advance(i, env.scan));
    if located.threads[i].Idle? {
      IdleStays(located, i, env.write, env.flush);
    } else {
      StartInserted(located, i, env.write, env.flush);
      assert Messages(s.commits) + [] == Messages(s.commits);
      IdleStays(Step(Step(located, Advance(i, env.write)), Advance(i, env.flush)), i, env.write, env.flush);
    }
  }

  lemma StopLocated(s: State, i: nat, m: Msg, scan: bool)
    requires i < |s.threads| && s.threads[i].Idle? && m.kind == MSG_STOP
    ensures var r := Step(Step(s, Accept(i, m)), Advance(i, scan));
            var found := scan && ClosestId(s.image.lots, m.lat, m.lon).Some?;
            && r.image == s.image && r.disk == s.disk && r.received == s.received + [m]
            && r.threads == s.threads[i := if found then Finding(m) else Idle]
            && Messages(r.commits) == Messages(s.commits) + if found then [] else [m]
  {
    hide ClosestId;
  }

  lemma StopPriced(s: State, i: nat, m: Msg, find: bool, price: bool)
    requires i < |s.threads| && s.threads[i] == Finding(m)
    ensures var r, hit := Step(Step(s, Advance(i, find)), Advance(i, price)), NewestOpen(s.image.log, Int32(m.license));
            && r.image == s.image && r.disk == s.disk && r.received == s.received
            && (if find && hit.Some? then
                  var row := s.image.log[hit.value];
                  var closing := ClosingOf(s.image.lots, row.lot, row.start, m.utc, price);
                  r.threads == s.threads[i := Updating(m, Int32(row.id), closing, price)] && r.commits == s.commits
                else
                  r.threads == s.threads[i := Idle] && Messages(r.commits) == Messages(s.commits) + [m])
  {
    hide NewestOpen, ClosingOf, ClosestId;
  }

  lemma StopUpdated(s: State, i: nat, write: bool, flush: bool)
    requires i < |s.threads| && s.threads[i].Updating?
    ensures var r, th := Step(Step(s, Advance(i, write)), Advance(i, flush)), s.threads[i];
            && r.threads == s.threads[i := Idle] && r.received == s.received
            && Messages(r.commits) == Messages(s.commits) + [th.m]
            && r.image == (if write then s.image.(log := UpdateLog(s.image.log, th.id, th.closing)) else s.image)
            && r.disk == if write && flush then r.image else s.disk
  {
    hide UpdateLog;
  }

  /** What a STOP does when it is served whole. */
  lemma StopEffect(t: Image, m: Msg, env: Env)
    requires m.kind == MSG_STOP
    ensures var hit := NewestOpen(t.log, Int32(m.license));
            var done := env.scan && ClosestId(t.lots, m.lat, m.lon).Some? && env.find && hit.Some? && env.write;
            && (Acknowledged(t, m, env) <==> done)
            && ServeWhole(t, Commit(m, env)) ==
               if !done then t
               else
                 var row := t.log[hit.value];
                 t.(log := UpdateLog(t.log, Int32(row.id), ClosingOf(t.lots, row.lot, row.start, m.utc, env.price)))
  {
    hide NewestOpen, ClosingOf, UpdateLog, ClosestId;
  }

  lemma StopServed(s: State, i: nat, m: Msg, env: Env)
    requires i < |s.threads| && s.threads[i].Idle? && m.kind == MSG_STOP
    ensures Served(s, Exec(s, Serving(i, m, env)), i, m, env)
  {
    hide ClosestId, Exec, NewestOpen, ClosingOf, UpdateLog, Step, ServeWhole, Acknowledged, Messages;
    ExecServing(s, i, m, env);
    StopEffect(s.image, m, env);
    StopLocated(s, i, m, env.scan);
    var located := Step(Step(s, Accept(i, m)), Advance(i, env.scan));
    if located.threads[i].Idle? {
      IdleStays(located, i, env.find, env.price);
      IdleStays(located, i, env.write, env.flush);
    } else {
      StopPriced(located, i, m, env.find, env.price);
      var priced := Step(Step(located, Advance(i, env.find)), Advance(i, env.price));
      assert Messages(s.commits) + [] == Messages(s.commits);
      if priced.threads[i].Idle? {
        IdleStays(priced, i, env.write, env.flush);
      } else {
        StopUpdated(priced, i, env.write, env.flush);
      }
    }
  }

  lemma OtherLocated(s: State, i: nat, m: Msg, scan: bool)
    requires i < |s.threads| && s.threads[i].Idle? && m.kind != MSG_START && m.kind != MSG_STOP
    ensures var r := Step(Step(s, Accept(i, m)), Advance(i, scan));
            && r.image == s.image && r.disk == s.disk && r.received == s.received + [m] && r.threads == s.threads
            && Messages(r.commits) == Messages(s.commits) + [m]
  {
    hide ClosestId;
  }

  lemma OtherEffect(t: Image, m: Msg, env: Env)
    requires m.kind != MSG_START && m.kind != MSG_STOP
    ensures !Acknowledged(t, m, env) && ServeWhole(t, Commit(m, env)) == t
  {
    hide ClosestId;
  }

  lemma OtherServed(s: State, i: nat, m: Msg, env: Env)
    requires i < |s.threads| && s.threads[i].Idle? && m.kind != MSG_START && m.kind != MSG_STOP
    ensures Served(s, Exec(s, Serving(i, m, env)), i, m, env)
  {
    hide ClosestId, Exec, Step, ServeWhole, Acknowledged, Messages;
    ExecServing(s, i, m, env);
    OtherEffect(s.image, m, env);
    OtherLocated(s, i, m, env.scan);
    var located := Step(Step(s, Accept(i, m)), Advance(i, env.scan));
    IdleStays(located, i, env.find, env.price);
    IdleStays(located, i, env.write, env.flush);
  }

  /** Undisturbed, the statements of a thread do what the server's sequential code does, for every outcome of every
      statement and of the copy to disk. */
  lemma AloneIsServe(s: State, i: nat, m: Msg, env: Env, past: Lineages)
    requires i < |s.threads| && s.threads[i].Idle?
    requires past.disk.Some? && s.image == Run(past.runtime) && s.disk == Run(past.disk.value)
    ensures var r, after := Exec(s, Serving(i, m, env)), Serve(past, m, env);
            && r.image == Run(after.runtime) && after.disk.Some? && r.disk == Run(after.disk.value)
            && r.threads == s.threads && r.received == s.received + [m]
            && Messages(r.commits) == Messages(s.commits) + [m]
  {
    hide Exec, Run, RunFrom, Apply, CallsFor, Serving;
    if m.kind == MSG_START {
      StartServed(s, i, m, env);
    } else if m.kind == MSG_STOP {
      StopServed(s, i, m, env);
    } else {
      OtherServed(s, i, m, env);
    }
    WholeIsServe(past, Commit(m, env));
  }

  /** A START whose statements succeed is booked: the log gains one open row, with the nearest lot, the licence and the
      time, and the disk copy has it too. */
  lemma StartIsBooked(s: State, i: nat, m: Msg)
    requires i < |s.threads| && s.threads[i].Idle? && m.kind == MSG_START
    requires ClosestId(s.image.lots, m.lat, m.lon).Some?
    ensures var r := Exec(s, Serving(i, m, ALL_WELL));
            && |r.image.log| == |s.image.log| + 1 && r.image.log[..|s.image.log|] == s.image.log
            && r.disk == r.image && r.threads == s.threads
            && var row := r.image.log[|s.image.log|];
               && row.closing.None?
               && Some(Uint32(row.lot)) == ClosestId(s.image.lots, m.lat, m.lon)
               && Uint32(row.customer) == m.license && Uint32(row.start) == m.utc
  {
    hide ClosestId, Exec, Serving, ServeWhole, Acknowledged;
    StartServed(s, i, m, ALL_WELL);
    StartEffect(s.image, m, ALL_WELL);
    WrapRoundTrip(ClosestId(s.image.lots, m.lat, m.lon).value, 0);
    WrapRoundTrip(m.license, 0);
    WrapRoundTrip(m.utc, 0);
  }

  // ---------------------------------------------------------------- progress of interleaved threads

  /** How many more turns a thread takes at most. */
  function Remaining(th: Thread): nat {
    match th
    case Idle => 0
    case Locating(_) => 5
    case Finding(_) => 4
    case Pricing(_, _, _, _) => 3
    case Inserting(_, _) => 2
    case Updating(_, _, _, _) => 2
    case Flushing(_) => 1
  }

  /** The turns of thread `i`. */
  function Turns(actions: seq<Action>, i: nat): nat {
    if actions == [] then 0
    else
      var a := actions[|actions| - 1];
      Turns(actions[..|actions| - 1], i) + if a.Advance? && a.i == i then 1 else 0
  }

  lemma TurnShortens(s: State, a: Action, i: nat)
    requires i < |s.threads| && !(a.Accept? && a.i == i)
    ensures |Step(s, a).threads| == |s.threads|
    ensures var before, after := Remaining(s.threads[i]), Remaining(Step(s, a).threads[i]);
            if a.i == i then after == 0 || after < before else after == before
  {
    hide Advanced, Remaining;
    if a.Advance? && a.i < |s.threads| {
      var next := AdvanceShape(s, a.i, a.ok);
      assert Remaining(Idle) == 0 by { NothingRemains(); }
    }
  }

  lemma NothingRemains()
    ensures Remaining(Idle) == 0
  {
  }

  /** No thread starves another: five turns finish a request, whatever the other threads do in between and whatever
      fails. */
  lemma {:induction false} TurnsFinish(s: State, i: nat, actions: seq<Action>)
    requires i < |s.threads| && forall x :: 0 <= x < |actions| ==> !(actions[x].Accept? && actions[x].i == i)
    ensures var r := Exec(s, actions);
            && |r.threads| == |s.threads|
            && (Turns(actions, i) >= Remaining(s.threads[i]) ==> r.threads[i].Idle?)
            && (Turns(actions, i) < Remaining(s.threads[i]) ==>
                  Remaining(r.threads[i]) <= Remaining(s.threads[i]) - Turns(actions, i))
  {
    hide Step;
    if actions != [] {
      var n := |actions| - 1;
      TurnsFinish(s, i, actions[..n]);
      TurnShortens(Exec(s, actions[..n]), actions[n], i);
    }
  }

  /** No statement fails, nor any copy to disk. */
  ghost predicate AllOk(actions: seq<Action>) {
    forall x :: 0 <= x < |actions| && actions[x].Advance? ==> actions[x].ok
  }

  /** Every effect so far was that of a request whose statements all succeed. */
  ghost predicate EffectsWell(s: State) {
    && (forall k :: 0 <= k < |s.commits| ==> s.commits[k].env == ALL_WELL)
    && (forall i :: 0 <= i < |s.threads| && s.threads[i].Updating? ==> s.threads[i].priced)
  }

  lemma StepsWell(s: State, a: Action)
    requires EffectsWell(s) && (a.Advance? ==> a.ok)
    ensures EffectsWell(Step(s, a))
  {
    hide ClosestId, NewestOpen, ClosingOf, UpdateLog, InsertLog;
  }

  lemma {:induction false} AllOkIsWell(t: Image, n: nat, actions: seq<Action>)
    requires AllOk(actions)
    ensures EffectsWell(Exec(Init(t, n), actions))
  {
    hide Step;
    if actions != [] {
      var k := |actions| - 1;
      AllOkIsWell(t, n, actions[..k]);
      StepsWell(Exec(Init(t, n), actions[..k]), actions[k]);
    }
  }

  /** When nothing fails, no customer has two requests in flight and all threads have come to rest, the database is
      what serving every received request once, without any failure, makes of it, with each customer's in order of
      arrival; and it is on disk. */
  lemma AllServedAtRest(t: Image, n: nat, actions: seq<Action>)
    requires Ordered(t) && Disciplined(Init(t, n), actions) && Fits(Exec(Init(t, n), actions).image)
    requires AllOk(actions)
    requires var s := Exec(Init(t, n), actions); forall i :: 0 <= i < |s.threads| ==> s.threads[i].Idle?
    ensures var s := Exec(Init(t, n), actions);
            && s.image == RunSerial(t, s.commits) == s.disk
            && (forall k :: 0 <= k < |s.commits| ==> s.commits[k].env == ALL_WELL)
            && multiset(Messages(s.commits)) == multiset(s.received)
            && forall c: uint32 ::
                 Filter(Messages(s.commits), LicensedTo(c)) == Filter(s.received, LicensedTo(c))
  {
    hide Exec, Disciplined, Filter, Pending, WaitingOf, RunSerial;
    var s := Exec(Init(t, n), actions);
    AllOkIsWell(t, n, actions);
    InterleavingIsSerial(t, n, actions);
    DirtyMeansPendingFlush(t, n, actions);
    NonePending(s.threads);
    forall c: uint32 ensures Filter(Messages(s.commits), LicensedTo(c)) == Filter(s.received, LicensedTo(c)) {
      assert InArrivalOrder(s, c);
      NoneWaiting(s.threads, c);
      var done := Filter(Messages(s.commits), LicensedTo(c));
      assert done + [] == done;
    }
  }

  lemma {:induction false} NonePending(threads: seq<Thread>)
    requires forall i :: 0 <= i < |threads| ==> threads[i].Idle?
    ensures Pending(threads) == multiset{}
  {
    if threads != [] {
      NonePending(threads[..|threads| - 1]);
    }
  }

  // ---------------------------------------------------------------- without the discipline

  /** A STOP that will find the open row at `k`. */
  ghost predicate StopsAt(t: Image, m: Msg, k: nat) {
    && Ordered(t) && Fits(t)
    && m.kind == MSG_STOP && ClosestId(t.lots, m.lat, m.lon).Some?
    && NewestOpen(t.log, Int32(m.license)) == Some(k)
  }

  /** Two STOPs of one customer that will find the same row. */
  ghost predicate Rivals(t: Image, a: Msg, b: Msg, k: nat) {
    StopsAt(t, a, k) && StopsAt(t, b, k) && a.license == b.license
  }

  function ClosedRow(t: Image, row: Row, m: Msg): Row {
    row.(closing := Some(ClosingOf(t.lots, row.lot, row.start, m.utc, true)))
  }

  /** The database once `m` has closed the row at `k`. */
  function ClosedBy(t: Image, k: nat, m: Msg): Image
    requires k < |t.log|
  {
    t.(log := t.log[k := ClosedRow(t, t.log[k], m)])
  }

  predicate Done(th: Thread) {
    th.Idle? || th.Flushing?
  }

  /** The thread has found the row at `k` and not updated it yet. */
  ghost predicate HoldsRow(t: Image, th: Thread, m: Msg, k: nat)
    requires k < |t.log|
  {
    var row := t.log[k];
    || th == Pricing(m, Int32(row.id), row.lot, row.start)
    || th == Updating(m, Int32(row.id), ClosedRow(t, row, m).closing.value, true)
  }

  /** Threads `i` and `j` serve the two STOPs, both from the row at `k`; whichever has updated it last is the one
      it now shows. No other thread is serving a request. */
  ghost predicate Racing(t: Image, s: State, i: nat, j: nat, a: Msg, b: Msg, k: nat)
    requires k < |t.log|
  {
    && i != j && i < |s.threads| && j < |s.threads|
    && (forall l :: 0 <= l < |s.threads| && l != i && l != j ==> s.threads[l].Idle?)
    && (Done(s.threads[i]) || HoldsRow(t, s.threads[i], a, k))
    && (Done(s.threads[j]) || HoldsRow(t, s.threads[j], b, k))
    && if !Done(s.threads[i]) && !Done(s.threads[j]) then s.image == t
       else s.commits != []
            && var last := s.commits[|s.commits| - 1].m;
               && ((last == a && Done(s.threads[i])) || (last == b && Done(s.threads[j])))
               && s.image == ClosedBy(t, k, last)
  }

  /** Both have found the row, and neither has updated it. */
  ghost predicate Overlapping(t: Image, s: State, i: nat, j: nat, a: Msg, b: Msg, k: nat) {
    && Rivals(t, a, b, k)
    && Racing(t, s, i, j, a, b, k)
    && !Done(s.threads[i]) && !Done(s.threads[j])
  }

  /** From then on every statement succeeds, in any order of the threads, until both requests have taken effect. */
  ghost predicate Finishes(s: State, i: nat, j: nat, actions: seq<Action>) {
    && (forall x :: 0 <= x < |actions| ==> actions[x].Advance? && actions[x].ok)
    && var r := Exec(s, actions);
       i < |r.threads| && j < |r.threads| && Done(r.threads[i]) && Done(r.threads[j])
  }

  /** Updating the held row closes it, whether or not the rival has closed it before. */
  lemma HeldRowCloses(t: Image, u: Image, k: nat, m: Msg, rival: Msg)
    requires StopsAt(t, m, k) && (u == t || u == ClosedBy(t, k, rival))
    ensures var row := t.log[k];
            u.(log := UpdateLog(u.log, Int32(row.id), ClosedRow(t, row, m).closing.value)) == ClosedBy(t, k, m)
  {
    hide NewestOpen, ClosestId, ClosingOf;
    UpdateHitsOneRow(u, k, ClosedRow(t, t.log[k], m).closing.value);
  }

  lemma RivalAdvances(t: Image, s: State, i: nat, j: nat, a: Msg, b: Msg, k: nat)
    requires Rivals(t, a, b, k) && Racing(t, s, i, j, a, b, k)
    ensures Racing(t, Advanced(s, i, true), i, j, a, b, k)
  {
    hide StopsAt, ClosingOf, UpdateLog;
    if s.threads[i].Updating? {
      HeldRowCloses(t, s.image, k, a, b);
    }
  }

  lemma RacingIsSymmetric(t: Image, s: State, i: nat, j: nat, a: Msg, b: Msg, k: nat)
    requires k < |t.log| && Racing(t, s, i, j, a, b, k)
    ensures Racing(t, s, j, i, b, a, k)
  {
    hide HoldsRow, ClosedBy;
  }

  lemma {:induction false} RaceKeeps(t: Image, s: State, i: nat, j: nat, a: Msg, b: Msg, k: nat, actions: seq<Action>)
    requires Rivals(t, a, b, k) && Racing(t, s, i, j, a, b, k)
    requires forall x :: 0 <= x < |actions| ==> actions[x].Advance? && actions[x].ok
    ensures Racing(t, Exec(s, actions), i, j, a, b, k)
  {
    hide Racing, StopsAt, Advanced;
    if actions != [] {
      var n := |actions| - 1;
      RaceKeeps(t, s, i, j, a, b, k, actions[..n]);
      RaceStep(t, Exec(s, actions[..n]), i, j, a, b, k, actions[n].i);
    }
  }

  lemma RaceStep(t: Image, s: State, i: nat, j: nat, a: Msg, b: Msg, k: nat, x: nat)
    requires Rivals(t, a, b, k) && Racing(t, s, i, j, a, b, k)
    ensures Racing(t, Step(s, Advance(x, true)), i, j, a, b, k)
  {
    assert k < |t.log|;
    hide StopsAt, HoldsRow, ClosedBy;
    if x == i {
      RivalAdvances(t, s, i, j, a, b, k);
    } else if x == j {
      RacingIsSymmetric(t, s, i, j, a, b, k);
      RivalAdvances(t, s, j, i, b, a, k);
      RacingIsSymmetric(t, Advanced(s, j, true), j, i, b, a, k);
    } else if x < |s.threads| {
      assert s.threads[x].Idle?;
    }
  }

  /** Once both threads have found the row, every schedule of what remains ends the same way: one row is closed,
      by the STOP that is written last. */
  lemma OverlapOutcome(t: Image, s: State, i: nat, j: nat, a: Msg, b: Msg, k: nat, actions: seq<Action>)
    requires Overlapping(t, s, i, j, a, b, k) && Finishes(s, i, j, actions)
    ensures var r := Exec(s, actions);
            && r.commits != []
            && var last := r.commits[|r.commits| - 1].m;
               && (last == a || last == b)
               && r.image == ClosedBy(t, k, last)
  {
    assert k < |t.log|;
    hide HoldsRow, ClosedBy, StopsAt;
    RaceKeeps(t, s, i, j, a, b, k, actions);
  }

  // ---------------------------------------------------------------- compared with serving in turn

  lemma StopWhole(t: Image, m: Msg, k: nat)
    requires StopsAt(t, m, k)
    ensures ServeWhole(t, Commit(m, ALL_WELL)) == ClosedBy(t, k, m)
  {
    hide ClosestId, ClosingOf, Ordered;
    UpdateHitsOneRow(t, k, ClosingOf(t.lots, t.log[k].lot, t.log[k].start, m.utc, true));
  }

  /** The two requests served one after the other. */
  function InTurn(t: Image, x: Msg, y: Msg): Image {
    RunSerial(t, [Commit(x, ALL_WELL), Commit(y, ALL_WELL)])
  }

  lemma SerialTwo(t: Image, x: Commit, y: Commit)
    ensures RunSerial(t, [x, y]) == ServeWhole(ServeWhole(t, x), y)
  {
    hide ServeWhole;
    assert [x, y][..1] == [x] && [x][..0] == [];
    assert RunSerial(t, [x]) == ServeWhole(t, x);
  }

  /** No row before the one at `k` is open for the customer. */
  ghost predicate OnlyOpen(t: Image, customer: uint32, k: nat)
    requires k < |t.log|
  {
    forall l :: 0 <= l < k ==> !OpenFor(t.log[l], Int32(customer))
  }

  /** Served in turn, the second STOP finds nothing if the customer has no other open row. */
  lemma OneOpenInTurn(t: Image, x: Msg, y: Msg, k: nat)
    requires Rivals(t, x, y, k) && OnlyOpen(t, x.license, k)
    ensures InTurn(t, x, y) == ClosedBy(t, k, x)
  {
    hide ServeWhole, ClosestId, ClosingOf;
    SerialTwo(t, Commit(x, ALL_WELL), Commit(y, ALL_WELL));
    StopWhole(t, x, k);
    var mid := ClosedBy(t, k, x);
    NewestOpenIsLast(t.log, Int32(x.license));
    NewestOpenIsLast(mid.log, Int32(x.license));
    StopWithoutRow(mid, y);
  }

  lemma StopWithoutRow(t: Image, m: Msg)
    requires m.kind == MSG_STOP && NewestOpen(t.log, Int32(m.license)).None?
    ensures ServeWhole(t, Commit(m, ALL_WELL)) == t
  {
    hide ClosestId;
  }

  /** Served in turn, the second STOP closes the next open row, if there is one. */
  lemma TwoOpenInTurn(t: Image, x: Msg, y: Msg, k: nat) returns (l: nat)
    requires Rivals(t, x, y, k) && !OnlyOpen(t, x.license, k)
    ensures l < k && t.log[l].closing.None?
    ensures var log := InTurn(t, x, y).log; |log| == |t.log| && log[l].closing.Some?
  {
    hide ServeWhole, ClosestId, ClosingOf;
    SerialTwo(t, Commit(x, ALL_WELL), Commit(y, ALL_WELL));
    StopWhole(t, x, k);
    var mid := ClosedBy(t, k, x);
    NewestOpenIsLast(t.log, Int32(x.license));
    NewestOpenIsLast(mid.log, Int32(x.license));
    var open :| 0 <= open < k && OpenFor(t.log[open], Int32(x.license));
    assert OpenFor(mid.log[open], Int32(x.license));
    l := NewestOpen(mid.log, Int32(x.license)).value;
    StopWhole(mid, y, l);
  }

  /** The discipline is needed exactly for customers with a second open row: two STOPs that overlap, in any
      schedule, have the outcome of serving them in turn if and only if the row they both found is the customer's
      only open one. */
  lemma OverlapIsSerialIffOneOpen(t: Image, s: State, i: nat, j: nat, a: Msg, b: Msg, k: nat, actions: seq<Action>)
    requires Overlapping(t, s, i, j, a, b, k) && Finishes(s, i, j, actions)
    ensures var image := Exec(s, actions).image;
            image == InTurn(t, a, b) || image == InTurn(t, b, a) <==> OnlyOpen(t, a.license, k)
  {
    assert k < |t.log|;
    hide Exec, InTurn, StopsAt, ClosedRow, OnlyOpen, Racing;
    OverlapOutcome(t, s, i, j, a, b, k, actions);
    if OnlyOpen(t, a.license, k) {
      OneOpenInTurn(t, a, b, k);
      OneOpenInTurn(t, b, a, k);
    } else {
      var l := TwoOpenInTurn(t, a, b, k);
      var l' := TwoOpenInTurn(t, b, a, k);
    }
  }

  // ---------------------------------------------------------------- overlap does occur

  /** Two requests that reach each statement together. */
  function Overlap(a: Msg, b: Msg): seq<Action> {
    [Accept(0, a), Accept(1, b), Advance(0, true), Advance(1, true), Advance(0, true), Advance(1, true)]
  }

  const REST: seq<Action> := [Advance(0, true), Advance(1, true), Advance(0, true), Advance(1, true)]

  lemma ExecTwo(s: State, os: seq<Action>, n: nat)
    requires n + 2 <= |os|
    ensures Exec(s, os[..n + 2]) == Step(Step(Exec(s, os[..n]), os[n]), os[n + 1])
  {
    hide Step;
    assert os[..n + 2][..n + 1] == os[..n + 1];
    assert os[..n + 1][..n] == os[..n];
  }

  lemma FindBoth(t: Image, a: Msg, b: Msg, k: nat)
    requires Rivals(t, a, b, k)
    ensures Exec(Init(t, 2), Overlap(a, b)[..4])
            == Init(t, 2).(threads := [Finding(a), Finding(b)], received := [a, b])
  {
    hide NewestOpen, ClosestId, Ordered;
    var s0, os := Init(t, 2), Overlap(a, b);
    assert os[..0] == [];
    ExecTwo(s0, os, 0);
    ExecTwo(s0, os, 2);
  }

  /** Whenever two STOPs of a customer are to come, they can overlap, and such a schedule can finish. */
  lemma OverlapOccurs(t: Image, a: Msg, b: Msg, k: nat)
    requires Rivals(t, a, b, k)
    ensures var s := Exec(Init(t, 2), Overlap(a, b)); Overlapping(t, s, 0, 1, a, b, k) && Finishes(s, 0, 1, REST)
  {
    hide ClosestId, ClosingOf, Ordered, UpdateLog;
    FindBoth(t, a, b, k);
    var s0, os := Init(t, 2), Overlap(a, b);
    ExecTwo(s0, os, 4);
    assert os[..6] == os;
    RestFinishes(Exec(s0, os));
  }

  lemma RestFinishes(s: State)
    requires |s.threads| == 2 && s.threads[0].Pricing? && s.threads[1].Pricing?
    ensures Finishes(s, 0, 1, REST)
  {
    hide Exec;
    TurnsOfRest(0);
    TurnsOfRest(1);
    TurnsFinish(s, 0, REST);
    TurnsFinish(s, 1, REST);
  }

  lemma TurnsOfRest(i: nat)
    requires i < 2
    ensures Turns(REST, i) == 2
  {
    var a, b := Advance(0, true), Advance(1, true);
    assert REST == [a, b, a] + [b] && [a, b, a] == [a, b] + [a] && [a, b] == [a] + [b] && [a] == [] + [a];
    TurnsSnoc([], a, i);
    TurnsSnoc([a], b, i);
    TurnsSnoc([a, b], a, i);
    TurnsSnoc([a, b, a], b, i);
  }

  lemma TurnsSnoc(actions: seq<Action>, a: Action, i: nat)
    ensures Turns(actions + [a], i) == Turns(actions, i) + if a.Advance? && a.i == i then 1 else 0
  {
    assert (actions + [a])[..|actions|] == actions;
  }
}

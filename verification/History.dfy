/** What the log table holds after any history of calls: exactly the bracket matching
    of the STARTs and STOPs, frozen once written, and counted. */
module History {
  import opened Words
  import opened Wrappers
  import opened Pricing
  import opened Tables
  import opened Matching

  predicate StartDone(c: Call) {
    c.op.StartParking? && c.env.write
  }

  /** The positions of the successful STARTs, of all customers, in order. */
  function Starts(h: seq<Call>): (s: seq<nat>)
    ensures forall k :: 0 <= k < |s| ==> s[k] < |h| && StartDone(h[s[k]])
    ensures forall k, l :: 0 <= k < l < |s| ==> s[k] < s[l]
  {
    if h == [] then []
    else
      var n := |h| - 1;
      Starts(h[..n]) + if StartDone(h[n]) then [n] else []
  }

  lemma {:induction false} StartsComplete(h: seq<Call>, i: nat) returns (k: nat)
    requires i < |h| && StartDone(h[i])
    ensures k < |Starts(h)| && Starts(h)[k] == i
  {
    var n := |h| - 1;
    if i == n {
      k := |Starts(h)| - 1;
    } else {
      k := StartsComplete(h[..n], i);
    }
  }

  /** The row stands for the `k`-th successful START: it carries that call's values, is open
      exactly while that START is an unmatched bracket, and otherwise holds what its matching
      STOP wrote, priced on the lot table as it stood at that STOP. */
  ghost predicate Reflects(h: seq<Call>, k: nat, row: Row) {
    && k < |Starts(h)|
    && var i := Starts(h)[k];
       var op := h[i].op;
       && row.id == k + 1
       && row.lot == Int32(op.lot)
       && row.customer == Int32(op.customer)
       && row.start == Int32(op.time)
       && (row.closing.None? <==> Unmatched(h, op.customer, i, |h|))
       && forall j :: Matches(h, op.customer, i, j) ==> row.closing == Some(ClosingAt(h, i, j))
  }

  /** What the STOP at `j` writes into the row of the START at `i`. */
  function ClosingAt(h: seq<Call>, i: nat, j: nat): Closing
    requires i < j < |h| && h[i].op.StartParking? && h[j].op.EndParking?
  {
    ClosingOf(Run(h[..j]).lots, Int32(h[i].op.lot), Int32(h[i].op.time), h[j].op.time, h[j].env.price)
  }

  lemma RowKept(h: seq<Call>, k: nat, row: Row)
    requires h != [] && Reflects(h[..|h| - 1], k, row)
    requires var i := Starts(h[..|h| - 1])[k]; !Matches(h, h[i].op.customer, i, |h| - 1)
    ensures Reflects(h, k, row)
  {
    hide Balance, Run, ClosingOf;
    var n := |h| - 1;
    var i := Starts(h[..n])[k];
    var customer := h[i].op.customer;
    forall j | 0 <= j < n
      ensures Matches(h[..n], customer, i, j) <==> Matches(h, customer, i, j)
    {
      MatchesInPrefix(h, n, customer, i, j);
    }
    forall j: nat | Matches(h, customer, i, j) ensures row.closing == Some(ClosingAt(h, i, j)) {
      assert h[..n][..j] == h[..j];
    }
  }

  lemma RowClosed(h: seq<Call>, k: nat, row: Row)
    requires h != [] && Reflects(h[..|h| - 1], k, row)
    requires var i := Starts(h[..|h| - 1])[k]; Matches(h, h[i].op.customer, i, |h| - 1)
    ensures Reflects(h, k, row.(closing := Some(ClosingAt(h, Starts(h[..|h| - 1])[k], |h| - 1))))
  {
    var n := |h| - 1;
    var i := Starts(h[..n])[k];
    var customer := h[i].op.customer;
    forall j | Matches(h, customer, i, j) ensures j == n {
      MatchIsUnique(h, customer, i, j, i, n);
    }
  }

  /** A STOP meets an open row of its customer exactly when it is a closing bracket with a
      partner, and the row it meets is its partner's. */
  lemma StopMeetsPartner(h: seq<Call>, n: nat, customer: uint32, log: seq<Row>)
    requires n == |h| - 1 && Closes(h[n], customer)
    requires |log| == |Starts(h[..n])| && forall k :: 0 <= k < |log| ==> Reflects(h[..n], k, log[k])
    ensures var hit := NewestOpen(log, Int32(customer));
            && (hit.None? ==> forall i :: !Matches(h, customer, i, n))
            && (hit.Some? ==> Matches(h, customer, Starts(h[..n])[hit.value], n))
  {
    hide Balance, ClosingAt, Matches, NewestOpen;
    var hit := NewestOpen(log, Int32(customer));
    NewestOpenIsLast(log, Int32(customer));
    forall i | Unmatched(h, customer, i, n)
      ensures exists k :: 0 <= k < |log| && Starts(h[..n])[k] == i && OpenFor(log[k], Int32(customer))
    {
      var k := StartsComplete(h[..n], i);
      UnmatchedInPrefix(h, n, customer, i);
      assert Reflects(h[..n], k, log[k]);
    }
    if hit.Some? {
      var i := Starts(h[..n])[hit.value];
      assert Reflects(h[..n], hit.value, log[hit.value]);
      WrapRoundTrip(customer, 0);
      WrapRoundTrip(h[i].op.customer, 0);
      UnmatchedInPrefix(h, n, customer, i);
      StopMatchesNewestUnmatched(h, customer, i, n);
    } else {
      forall i ensures !Matches(h, customer, i, n) {
        StopMatchesNewestUnmatched(h, customer, i, n);
      }
    }
  }

  lemma UnmatchedInPrefix(h: seq<Call>, n: nat, customer: uint32, i: nat)
    requires n <= |h|
    ensures Unmatched(h[..n], customer, i, n) <==> Unmatched(h, customer, i, n)
  {
    forall j | 0 <= j < n
      ensures Matches(h[..n], customer, i, j) <==> Matches(h, customer, i, j)
    {
      MatchesInPrefix(h, n, customer, i, j);
    }
  }

  lemma {:induction false} RunKeepsOrder(h: seq<Call>)
    ensures Ordered(Run(h))
  {
    if h != [] {
      RunKeepsOrder(h[..|h| - 1]);
      ApplyKeepsOrder(Run(h[..|h| - 1]), h[|h| - 1]);
    }
  }

  /** Ids are given out one by one, so they fit exactly as long as the STARTs can be counted in an `int`. */
  lemma {:induction false} NextIdCountsStarts(h: seq<Call>)
    ensures Run(h).nextLog == |Starts(h)| + 1
    ensures Fits(Run(h)) <==> |Starts(h)| <= INT_MAX
  {
    if h != [] {
      NextIdCountsStarts(h[..|h| - 1]);
      ApplyCountsStarts(Run(h[..|h| - 1]), h[|h| - 1]);
    }
  }

  lemma ApplyCountsStarts(t: Image, c: Call)
    ensures Apply(t, c).image.nextLog == t.nextLog + if StartDone(c) then 1 else 0
  {
  }

  /** The log table is the bracket matching of the history: one row per successful START, in
      order, open while unmatched, and closed by exactly its matching STOP. */
  lemma {:induction false} LogIsBracketMatching(h: seq<Call>)
    requires |Starts(h)| <= INT_MAX
    ensures |Run(h).log| == |Starts(h)| && Run(h).nextLog == |Starts(h)| + 1
    ensures forall k :: 0 <= k < |Run(h).log| ==> Reflects(h, k, Run(h).log[k])
  {
    if h != [] {
      var n := |h| - 1;
      LogIsBracketMatching(h[..n]);
      var t, c := Run(h[..n]), h[n];
      if c.op.StartParking? {
        StartStep(h, t);
      } else if c.op.EndParking? {
        RunKeepsOrder(h[..n]);
        StopStep(h, t);
      } else {
        AdminKeepsLog(t, c);
        forall k | 0 <= k < |t.log| ensures Reflects(h, k, t.log[k]) {
          RowKept(h, k, t.log[k]);
        }
      }
    }
  }

  lemma StartStep(h: seq<Call>, t: Image)
    requires h != [] && h[|h| - 1].op.StartParking? && t.nextLog == |t.log| + 1
    requires |t.log| == |Starts(h[..|h| - 1])|
    requires forall k :: 0 <= k < |t.log| ==> Reflects(h[..|h| - 1], k, t.log[k])
    ensures var r := Apply(t, h[|h| - 1]).image;
            && |r.log| == |Starts(h)| && r.nextLog == |Starts(h)| + 1
            && forall k :: 0 <= k < |r.log| ==> Reflects(h, k, r.log[k])
  {
    var r := Apply(t, h[|h| - 1]).image;
    forall k | 0 <= k < |r.log| ensures Reflects(h, k, r.log[k]) {
      if k < |t.log| {
        RowKept(h, k, t.log[k]);
      }
    }
  }

  /** The table before the last call reflects the history before it. */
  ghost predicate ReflectedBefore(h: seq<Call>, t: Image)
    requires h != []
  {
    && t == Run(h[..|h| - 1]) && Ordered(t) && Fits(t) && t.nextLog == |t.log| + 1
    && |t.log| == |Starts(h[..|h| - 1])|
    && forall k :: 0 <= k < |t.log| ==> Reflects(h[..|h| - 1], k, t.log[k])
  }

  lemma CloseStep(h: seq<Call>, t: Image, hit: nat)
    requires h != [] && h[|h| - 1].op.EndParking? && ReflectedBefore(h, t) && hit < |t.log|
    requires Matches(h, h[|h| - 1].op.customer, Starts(h[..|h| - 1])[hit], |h| - 1)
    ensures var i, n, row := Starts(h[..|h| - 1])[hit], |h| - 1, t.log[hit];
            && row.lot == Int32(h[i].op.lot) && row.start == Int32(h[i].op.time)
            && var log := UpdateLog(t.log, Int32(row.id), ClosingAt(h, i, n));
               |log| == |t.log| && forall k :: 0 <= k < |log| ==> Reflects(h, k, log[k])
  {
    hide ClosingOf, Balance;
    var n := |h| - 1;
    var i := Starts(h[..n])[hit];
    var row := t.log[hit];
    assert Reflects(h[..n], hit, row);
    UpdateHitsOneRow(t, hit, ClosingAt(h, i, n));
    RowClosed(h, hit, row);
    forall k | 0 <= k < |t.log| && k != hit ensures Reflects(h, k, t.log[k]) {
      NotAlsoMatched(h, h[n].op.customer, i, Starts(h[..n])[k]);
      RowKept(h, k, t.log[k]);
    }
  }

  lemma StopStep(h: seq<Call>, t: Image)
    requires h != [] && h[|h| - 1].op.EndParking? && ReflectedBefore(h, t)
    ensures var r := Apply(t, h[|h| - 1]).image;
            && |r.log| == |Starts(h)| && r.nextLog == |Starts(h)| + 1
            && forall k :: 0 <= k < |r.log| ==> Reflects(h, k, r.log[k])
  {
    hide ClosingOf, Balance, Reflects;
    var n := |h| - 1;
    var customer := h[n].op.customer;
    var hit := NewestOpen(t.log, Int32(customer));
    if Closes(h[n], customer) {
      StopMeetsPartner(h, n, customer, t.log);
    }
    if Closes(h[n], customer) && hit.Some? {
      CloseStep(h, t, hit.value);
    } else {
      forall k | 0 <= k < |t.log| ensures Reflects(h, k, t.log[k]) {
        RowKept(h, k, t.log[k]);
      }
    }
  }

  lemma NotAlsoMatched(h: seq<Call>, customer: uint32, i: nat, i': nat)
    requires h != [] && Matches(h, customer, i, |h| - 1) && i' < |h| && StartDone(h[i']) && i' != i
    ensures !Matches(h, h[i'].op.customer, i', |h| - 1)
  {
    if Matches(h, h[i'].op.customer, i', |h| - 1) {
      MatchIsUnique(h, customer, i, |h| - 1, i', |h| - 1);
    }
  }

  /** A customer's open rows, in id order, are the customer's unmatched STARTs. */
  lemma OpenRowsAreUnmatchedStarts(h: seq<Call>, customer: uint32)
    requires |Starts(h)| <= INT_MAX
    ensures |Run(h).log| == |Starts(h)|
    ensures forall k :: 0 <= k < |Starts(h)| ==>
              (OpenFor(Run(h).log[k], Int32(customer)) <==> Unmatched(h, customer, Starts(h)[k], |h|))
    ensures forall i :: Unmatched(h, customer, i, |h|) ==> i in Starts(h)
  {
    LogIsBracketMatching(h);
    forall k | 0 <= k < |Starts(h)|
      ensures OpenFor(Run(h).log[k], Int32(customer)) <==> Unmatched(h, customer, Starts(h)[k], |h|)
    {
      assert Reflects(h, k, Run(h).log[k]);
      WrapRoundTrip(customer, 0);
      WrapRoundTrip(h[Starts(h)[k]].op.customer, 0);
    }
    forall i | Unmatched(h, customer, i, |h|) ensures i in Starts(h) {
      var k := StartsComplete(h, i);
    }
  }

  /** A STOP is acknowledged exactly when it is a closing bracket with a partner; any other
      STOP reports an error and changes nothing. */
  lemma StopAcknowledgedIffMatched(h: seq<Call>, c: Call)
    requires c.op.EndParking? && |Starts(h)| <= INT_MAX
    ensures var r := Apply(Run(h), c);
            && (r.status == PDB_OK <==> exists i :: Matches(h + [c], c.op.customer, i, |h|))
            && (r.status == PDB_ERR ==> r.image == Run(h))
  {
    var g := h + [c];
    assert g[..|h|] == h;
    LogIsBracketMatching(h);
    if Closes(c, c.op.customer) {
      StopMeetsPartner(g, |h|, c.op.customer, Run(h).log);
    }
  }

  /** The charge in terms of the lot's columns: a flat lot's price, whatever the duration and the cap; and on an hourly
      lot, for every duration whose hours can be counted, the begun hours' price or the cap, whichever is less. */
  ghost predicate ChargedByColumns(l: Lot, closing: Closing) {
    && (!l.hourly ==> closing.total == l.price)
    && (l.hourly && closing.duration <= LONGEST_PRICED ==>
          forall h :: IsCeiling(h, Max(closing.duration, 0), 3600) ==>
            && closing.total <= h as real * l.price && closing.total <= l.maxDaily
            && (closing.total == h as real * l.price || closing.total == l.maxDaily))
  }

  lemma PriceByColumns(l: Lot, closing: Closing)
    requires closing.total == Price(l.hourly, l.price, l.maxDaily, closing.duration)
    ensures ChargedByColumns(l, closing)
  {
    hide Price;
    if !l.hourly {
      FlatRateIgnoresStay(l.price, l.maxDaily, closing.duration);
    } else if closing.duration <= LONGEST_PRICED {
      forall h | IsCeiling(h, Max(closing.duration, 0), 3600)
        ensures closing.total <= h as real * l.price && closing.total <= l.maxDaily
        ensures closing.total == h as real * l.price || closing.total == l.maxDaily
      {
        ChargeIsHoursOrCap(l.price, l.maxDaily, closing.duration, h);
      }
    }
  }

  /** A closed row holds its STOP's time, the difference, and the price formula applied to the lot's row as it
      stood at that STOP; or no charge, if the lot was gone by then or its price could not be read. */
  lemma ClosedRowIsCharged(h: seq<Call>, k: nat, j: nat)
    requires |Starts(h)| <= INT_MAX && k < |Starts(h)|
    requires Matches(h, h[Starts(h)[k]].op.customer, Starts(h)[k], j)
    ensures |Run(h).log| == |Starts(h)| && Run(h).log[k].closing.Some?
    ensures var row, lots := Run(h).log[k], Run(h[..j]).lots;
            var closing := row.closing.value;
            && closing.endTime == Int32(h[j].op.time)
            && closing.duration == Int32(closing.endTime - row.start)
            && (!h[j].env.price || (forall l :: l in lots ==> l.id != row.lot) ==> closing.total == 0.0)
            && (forall l :: l in lots && l.id == row.lot && h[j].env.price ==>
                  closing.total == Price(l.hourly, l.price, l.maxDaily, closing.duration)
                  && ChargedByColumns(l, closing))
  {
    hide Run, Balance, CalculatePrice, Price;
    LogIsBracketMatching(h);
    assert Reflects(h, k, Run(h).log[k]);
    var row, t := Run(h).log[k], Run(h[..j]);
    assert row.closing == Some(ClosingAt(h, Starts(h)[k], j));
    RunKeepsOrder(h[..j]);
    WrapRoundTrip(0, row.lot);
    ChargeFollowsLotTable(t, Uint32(row.lot), row.closing.value.duration);
    forall l | l in t.lots && l.id == row.lot && h[j].env.price ensures ChargedByColumns(l, row.closing.value) {
      PriceByColumns(l, row.closing.value);
    }
    UnreadPriceIsFree(t.lots, row.closing.value.duration, Uint32(row.lot));
  }

  // ---------------------------------------------------------------- frozen and counted

  /** Rows are only added, keep their START columns, and never change once closed. */
  ghost predicate Extends(old_: seq<Row>, new_: seq<Row>) {
    && |old_| <= |new_|
    && forall k :: 0 <= k < |old_| ==>
         && new_[k].(closing := old_[k].closing) == old_[k]
         && (old_[k].closing.Some? ==> new_[k] == old_[k])
  }

  lemma ApplyExtends(t: Image, c: Call)
    requires Ordered(t) && Fits(t)
    ensures Extends(t.log, Apply(t, c).image.log)
  {
    if c.op.EndParking? {
      NewestOpenIsLast(t.log, Int32(c.op.customer));
    } else if !c.op.StartParking? {
      AdminKeepsLog(t, c);
    }
  }

  /** Under every sequence of public operations, price updates and removals included, history
      is frozen: what a row says at any point it says for ever, except that an open row may close. */
  lemma {:induction false} HistoryIsFrozen(h: seq<Call>, n: nat)
    requires n <= |h| && |Starts(h)| <= INT_MAX
    ensures Extends(Run(h[..n]).log, Run(h).log)
  {
    if n == |h| {
      assert h[..n] == h;
    } else {
      var m := |h| - 1;
      assert h[..m][..n] == h[..n];
      HistoryIsFrozen(h[..m], n);
      RunKeepsOrder(h[..m]);
      LogIsBracketMatching(h[..m]);
      ApplyExtends(Run(h[..m]), h[m]);
    }
  }

  function ClosedRows(log: seq<Row>): nat {
    if log == [] then 0 else ClosedRows(log[..|log| - 1]) + if log[|log| - 1].closing.Some? then 1 else 0
  }

  lemma {:induction false} CloseCounts(log: seq<Row>, k: nat, closing: Closing)
    requires k < |log| && log[k].closing.None?
    ensures ClosedRows(log[k := log[k].(closing := Some(closing))]) == ClosedRows(log) + 1
  {
    var r := log[k := log[k].(closing := Some(closing))];
    var m := |log| - 1;
    if k == m {
      assert r[..m] == log[..m];
    } else {
      assert r[..m] == log[..m][k := log[k].(closing := Some(closing))];
      CloseCounts(log[..m], k, closing);
    }
  }

  /** The number of calls of one kind that reported success. */
  function Acknowledged(h: seq<Call>, stops: bool): nat {
    if h == [] then 0
    else
      var n := |h| - 1;
      Acknowledged(h[..n], stops)
      + if (if stops then h[n].op.EndParking? else h[n].op.StartParking?) && Apply(Run(h[..n]), h[n]).status == PDB_OK
        then 1 else 0
  }

  /** Rows count the acknowledged STARTs, closed rows the acknowledged STOPs. */
  lemma {:induction false} HistoryIsCounted(h: seq<Call>)
    requires |Starts(h)| <= INT_MAX
    ensures |Run(h).log| == Acknowledged(h, false)
    ensures ClosedRows(Run(h).log) == Acknowledged(h, true)
  {
    if h != [] {
      var n := |h| - 1;
      HistoryIsCounted(h[..n]);
      RunKeepsOrder(h[..n]);
      LogIsBracketMatching(h[..n]);
      var t, c := Run(h[..n]), h[n];
      CountStep(t, c);
    }
  }

  lemma CountStep(t: Image, c: Call)
    requires Ordered(t) && Fits(t)
    ensures var r := Apply(t, c);
            && |r.image.log| == |t.log| + (if c.op.StartParking? && r.status == PDB_OK then 1 else 0)
            && ClosedRows(r.image.log) == ClosedRows(t.log) + (if c.op.EndParking? && r.status == PDB_OK then 1 else 0)
  {
    var r := Apply(t, c);
    if c.op.StartParking? {
      assert r.status == PDB_OK ==> r.image.log[..|t.log|] == t.log;
    } else if c.op.EndParking? {
      var hit := NewestOpen(t.log, Int32(c.op.customer));
      NewestOpenIsLast(t.log, Int32(c.op.customer));
      if r.status == PDB_OK {
        var row := t.log[hit.value];
        var closing := ClosingOf(t.lots, row.lot, row.start, c.op.time, c.env.price);
        UpdateHitsOneRow(t, hit.value, closing);
        CloseCounts(t.log, hit.value, closing);
      }
    } else {
      AdminKeepsLog(t, c);
    }
  }
}

/** Bracket matching in the call history of one customer, defined by counting and
    without reference to any table: a START is an opening bracket, a STOP that meets
    no SQL error a closing one. */
module Matching {
  import opened Words
  import opened Tables

  predicate Opens(c: Call, customer: uint32) {
    c.op.StartParking? && c.op.customer == customer && c.env.write
  }

  predicate Closes(c: Call, customer: uint32) {
    c.op.EndParking? && c.op.customer == customer && c.env.find && c.env.write
  }

  /** Opening minus closing brackets among the calls `lo .. hi`. */
  function Balance(h: seq<Call>, customer: uint32, lo: nat, hi: nat): int
    requires lo <= hi <= |h|
    decreases hi
  {
    if lo == hi then 0
    else
      Balance(h, customer, lo, hi - 1)
      + if Opens(h[hi - 1], customer) then 1 else if Closes(h[hi - 1], customer) then -1 else 0
  }

  /** No stretch that starts at `lo` and ends by `hi` has more closing than opening brackets. */
  ghost predicate NeverNegative(h: seq<Call>, customer: uint32, lo: nat, hi: nat)
    requires lo <= hi <= |h|
  {
    forall k :: lo <= k <= hi ==> Balance(h, customer, lo, k) >= 0
  }

  /** The STOP at `j` is the closing bracket of the START at `i`. */
  ghost predicate Matches(h: seq<Call>, customer: uint32, i: nat, j: nat) {
    && i < j < |h|
    && Opens(h[i], customer)
    && Closes(h[j], customer)
    && Balance(h, customer, i + 1, j) == 0
    && NeverNegative(h, customer, i + 1, j)
  }

  /** The START at `i` has no closing bracket among the first `n` calls. */
  ghost predicate Unmatched(h: seq<Call>, customer: uint32, i: nat, n: nat)
    requires n <= |h|
  {
    i < n && Opens(h[i], customer) && forall j :: 0 <= j < n ==> !Matches(h, customer, i, j)
  }

  lemma {:induction false} BalanceSplit(h: seq<Call>, customer: uint32, a: nat, b: nat, c: nat)
    requires a <= b <= c <= |h|
    ensures Balance(h, customer, a, c) == Balance(h, customer, a, b) + Balance(h, customer, b, c)
    decreases c
  {
    if b < c {
      BalanceSplit(h, customer, a, b, c - 1);
    }
  }

  lemma {:induction false} BalanceOfPrefix(h: seq<Call>, n: nat, customer: uint32, a: nat, b: nat)
    requires a <= b <= n <= |h|
    ensures Balance(h[..n], customer, a, b) == Balance(h, customer, a, b)
    decreases b
  {
    if a < b {
      BalanceOfPrefix(h, n, customer, a, b - 1);
    }
  }

  /** Matching looks at nothing after the closing bracket. */
  lemma MatchesInPrefix(h: seq<Call>, n: nat, customer: uint32, i: nat, j: nat)
    requires j < n <= |h|
    ensures Matches(h[..n], customer, i, j) <==> Matches(h, customer, i, j)
  {
    if i < j {
      var lo := i + 1;
      forall k | lo <= k <= j
        ensures Balance(h[..n], customer, lo, k) == Balance(h, customer, lo, k)
      {
        BalanceOfPrefix(h, n, customer, lo, k);
      }
      assert NeverNegative(h[..n], customer, lo, j) <==> NeverNegative(h, customer, lo, j);
    }
  }

  lemma OpenStep(h: seq<Call>, customer: uint32, k: nat, n: nat)
    requires k < n <= |h| && Opens(h[k], customer)
    ensures Balance(h, customer, k, n) == 1 + Balance(h, customer, k + 1, n)
  {
    BalanceSplit(h, customer, k, k + 1, n);
    assert Balance(h, customer, k, k) == 0;
  }

  /** A matched pair of brackets and what it encloses add up to nothing. */
  lemma AfterMatch(h: seq<Call>, customer: uint32, i: nat, j: nat, n: nat)
    requires Matches(h, customer, i, j) && j < n <= |h|
    ensures Balance(h, customer, i + 1, j + 1) == -1
    ensures Balance(h, customer, i, n) == Balance(h, customer, j + 1, n)
    ensures Balance(h, customer, n, n) == 0
  {
    OpenStep(h, customer, i, n);
    BalanceSplit(h, customer, i + 1, j + 1, n);
  }

  /** A balance that has gone negative crossed zero at a closing bracket. */
  lemma {:induction false} NegativeMeansMatched(h: seq<Call>, customer: uint32, i: nat, n: nat) returns (j: nat)
    requires i < n <= |h| && Opens(h[i], customer)
    requires Balance(h, customer, i + 1, n) < 0
    ensures j < n && Matches(h, customer, i, j)
    decreases n
  {
    var lo := i + 1;
    if exists k :: lo <= k < n && Balance(h, customer, lo, k) < 0 {
      var k :| lo <= k < n && Balance(h, customer, lo, k) < 0;
      j := NegativeMeansMatched(h, customer, i, k);
    } else {
      j := n - 1;
    }
  }

  /** From a positive balance, some opening bracket stays unmatched. */
  lemma {:induction false} PositiveMeansUnmatched(h: seq<Call>, customer: uint32, lo: nat, n: nat) returns (k: nat)
    requires lo <= n <= |h| && Balance(h, customer, lo, n) > 0
    ensures lo <= k < n && Unmatched(h, customer, k, n)
    decreases n - lo
  {
    if exists m :: lo < m < n && Balance(h, customer, m, n) > 0 {
      var m :| lo < m < n && Balance(h, customer, m, n) > 0;
      k := PositiveMeansUnmatched(h, customer, m, n);
    } else {
      k := lo;
      BalanceSplit(h, customer, lo, lo + 1, n);
      assert Balance(h, customer, lo, lo) == 0 && Balance(h, customer, n, n) == 0;
      assert Balance(h, customer, lo + 1, n) <= 0;
      forall j | 0 <= j < n ensures !Matches(h, customer, k, j) {
        if Matches(h, customer, k, j) {
          AfterMatch(h, customer, k, j, n);
        }
      }
    }
  }

  lemma NoLaterPartner(h: seq<Call>, customer: uint32, i: nat, j: nat, j': nat)
    requires Matches(h, customer, i, j) && Matches(h, customer, i, j')
    ensures j' <= j
  {
    AfterMatch(h, customer, i, j, j + 1);
  }

  lemma NoInnerPartner(h: seq<Call>, customer: uint32, i: nat, i': nat, j: nat)
    requires Matches(h, customer, i, j) && Matches(h, customer, i', j)
    ensures i' <= i
  {
    if i < i' {
      OpenStep(h, customer, i', j);
      BalanceSplit(h, customer, i + 1, i', j);
    }
  }

  /** A bracket has at most one partner on either side. */
  lemma MatchIsUnique(h: seq<Call>, customer: uint32, i: nat, j: nat, i': nat, j': nat)
    requires Matches(h, customer, i, j) && Matches(h, customer, i', j')
    ensures i == i' <==> j == j'
  {
    if i == i' {
      NoLaterPartner(h, customer, i, j, j');
      NoLaterPartner(h, customer, i, j', j);
    } else if j == j' {
      NoInnerPartner(h, customer, i, i', j);
      NoInnerPartner(h, customer, i', i, j);
    }
  }

  /** A closing bracket belongs to the newest opening bracket that is still unmatched:
      the rule the server's newest-open-row query follows. */
  lemma StopMatchesNewestUnmatched(h: seq<Call>, customer: uint32, i: nat, n: nat)
    requires n < |h| && Closes(h[n], customer)
    ensures Matches(h, customer, i, n) <==>
            Unmatched(h, customer, i, n) && forall k :: i < k < n ==> !Unmatched(h, customer, k, n)
  {
    if Matches(h, customer, i, n) {
      forall j | 0 <= j < n ensures !Matches(h, customer, i, j) {
        if Matches(h, customer, i, j) {
          NoLaterPartner(h, customer, i, j, n);
        }
      }
      forall k | i < k < n ensures !Unmatched(h, customer, k, n) {
        if Opens(h[k], customer) {
          BalanceSplit(h, customer, i + 1, k, n);
          OpenStep(h, customer, k, n);
          var j := NegativeMeansMatched(h, customer, k, n);
        }
      }
    } else if Unmatched(h, customer, i, n) {
      var lo := i + 1;
      forall k | lo <= k <= n ensures Balance(h, customer, lo, k) >= 0 {
        if Balance(h, customer, lo, k) < 0 {
          var j := NegativeMeansMatched(h, customer, i, k);
        }
      }
      if Balance(h, customer, lo, n) > 0 {
        var k := PositiveMeansUnmatched(h, customer, lo, n);
      }
    }
  }
}

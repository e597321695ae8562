/** Filters and subsequences. */
module Sequences {
  function Filter<T>(s: seq<T>, keep: T -> bool): seq<T> {
    if s == [] then []
    else
      var front, last := Filter(s[..|s| - 1], keep), s[|s| - 1];
      if keep(last) then front + [last] else front
  }

  lemma {:induction false} FilterSnoc<T>(s: seq<T>, x: T, keep: T -> bool)
    ensures Filter(s + [x], keep) == Filter(s, keep) + if keep(x) then [x] else []
  {
    assert (s + [x])[..|s|] == s;
  }

  lemma {:induction false} FilterConcat<T>(s: seq<T>, r: seq<T>, keep: T -> bool)
    ensures Filter(s + r, keep) == Filter(s, keep) + Filter(r, keep)
  {
    if r == [] {
      assert s + r == s;
    } else {
      var front, last := r[..|r| - 1], r[|r| - 1];
      assert s + r == (s + front) + [last];
      FilterSnoc(s + front, last, keep);
      FilterConcat(s, front, keep);
    }
  }

  lemma {:induction false} FilterElements<T>(s: seq<T>, keep: T -> bool)
    ensures forall x :: x in Filter(s, keep) <==> x in s && keep(x)
  {
    if s != [] {
      var front, last := s[..|s| - 1], s[|s| - 1];
      FilterElements(front, keep);
      assert s == front + [last];
      FilterSnoc(front, last, keep);
    }
  }

  lemma {:induction false} FilterAll<T>(s: seq<T>, keep: T -> bool)
    requires forall x :: x in s ==> keep(x)
    ensures Filter(s, keep) == s
  {
    if s != [] {
      FilterAll(s[..|s| - 1], keep);
    }
  }

  /** `f` places the elements of `a` in `b`, in order. */
  ghost predicate Embeds<T>(a: seq<T>, b: seq<T>, f: seq<nat>) {
    && |f| == |a|
    && (forall i :: 0 <= i < |f| ==> f[i] < |b| && b[f[i]] == a[i])
    && (forall i, j :: 0 <= i < j < |f| ==> f[i] < f[j])
  }

  ghost predicate Subsequence<T>(a: seq<T>, b: seq<T>) {
    exists f :: Embeds(a, b, f)
  }

  lemma SubsequenceReflexive<T>(a: seq<T>)
    ensures Subsequence(a, a)
  {
    assert Embeds(a, a, seq(|a|, (i: nat) => i));
  }

  lemma SubsequenceTransitive<T>(a: seq<T>, b: seq<T>, c: seq<T>)
    requires Subsequence(a, b) && Subsequence(b, c)
    ensures Subsequence(a, c)
  {
    var f :| Embeds(a, b, f);
    var g :| Embeds(b, c, g);
    var h := seq(|a|, i requires 0 <= i < |a| => g[f[i]]);
    assert Embeds(a, c, h);
  }

  lemma SubsequenceConcat<T>(a: seq<T>, b: seq<T>, c: seq<T>, d: seq<T>)
    requires Subsequence(a, b) && Subsequence(c, d)
    ensures Subsequence(a + c, b + d)
  {
    var f :| Embeds(a, b, f);
    var g :| Embeds(c, d, g);
    var h := f + seq(|c|, i requires 0 <= i < |c| => |b| + g[i]);
    assert Embeds(a + c, b + d, h);
  }

  /** Deleting a stretch of a sequence leaves a subsequence. */
  lemma SubsequenceDelete<T>(a: seq<T>, b: seq<T>, c: seq<T>)
    ensures Subsequence(a + c, a + b + c)
  {
    SubsequenceReflexive(a);
    SubsequenceReflexive(c);
    assert Embeds([], b, []);
    SubsequenceConcat(a, a, [], b);
    assert a + [] == a;
    SubsequenceConcat(a, a + b, c, c);
  }

  lemma SubsequenceExtend<T>(a: seq<T>, b: seq<T>, c: seq<T>)
    requires Subsequence(a, b)
    ensures Subsequence(a, b + c)
  {
    var f :| Embeds(a, b, f);
    assert Embeds(a, b + c, f);
  }

  /** The last element of the longer sequence is either unused or used last. */
  lemma SubsequenceUnsnoc<T>(a: seq<T>, b: seq<T>)
    requires Subsequence(a, b) && b != []
    ensures || Subsequence(a, b[..|b| - 1])
            || (a != [] && a[|a| - 1] == b[|b| - 1] && Subsequence(a[..|a| - 1], b[..|b| - 1]))
  {
    var f :| Embeds(a, b, f);
    if a != [] && f[|f| - 1] == |b| - 1 {
      assert Embeds(a[..|a| - 1], b[..|b| - 1], f[..|f| - 1]);
    } else {
      assert Embeds(a, b[..|b| - 1], f);
    }
  }

  /** Filtering both sides keeps the subsequence relation. */
  lemma {:induction false} SubsequenceFilter<T>(a: seq<T>, b: seq<T>, keep: T -> bool)
    requires Subsequence(a, b)
    ensures Subsequence(Filter(a, keep), Filter(b, keep))
    decreases |b|
  {
    if b == [] {
      var f :| Embeds(a, b, f);
      assert a == [];
      SubsequenceReflexive(Filter(a, keep));
    } else {
      var front, last := b[..|b| - 1], b[|b| - 1];
      var kept := if keep(last) then [last] else [];
      assert Filter(b, keep) == Filter(front, keep) + kept;
      SubsequenceUnsnoc(a, b);
      if Subsequence(a, front) {
        SubsequenceFilter(a, front, keep);
        SubsequenceExtend(Filter(a, keep), Filter(front, keep), kept);
      } else {
        SubsequenceFilter(a[..|a| - 1], front, keep);
        SubsequenceReflexive(kept);
        SubsequenceConcat(Filter(a[..|a| - 1], keep), Filter(front, keep), kept, kept);
        assert Filter(a, keep) == Filter(a[..|a| - 1], keep) + kept;
      }
    }
  }

  lemma {:induction false} FilterIsSubsequence<T>(s: seq<T>, keep: T -> bool)
    ensures Subsequence(Filter(s, keep), s)
  {
    if s == [] {
      SubsequenceReflexive(s);
    } else {
      var front, last := s[..|s| - 1], [s[|s| - 1]];
      FilterIsSubsequence(front, keep);
      SubsequenceReflexive(last);
      SubsequenceConcat(Filter(front, keep), front, last, last);
      SubsequenceExtend(Filter(front, keep), front, last);
      assert s == front + last;
    }
  }

  /** Filtering twice is filtering by both. */
  lemma {:induction false} FilterTwice<T>(s: seq<T>, p: T -> bool, q: T -> bool, both: T -> bool)
    requires forall x :: both(x) <==> p(x) && q(x)
    ensures Filter(Filter(s, p), q) == Filter(s, both)
  {
    if s != [] {
      var front, last := s[..|s| - 1], s[|s| - 1];
      FilterTwice(front, p, q, both);
      if p(last) {
        FilterSnoc(Filter(front, p), last, q);
      }
    }
  }

  lemma {:induction false} FilterShortens<T>(s: seq<T>, keep: T -> bool)
    ensures |Filter(s, keep)| <= |s|
  {
    if s != [] {
      FilterShortens(s[..|s| - 1], keep);
    }
  }

  /** One more element, placed or left out. */
  lemma EmbedsSnoc<T>(a: seq<T>, b: seq<T>, f: seq<nat>, placed: bool)
    requires b != [] && Embeds(a, b[..|b| - 1], f)
    ensures if placed then Embeds(a + [b[|b| - 1]], b, f + [|b| - 1]) else Embeds(a, b, f)
  {
  }

  /** `f` lists the positions of what passes the filter. */
  ghost predicate ListsPositions<T>(s: seq<T>, keep: T -> bool, f: seq<nat>) {
    forall n: nat :: n in f <==> n < |s| && keep(s[n])
  }

  lemma PositionsSnoc<T>(s: seq<T>, keep: T -> bool, f: seq<nat>)
    requires s != [] && ListsPositions(s[..|s| - 1], keep, f)
    ensures ListsPositions(s, keep, if keep(s[|s| - 1]) then f + [|s| - 1] else f)
  {
    var n := |s| - 1;
    forall k: nat ensures k in f <==> k < n && keep(s[k]) {
      assert k in f <==> k < n && keep(s[..n][k]);
    }
  }

  lemma {:induction false} FilterPositions<T>(s: seq<T>, keep: T -> bool) returns (f: seq<nat>)
    ensures Embeds(Filter(s, keep), s, f) && ListsPositions(s, keep, f)
  {
    if s == [] {
      f := [];
    } else {
      hide Embeds, ListsPositions;
      var n := |s| - 1;
      f := FilterPositions(s[..n], keep);
      PositionsSnoc(s, keep, f);
      EmbedsSnoc(Filter(s[..n], keep), s, f, keep(s[n]));
      f := if keep(s[n]) then f + [n] else f;
    }
  }
}

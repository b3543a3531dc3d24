/**
 * Aggregations over a list of practice sessions that every statistic of the
 * tracker is built from: filtering, repetition sums, per-day totals and the
 * set of days with practice.
 */
module Practice {
  import opened Model

  /** `xs.filter(p)`: the elements satisfying `p`, in their original order. */
  function Filter<T(!new)>(xs: seq<T>, p: T -> bool): (r: seq<T>)
    ensures |r| <= |xs|
    ensures forall x :: x in r <==> x in xs && p(x)
  {
    if xs == [] then []
    else if p(xs[0]) then [xs[0]] + Filter(xs[1..], p)
    else Filter(xs[1..], p)
  }

  /** Filtering distributes over concatenation, so the order of kept elements is the stored order. */
  lemma {:induction false} FilterAppend<T(!new)>(a: seq<T>, b: seq<T>, p: T -> bool)
    ensures Filter(a + b, p) == Filter(a, p) + Filter(b, p)
  {
    if a == [] {
      assert a + b == b;
    } else {
      assert (a + b)[1..] == a[1..] + b;
      FilterAppend(a[1..], b, p);
    }
  }

  /** Filtering one element longer a prefix adds that element exactly when it passes. */
  lemma FilterPrefix<T(!new)>(xs: seq<T>, i: int, p: T -> bool)
    requires 0 <= i < |xs|
    ensures Filter(xs[..i + 1], p) == Filter(xs[..i], p) + (if p(xs[i]) then [xs[i]] else [])
  {
    assert xs[..i + 1] == xs[..i] + [xs[i]];
    FilterAppend(xs[..i], [xs[i]], p);
  }

  /** Filtering keeps every element, and so the length, exactly when all of them satisfy the predicate. */
  lemma {:induction false} FilterKeepsAll<T(!new)>(xs: seq<T>, p: T -> bool)
    ensures Filter(xs, p) == xs <==> forall x :: x in xs ==> p(x)
    ensures |Filter(xs, p)| == |xs| <==> forall x :: x in xs ==> p(x)
  {
    if xs != [] {
      FilterKeepsAll(xs[1..], p);
      if !p(xs[0]) {
        assert |Filter(xs, p)| < |xs|;
      } else {
        assert xs == [xs[0]] + xs[1..];
      }
    }
  }

  /** Whatever is drawn from a filtered list comes from the list and satisfies the predicate. */
  lemma DrawnFromFilter<T(!new)>(r: seq<T>, xs: seq<T>, p: T -> bool)
    requires multiset(r) <= multiset(Filter(xs, p))
    ensures forall x :: x in r ==> x in xs && p(x)
  {
    forall x | x in r ensures x in xs && p(x) {
      assert x in multiset(Filter(xs, p));
    }
  }

  /** Every element goes to exactly one side of a predicate, so the two filtered lengths add up. */
  lemma {:induction false} FilterPartition<T(!new)>(xs: seq<T>, p: T -> bool, q: T -> bool)
    requires forall x :: q(x) == !p(x)
    ensures |Filter(xs, p)| + |Filter(xs, q)| == |xs|
  {
    if xs != [] {
      FilterPartition(xs[1..], p, q);
    }
  }

  /** `sessions.reduce((sum, s) => sum + s.count, 0)`: the repetitions logged, not the records. */
  function SumCounts(ss: seq<Session>): int
  {
    if ss == [] then 0 else SumCounts(ss[..|ss| - 1]) + ss[|ss| - 1].count
  }

  lemma {:induction false} SumCountsAppend(a: seq<Session>, b: seq<Session>)
    ensures SumCounts(a + b) == SumCounts(a) + SumCounts(b)
    decreases |b|
  {
    if b == [] {
      assert a + b == a;
    } else {
      assert (a + b)[..|a + b| - 1] == a + b[..|b| - 1];
      SumCountsAppend(a, b[..|b| - 1]);
    }
  }

  /** The repetition total does not depend on the order of the sessions. */
  lemma {:induction false} SumCountsPermutation(a: seq<Session>, b: seq<Session>)
    requires multiset(a) == multiset(b)
    ensures SumCounts(a) == SumCounts(b)
    decreases |a|
  {
    if a != [] {
      var x := a[|a| - 1];
      var a' := a[..|a| - 1];
      assert a == a' + [x];
      assert x in multiset(b);
      var k :| 0 <= k < |b| && b[k] == x;
      var b' := b[..k] + b[k + 1..];
      assert b == b[..k] + [x] + b[k + 1..];
      assert multiset(b) == multiset(b[..k]) + multiset{x} + multiset(b[k + 1..]);
      assert multiset(b') == multiset(b[..k]) + multiset(b[k + 1..]);
      assert multiset(a) == multiset(a') + multiset{x};
      assert multiset(a') == multiset(a) - multiset{x};
      assert multiset(b') == multiset(b) - multiset{x};
      SumCountsPermutation(a', b');
      SumCountsAppend(a', [x]);
      SumCountsAppend(b[..k] + [x], b[k + 1..]);
      SumCountsAppend(b[..k], [x]);
      SumCountsAppend(b[..k], b[k + 1..]);
    }
  }

  /** With non-negative counts the total is non-negative. */
  lemma {:induction false} SumCountsNonNegative(ss: seq<Session>)
    requires forall i :: 0 <= i < |ss| ==> ss[i].count >= 0
    ensures SumCounts(ss) >= 0
  {
    if ss != [] {
      SumCountsNonNegative(ss[..|ss| - 1]);
    }
  }

  predicate OfMantra(s: Session, mantraId: string) {
    s.mantraId == mantraId
  }

  /** The sessions logged against one mantra, in stored order. */
  function SessionsOf(ss: seq<Session>, mantraId: string): (r: seq<Session>)
    ensures forall s :: s in r <==> s in ss && s.mantraId == mantraId
  {
    Filter(ss, s => OfMantra(s, mantraId))
  }

  /** The sessions logged on one calendar day, in stored order. */
  function SessionsOn(ss: seq<Session>, day: int): (r: seq<Session>)
    ensures forall s :: s in r <==> s in ss && s.date.day == day
  {
    Filter(ss, (s: Session) => s.date.day == day)
  }

  /** The repetitions logged against one mantra over all time. */
  function MantraTotal(ss: seq<Session>, mantraId: string): int {
    SumCounts(SessionsOf(ss, mantraId))
  }

  /** The repetitions logged on one day, across all mantras; 0 for a day without sessions. */
  function DayTotal(ss: seq<Session>, day: int): int {
    SumCounts(SessionsOn(ss, day))
  }

  /** A mantra whose summed session counts reach its goal. */
  predicate Completed(m: Mantra, ss: seq<Session>) {
    MantraTotal(ss, m.id) >= m.goal
  }

  /** The distinct calendar days with at least one session. */
  function DaySet(ss: seq<Session>): (r: set<int>)
    ensures forall d :: d in r <==> exists i :: 0 <= i < |ss| && ss[i].date.day == d
    ensures |r| <= |ss|
  {
    if ss == [] then {} else
      var rest := DaySet(ss[1..]);
      DaysOfTail(ss, rest);
      {ss[0].date.day} + rest
  }

  /** The days of the tail are the days found at index 1 onwards. */
  lemma DaysOfTail(ss: seq<Session>, rest: set<int>)
    requires ss != []
    requires forall d :: d in rest <==> exists i :: 0 <= i < |ss[1..]| && ss[1..][i].date.day == d
    ensures forall d :: d in rest <==> exists i :: 1 <= i < |ss| && ss[i].date.day == d
  {
    forall d ensures d in rest <==> exists i :: 1 <= i < |ss| && ss[i].date.day == d {
      if d in rest {
        var i :| 0 <= i < |ss| - 1 && ss[1..][i].date.day == d;
        assert ss[i + 1].date.day == d;
      }
      if exists i :: 1 <= i < |ss| && ss[i].date.day == d {
        var i :| 1 <= i < |ss| && ss[i].date.day == d;
        assert ss[1..][i - 1].date.day == d;
      }
    }
  }

  /** The day total of the empty history is zero, and a day absent from the history totals zero. */
  lemma DayTotalAbsent(ss: seq<Session>, day: int)
    requires day !in DaySet(ss)
    ensures DayTotal(ss, day) == 0
  {
  }

  /** Appending one session adds its count to its own mantra's total and nothing to the others. */
  lemma MantraTotalSnoc(ss: seq<Session>, s: Session, mantraId: string)
    ensures MantraTotal(ss + [s], mantraId) == MantraTotal(ss, mantraId) + (if s.mantraId == mantraId then s.count else 0)
  {
    FilterAppend(ss, [s], x => OfMantra(x, mantraId));
    SumCountsAppend(SessionsOf(ss, mantraId), SessionsOf([s], mantraId));
  }

  /** One more session of a prefix adds its count to its own mantra's total. */
  lemma MantraTotalPrefix(ss: seq<Session>, i: int, mantraId: string)
    requires 0 <= i < |ss|
    ensures MantraTotal(ss[..i + 1], mantraId) == MantraTotal(ss[..i], mantraId) + (if ss[i].mantraId == mantraId then ss[i].count else 0)
  {
    assert ss[..i + 1] == ss[..i] + [ss[i]];
    MantraTotalSnoc(ss[..i], ss[i], mantraId);
  }

  /** Appending one session adds its count to its own day's total and nothing to the other days. */
  lemma DayTotalSnoc(ss: seq<Session>, s: Session, day: int)
    ensures DayTotal(ss + [s], day) == DayTotal(ss, day) + (if s.date.day == day then s.count else 0)
  {
    FilterAppend(ss, [s], (x: Session) => x.date.day == day);
    SumCountsAppend(SessionsOn(ss, day), SessionsOn([s], day));
  }
}

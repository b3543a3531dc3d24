/**
 * The statistics summary computed from the local store: mantra and repetition
 * totals, goal completion, a trailing 7-day activity window, the streaks, and
 * the ranking of the most practised mantras.
 */
module StatsService {
  import opened Model
  import opened Practice
  import opened Streaks
  import opened Ranking
  import MS = MantraService

  /** One day of an activity window. */
  datatype DailyStat = DailyStat(day: int, count: int)

  datatype MantraStats = MantraStats(
    totalMantras: nat,
    activeMantras: nat,
    totalSessions: int,
    currentStreak: nat,
    longestStreak: nat,
    completedMantras: nat,
    dailyProgress: seq<DailyStat>,
    completionRate: real)

  /** The test of the `filter` that counts completed mantras. */
  function CompletedBy(ss: seq<Session>): Mantra -> bool {
    m => Completed(m, ss)
  }

  /** The number of mantras whose summed session counts reach their goal. */
  function CompletedCount(mantras: seq<Mantra>, ss: seq<Session>): (r: nat)
    ensures r == |Filter(mantras, CompletedBy(ss))|
    ensures r <= |mantras|
    ensures r > 0 <==> exists i :: 0 <= i < |mantras| && Completed(mantras[i], ss)
    ensures r == |mantras| <==> forall i :: 0 <= i < |mantras| ==> Completed(mantras[i], ss)
  {
    if mantras == [] then 0
    else
      var rest := CompletedCount(mantras[1..], ss);
      assert forall i :: 1 <= i < |mantras| ==> mantras[i] == mantras[1..][i - 1];
      if Completed(mantras[0], ss) then rest + 1 else rest
  }

  /** `completed / total * 100`, or 0 without mantras. */
  function CompletionRate(completed: nat, total: nat): (r: real)
    requires completed <= total
    ensures 0.0 <= r <= 100.0
    ensures total == 0 ==> r == 0.0
    ensures total > 0 ==> r * (total as real) == (completed as real) * 100.0
    ensures total > 0 ==> (r == 100.0 <==> completed == total)
  {
    if total > 0 then (completed as real) / (total as real) * 100.0 else 0.0
  }

  /** The `n` consecutive days ending today, oldest first, with each day's summed counts (0 for an idle day). */
  function Window(ss: seq<Session>, today: int, n: nat): (r: seq<DailyStat>)
    ensures |r| == n
    ensures n > 0 ==> r[n - 1].day == today
    ensures forall i :: 0 <= i < n ==> r[i].day == today - (n - 1 - i)
    ensures forall i :: 0 <= i < n ==> r[i].count == DayTotal(ss, r[i].day)
  {
    seq(n, i requires 0 <= i < n => DailyStat(today - (n - 1 - i), DayTotal(ss, today - (n - 1 - i))))
  }

  /** With no sessions every day of the window reports 0. */
  lemma WindowOfNothing(today: int, n: nat)
    ensures forall i :: 0 <= i < n ==> Window([], today, n)[i].count == 0
  {
  }

  /** Logging a session raises exactly the window entry of its day, by its count. */
  lemma WindowAddSession(ss: seq<Session>, s: Session, today: int, n: nat)
    ensures forall i :: 0 <= i < n ==>
      Window(ss + [s], today, n)[i].count
        == Window(ss, today, n)[i].count + (if s.date.day == today - (n - 1 - i) then s.count else 0)
  {
    forall i | 0 <= i < n
      ensures Window(ss + [s], today, n)[i].count
        == Window(ss, today, n)[i].count + (if s.date.day == today - (n - 1 - i) then s.count else 0)
    {
      DayTotalSnoc(ss, s, today - (n - 1 - i));
    }
  }

  /** The seven days ending today, as the summary shows them. */
  function Week(ss: seq<Session>, today: int): (r: seq<DailyStat>)
    ensures |r| == 7 && r[6].day == today
    ensures forall i :: 0 <= i < 7 ==> r[i].day == today - 6 + i
    ensures forall i :: 0 <= i < 7 ==> r[i].count == DayTotal(ss, today - 6 + i)
  {
    Window(ss, today, 7)
  }

  /** The placeholder longest streak: `Math.max(currentStreak, 7)`. */
  function PlaceholderLongest(current: nat): (r: nat)
    ensures r >= 7 && r >= current
    ensures r == current || r == 7
  {
    if current > 7 then current else 7
  }

  /** `calculateMantraStats` over the stored lists and today's day number. */
  function CalculateMantraStats(mantras: seq<Mantra>, ss: seq<Session>, today: int): (r: MantraStats)
    ensures r.totalMantras == |mantras| && r.activeMantras == r.totalMantras
    ensures r.totalSessions == SumCounts(ss)
    ensures r.completedMantras == CompletedCount(mantras, ss) <= r.totalMantras
    ensures r.completionRate == CompletionRate(r.completedMantras, r.totalMantras)
    ensures 0.0 <= r.completionRate <= 100.0
    ensures r.currentStreak == MS.CurrentStreak(ss, today)
    ensures r.longestStreak == PlaceholderLongest(r.currentStreak)
    ensures r.longestStreak >= 7 && r.longestStreak >= r.currentStreak
    ensures |r.dailyProgress| == 7 && r.dailyProgress[6].day == today
    ensures forall i :: 0 <= i < 7 ==> r.dailyProgress[i].day == today - 6 + i
    ensures forall i :: 0 <= i < 7 ==> r.dailyProgress[i].count == DayTotal(ss, today - 6 + i)
  {
    var current := MS.CurrentStreak(ss, today);
    var completed := CompletedCount(mantras, ss);
    var window := Week(ss, today);
    MantraStats(
      |mantras|,
      |mantras|,
      SumCounts(ss),
      current,
      PlaceholderLongest(current),
      completed,
      window,
      CompletionRate(completed, |mantras|))
  }

  /** A mantra with its all-time repetition total. */
  datatype Ranked = Ranked(mantra: Mantra, totalCount: int)

  function Rank(mantras: seq<Mantra>, ss: seq<Session>): (r: seq<Ranked>)
    ensures |r| == |mantras|
    ensures forall i :: 0 <= i < |r| ==> r[i] == Ranked(mantras[i], MantraTotal(ss, mantras[i].id))
  {
    seq(|mantras|, i requires 0 <= i < |mantras| => Ranked(mantras[i], MantraTotal(ss, mantras[i].id)))
  }

  /** Every entry drawn from the ranking carries its own mantra's total. */
  lemma RankedEntries(mantras: seq<Mantra>, ss: seq<Session>, r: seq<Ranked>)
    requires multiset(r) <= multiset(Rank(mantras, ss))
    ensures forall x :: x in r ==> x.totalCount == MantraTotal(ss, x.mantra.id) && x.mantra in mantras
  {
    forall x | x in r ensures x.totalCount == MantraTotal(ss, x.mantra.id) && x.mantra in mantras {
      assert x in multiset(Rank(mantras, ss));
    }
  }

  function Descending(x: Ranked): int {
    -x.totalCount
  }

  /**
   * `getMostPracticedMantras(limit)`: the mantras ordered by total count,
   * largest first, cut to `limit` entries.
   */
  function MostPracticed(mantras: seq<Mantra>, ss: seq<Session>, limit: int): (r: seq<Ranked>)
    ensures |r| == SliceEnd(limit, |mantras|)
    ensures limit >= 0 ==> |r| == if limit < |mantras| then limit else |mantras|
    ensures forall i, j :: 0 <= i < j < |r| ==> r[i].totalCount >= r[j].totalCount
    ensures forall x :: x in r ==> x.totalCount == MantraTotal(ss, x.mantra.id) && x.mantra in mantras
  {
    var sorted := SortBy(Rank(mantras, ss), Descending);
    var r := Take(sorted, limit);
    TakeSorted(sorted, limit, Descending);
    RankedEntries(mantras, ss, r);
    r
  }

  /** The entries shown are drawn from the ranking, and none left out has a larger total than one shown. */
  lemma MostPracticedAreLargest(mantras: seq<Mantra>, ss: seq<Session>, limit: int)
    ensures var r := MostPracticed(mantras, ss, limit);
      && multiset(r) <= multiset(Rank(mantras, ss))
      && forall x, y :: x in r && y in multiset(Rank(mantras, ss)) - multiset(r) ==> x.totalCount >= y.totalCount
  {
    var sorted := SortBy(Rank(mantras, ss), Descending);
    TakeSorted(sorted, limit, Descending);
  }

  /**
   * The sort is stable, so mantras with equal totals are shown in list order: among the
   * entries with total `c`, those shown are the first ones of the ranking.
   */
  lemma MostPracticedTiesInListOrder(mantras: seq<Mantra>, ss: seq<Session>, limit: int, c: int, p: Ranked -> bool)
    requires forall x :: p(x) == (x.totalCount == c)
    ensures Filter(MostPracticed(mantras, ss, limit), p) <= Filter(Rank(mantras, ss), p)
  {
    TakeSortedStable(Rank(mantras, ss), limit, Descending, -c, p);
  }

  /** Two mantras with no sessions tie at 0; the top entry is the one listed first. */
  lemma MostPracticedTieShowsFirst(a: Mantra, b: Mantra)
    ensures MostPracticed([a, b], [], 1) == [Ranked(a, 0)]
  {
    var ranked := Rank([a, b], []);
    assert ranked == [Ranked(a, 0), Ranked(b, 0)];
    assert ranked[1..] == [Ranked(b, 0)];
    assert SortBy(ranked[1..], Descending) == [Ranked(b, 0)];
    assert SortBy(ranked, Descending) == [Ranked(a, 0), Ranked(b, 0)];
  }
}

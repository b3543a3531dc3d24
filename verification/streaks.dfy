/**
 * The consecutive-day counters of the tracker. Three policies coexist:
 *  - anchored: count back from today; 0 when today has no practice;
 *  - grace: count back from today, or from yesterday when today has no practice;
 *  - leading: walk a descending list of distinct practice days and count the
 *    leading entries whose i-th element lies exactly i days before today.
 * All three are built on `Run`, and the longest run of the practice history is
 * computed over its days sorted ascending.
 */
module Streaks {
  import opened Model
  import opened Practice

  /**
   * The number of consecutive days `start`, `start - 1`, ... that all have
   * practice: every day of that window is in `days`, and the day just before
   * the window is not.
   */
  function Run(days: set<int>, start: int): (r: nat)
    ensures r <= |days|
    ensures forall d :: start - r < d <= start ==> d in days
    ensures start - r !in days
    decreases days
  {
    if start in days then 1 + Run(days - {start}, start - 1) else 0
  }

  /** No window longer than `Run` ending at `start` is fully practised. */
  lemma RunIsLongest(days: set<int>, start: int, k: int)
    requires forall d :: start - k < d <= start ==> d in days
    ensures k <= Run(days, start)
  {
  }

  /** `Run` is the only length whose window is practised and whose preceding day is not. */
  lemma RunUnique(days: set<int>, start: int, k: nat)
    requires forall d :: start - k < d <= start ==> d in days
    requires start - k !in days
    ensures k == Run(days, start)
  {
  }

  /** Anchored policy: the run ending today; only presence of a day matters, not how many sessions it has. */
  function AnchoredStreak(days: set<int>, today: int): (r: nat)
    ensures today !in days ==> r == 0
    ensures forall d :: today - r < d <= today ==> d in days
    ensures today - r !in days
  {
    Run(days, today)
  }

  /** Grace policy: the run ending today, or ending yesterday when today has no practice. */
  function GraceStreak(days: set<int>, today: int): (r: nat)
    ensures today in days ==> r == AnchoredStreak(days, today)
    ensures today !in days ==> r == Run(days, today - 1)
  {
    Run(days, if today in days then today else today - 1)
  }

  /** The grace policy never reports less than the anchored one, and they differ only when today is missing. */
  lemma GraceAtLeastAnchored(days: set<int>, today: int)
    ensures GraceStreak(days, today) >= AnchoredStreak(days, today)
    ensures GraceStreak(days, today) != AnchoredStreak(days, today) ==>
              today !in days && today - 1 in days
  {
  }

  /** The yesterday grace is real: practice yesterday but not today shows a streak of at least 1 under it and 0 anchored. */
  lemma GraceCreditsYesterday(days: set<int>, today: int)
    requires today !in days && today - 1 in days
    ensures AnchoredStreak(days, today) == 0
    ensures GraceStreak(days, today) >= 1
  {
  }

  predicate StrictlyDescending(xs: seq<int>) {
    forall i, j :: 0 <= i < j < |xs| ==> xs[i] > xs[j]
  }

  predicate StrictlyIncreasing(xs: seq<int>) {
    forall i, j :: 0 <= i < j < |xs| ==> xs[i] < xs[j]
  }

  function Elems(xs: seq<int>): set<int> {
    set x | x in xs
  }

  /**
   * Leading policy: the number of leading entries of `rows` whose i-th element
   * is exactly `today - i`, stopping at the first mismatch.
   */
  function LeadingRun(rows: seq<int>, today: int): (r: nat)
    ensures r <= |rows|
    ensures forall i :: 0 <= i < r ==> rows[i] == today - i
    ensures r < |rows| ==> rows[r] != today - r
  {
    if rows == [] || rows[0] != today then 0 else 1 + LeadingRun(rows[1..], today - 1)
  }

  /**
   * On a strictly descending list with no day after today, the leading policy
   * agrees with the anchored policy over the same days.
   */
  lemma {:induction false} LeadingRunIsAnchored(rows: seq<int>, today: int)
    requires StrictlyDescending(rows)
    requires forall i :: 0 <= i < |rows| ==> rows[i] <= today
    ensures LeadingRun(rows, today) == AnchoredStreak(Elems(rows), today)
  {
    if rows == [] {
    } else if rows[0] != today {
      assert today !in Elems(rows);
    } else {
      var tail := rows[1..];
      assert Elems(rows) - {today} == Elems(tail) by {
        assert rows == [today] + tail;
        assert today !in tail;
      }
      LeadingRunIsAnchored(tail, today - 1);
    }
  }

  /** A day after today in the list (a future-dated session) makes the leading policy report 0. */
  lemma LeadingRunFutureDay(rows: seq<int>, today: int)
    requires |rows| > 0 && rows[0] > today
    ensures LeadingRun(rows, today) == 0
  {
  }

  lemma ElemsCons(h: int, t: seq<int>)
    ensures Elems([h] + t) == {h} + Elems(t)
  {
    assert forall y :: y in [h] + t <==> y == h || y in t;
  }

  /** A head below every element of an increasing tail keeps the list increasing. */
  lemma ConsIncreasing(h: int, t: seq<int>)
    requires StrictlyIncreasing(t)
    requires forall y :: y in t ==> h < y
    ensures StrictlyIncreasing([h] + t)
  {
    var l := [h] + t;
    forall i, j | 0 <= i < j < |l| ensures l[i] < l[j] {
      assert l[j] == t[j - 1];
      if i > 0 {
        assert l[i] == t[i - 1];
      } else {
        assert t[j - 1] in t;
      }
    }
  }

  lemma TailIncreasing(xs: seq<int>)
    requires xs != [] && StrictlyIncreasing(xs)
    ensures StrictlyIncreasing(xs[1..])
    ensures forall y :: y in xs[1..] ==> xs[0] < y
  {
    var tail := xs[1..];
    forall i, j | 0 <= i < j < |tail| ensures tail[i] < tail[j] {
      assert tail[i] == xs[i + 1] && tail[j] == xs[j + 1];
    }
    forall y | y in tail ensures xs[0] < y {
      var j :| 0 <= j < |tail| && tail[j] == y;
      assert xs[j + 1] == y;
    }
  }

  lemma HeadBelowAll(xs: seq<int>)
    requires xs != [] && StrictlyIncreasing(xs)
    ensures forall y :: y in xs ==> xs[0] <= y
  {
    forall y | y in xs ensures xs[0] <= y {
      var j :| 0 <= j < |xs| && xs[j] == y;
      assert j == 0 || xs[0] < xs[j];
    }
  }

  /** Inserts `x` into a strictly increasing list, dropping it when it is already there. */
  function Insert(x: int, xs: seq<int>): (r: seq<int>)
    requires StrictlyIncreasing(xs)
    ensures StrictlyIncreasing(r)
    ensures Elems(r) == Elems(xs) + {x}
    ensures |r| >= 1 && (r[0] == x || (|xs| > 0 && r[0] == xs[0]))
  {
    if xs == [] then [x]
    else if x < xs[0] then
      InsertFront(x, xs);
      [x] + xs
    else if x == xs[0] then
      ElemsCons(xs[0], xs[1..]);
      assert [xs[0]] + xs[1..] == xs;
      xs
    else
      TailIncreasing(xs);
      var rest := Insert(x, xs[1..]);
      InsertAbove(x, xs, rest);
      [xs[0]] + rest
  }

  /** A value below the head goes in front. */
  lemma InsertFront(x: int, xs: seq<int>)
    requires xs != [] && StrictlyIncreasing(xs) && x < xs[0]
    ensures StrictlyIncreasing([x] + xs)
    ensures Elems([x] + xs) == Elems(xs) + {x}
  {
    HeadBelowAll(xs);
    ConsIncreasing(x, xs);
    ElemsCons(x, xs);
  }

  /** Keeping the smaller head in front of the insertion into the tail keeps the list increasing. */
  lemma InsertAbove(x: int, xs: seq<int>, rest: seq<int>)
    requires xs != [] && xs[0] < x && StrictlyIncreasing(rest)
    requires forall y :: y in xs[1..] ==> xs[0] < y
    requires Elems(rest) == Elems(xs[1..]) + {x}
    ensures StrictlyIncreasing([xs[0]] + rest)
    ensures Elems([xs[0]] + rest) == Elems(xs) + {x}
  {
    forall y | y in rest ensures xs[0] < y {
      assert y in Elems(rest);
    }
    ConsIncreasing(xs[0], rest);
    ElemsCons(xs[0], xs[1..]);
    ElemsCons(xs[0], rest);
    assert [xs[0]] + xs[1..] == xs;
  }

  /** `[...practiceDates].sort()`: the distinct practice days of the history, ascending. */
  function SortedDays(ss: seq<Session>): (r: seq<int>)
    ensures StrictlyIncreasing(r)
    ensures Elems(r) == DaySet(ss)
  {
    if ss == [] then [] else Insert(ss[0].date.day, SortedDays(ss[1..]))
  }

  /** The length of the run of consecutive days that ends at index `i` of an ascending day list. */
  function RunEndingAt(sorted: seq<int>, i: nat): (r: nat)
    requires i < |sorted|
    ensures 1 <= r <= i + 1
  {
    if i == 0 then 1
    else if sorted[i] - sorted[i - 1] == 1 then RunEndingAt(sorted, i - 1) + 1
    else 1
  }

  /** The longest run among the first `n` entries: the largest `RunEndingAt`, or 0 when `n` is 0. */
  function LongestUpTo(sorted: seq<int>, n: nat): (r: nat)
    requires n <= |sorted|
    ensures n == 0 <==> r == 0
    ensures forall i :: 0 <= i < n ==> RunEndingAt(sorted, i) <= r
    ensures n > 0 ==> exists i :: 0 <= i < n && RunEndingAt(sorted, i) == r
  {
    if n == 0 then 0
    else
      var prev := LongestUpTo(sorted, n - 1);
      var here := RunEndingAt(sorted, n - 1);
      if here > prev then here else prev
  }

  /** The longest run of consecutive days in an ascending list of distinct days. */
  function LongestRun(sorted: seq<int>): (r: nat)
    ensures r == 0 <==> |sorted| == 0
  {
    LongestUpTo(sorted, |sorted|)
  }

  /** A window of `k` practised days ending at `sorted[i]` shows up as a run of at least `k` at index `i`. */
  lemma {:induction false} RunEndingAtCovers(sorted: seq<int>, i: nat, k: nat)
    requires StrictlyIncreasing(sorted) && i < |sorted|
    requires forall d :: sorted[i] - k < d <= sorted[i] ==> d in Elems(sorted)
    ensures k <= RunEndingAt(sorted, i)
    decreases k
  {
    if k > 1 {
      var d := sorted[i] - 1;
      assert d in Elems(sorted);
      var j :| 0 <= j < |sorted| && sorted[j] == d;
      assert j < i;
      assert sorted[i - 1] == d by {
        assert sorted[j] <= sorted[i - 1];
      }
      RunEndingAtCovers(sorted, i - 1, k - 1);
    }
  }

  /** The longest run is at least every run, in particular at least the anchored and the grace streaks. */
  lemma LongestRunBoundsRun(sorted: seq<int>, start: int)
    requires StrictlyIncreasing(sorted)
    ensures Run(Elems(sorted), start) <= LongestRun(sorted)
  {
    var k := Run(Elems(sorted), start);
    if k > 0 {
      var i :| 0 <= i < |sorted| && sorted[i] == start;
      RunEndingAtCovers(sorted, i, k);
    }
  }

  /** At a gap (or at the first entry) the day before `sorted[i]` has no practice. */
  lemma NoDayBefore(sorted: seq<int>, i: nat)
    requires StrictlyIncreasing(sorted) && i < |sorted|
    requires i == 0 || sorted[i] - sorted[i - 1] != 1
    ensures sorted[i] - 1 !in Elems(sorted)
  {
    forall j | 0 <= j < |sorted| ensures sorted[j] != sorted[i] - 1 {
      if j < i {
        assert sorted[j] <= sorted[i - 1] < sorted[i];
      } else if j > i {
        assert sorted[i] < sorted[j];
      }
    }
  }

  /** A run ending the day before a practised day extends by one. */
  lemma RunStep(days: set<int>, day: int)
    requires day in days
    ensures Run(days, day) == Run(days, day - 1) + 1
  {
    var k := Run(days, day - 1);
    assert forall d :: day - 1 - k < d <= day - 1 ==> d in days;
    RunUnique(days, day, k + 1);
  }

  /** No run ends on an idle day. */
  lemma RunOfIdle(days: set<int>, day: int)
    requires day !in days
    ensures Run(days, day) == 0
  {
  }

  /** Where consecutive sorted days are one apart, the run at `i` extends the run at `i - 1`. */
  lemma RunEndingAtConsecutive(sorted: seq<int>, i: nat)
    requires StrictlyIncreasing(sorted) && 0 < i < |sorted|
    requires sorted[i] - sorted[i - 1] == 1
    requires RunEndingAt(sorted, i - 1) == Run(Elems(sorted), sorted[i - 1])
    ensures RunEndingAt(sorted, i) == Run(Elems(sorted), sorted[i])
  {
    assert sorted[i] in Elems(sorted);
    RunStep(Elems(sorted), sorted[i]);
  }

  /** At the first entry or after a gap, both the running streak and the run restart at 1. */
  lemma RunEndingAtRestart(sorted: seq<int>, i: nat)
    requires StrictlyIncreasing(sorted) && i < |sorted|
    requires i == 0 || sorted[i] - sorted[i - 1] != 1
    ensures RunEndingAt(sorted, i) == Run(Elems(sorted), sorted[i])
  {
    assert sorted[i] in Elems(sorted);
    RunStep(Elems(sorted), sorted[i]);
    NoDayBefore(sorted, i);
    RunOfIdle(Elems(sorted), sorted[i] - 1);
  }

  /** On an ascending list of distinct days, the run ending at index `i` is the run of practised days ending at `sorted[i]`. */
  lemma {:induction false} RunEndingAtIsRun(sorted: seq<int>, i: nat)
    requires StrictlyIncreasing(sorted) && i < |sorted|
    ensures RunEndingAt(sorted, i) == Run(Elems(sorted), sorted[i])
    decreases i
  {
    if i > 0 && sorted[i] - sorted[i - 1] == 1 {
      RunEndingAtIsRun(sorted, i - 1);
      RunEndingAtConsecutive(sorted, i);
    } else {
      RunEndingAtRestart(sorted, i);
    }
  }

  /**
   * The longest run is the maximum of `Run` over the practised days: no run is longer,
   * and a non-empty history has a day whose run is exactly that long.
   */
  lemma LongestRunIsMaxRun(sorted: seq<int>)
    requires StrictlyIncreasing(sorted)
    ensures forall start :: Run(Elems(sorted), start) <= LongestRun(sorted)
    ensures sorted != [] ==> exists d :: d in Elems(sorted) && LongestRun(sorted) == Run(Elems(sorted), d)
  {
    forall start ensures Run(Elems(sorted), start) <= LongestRun(sorted) {
      LongestRunBoundsRun(sorted, start);
    }
    if sorted != [] {
      var i :| 0 <= i < |sorted| && RunEndingAt(sorted, i) == LongestRun(sorted);
      RunEndingAtIsRun(sorted, i);
      assert sorted[i] in Elems(sorted);
    }
  }
}

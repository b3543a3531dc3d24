/**
 * The achievements panel: a reduction of the session list into six statistics
 * (grace-policy current streak, longest run of consecutive days, repetitions,
 * distinct days, morning and evening sessions), ten unlockable achievements
 * with a requirement each, and the "next goals" list of the three locked
 * achievements closest to their requirement.
 */
module AchievementsPanel {
  import opened Model
  import opened Practice
  import opened Streaks
  import opened Ranking

  datatype PanelStats = PanelStats(
    currentStreak: nat,
    longestStreak: nat,
    totalSessions: int,
    totalDays: nat,
    morningPractices: nat,
    eveningPractices: nat)

  predicate IsMorning(h: Hour) {
    6 <= h < 12
  }

  predicate IsEvening(h: Hour) {
    18 <= h < 23
  }

  /** No hour is both a morning and an evening hour. */
  lemma MorningNotEvening(h: Hour)
    ensures !(IsMorning(h) && IsEvening(h))
  {
  }

  /** The test of a `filter` on the hour of a session's date. */
  function HourIn(p: Hour -> bool): Session -> bool {
    (s: Session) => p(s.date.hour)
  }

  /** The number of sessions whose hour satisfies `p`. */
  function CountHours(ss: seq<Session>, p: Hour -> bool): (r: nat)
    ensures r == |Filter(ss, HourIn(p))|
    ensures r <= |ss|
  {
    if ss == [] then 0 else (if p(ss[0].date.hour) then 1 else 0) + CountHours(ss[1..], p)
  }

  /** Morning and evening sessions never overlap, so together they are at most the number of sessions. */
  lemma {:induction false} MorningPlusEvening(ss: seq<Session>)
    ensures CountHours(ss, IsMorning) + CountHours(ss, IsEvening) <= |ss|
  {
    if ss != [] {
      MorningPlusEvening(ss[1..]);
      MorningNotEvening(ss[0].date.hour);
    }
  }

  /** The `stats` reduction of the panel, with today's day number. */
  function ComputeStats(ss: seq<Session>, today: int): (r: PanelStats)
    ensures ss == [] ==> r == PanelStats(0, 0, 0, 0, 0, 0)
    ensures ss != [] ==> r.currentStreak == GraceStreak(DaySet(ss), today)
    ensures r.longestStreak == 0 <==> ss == []
    ensures r.longestStreak >= r.currentStreak
    ensures forall start :: Run(DaySet(ss), start) <= r.longestStreak
    ensures ss != [] ==> exists d :: d in DaySet(ss) && r.longestStreak == Run(DaySet(ss), d)
    ensures r.totalSessions == SumCounts(ss)
    ensures r.totalDays == |DaySet(ss)|
    ensures r.morningPractices == CountHours(ss, IsMorning)
    ensures r.eveningPractices == CountHours(ss, IsEvening)
    ensures r.morningPractices + r.eveningPractices <= |ss|
  {
    if |ss| == 0 then PanelStats(0, 0, 0, 0, 0, 0)
    else
      var days := DaySet(ss);
      var sorted := SortedDays(ss);
      var start := if today in days then today else today - 1;
      LongestRunBoundsRun(sorted, start);
      LongestRunIsMaxRun(sorted);
      MorningPlusEvening(ss);
      assert ss[0].date.day in days;
      PanelStats(
        GraceStreak(days, today),
        LongestRun(sorted),
        SumCounts(ss),
        |days|,
        CountHours(ss, IsMorning),
        CountHours(ss, IsEvening))
  }

  datatype Category = Streak | Volume | Consistency | Special

  datatype Achievement = Achievement(id: string, title: string, requirement: int, current: int, unlocked: bool, category: Category)

  /** An achievement with that id, tracking `current` against `requirement`. */
  predicate Measures(a: Achievement, id: string, requirement: int, current: int) {
    a.id == id && a.requirement == requirement && a.current == current
  }

  /** The panel's ten achievements, in display order. */
  function PanelAchievements(st: PanelStats): (r: seq<Achievement>)
    ensures |r| == 10
    ensures r[0].id == "first-step" && (r[0].unlocked <==> st.totalSessions > 0)
    ensures r[0].requirement == 1
    ensures r[0].current >= st.currentStreak && r[0].current >= st.longestStreak
    ensures r[0].current == st.currentStreak || r[0].current == st.longestStreak
    ensures Measures(r[1], "three-day-flame", 3, st.currentStreak)
    ensures Measures(r[2], "week-warrior", 7, st.currentStreak)
    ensures Measures(r[3], "month-master", 30, st.currentStreak)
    ensures Measures(r[4], "century-club", 100, st.currentStreak)
    ensures Measures(r[5], "dedicated-practitioner", 50, st.totalSessions)
    ensures Measures(r[6], "session-master", 200, st.totalSessions)
    ensures Measures(r[7], "consistent-soul", 30, st.totalDays)
    ensures Measures(r[8], "morning-light", 10, st.morningPractices)
    ensures Measures(r[9], "evening-peace", 10, st.eveningPractices)
    ensures forall i :: 1 <= i < 10 ==> Honest(r[i])
    ensures forall i :: 0 <= i < 10 ==> r[i].requirement > 0
  {
    var best := if st.currentStreak > st.longestStreak then st.currentStreak else st.longestStreak;
    var r := [
      Achievement("first-step", "First Step", 1, best, st.totalSessions > 0, Streak),
      Threshold("three-day-flame", "Three Day Flame", 3, st.currentStreak, Streak),
      Threshold("week-warrior", "Week Warrior", 7, st.currentStreak, Streak),
      Threshold("month-master", "Month Master", 30, st.currentStreak, Streak),
      Threshold("century-club", "Century Club", 100, st.currentStreak, Streak),
      Threshold("dedicated-practitioner", "Dedicated Practitioner", 50, st.totalSessions, Volume),
      Threshold("session-master", "Session Master", 200, st.totalSessions, Volume),
      Threshold("consistent-soul", "Consistent Soul", 30, st.totalDays, Consistency),
      Threshold("morning-light", "Morning Light", 10, st.morningPractices, Special),
      Threshold("evening-peace", "Evening Peace", 10, st.eveningPractices, Special)
    ];
    assert forall i :: 1 <= i < 10 ==> Honest(r[i]);
    r
  }

  /** An achievement unlocked exactly when its count reaches its requirement. */
  predicate Honest(a: Achievement) {
    a.unlocked <==> a.current >= a.requirement
  }

  /** An achievement unlocked by reaching `requirement`. */
  function Threshold(id: string, title: string, requirement: int, current: int, category: Category): (r: Achievement)
    ensures Honest(r) && r.requirement == requirement && r.current == current && r.id == id
  {
    Achievement(id, title, requirement, current, current >= requirement, category)
  }

  /** 'first-step' is the one exception: with zero repetitions it stays locked even when its count reaches 1. */
  lemma FirstStepException()
    ensures var r := PanelAchievements(PanelStats(1, 1, 0, 1, 0, 0));
      !r[0].unlocked && r[0].current >= r[0].requirement
  {
  }

  /** Each statistic at least as large never locks an achievement that was unlocked. */
  lemma UnlockedMonotone(st: PanelStats, more: PanelStats)
    requires st.currentStreak <= more.currentStreak && st.longestStreak <= more.longestStreak
    requires st.totalSessions <= more.totalSessions && st.totalDays <= more.totalDays
    requires st.morningPractices <= more.morningPractices && st.eveningPractices <= more.eveningPractices
    ensures forall i :: 0 <= i < 10 ==> PanelAchievements(st)[i].unlocked ==> PanelAchievements(more)[i].unlocked
  {
  }

  /** The streak achievements unlock in order: each one unlocked implies the shorter ones are. */
  lemma StreakAchievementsNested(st: PanelStats)
    ensures var r := PanelAchievements(st);
      && (r[4].unlocked ==> r[3].unlocked)
      && (r[3].unlocked ==> r[2].unlocked)
      && (r[2].unlocked ==> r[1].unlocked)
      && (r[6].unlocked ==> r[5].unlocked)
  {
  }

  predicate IsLocked(a: Achievement) {
    !a.unlocked
  }

  /** How far a locked achievement is from its requirement. */
  function Remaining(a: Achievement): int {
    a.requirement - a.current
  }

  /** `achievements.filter(a => !a.unlocked).sort(by remaining).slice(0, 3)`. */
  function NextAchievements(all: seq<Achievement>): (r: seq<Achievement>)
    ensures |r| <= 3
    ensures forall a :: a in r ==> a in all && !a.unlocked
    ensures forall i, j :: 0 <= i < j < |r| ==> Remaining(r[i]) <= Remaining(r[j])
  {
    var r := Take(SortBy(Filter(all, IsLocked), Remaining), 3);
    TakeSmallest(Filter(all, IsLocked), 3, Remaining);
    DrawnFromFilter(r, all, IsLocked);
    r
  }

  /**
   * The next goals are the locked achievements closest to their requirement:
   * three of them while three are locked, all of them otherwise, and no locked
   * achievement left out is closer than one shown.
   */
  lemma NextAchievementsAreClosest(all: seq<Achievement>)
    ensures var locked := Filter(all, IsLocked);
      var r := NextAchievements(all);
      && multiset(r) <= multiset(locked)
      && (forall a, b :: a in r && b in multiset(locked) - multiset(r) ==> Remaining(a) <= Remaining(b))
      && (|locked| >= 3 ==> |r| == 3)
      && (|locked| < 3 ==> multiset(r) == multiset(locked))
  {
    TakeSmallest(Filter(all, IsLocked), 3, Remaining);
  }

  /**
   * The sort is stable, so locked achievements equally close to their target are shown in
   * list order: among those with `k` remaining, the ones shown are the first ones listed.
   */
  lemma NextAchievementsTiesInListOrder(all: seq<Achievement>, k: int, p: Achievement -> bool)
    requires forall a :: p(a) == (Remaining(a) == k)
    ensures Filter(NextAchievements(all), p) <= Filter(Filter(all, IsLocked), p)
  {
    TakeSortedStable(Filter(all, IsLocked), 3, Remaining, k, p);
  }
}

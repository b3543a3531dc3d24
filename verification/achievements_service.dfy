/**
 * The ten badges of the achievements service, each earned by a threshold on
 * the store's statistics: mantra count, summed repetitions, goal completion,
 * the anchored streak and the number of distinct practice days.
 */
module AchievementsService {
  import opened Model
  import opened Practice
  import opened Streaks
  import MS = MantraService
  import SS = StatsService

  datatype Badge = Badge(id: string, title: string, description: string, earned: bool)

  /** The badge ids, in the order the service lists them. */
  const BadgeIds: seq<string> := [
    "first-mantra", "first-session", "10-sessions", "50-sessions", "first-completion",
    "3-day-streak", "7-day-streak", "30-day-streak", "5-mantras", "10-practice-days"]

  /** The statistics the thresholds look at. */
  datatype Inputs = Inputs(mantraCount: nat, totalSessions: int, completedMantras: nat, streak: nat, practiceDays: nat)

  function InputsOf(mantras: seq<Mantra>, ss: seq<Session>, today: int): (r: Inputs)
    ensures r.mantraCount == |mantras|
    ensures r.totalSessions == SumCounts(ss)
    ensures r.completedMantras > 0 <==> exists i :: 0 <= i < |mantras| && Completed(mantras[i], ss)
    ensures r.streak == MS.CurrentStreak(ss, today)
    ensures r.practiceDays == |DaySet(ss)|
  {
    Inputs(|mantras|, SumCounts(ss), SS.CompletedCount(mantras, ss), MS.CurrentStreak(ss, today), |DaySet(ss)|)
  }

  /** The badge list for the given statistics. */
  function BadgesFor(x: Inputs): (r: seq<Badge>)
    ensures |r| == 10
    ensures forall i :: 0 <= i < 10 ==> r[i].id == BadgeIds[i]
    ensures r[0].earned == (x.mantraCount > 0) && r[8].earned == (x.mantraCount >= 5)
    ensures r[1].earned == (x.totalSessions > 0) && r[2].earned == (x.totalSessions >= 10)
    ensures r[3].earned == (x.totalSessions >= 50)
    ensures r[4].earned == (x.completedMantras > 0)
    ensures r[5].earned == (x.streak >= 3) && r[6].earned == (x.streak >= 7) && r[7].earned == (x.streak >= 30)
    ensures r[9].earned == (x.practiceDays >= 10)
  {
    [
      Badge(BadgeIds[0], "First Steps", "Create your first mantra", x.mantraCount > 0),
      Badge(BadgeIds[1], "Begin Your Practice", "Complete your first mantra session", x.totalSessions > 0),
      Badge(BadgeIds[2], "Practice Makes Progress", "Complete 10 mantra sessions", x.totalSessions >= 10),
      Badge(BadgeIds[3], "Dedicated Practitioner", "Complete 50 mantra sessions", x.totalSessions >= 50),
      Badge(BadgeIds[4], "Goal Achieved", "Complete your first mantra goal", x.completedMantras > 0),
      Badge(BadgeIds[5], "Building Consistency", "Maintain a 3-day practice streak", x.streak >= 3),
      Badge(BadgeIds[6], "Weekly Warrior", "Maintain a 7-day practice streak", x.streak >= 7),
      Badge(BadgeIds[7], "Monthly Master", "Maintain a 30-day practice streak", x.streak >= 30),
      Badge(BadgeIds[8], "Mantra Collector", "Create 5 different mantras", x.mantraCount >= 5),
      Badge(BadgeIds[9], "Regular Practitioner", "Practice on 10 different days", x.practiceDays >= 10)
    ]
  }

  /** `getAchievements` over the stored lists and today's day number. */
  function GetAchievements(mantras: seq<Mantra>, ss: seq<Session>, today: int): (r: seq<Badge>)
    ensures |r| == 10
    ensures forall i :: 0 <= i < 10 ==> r[i].id == BadgeIds[i]
    ensures r[0].earned <==> |mantras| > 0
    ensures r[1].earned <==> SumCounts(ss) > 0
    ensures r[2].earned <==> SumCounts(ss) >= 10
    ensures r[3].earned <==> SumCounts(ss) >= 50
    ensures r[4].earned <==> exists i :: 0 <= i < |mantras| && Completed(mantras[i], ss)
    ensures r[5].earned <==> MS.CurrentStreak(ss, today) >= 3
    ensures r[6].earned <==> MS.CurrentStreak(ss, today) >= 7
    ensures r[7].earned <==> MS.CurrentStreak(ss, today) >= 30
    ensures r[8].earned <==> |mantras| >= 5
    ensures r[9].earned <==> |DaySet(ss)| >= 10
  {
    var x := InputsOf(mantras, ss, today);
    BadgesFor(x)
  }

  /** The thresholds are nested: a harder badge of a family implies every easier one. */
  lemma BadgesNested(mantras: seq<Mantra>, ss: seq<Session>, today: int)
    ensures var r := GetAchievements(mantras, ss, today);
      && (r[8].earned ==> r[0].earned)
      && (r[3].earned ==> r[2].earned) && (r[2].earned ==> r[1].earned)
      && (r[7].earned ==> r[6].earned) && (r[6].earned ==> r[5].earned)
  {
  }

  /** A 30-day streak needs 30 distinct practice days, so it also earns the 10-practice-days badge. */
  lemma LongStreakEarnsPracticeDays(mantras: seq<Mantra>, ss: seq<Session>, today: int)
    ensures var r := GetAchievements(mantras, ss, today);
      r[7].earned ==> r[9].earned
  {
  }

  /** A streak badge needs practice today: without a session today no streak badge is earned. */
  lemma StreakBadgesNeedToday(mantras: seq<Mantra>, ss: seq<Session>, today: int)
    requires today !in DaySet(ss)
    ensures var r := GetAchievements(mantras, ss, today);
      !r[5].earned && !r[6].earned && !r[7].earned
  {
  }
}

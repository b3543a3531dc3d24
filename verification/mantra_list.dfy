/**
 * The mantra list's per-mantra counters of today's repetitions: seeded from
 * the store, bumped by the "+1" button (which also logs a one-repetition
 * session), cleared by the reset button, and shown as a capped progress
 * percentage of the daily goal.
 */
module MantraList {
  import opened Model
  import opened Practice
  import MS = MantraService

  /** The component's `Record<string, number>` of today's counts. */
  type Counters = map<string, int>

  /** `sessions[id] || 0`: a missing counter reads as zero. */
  function Count(c: Counters, id: string): (r: int)
    ensures id !in c ==> r == 0
    ensures id in c ==> r == c[id]
  {
    if id in c then c[id] else 0
  }

  /** Today's repetitions of one mantra, as `getTodaysSessions(id).reduce(...)` sums them. */
  function TodayCount(ss: seq<Session>, id: string, today: int): int {
    SumCounts(MS.TodaysSessions(ss, id, today))
  }

  /** The counters the effect seeds: one per listed mantra, holding today's repetitions of it. */
  function InitialCounters(mantras: seq<Mantra>, ss: seq<Session>, today: int): (r: Counters)
    ensures r.Keys == set i | 0 <= i < |mantras| :: mantras[i].id
    ensures forall id :: id in r ==> r[id] == TodayCount(ss, id, today)
  {
    map id | id in (set i | 0 <= i < |mantras| :: mantras[i].id) :: TodayCount(ss, id, today)
  }

  /** Every counter for an id in `ids` equals that mantra's repetitions logged today. */
  predicate Agrees(c: Counters, ss: seq<Session>, ids: set<string>, today: int) {
    forall id :: id in ids ==> Count(c, id) == TodayCount(ss, id, today)
  }

  lemma InitialCountersAgree(mantras: seq<Mantra>, ss: seq<Session>, today: int)
    ensures Agrees(InitialCounters(mantras, ss, today), ss, set i | 0 <= i < |mantras| :: mantras[i].id, today)
  {
  }

  /** Logging one more session changes today's count only for its own mantra, and only if it is dated today. */
  lemma TodayCountSnoc(ss: seq<Session>, s: Session, id: string, today: int)
    ensures TodayCount(ss + [s], id, today)
         == TodayCount(ss, id, today) + (if s.mantraId == id && s.date.day == today then s.count else 0)
  {
    FilterAppend(ss, [s], x => MS.LoggedToday(x, id, today));
    SumCountsAppend(MS.TodaysSessions(ss, id, today), MS.TodaysSessions([s], id, today));
  }

  /**
   * `handleAddRepetition`: logs a one-repetition session at `now` and adds one
   * to the mantra's counter (a missing counter counts from zero).
   */
  function AddRepetition(st: MS.Store, c: Counters, id: string, freshId: string, now: Stamp): (r: (MS.Store, Counters))
    ensures r.0.sessions == st.sessions + [Session(freshId, id, 1, now)]
    ensures r.0.mantras == st.mantras
    ensures id in r.1 && r.1[id] == Count(c, id) + 1
    ensures r.1.Keys == c.Keys + {id}
    ensures forall other :: other != id ==> Count(r.1, other) == Count(c, other)
  {
    var (st', _) := MS.AddSession(st, SessionDraft(id, 1, now), freshId);
    (st', c[id := Count(c, id) + 1])
  }

  /** A repetition logged today keeps every counter in step with the store. */
  lemma AddRepetitionKeepsAgreement(st: MS.Store, c: Counters, ids: set<string>, id: string, freshId: string, now: Stamp)
    requires Agrees(c, st.sessions, ids, now.day)
    ensures var r := AddRepetition(st, c, id, freshId, now);
      Agrees(r.1, r.0.sessions, ids, now.day)
  {
    var r := AddRepetition(st, c, id, freshId, now);
    forall other | other in ids
      ensures Count(r.1, other) == TodayCount(r.0.sessions, other, now.day)
    {
      TodayCountSnoc(st.sessions, Session(freshId, id, 1, now), other, now.day);
    }
  }

  /** `handleResetRepetitions`: clears one counter and leaves the store and the other counters alone. */
  function Reset(c: Counters, id: string): (r: Counters)
    ensures id in r && r[id] == 0
    ensures r.Keys == c.Keys + {id}
    ensures forall other :: other != id ==> Count(r, other) == Count(c, other)
  {
    c[id := 0]
  }

  /** The bar's value: the share of the daily goal reached, capped at 100, and 0 without a positive goal. */
  function Progress(todayCount: int, goal: int): (r: real)
    ensures goal <= 0 ==> r == 0.0
    ensures goal > 0 && todayCount >= goal ==> r == 100.0
    ensures goal > 0 && todayCount < goal ==> r * goal as real == todayCount as real * 100.0
    ensures todayCount >= 0 ==> 0.0 <= r <= 100.0
  {
    if goal > 0 then
      var share := todayCount as real / goal as real * 100.0;
      if share < 100.0 then share else 100.0
    else 0.0
  }

  /** The bar is full exactly when today's count has reached a positive goal. */
  lemma ProgressFullIff(todayCount: int, goal: int)
    requires goal > 0
    ensures Progress(todayCount, goal) == 100.0 <==> todayCount >= goal
  {
    if todayCount < goal {
      assert Progress(todayCount, goal) * goal as real == todayCount as real * 100.0;
      assert todayCount as real * 100.0 < goal as real * 100.0;
    }
  }
}

/**
 * The local-storage branch of the hybrid service and its legacy exports. The
 * code repeats the mantra-service algorithms statement for statement; here each
 * is written as the loop the code runs and proved to compute exactly what the
 * functional definitions of `MantraService` compute.
 */
module HybridService {
  import opened Wrappers
  import opened Model
  import opened Practice
  import opened Streaks
  import MS = MantraService

  /** `addMantra` (local branch and legacy export): `mantras.push(newMantra)`. */
  method AddMantra(st: MS.Store, draft: MantraDraft, freshId: string, now: int) returns (st': MS.Store, m: Mantra)
    ensures st'.mantras == st.mantras + [m] && st'.sessions == st.sessions
    ensures m == Mantra(freshId, draft.title, draft.text, draft.goal, draft.category, now, now)
    ensures (st', m) == MS.AddMantra(st, draft, freshId, now)
  {
    m := Mantra(freshId, draft.title, draft.text, draft.goal, draft.category, now, now);
    st' := st.(mantras := st.mantras + [m]);
  }

  /** `updateMantra` (local branch and legacy export): a `findIndex` scan, then one slot replaced. */
  method UpdateMantra(st: MS.Store, id: string, patch: MantraPatch, now: int) returns (res: Option<Mantra>, st': MS.Store)
    ensures res.None? <==> forall i :: 0 <= i < |st.mantras| ==> st.mantras[i].id != id
    ensures res.None? ==> st' == st
    ensures (res, st') == MS.UpdateMantra(st, id, patch, now)
  {
    var index := -1;
    var i := 0;
    while i < |st.mantras|
      invariant 0 <= i <= |st.mantras|
      invariant forall j :: 0 <= j < i ==> st.mantras[j].id != id
    {
      if st.mantras[i].id == id {
        index := i;
        break;
      }
      i := i + 1;
    }
    assert index == MS.FindIndex(st.mantras, id);
    if index == -1 {
      return None, st;
    }
    var m := ApplyPatch(st.mantras[index], patch, now);
    res := Some(m);
    st' := st.(mantras := st.mantras[index := m]);
  }

  /** `deleteMantra` (local branch and legacy export): a `filter` pass and a length comparison. */
  method DeleteMantra(st: MS.Store, id: string) returns (deleted: bool, st': MS.Store)
    ensures deleted <==> |st'.mantras| < |st.mantras|
    ensures (deleted, st') == MS.DeleteMantra(st, id)
  {
    var kept: seq<Mantra> := [];
    var i := 0;
    while i < |st.mantras|
      invariant 0 <= i <= |st.mantras|
      invariant kept == Filter(st.mantras[..i], m => MS.KeepsMantra(m, id))
    {
      FilterPrefix(st.mantras, i, m => MS.KeepsMantra(m, id));
      if st.mantras[i].id != id {
        kept := kept + [st.mantras[i]];
      }
      i := i + 1;
    }
    assert st.mantras[..i] == st.mantras;
    deleted := |kept| != |st.mantras|;
    st' := st.(mantras := kept);
  }

  /** `addSession` (local branch and legacy export): `sessions.push(newSession)`. */
  method AddSession(st: MS.Store, draft: SessionDraft, freshId: string) returns (st': MS.Store, s: Session)
    ensures st'.sessions == st.sessions + [s] && st'.mantras == st.mantras
    ensures (st', s) == MS.AddSession(st, draft, freshId)
  {
    s := Session(freshId, draft.mantraId, draft.count, draft.date);
    st' := st.(sessions := st.sessions + [s]);
  }

  /** `getTodaysSessions`: the `filter` the code runs, equal to the mantra-service definition. */
  method TodaysSessions(ss: seq<Session>, mantraId: string, today: int) returns (r: seq<Session>)
    ensures r == MS.TodaysSessions(ss, mantraId, today)
  {
    r := [];
    var i := 0;
    while i < |ss|
      invariant 0 <= i <= |ss|
      invariant r == Filter(ss[..i], s => MS.LoggedToday(s, mantraId, today))
    {
      FilterPrefix(ss, i, s => MS.LoggedToday(s, mantraId, today));
      if ss[i].mantraId == mantraId && ss[i].date.day == today {
        r := r + [ss[i]];
      }
      i := i + 1;
    }
    assert ss[..i] == ss;
  }

  /** `getTotalSessions`: the `filter`/`reduce` the code runs, equal to the mantra-service definition. */
  method TotalSessions(ss: seq<Session>, mantraId: string) returns (total: int)
    ensures total == MS.TotalSessions(ss, mantraId)
  {
    total := 0;
    var i := 0;
    while i < |ss|
      invariant 0 <= i <= |ss|
      invariant total == MantraTotal(ss[..i], mantraId)
    {
      MantraTotalPrefix(ss, i, mantraId);
      if ss[i].mantraId == mantraId {
        total := total + ss[i].count;
      }
      i := i + 1;
    }
    assert ss[..i] == ss;
  }

  /**
   * `getCurrentStreak`: collect the day keys into a set, then step back from
   * today while the day is in the set. Equal to the anchored policy.
   */
  method CurrentStreak(ss: seq<Session>, today: int) returns (streak: nat)
    ensures streak == MS.CurrentStreak(ss, today)
  {
    if |ss| == 0 {
      return 0;
    }
    var days: set<int> := {};
    var i := 0;
    while i < |ss|
      invariant 0 <= i <= |ss|
      invariant forall d :: d in days <==> exists j :: 0 <= j < i && ss[j].date.day == d
    {
      days := days + {ss[i].date.day};
      i := i + 1;
    }
    assert days == DaySet(ss);
    streak := 0;
    var current := today;
    while current in days
      invariant current == today - streak
      invariant forall d :: current < d <= today ==> d in days
      invariant streak <= Run(days, today)
      decreases Run(days, today) - streak
    {
      RunIsLongest(days, today, streak + 1);
      streak := streak + 1;
      current := current - 1;
    }
    RunUnique(days, today, streak);
  }
}

/**
 * The browser-local mantra store: two lists (mantras and sessions) that every
 * operation reads, changes and writes back whole. Ids come from a fresh-id
 * oracle and times from the caller, in place of `generateId` and `new Date()`.
 */
module MantraService {
  import opened Wrappers
  import opened Model
  import opened Practice
  import opened Streaks

  /** The two persisted lists. */
  datatype Store = Store(mantras: seq<Mantra>, sessions: seq<Session>)

  /** `addMantra`: the new mantra, with a fresh id and both timestamps `now`, goes at the end. */
  function AddMantra(st: Store, draft: MantraDraft, freshId: string, now: int): (r: (Store, Mantra))
    ensures r.0.mantras == st.mantras + [r.1]
    ensures r.0.sessions == st.sessions
    ensures r.1.id == freshId && r.1.createdAt == now && r.1.updatedAt == now
    ensures r.1.title == draft.title && r.1.text == draft.text
    ensures r.1.goal == draft.goal && r.1.category == draft.category
  {
    var m := Mantra(freshId, draft.title, draft.text, draft.goal, draft.category, now, now);
    (st.(mantras := st.mantras + [m]), m)
  }

  /** `findIndex(m => m.id === id)`: the first index holding `id`, or -1. */
  function FindIndex(mantras: seq<Mantra>, id: string): (r: int)
    ensures -1 <= r < |mantras|
    ensures r == -1 <==> forall i :: 0 <= i < |mantras| ==> mantras[i].id != id
    ensures r >= 0 ==> mantras[r].id == id && forall j :: 0 <= j < r ==> mantras[j].id != id
  {
    if mantras == [] then -1
    else if mantras[0].id == id then 0
    else
      var k := FindIndex(mantras[1..], id);
      if k == -1 then -1 else k + 1
  }

  /**
   * `updateMantra`: `None` and an unchanged store when no mantra has the id;
   * otherwise only the first mantra with the id is replaced by the patched one,
   * which is also returned.
   */
  function UpdateMantra(st: Store, id: string, patch: MantraPatch, now: int): (r: (Option<Mantra>, Store))
    ensures r.1.sessions == st.sessions
    ensures |r.1.mantras| == |st.mantras|
    ensures (forall i :: 0 <= i < |st.mantras| ==> st.mantras[i].id != id) <==> r.0.None?
    ensures r.0.None? ==> r.1 == st
    ensures r.0.Some? ==> exists k :: (
              && 0 <= k < |st.mantras| && st.mantras[k].id == id
              && (forall j :: 0 <= j < k ==> st.mantras[j].id != id)
              && r.0.value == ApplyPatch(st.mantras[k], patch, now)
              && r.1.mantras == st.mantras[k := r.0.value])
  {
    var k := FindIndex(st.mantras, id);
    if k == -1 then (None, st)
    else
      var m := ApplyPatch(st.mantras[k], patch, now);
      (Some(m), st.(mantras := st.mantras[k := m]))
  }

  predicate KeepsMantra(m: Mantra, id: string) {
    m.id != id
  }

  /**
   * `deleteMantra`: removes every mantra with the id, keeping the others in
   * order, and reports whether the list got shorter. Sessions are not touched.
   */
  function DeleteMantra(st: Store, id: string): (r: (bool, Store))
    ensures r.1.mantras == Filter(st.mantras, m => KeepsMantra(m, id))
    ensures forall m :: m in r.1.mantras <==> m in st.mantras && m.id != id
    ensures r.1.sessions == st.sessions
    ensures r.0 <==> exists i :: 0 <= i < |st.mantras| && st.mantras[i].id == id
  {
    var kept := Filter(st.mantras, m => KeepsMantra(m, id));
    FilterKeepsAll(st.mantras, m => KeepsMantra(m, id));
    (|kept| != |st.mantras|, st.(mantras := kept))
  }

  /** `addSession`: the new session, with a fresh id, goes at the end. */
  function AddSession(st: Store, draft: SessionDraft, freshId: string): (r: (Store, Session))
    ensures r.0.sessions == st.sessions + [r.1]
    ensures r.0.mantras == st.mantras
    ensures r.1 == Session(freshId, draft.mantraId, draft.count, draft.date)
  {
    var s := Session(freshId, draft.mantraId, draft.count, draft.date);
    (st.(sessions := st.sessions + [s]), s)
  }

  predicate LoggedToday(s: Session, mantraId: string, today: int) {
    s.mantraId == mantraId && s.date.day == today
  }

  /** `getTodaysSessions`: the sessions of that mantra dated today, in stored order. */
  function TodaysSessions(ss: seq<Session>, mantraId: string, today: int): (r: seq<Session>)
    ensures forall s :: s in r <==> s in ss && s.mantraId == mantraId && s.date.day == today
  {
    Filter(ss, s => LoggedToday(s, mantraId, today))
  }

  /** The sessions kept by `TodaysSessions` are those of the mantra within those of the day. */
  lemma {:induction false} TodaysSessionsIsDayOfMantra(ss: seq<Session>, mantraId: string, today: int)
    ensures TodaysSessions(ss, mantraId, today) == SessionsOn(SessionsOf(ss, mantraId), today)
  {
    if ss != [] {
      TodaysSessionsIsDayOfMantra(ss[1..], mantraId, today);
    }
  }

  /** `getTotalSessions`: the summed counts of that mantra's sessions; 0 when it has none. */
  function TotalSessions(ss: seq<Session>, mantraId: string): (r: int)
    ensures (forall i :: 0 <= i < |ss| ==> ss[i].mantraId != mantraId) ==> r == 0
  {
    MantraTotalOfAbsent(ss, mantraId);
    MantraTotal(ss, mantraId)
  }

  /** A mantra with no stored session has total 0. */
  lemma {:induction false} MantraTotalOfAbsent(ss: seq<Session>, mantraId: string)
    ensures (forall i :: 0 <= i < |ss| ==> ss[i].mantraId != mantraId) ==> MantraTotal(ss, mantraId) == 0
  {
    if forall i :: 0 <= i < |ss| ==> ss[i].mantraId != mantraId {
      FilterKeepsNone(ss, mantraId);
    }
  }

  lemma {:induction false} FilterKeepsNone(ss: seq<Session>, mantraId: string)
    requires forall i :: 0 <= i < |ss| ==> ss[i].mantraId != mantraId
    ensures SessionsOf(ss, mantraId) == []
  {
    if ss != [] {
      FilterKeepsNone(ss[1..], mantraId);
    }
  }

  /** Logging a session changes the total of its own mantra by its count and no other mantra's. */
  lemma AddSessionTotal(st: Store, draft: SessionDraft, freshId: string, mantraId: string)
    ensures TotalSessions(AddSession(st, draft, freshId).0.sessions, mantraId)
         == TotalSessions(st.sessions, mantraId) + (if draft.mantraId == mantraId then draft.count else 0)
  {
    MantraTotalSnoc(st.sessions, AddSession(st, draft, freshId).1, mantraId);
  }

  /**
   * `getCurrentStreak` (anchored at today): 0 on an empty list or when today has
   * no session, otherwise the number of consecutive practised days ending today.
   */
  function CurrentStreak(ss: seq<Session>, today: int): (r: nat)
    ensures ss == [] ==> r == 0
    ensures today !in DaySet(ss) ==> r == 0
    ensures forall d :: today - r < d <= today ==> d in DaySet(ss)
    ensures today - r !in DaySet(ss)
  {
    if |ss| == 0 then 0 else AnchoredStreak(DaySet(ss), today)
  }

  /** The streak depends only on which days have sessions, so reordering the list does not change it. */
  lemma CurrentStreakOrderFree(a: seq<Session>, b: seq<Session>, today: int)
    requires multiset(a) == multiset(b)
    ensures CurrentStreak(a, today) == CurrentStreak(b, today)
  {
    assert |a| == |multiset(a)| == |multiset(b)| == |b|;
    assert DaySet(a) == DaySet(b) by {
      forall d ensures d in DaySet(a) <==> d in DaySet(b) {
        if d in DaySet(a) {
          var i :| 0 <= i < |a| && a[i].date.day == d;
          assert a[i] in multiset(b);
          var j :| 0 <= j < |b| && b[j] == a[i];
        }
        if d in DaySet(b) {
          var i :| 0 <= i < |b| && b[i].date.day == d;
          assert b[i] in multiset(a);
          var j :| 0 <= j < |a| && a[j] == b[i];
        }
      }
    }
  }

  /** A further session on an already-practised day does not change the streak. */
  lemma CurrentStreakSameDay(ss: seq<Session>, s: Session, today: int)
    requires s.date.day in DaySet(ss)
    ensures CurrentStreak(ss + [s], today) == CurrentStreak(ss, today)
  {
    assert DaySet(ss + [s]) == DaySet(ss) by {
      forall d ensures d in DaySet(ss + [s]) <==> d in DaySet(ss) {
        if d in DaySet(ss) {
          var i :| 0 <= i < |ss| && ss[i].date.day == d;
          assert (ss + [s])[i] == ss[i];
        }
      }
    }
  }

  /** The length of the shape `dddd-dd-ddTdd:dd:dd`, `d` standing for a decimal digit. */
  const IsoShapeLength: nat := 19

  predicate IsDigit(c: char) {
    '0' <= c <= '9'
  }

  /** Position `i` of `s` fits position `i` of the shape `dddd-dd-ddTdd:dd:dd`. */
  predicate FitsShapeAt(s: string, i: nat)
    requires i < |s| && i < IsoShapeLength
  {
    if i == 4 || i == 7 then s[i] == '-'
    else if i == 10 then s[i] == 'T'
    else if i == 13 || i == 16 then s[i] == ':'
    else IsDigit(s[i])
  }

  /** The test `/^\d{4}-\d{2}-\d{2}T\d{2}:\d{2}:\d{2}/.test(s)`, checked position by position from `i`. */
  function MatchesFrom(s: string, i: nat): (r: bool)
    requires i <= IsoShapeLength
    ensures r <==> IsoShapeLength <= |s| && forall k :: i <= k < IsoShapeLength ==> FitsShapeAt(s, k)
    decreases IsoShapeLength - i
  {
    if i == IsoShapeLength then IsoShapeLength <= |s|
    else i < |s| && FitsShapeAt(s, i) && MatchesFrom(s, i + 1)
  }

  /** A timestamp-looking string: it starts with a date, `T`, and a time to the second. */
  predicate LooksLikeDate(s: string) {
    MatchesFrom(s, 0)
  }

  /** A parsed JSON value as the reviver sees it. */
  datatype Json = JNull | JBool(b: bool) | JNum(n: real) | JStr(s: string) | JArr(items: seq<Json>) | JObj(fields: map<string, Json>)

  /** What the reviver hands back: a `Date` built from the text, or the value untouched. */
  datatype Revived = DateFrom(text: string) | Kept(value: Json)

  /** `dateReviver`: turns timestamp-looking strings into dates and passes everything else through. */
  function DateReviver(key: string, value: Json): (r: Revived)
    ensures r.DateFrom? <==> (
              && value.JStr? && |value.s| >= IsoShapeLength
              && forall k :: 0 <= k < IsoShapeLength ==> FitsShapeAt(value.s, k))
    ensures r.DateFrom? ==> r.text == value.s
    ensures r.Kept? ==> r.value == value
  {
    if value.JStr? && LooksLikeDate(value.s) then DateFrom(value.s) else Kept(value)
  }

  /** A full ISO timestamp converts. */
  lemma DateReviverConvertsTimestamp()
    ensures DateReviver("date", JStr("2024-01-02T03:04:05.678Z")) == DateFrom("2024-01-02T03:04:05.678Z")
  {
    var s := "2024-01-02T03:04:05.678Z";
    assert s[4] == s[7] == '-' && s[10] == 'T' && s[13] == s[16] == ':';
    assert forall k | 0 <= k < IsoShapeLength :: FitsShapeAt(s, k);
  }

  /** A bare date, a time without seconds and a number pass through unchanged. */
  lemma DateReviverKeepsOthers()
    ensures DateReviver("date", JStr("2024-01-02")) == Kept(JStr("2024-01-02"))
    ensures DateReviver("date", JStr("2024-01-02T03:04")) == Kept(JStr("2024-01-02T03:04"))
    ensures DateReviver("goal", JNum(108.0)) == Kept(JNum(108.0))
  {
  }
}

/**
 * The records the tracker stores: mantras (a title, a text, a daily repetition
 * goal and an optional category) and practice sessions (a repetition count
 * logged against one mantra at a local date and hour).
 */
module Model {
  import opened Wrappers

  /** A local hour of the day, as `Date.prototype.getHours` returns it. */
  type Hour = h: int | 0 <= h < 24

  /**
   * A session's local date: the calendar-day number and the hour. The day
   * number stands for the key `toISOString().split('T')[0]` of that local
   * midnight, so two stamps share a key exactly when they share a day.
   */
  datatype Stamp = Stamp(day: int, hour: Hour) {
    /** The position on the time line, in hours; orders stamps as `getTime` does. */
    function Instant(): int {
      day * 24 + hour
    }
  }

  datatype Mantra = Mantra(
    id: string,
    title: string,
    text: string,
    goal: int,
    category: Option<string>,
    createdAt: int,
    updatedAt: int)

  datatype Session = Session(id: string, mantraId: string, count: int, date: Stamp)

  /** What a caller of `addMantra` supplies: a mantra without id and timestamps. */
  datatype MantraDraft = MantraDraft(title: string, text: string, goal: int, category: Option<string>)

  /** What a caller of `addSession` supplies: a session without id. */
  datatype SessionDraft = SessionDraft(mantraId: string, count: int, date: Stamp)

  /**
   * A `Partial<Mantra>`: each field is either absent (`None`) or present with a
   * value. A present `category` may itself hold `undefined` (`Some(None)`).
   */
  datatype MantraPatch = MantraPatch(
    id: Option<string>,
    title: Option<string>,
    text: Option<string>,
    goal: Option<int>,
    category: Option<Option<string>>,
    createdAt: Option<int>)

  /** `{ ...m, ...patch, updatedAt: now }`: present fields win, the update time is `now`. */
  function ApplyPatch(m: Mantra, p: MantraPatch, now: int): (r: Mantra)
    ensures r.updatedAt == now
    ensures p.id.None? ==> r.id == m.id
    ensures p.id.Some? ==> r.id == p.id.value
    ensures p.title.None? ==> r.title == m.title
    ensures p.title.Some? ==> r.title == p.title.value
    ensures p.text.None? ==> r.text == m.text
    ensures p.text.Some? ==> r.text == p.text.value
    ensures p.goal.None? ==> r.goal == m.goal
    ensures p.goal.Some? ==> r.goal == p.goal.value
    ensures p.category.None? ==> r.category == m.category
    ensures p.category.Some? ==> r.category == p.category.value
    ensures p.createdAt.None? ==> r.createdAt == m.createdAt
    ensures p.createdAt.Some? ==> r.createdAt == p.createdAt.value
  {
    Mantra(
      p.id.GetOr(m.id),
      p.title.GetOr(m.title),
      p.text.GetOr(m.text),
      p.goal.GetOr(m.goal),
      p.category.GetOr(m.category),
      p.createdAt.GetOr(m.createdAt),
      now)
  }
}

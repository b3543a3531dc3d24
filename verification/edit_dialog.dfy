/**
 * The edit-mantra dialog: a form seeded from the mantra being edited, a
 * goal field read with `parseInt(value) || 1`, a submit that trims the title
 * and text and patches the stored mantra, and a cancel that restores the form.
 */
module EditDialog {
  import opened Wrappers
  import opened Text
  import opened Model
  import MS = MantraService

  datatype Form = Form(title: string, text: string, category: Option<string>, goal: int)

  /** The form before any mantra is loaded. */
  const InitialForm: Form := Form("", "", Some(""), 108)

  /** The form showing a mantra's fields. */
  function FormOf(m: Mantra): (r: Form)
    ensures r.title == m.title && r.text == m.text && r.category == m.category && r.goal == m.goal
  {
    Form(m.title, m.text, m.category, m.goal)
  }

  /** The effect on a change of the edited mantra: a present mantra replaces the form, `null` keeps it. */
  function Load(form: Form, mantra: Option<Mantra>): (r: Form)
    ensures mantra.None? ==> r == form
    ensures mantra.Some? ==> r == FormOf(mantra.value)
  {
    if mantra.Some? then FormOf(mantra.value) else form
  }

  // ------------------------------------------------------------ parseInt

  predicate IsDecimalDigit(c: char) {
    '0' <= c <= '9'
  }

  /** The length of the run of decimal digits that starts `s`. */
  function DigitRun(s: string): (r: nat)
    ensures r <= |s|
    ensures forall i :: 0 <= i < r ==> IsDecimalDigit(s[i])
    ensures r < |s| ==> !IsDecimalDigit(s[r])
  {
    if s != [] && IsDecimalDigit(s[0]) then 1 + DigitRun(s[1..]) else 0
  }

  /** The value of a string of decimal digits, most significant first. */
  function DigitsValue(ds: string): (r: int)
    requires forall i :: 0 <= i < |ds| ==> IsDecimalDigit(ds[i])
    ensures r >= 0
  {
    if ds == [] then 0
    else
      assert IsDecimalDigit(ds[|ds| - 1]);
      DigitsValue(ds[..|ds| - 1]) * 10 + (ds[|ds| - 1] as int - '0' as int)
  }

  /** A leading `-` makes the parsed number negative. */
  predicate Negative(t: string) {
    t != [] && t[0] == '-'
  }

  /** The text after at most one leading sign. */
  function Unsigned(t: string): (r: string)
    ensures r == t || (t != [] && (t[0] == '+' || t[0] == '-') && r == t[1..])
    ensures t != [] && (t[0] == '+' || t[0] == '-') ==> r == t[1..]
  {
    if t != [] && (t[0] == '+' || t[0] == '-') then t[1..] else t
  }

  /** The value of the leading run of digits, or `None` when there is none. */
  function LeadingDigits(u: string): (r: Option<int>)
    ensures r.None? <==> DigitRun(u) == 0
    ensures r.Some? ==> r.value == DigitsValue(u[..DigitRun(u)]) && r.value >= 0
  {
    var n := DigitRun(u);
    if n == 0 then None else Some(DigitsValue(u[..n]))
  }

  /**
   * `parseInt(s)` in base ten: leading white space, an optional sign, then
   * the longest run of digits; `None` (NaN) when that run is empty.
   */
  function ParseInt(s: string): (r: Option<int>)
    ensures r.None? <==> DigitRun(Unsigned(TrimStart(s))) == 0
    ensures r.Some? ==> var ds := Unsigned(TrimStart(s))[..DigitRun(Unsigned(TrimStart(s)))];
      r.value == if Negative(TrimStart(s)) then 0 - DigitsValue(ds) else DigitsValue(ds)
  {
    var t := TrimStart(s);
    match LeadingDigits(Unsigned(t))
    case None => None
    case Some(v) => Some(if Negative(t) then 0 - v else v)
  }

  /** Without a sign or leading white space, parsing reads the leading digits as they are. */
  lemma ParseIntUnsigned(s: string)
    requires s != [] && IsDecimalDigit(s[0])
    ensures ParseInt(s) == LeadingDigits(s)
  {
    NoLeadingSpace(s);
  }

  /** The digits of a natural number read back as that number. */
  lemma {:induction false} DigitsValueOfNatToString(n: nat)
    ensures forall i :: 0 <= i < |NatToString(n)| ==> IsDecimalDigit(NatToString(n)[i])
    ensures DigitsValue(NatToString(n)) == n
  {
    var ds := NatToString(n);
    if n >= 10 {
      DigitsValueOfNatToString(n / 10);
      assert ds[..|ds| - 1] == NatToString(n / 10);
    }
  }

  /** The run of digits covers a string made only of digits. */
  lemma {:induction false} DigitRunOfDigits(ds: string)
    requires forall i :: 0 <= i < |ds| ==> IsDecimalDigit(ds[i])
    ensures DigitRun(ds) == |ds|
  {
    if ds != [] {
      DigitRunOfDigits(ds[1..]);
    }
  }

  /** Text that starts with a digit or a sign has no leading white space to skip. */
  lemma NoLeadingSpace(t: string)
    requires t != [] && (IsDecimalDigit(t[0]) || t[0] == '-')
    ensures TrimStart(t) == t
  {
    assert !IsSpace(t[0]);
  }

  /** A string of digits parses to its value. */
  lemma ParseIntOfDigits(ds: string)
    requires ds != [] && forall i :: 0 <= i < |ds| ==> IsDecimalDigit(ds[i])
    ensures ParseInt(ds) == Some(DigitsValue(ds))
  {
    ParseIntUnsigned(ds);
    LeadingDigitsOfDigits(ds);
  }

  lemma LeadingDigitsOfDigits(ds: string)
    requires ds != [] && forall i :: 0 <= i < |ds| ==> IsDecimalDigit(ds[i])
    ensures LeadingDigits(ds) == Some(DigitsValue(ds))
  {
    DigitRunOfDigits(ds);
    assert ds[..DigitRun(ds)] == ds;
  }

  /** A `-` followed by digits parses to the digits' value negated. */
  lemma ParseIntOfNegatedDigits(t: string)
    requires |t| >= 2 && t[0] == '-' && forall i :: 1 <= i < |t| ==> IsDecimalDigit(t[i])
    ensures ParseInt(t) == Some(0 - DigitsValue(t[1..]))
  {
    NoLeadingSpace(t);
    var u := Unsigned(t);
    assert u == t[1..];
    DigitRunOfDigits(u);
    assert u[..DigitRun(u)] == u;
  }

  /** `parseInt(String(n)) === n`. */
  lemma ParseIntRoundTrip(n: nat)
    ensures ParseInt(NatToString(n)) == Some(n)
  {
    DigitsValueOfNatToString(n);
    ParseIntOfDigits(NatToString(n));
  }

  /** `parseInt(value) || 1`: NaN and zero both become a goal of one. */
  function GoalFromInput(value: string): (r: int)
    ensures r != 0
    ensures ParseInt(value).None? ==> r == 1
    ensures ParseInt(value).Some? && ParseInt(value).value != 0 ==> r == ParseInt(value).value
    ensures ParseInt(value) == Some(0) ==> r == 1
  {
    match ParseInt(value)
    case Some(n) => if n != 0 then n else 1
    case None => 1
  }

  /** A positive goal typed in decimal is read back unchanged. */
  lemma GoalFromInputRoundTrip(n: nat)
    requires n >= 1
    ensures GoalFromInput(NatToString(n)) == n
  {
    ParseIntRoundTrip(n);
  }

  // ------------------------------------------------------ submit and cancel

  datatype Outcome =
    | NoMantra          // nothing is being edited: the submit returns at once
    | MissingFields     // a blank title or text: an error toast, nothing saved
    | Saved(mantra: Mantra)
    | NotFound          // `updateMantra` found no mantra with the id

  /** What a submit leads to: the outcome, the store afterwards, and whether the dialog notifies and closes. */
  datatype Submitted = Submitted(outcome: Outcome, store: MS.Store, closes: bool)

  /** The patch the submit sends: trimmed title and text, the form's category and goal. */
  function PatchOf(form: Form): (r: MantraPatch)
    ensures r.id.None? && r.createdAt.None?
    ensures r.title == Some(Trim(form.title)) && r.text == Some(Trim(form.text))
    ensures r.category == Some(form.category) && r.goal == Some(form.goal)
  {
    MantraPatch(None, Some(Trim(form.title)), Some(Trim(form.text)), Some(form.goal), Some(form.category), None)
  }

  /**
   * `handleSubmit`: nothing without a mantra or with a blank title or text;
   * otherwise the patched mantra is saved and the dialog closes, unless no
   * stored mantra has the id.
   */
  function Submit(st: MS.Store, mantra: Option<Mantra>, form: Form, now: int): (r: Submitted)
    ensures mantra.None? ==> r == Submitted(NoMantra, st, false)
    ensures mantra.Some? && (AllSpace(form.title) || AllSpace(form.text)) ==> r == Submitted(MissingFields, st, false)
    ensures r.closes <==> r.outcome.Saved?
    ensures r.outcome.Saved? <==> (
              && mantra.Some? && !AllSpace(form.title) && !AllSpace(form.text)
              && exists i :: 0 <= i < |st.mantras| && st.mantras[i].id == mantra.value.id)
    ensures !r.outcome.Saved? ==> r.store == st
    ensures r.outcome.Saved? ==> r.store.sessions == st.sessions && |r.store.mantras| == |st.mantras|
    ensures r.outcome.Saved? ==> MS.UpdateMantra(st, mantra.value.id, PatchOf(form), now) == (Some(r.outcome.mantra), r.store)
    ensures r.outcome.Saved? ==>
      && r.outcome.mantra.title == Trim(form.title) && r.outcome.mantra.text == Trim(form.text)
      && r.outcome.mantra.category == form.category && r.outcome.mantra.goal == form.goal
      && r.outcome.mantra.id == mantra.value.id && r.outcome.mantra.updatedAt == now
  {
    if mantra.None? then Submitted(NoMantra, st, false)
    else if Trim(form.title) == [] || Trim(form.text) == [] then Submitted(MissingFields, st, false)
    else
      var (updated, st') := MS.UpdateMantra(st, mantra.value.id, PatchOf(form), now);
      if updated.Some? then Submitted(Saved(updated.value), st', true)
      else Submitted(NotFound, st', false)
  }

  /** `handleCancel`: the form shows the edited mantra again (if any) and the dialog closes. */
  function Cancel(form: Form, mantra: Option<Mantra>): (r: (Form, bool))
    ensures r.1
    ensures mantra.Some? ==> r.0 == FormOf(mantra.value)
    ensures mantra.None? ==> r.0 == form
  {
    (Load(form, mantra), true)
  }

  /** Cancelling after any edits leaves the form exactly as loading the mantra did. */
  lemma CancelUndoesEdits(edited: Form, loaded: Form, m: Mantra)
    ensures Cancel(edited, Some(m)).0 == Load(loaded, Some(m))
  {
  }
}

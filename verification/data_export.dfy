/**
 * The backup format: exporting the store with a little metadata, and
 * importing a parsed backup back, either replacing the saved lists or merging
 * into them. Imported records are kept as the JSON values they arrived as;
 * the JSON text parser and serializer are left to their callers.
 */
module DataExport {
  import opened Wrappers
  import opened Text
  import opened Model
  import opened Practice
  import MS = MantraService

  type Json = MS.Json

  const Version: string := "1.0.0"

  // ---------------------------------------------------------------- export

  datatype DateRange = DateRange(earliest: Option<Stamp>, latest: Option<Stamp>)

  datatype ExportData = ExportData(
    version: string,
    exportDate: int,
    mantras: seq<Mantra>,
    sessions: seq<Session>,
    totalMantras: nat,
    totalSessions: nat,
    dateRange: DateRange)

  /** `Math.min(...sessionDates)` as a stamp, or `null` when there is no session. */
  function Earliest(ss: seq<Session>): (r: Option<Stamp>)
    ensures r.None? <==> ss == []
    ensures r.Some? ==> exists i :: 0 <= i < |ss| && ss[i].date == r.value
    ensures r.Some? ==> forall i :: 0 <= i < |ss| ==> r.value.Instant() <= ss[i].date.Instant()
  {
    if ss == [] then None
    else
      var rest := Earliest(ss[1..]);
      if rest.Some? && rest.value.Instant() < ss[0].date.Instant() then
        assert forall i :: 1 <= i < |ss| ==> ss[i] == ss[1..][i - 1];
        rest
      else
        assert forall i :: 1 <= i < |ss| ==> ss[i] == ss[1..][i - 1];
        Some(ss[0].date)
  }

  /** `Math.max(...sessionDates)` as a stamp, or `null` when there is no session. */
  function Latest(ss: seq<Session>): (r: Option<Stamp>)
    ensures r.None? <==> ss == []
    ensures r.Some? ==> exists i :: 0 <= i < |ss| && ss[i].date == r.value
    ensures r.Some? ==> forall i :: 0 <= i < |ss| ==> ss[i].date.Instant() <= r.value.Instant()
  {
    if ss == [] then None
    else
      var rest := Latest(ss[1..]);
      if rest.Some? && ss[0].date.Instant() < rest.value.Instant() then
        assert forall i :: 1 <= i < |ss| ==> ss[i] == ss[1..][i - 1];
        rest
      else
        assert forall i :: 1 <= i < |ss| ==> ss[i] == ss[1..][i - 1];
        Some(ss[0].date)
  }

  /** `exportData`: the whole store, stamped with the version and the export time. */
  function Export(st: MS.Store, now: int): (r: ExportData)
    ensures r.version == Version && r.exportDate == now
    ensures r.mantras == st.mantras && r.sessions == st.sessions
    ensures r.totalMantras == |st.mantras| && r.totalSessions == |st.sessions|
    ensures r.dateRange.earliest.None? <==> st.sessions == []
    ensures r.dateRange.latest.None? <==> st.sessions == []
  {
    ExportData(Version, now, st.mantras, st.sessions, |st.mantras|, |st.sessions|,
               DateRange(Earliest(st.sessions), Latest(st.sessions)))
  }

  /** The exported range spans every session: earliest first, latest last, both actual session dates. */
  lemma DateRangeSpansSessions(st: MS.Store, now: int)
    requires st.sessions != []
    ensures var range := Export(st, now).dateRange;
      && range.earliest.Some? && range.latest.Some?
      && range.earliest.value.Instant() <= range.latest.value.Instant()
      && (forall i :: 0 <= i < |st.sessions| ==>
            range.earliest.value.Instant() <= st.sessions[i].date.Instant() <= range.latest.value.Instant())
  {
  }

  /** How `getExportSummary` sizes the backup; the one-decimal rendering is left out. */
  datatype SizeEstimate = Bytes(count: nat) | Kilobytes(kb: real) | Megabytes(mb: real)

  function EstimateSize(bytes: nat): (r: SizeEstimate)
    ensures r.Bytes? <==> bytes < 1024
    ensures r.Kilobytes? <==> 1024 <= bytes < 1024 * 1024
    ensures r.Megabytes? <==> 1024 * 1024 <= bytes
    ensures r.Bytes? ==> r.count == bytes
    ensures r.Kilobytes? ==> 1.0 <= r.kb < 1024.0 && r.kb * 1024.0 == bytes as real
    ensures r.Megabytes? ==> 1.0 <= r.mb && r.mb * (1024.0 * 1024.0) == bytes as real
  {
    if bytes < 1024 then Bytes(bytes)
    else if bytes < 1024 * 1024 then Kilobytes(bytes as real / 1024.0)
    else Megabytes(bytes as real / (1024.0 * 1024.0))
  }

  datatype Summary = Summary(mantras: nat, sessions: nat, size: SizeEstimate)

  /** `getExportSummary`; `bytes` is the size of the serialized export. */
  function ExportSummary(st: MS.Store, now: int, bytes: nat): (r: Summary)
    ensures r.mantras == |st.mantras| && r.sessions == |st.sessions|
    ensures r.size == EstimateSize(bytes)
  {
    var data := Export(st, now);
    Summary(|data.mantras|, |data.sessions|, EstimateSize(bytes))
  }

  // ---------------------------------------------------------- JSON values

  /** JavaScript truthiness of a property read; `None` is `undefined`. */
  predicate Truthy(v: Option<Json>) {
    match v
    case None => false
    case Some(j) =>
      match j
      case JNull => false
      case JBool(b) => b
      case JNum(n) => n != 0.0
      case JStr(s) => s != []
      case _ => true
  }

  /** Reading property `key` of a non-null value: only objects have the properties read here. */
  function Field(v: Json, key: string): (r: Option<Json>)
    ensures r.Some? <==> v.JObj? && key in v.fields
  {
    if v.JObj? && key in v.fields then Some(v.fields[key]) else None
  }

  predicate IsArray(v: Option<Json>) {
    v.Some? && v.value.JArr?
  }

  function Items(v: Option<Json>): seq<Json> {
    if IsArray(v) then v.value.items else []
  }

  predicate IsNumber(v: Option<Json>) {
    v.Some? && v.value.JNum?
  }

  /** The checks one mantra record must pass. */
  predicate MantraShaped(m: Json) {
    && Truthy(Field(m, "id")) && Truthy(Field(m, "title")) && Truthy(Field(m, "text"))
    && IsNumber(Field(m, "goal"))
  }

  /** The checks one session record must pass. */
  predicate SessionShaped(s: Json) {
    && Truthy(Field(s, "id")) && Truthy(Field(s, "mantraId")) && IsNumber(Field(s, "count"))
    && Truthy(Field(s, "date"))
  }

  // ------------------------------------------------------------ validation

  datatype Problem =
    | InvalidFormat
    | MissingVersion
    | InvalidMantras
    | InvalidSessions
    | BadMantra(index: nat)
    | BadSession(index: nat)

  function ProblemText(p: Problem): string {
    match p
    case InvalidFormat => "Invalid data format"
    case MissingVersion => "Missing version information"
    case InvalidMantras => "Invalid mantras data"
    case InvalidSessions => "Invalid sessions data"
    case BadMantra(i) => "Invalid mantra structure at index " + NatToString(i)
    case BadSession(i) => "Invalid session structure at index " + NatToString(i)
  }

  /** The indices from `from` on, in increasing order, of the items that fail `ok`. */
  function Flaws(items: seq<Json>, ok: Json -> bool, from: nat): (r: seq<nat>)
    requires from <= |items|
    ensures forall k :: 0 <= k < |r| ==> from <= r[k] < |items| && !ok(items[r[k]])
    ensures forall i :: from <= i < |items| && !ok(items[i]) ==> i in r
    ensures forall k :: 0 < k < |r| ==> r[k - 1] < r[k]
    decreases |items| - from
  {
    if from == |items| then []
    else
      var rest := Flaws(items, ok, from + 1);
      if ok(items[from]) then rest
      else
        FlawsCons(items, ok, from, rest);
        [from] + rest
  }

  lemma FlawsCons(items: seq<Json>, ok: Json -> bool, from: nat, rest: seq<nat>)
    requires from < |items| && !ok(items[from])
    requires forall k :: 0 <= k < |rest| ==> from + 1 <= rest[k] < |items| && !ok(items[rest[k]])
    requires forall k :: 0 < k < |rest| ==> rest[k - 1] < rest[k]
    ensures forall k :: 0 <= k < |[from] + rest| ==> from <= ([from] + rest)[k] < |items| && !ok(items[([from] + rest)[k]])
    ensures forall k :: 0 < k < |[from] + rest| ==> ([from] + rest)[k - 1] < ([from] + rest)[k]
  {
    var r := [from] + rest;
    forall k | 0 < k < |r| ensures r[k - 1] < r[k] {
      assert r[k] == rest[k - 1];
      if k > 1 {
        assert r[k - 1] == rest[k - 2];
      }
    }
  }

  /** No index is flawed exactly when every item passes. */
  lemma NoFlawsIff(items: seq<Json>, ok: Json -> bool, f: seq<nat>)
    requires forall k :: 0 <= k < |f| ==> f[k] < |items| && !ok(items[f[k]])
    requires forall i :: 0 <= i < |items| && !ok(items[i]) ==> i in f
    ensures f == [] <==> forall x :: x in items ==> ok(x)
  {
    if f != [] {
      assert items[f[0]] in items;
    } else {
      forall x | x in items ensures ok(x) {
        var i :| 0 <= i < |items| && items[i] == x;
        assert i !in f;
      }
    }
  }

  /** A failing index is listed by its problem once the problems follow the flaws one for one. */
  lemma EveryFlawListed(items: seq<Json>, ok: Json -> bool, f: seq<nat>, r: seq<Problem>, mk: nat -> Problem)
    requires |r| == |f| && forall k :: 0 <= k < |f| ==> r[k] == mk(f[k])
    requires forall i :: 0 <= i < |items| && !ok(items[i]) ==> i in f
    ensures forall i :: 0 <= i < |items| && !ok(items[i]) ==> mk(i) in r
  {
    forall i | 0 <= i < |items| && !ok(items[i]) ensures mk(i) in r {
      var k :| 0 <= k < |f| && f[k] == i;
      assert r[k] == mk(i);
    }
  }

  /** One `Invalid mantra structure` problem per failing record, by index. */
  function MantraProblems(items: seq<Json>): (r: seq<Problem>)
    ensures forall k :: 0 <= k < |r| ==> r[k].BadMantra? && r[k].index < |items| && !MantraShaped(items[r[k].index])
    ensures forall i :: 0 <= i < |items| && !MantraShaped(items[i]) ==> BadMantra(i) in r
    ensures r == [] <==> forall m :: m in items ==> MantraShaped(m)
  {
    var f := Flaws(items, MantraShaped, 0);
    var r := seq(|f|, k requires 0 <= k < |f| => BadMantra(f[k]));
    EveryFlawListed(items, MantraShaped, f, r, (i: nat) => BadMantra(i));
    NoFlawsIff(items, MantraShaped, f);
    assert r == [] <==> f == [];
    r
  }

  /** One `Invalid session structure` problem per failing record, by index. */
  function SessionProblems(items: seq<Json>): (r: seq<Problem>)
    ensures forall k :: 0 <= k < |r| ==> r[k].BadSession? && r[k].index < |items| && !SessionShaped(items[r[k].index])
    ensures forall i :: 0 <= i < |items| && !SessionShaped(items[i]) ==> BadSession(i) in r
    ensures r == [] <==> forall s :: s in items ==> SessionShaped(s)
  {
    var f := Flaws(items, SessionShaped, 0);
    var r := seq(|f|, k requires 0 <= k < |f| => BadSession(f[k]));
    EveryFlawListed(items, SessionShaped, f, r, (i: nat) => BadSession(i));
    NoFlawsIff(items, SessionShaped, f);
    assert r == [] <==> f == [];
    r
  }

  /** The problems with the top-level fields, in the order they are checked. */
  function FieldProblems(data: Json): (r: seq<Problem>)
    ensures MissingVersion in r <==> !Truthy(Field(data, "version"))
    ensures InvalidMantras in r <==> !IsArray(Field(data, "mantras"))
    ensures InvalidSessions in r <==> !IsArray(Field(data, "sessions"))
    ensures forall p :: p in r ==> p in {MissingVersion, InvalidMantras, InvalidSessions}
  {
    (if Truthy(Field(data, "version")) then [] else [MissingVersion])
    + (if IsArray(Field(data, "mantras")) then [] else [InvalidMantras])
    + (if IsArray(Field(data, "sessions")) then [] else [InvalidSessions])
  }

  /** The message of the `TypeError` a `null` record raises when its `id` is read. */
  const NullRead: string := "Cannot read properties of null (reading 'id')"

  /** A list whose record checks would read a property of `null`. */
  predicate HasNull(v: Option<Json>) {
    IsArray(v) && MS.JNull in Items(v)
  }

  /**
   * `validateImportData`: the list of problems found, in the order they are
   * pushed, or the message of the error raised on a `null` record.
   */
  function Validate(data: Json): (r: Result<seq<Problem>, string>)
    ensures !(data.JArr? || data.JObj?) ==> r == Success([InvalidFormat])
    ensures r.Failure? <==> (data.JArr? || data.JObj?) && (HasNull(Field(data, "mantras")) || HasNull(Field(data, "sessions")))
    ensures r.Failure? ==> r.error == NullRead
    ensures r.Success? && (data.JArr? || data.JObj?) ==>
      r.value == FieldProblems(data) + MantraProblems(Items(Field(data, "mantras"))) + SessionProblems(Items(Field(data, "sessions")))
  {
    if !(data.JArr? || data.JObj?) then Success([InvalidFormat])
    else if HasNull(Field(data, "mantras")) || HasNull(Field(data, "sessions")) then Failure(NullRead)
    else Success(FieldProblems(data) + MantraProblems(Items(Field(data, "mantras"))) + SessionProblems(Items(Field(data, "sessions"))))
  }

  /** Validation finds no problem exactly when every field and every record passes its checks. */
  lemma ValidateAcceptsIff(data: Json)
    ensures Validate(data) == Success([]) <==>
      && data.JObj?
      && Truthy(Field(data, "version"))
      && IsArray(Field(data, "mantras")) && IsArray(Field(data, "sessions"))
      && (forall m :: m in Items(Field(data, "mantras")) ==> MantraShaped(m))
      && (forall s :: s in Items(Field(data, "sessions")) ==> SessionShaped(s))
  {
    if data.JArr? {
      assert InvalidMantras in FieldProblems(data);
    }
    if data.JObj? && Validate(data).Success? {
      var fp := FieldProblems(data);
      var mp := MantraProblems(Items(Field(data, "mantras")));
      var sp := SessionProblems(Items(Field(data, "sessions")));
      assert Validate(data).value == fp + mp + sp;
      if fp + mp + sp == [] {
        assert fp == [] && mp == [] && sp == [];
      }
    }
  }

  // ---------------------------------------------------------------- import

  datatype Mode = Replace | Merge

  /** The lists the store holds, as the JSON records they were saved as. */
  datatype Saved = Saved(mantras: seq<Json>, sessions: seq<Json>)

  function IdOf(record: Json): Option<Json> {
    Field(record, "id")
  }

  /**
   * An id only another reference could match: arrays and objects are
   * compared by identity in a `Set`, and the saved records never share one
   * with an imported record.
   */
  predicate IsReference(id: Option<Json>) {
    id.Some? && (id.value.JArr? || id.value.JObj?)
  }

  /** `new Set(existing.map(r => r.id))`, keeping the ids a `has` can match. */
  function KnownIds(existing: seq<Json>): (r: set<Option<Json>>)
    ensures forall id :: id in r <==> !IsReference(id) && exists i :: 0 <= i < |existing| && IdOf(existing[i]) == id
  {
    set i | 0 <= i < |existing| && !IsReference(IdOf(existing[i])) :: IdOf(existing[i])
  }

  datatype Warning = MantraExists(title: Option<Json>) | SessionExists(id: Option<Json>)

  datatype Merged = Merged(records: seq<Json>, imported: nat, skipped: seq<Json>)

  /**
   * The merge loop of `importMantras` and `importSessions`: an incoming record
   * whose id was already saved is skipped, every other one is appended.
   */
  function MergeRecords(existing: seq<Json>, incoming: seq<Json>): (r: Merged)
    ensures r.records == existing + Filter(incoming, x => IdOf(x) !in KnownIds(existing))
    ensures r.skipped == Filter(incoming, x => IdOf(x) in KnownIds(existing))
    ensures r.imported + |r.skipped| == |incoming|
    ensures r.imported == |r.records| - |existing|
  {
    var ids := KnownIds(existing);
    var added := Filter(incoming, x => IdOf(x) !in ids);
    var skipped := Filter(incoming, x => IdOf(x) in ids);
    FilterPartition(incoming, x => IdOf(x) !in ids, x => IdOf(x) in ids);
    Merged(existing + added, |added|, skipped)
  }

  /** Nothing saved is dropped, and what is appended is exactly the incoming records with unsaved ids. */
  lemma MergeKeepsSavedRecords(existing: seq<Json>, incoming: seq<Json>)
    ensures existing <= MergeRecords(existing, incoming).records
    ensures forall x :: x in MergeRecords(existing, incoming).records[|existing|..] <==>
      x in incoming && IdOf(x) !in KnownIds(existing)
  {
    var r := MergeRecords(existing, incoming);
    assert r.records[|existing|..] == Filter(incoming, x => IdOf(x) !in KnownIds(existing));
  }

  /** Merging in records whose ids are all saved already changes nothing. */
  lemma MergeOfKnownIsNoOp(existing: seq<Json>, incoming: seq<Json>)
    requires forall x :: x in incoming ==> IdOf(x) in KnownIds(existing)
    ensures MergeRecords(existing, incoming).records == existing
    ensures MergeRecords(existing, incoming).imported == 0
    ensures MergeRecords(existing, incoming).skipped == incoming
  {
    var ids := KnownIds(existing);
    FilterKeepsAll(incoming, x => IdOf(x) in ids);
    FilterPartition(incoming, x => IdOf(x) !in ids, x => IdOf(x) in ids);
  }

  datatype ImportResult = ImportResult(
    success: bool,
    importedMantras: nat,
    importedSessions: nat,
    errors: seq<string>,
    warnings: seq<Warning>)

  const ParseFailurePrefix: string := "Failed to parse import data: "

  function Failed(errors: seq<string>): ImportResult {
    ImportResult(false, 0, 0, errors, [])
  }

  /** The records of one list after an import in `mode`, with the count imported and the records skipped. */
  function ImportList(existing: seq<Json>, incoming: seq<Json>, mode: Mode): (r: Merged)
    ensures mode == Replace ==> r == Merged(incoming, |incoming|, [])
    ensures mode == Merge ==> r == MergeRecords(existing, incoming)
  {
    if mode == Replace then Merged(incoming, |incoming|, []) else MergeRecords(existing, incoming)
  }

  /**
   * `importFromJSON`: `parsed` is what `JSON.parse` returned, or the message
   * of the error it raised. Returns the result and the saved lists afterwards.
   */
  function ImportFromJson(saved: Saved, parsed: Result<Json, string>, mode: Mode): (r: (ImportResult, Saved))
    ensures r.0.success <==> parsed.Success? && Validate(parsed.value) == Success([])
    ensures !r.0.success ==> r.1 == saved && r.0.importedMantras == 0 && r.0.importedSessions == 0
                             && r.0.warnings == [] && |r.0.errors| >= 1
    ensures parsed.Failure? ==> r.0.errors == [ParseFailurePrefix + parsed.error]
    ensures parsed.Success? && Validate(parsed.value).Failure? ==> r.0.errors == [ParseFailurePrefix + NullRead]
    ensures parsed.Success? && Validate(parsed.value).Success? ==>
      r.0.errors == seq(|Validate(parsed.value).value|, i requires 0 <= i < |Validate(parsed.value).value| =>
                          ProblemText(Validate(parsed.value).value[i]))
    ensures r.0.success ==>
      var mantras := ImportList(saved.mantras, Items(Field(parsed.value, "mantras")), mode);
      var sessions := ImportList(saved.sessions, Items(Field(parsed.value, "sessions")), mode);
      && r.1 == Saved(mantras.records, sessions.records)
      && r.0.importedMantras == mantras.imported && r.0.importedSessions == sessions.imported
      && |r.0.warnings| == |mantras.skipped| + |sessions.skipped|
      && (forall i :: 0 <= i < |mantras.skipped| ==>
            r.0.warnings[i] == MantraExists(Field(mantras.skipped[i], "title")))
      && (forall j :: 0 <= j < |sessions.skipped| ==>
            r.0.warnings[|mantras.skipped| + j] == SessionExists(IdOf(sessions.skipped[j])))
  {
    if parsed.Failure? then (Failed([ParseFailurePrefix + parsed.error]), saved)
    else
      var data := parsed.value;
      match Validate(data)
      case Failure(e) => (Failed([ParseFailurePrefix + e]), saved)
      case Success(problems) =>
        if problems != [] then
          (Failed(seq(|problems|, i requires 0 <= i < |problems| => ProblemText(problems[i]))), saved)
        else
          var mantras := ImportList(saved.mantras, Items(Field(data, "mantras")), mode);
          var sessions := ImportList(saved.sessions, Items(Field(data, "sessions")), mode);
          var warnings :=
            seq(|mantras.skipped|, i requires 0 <= i < |mantras.skipped| => MantraExists(Field(mantras.skipped[i], "title")))
            + seq(|sessions.skipped|, i requires 0 <= i < |sessions.skipped| => SessionExists(IdOf(sessions.skipped[i])));
          (ImportResult(true, mantras.imported, sessions.imported, [], warnings), Saved(mantras.records, sessions.records))
  }

  // ------------------------------------------------------- the backup file

  /**
   * The JSON object of a mantra as the export serializes it. `iso` renders a
   * time as `toISOString` does; an absent category is omitted.
   */
  function MantraJson(m: Mantra, iso: int -> string): Json {
    var base := map[
      "id" := MS.JStr(m.id), "title" := MS.JStr(m.title), "text" := MS.JStr(m.text),
      "goal" := MS.JNum(m.goal as real),
      "createdAt" := MS.JStr(iso(m.createdAt)), "updatedAt" := MS.JStr(iso(m.updatedAt))];
    MS.JObj(if m.category.Some? then base["category" := MS.JStr(m.category.value)] else base)
  }

  function SessionJson(s: Session, isoDate: Stamp -> string): Json {
    MS.JObj(map[
      "id" := MS.JStr(s.id), "mantraId" := MS.JStr(s.mantraId),
      "count" := MS.JNum(s.count as real), "date" := MS.JStr(isoDate(s.date))])
  }

  function MantrasJson(ms: seq<Mantra>, iso: int -> string): (r: seq<Json>)
    ensures |r| == |ms| && forall i :: 0 <= i < |ms| ==> r[i] == MantraJson(ms[i], iso)
  {
    seq(|ms|, i requires 0 <= i < |ms| => MantraJson(ms[i], iso))
  }

  function SessionsJson(ss: seq<Session>, isoDate: Stamp -> string): (r: seq<Json>)
    ensures |r| == |ss| && forall i :: 0 <= i < |ss| ==> r[i] == SessionJson(ss[i], isoDate)
  {
    seq(|ss|, i requires 0 <= i < |ss| => SessionJson(ss[i], isoDate))
  }

  function StampOrNull(s: Option<Stamp>, isoDate: Stamp -> string): Json {
    if s.Some? then MS.JStr(isoDate(s.value)) else MS.JNull
  }

  function MetadataJson(data: ExportData, isoDate: Stamp -> string): Json {
    MS.JObj(map[
      "totalMantras" := MS.JNum(data.totalMantras as real),
      "totalSessions" := MS.JNum(data.totalSessions as real),
      "dateRange" := MS.JObj(map[
        "earliest" := StampOrNull(data.dateRange.earliest, isoDate),
        "latest" := StampOrNull(data.dateRange.latest, isoDate)])])
  }

  /** The backup document `exportAsJSON` serializes. */
  function ExportJson(data: ExportData, iso: int -> string, isoDate: Stamp -> string): Json {
    MS.JObj(map[
      "version" := MS.JStr(data.version),
      "exportDate" := MS.JStr(iso(data.exportDate)),
      "mantras" := MS.JArr(MantrasJson(data.mantras, iso)),
      "sessions" := MS.JArr(SessionsJson(data.sessions, isoDate)),
      "metadata" := MetadataJson(data, isoDate)])
  }

  /** The backup document carries the version and both record lists. */
  lemma ExportJsonFields(data: ExportData, iso: int -> string, isoDate: Stamp -> string)
    ensures ExportJson(data, iso, isoDate).JObj?
    ensures Field(ExportJson(data, iso, isoDate), "version") == Some(MS.JStr(data.version))
    ensures Field(ExportJson(data, iso, isoDate), "mantras") == Some(MS.JArr(MantrasJson(data.mantras, iso)))
    ensures Field(ExportJson(data, iso, isoDate), "sessions") == Some(MS.JArr(SessionsJson(data.sessions, isoDate)))
  {
  }

  /** The records a backup can hold: every id, title, text and mantra reference is non-empty. */
  predicate Exportable(st: MS.Store) {
    && (forall i :: 0 <= i < |st.mantras| ==> st.mantras[i].id != [] && st.mantras[i].title != [] && st.mantras[i].text != [])
    && (forall i :: 0 <= i < |st.sessions| ==> st.sessions[i].id != [] && st.sessions[i].mantraId != [])
  }

  /** The exported object of a mantra carries its id, title, text and goal. */
  lemma MantraJsonFields(m: Mantra, iso: int -> string)
    ensures Field(MantraJson(m, iso), "id") == Some(MS.JStr(m.id))
    ensures Field(MantraJson(m, iso), "title") == Some(MS.JStr(m.title))
    ensures Field(MantraJson(m, iso), "text") == Some(MS.JStr(m.text))
    ensures Field(MantraJson(m, iso), "goal") == Some(MS.JNum(m.goal as real))
  {
    assert "category" != "id" && "category" != "title" && "category" != "text" && "category" != "goal";
  }

  /** The exported object of a session carries its id, mantra id, count and rendered date. */
  lemma SessionJsonFields(s: Session, isoDate: Stamp -> string)
    ensures Field(SessionJson(s, isoDate), "id") == Some(MS.JStr(s.id))
    ensures Field(SessionJson(s, isoDate), "mantraId") == Some(MS.JStr(s.mantraId))
    ensures Field(SessionJson(s, isoDate), "count") == Some(MS.JNum(s.count as real))
    ensures Field(SessionJson(s, isoDate), "date") == Some(MS.JStr(isoDate(s.date)))
  {
  }

  lemma ExportedRecordsAreShaped(st: MS.Store, iso: int -> string, isoDate: Stamp -> string)
    requires Exportable(st)
    requires forall d :: isoDate(d) != []
    ensures forall m :: m in MantrasJson(st.mantras, iso) ==> MantraShaped(m)
    ensures forall s :: s in SessionsJson(st.sessions, isoDate) ==> SessionShaped(s)
  {
    forall m | m in MantrasJson(st.mantras, iso) ensures MantraShaped(m) {
      var i :| 0 <= i < |st.mantras| && MantrasJson(st.mantras, iso)[i] == m;
      MantraJsonFields(st.mantras[i], iso);
    }
    forall s | s in SessionsJson(st.sessions, isoDate) ensures SessionShaped(s) {
      var i :| 0 <= i < |st.sessions| && SessionsJson(st.sessions, isoDate)[i] == s;
      SessionJsonFields(st.sessions[i], isoDate);
    }
  }

  /** A document with a non-empty version and two lists of well-shaped records passes validation. */
  lemma WellShapedValidates(doc: Json, version: string, ms: seq<Json>, ss: seq<Json>)
    requires doc.JObj? && version != []
    requires Field(doc, "version") == Some(MS.JStr(version))
    requires Field(doc, "mantras") == Some(MS.JArr(ms)) && Field(doc, "sessions") == Some(MS.JArr(ss))
    requires forall m :: m in ms ==> MantraShaped(m)
    requires forall s :: s in ss ==> SessionShaped(s)
    ensures Validate(doc) == Success([])
  {
    ValidateAcceptsIff(doc);
  }

  /** A backup of an exportable store passes validation. */
  lemma ExportValidates(st: MS.Store, now: int, iso: int -> string, isoDate: Stamp -> string)
    requires Exportable(st)
    requires forall d :: isoDate(d) != []
    ensures Validate(ExportJson(Export(st, now), iso, isoDate)) == Success([])
  {
    ExportedRecordsAreShaped(st, iso, isoDate);
    ExportJsonFields(Export(st, now), iso, isoDate);
    WellShapedValidates(ExportJson(Export(st, now), iso, isoDate), Version,
      MantrasJson(st.mantras, iso), SessionsJson(st.sessions, isoDate));
  }

  /** Importing a store's backup in replace mode saves exactly the store's records. */
  lemma ReplaceRestoresBackup(saved: Saved, st: MS.Store, now: int, iso: int -> string, isoDate: Stamp -> string)
    requires Exportable(st)
    requires forall d :: isoDate(d) != []
    ensures var r := ImportFromJson(saved, Success(ExportJson(Export(st, now), iso, isoDate)), Replace);
      && r.0.success && r.0.errors == [] && r.0.warnings == []
      && r.0.importedMantras == |st.mantras| && r.0.importedSessions == |st.sessions|
      && r.1 == Saved(MantrasJson(st.mantras, iso), SessionsJson(st.sessions, isoDate))
  {
    ExportValidates(st, now, iso, isoDate);
    ExportJsonFields(Export(st, now), iso, isoDate);
  }

  /** Records with value ids all find their own id among the saved ones. */
  lemma OwnIdsKnown(records: seq<Json>)
    requires forall i :: 0 <= i < |records| ==> !IsReference(IdOf(records[i]))
    ensures forall x :: x in records ==> IdOf(x) in KnownIds(records)
  {
  }

  /** Merging a list into itself, when no id is a reference, imports nothing and skips every record. */
  lemma MergeOwnList(records: seq<Json>)
    requires forall i :: 0 <= i < |records| ==> !IsReference(IdOf(records[i]))
    ensures ImportList(records, records, Merge) == Merged(records, 0, records)
  {
    OwnIdsKnown(records);
    MergeOfKnownIsNoOp(records, records);
  }

  /** The exported lists carry value ids only. */
  lemma ExportedIdsAreValues(st: MS.Store, iso: int -> string, isoDate: Stamp -> string)
    ensures forall i :: 0 <= i < |st.mantras| ==> !IsReference(IdOf(MantrasJson(st.mantras, iso)[i]))
    ensures forall i :: 0 <= i < |st.sessions| ==> !IsReference(IdOf(SessionsJson(st.sessions, isoDate)[i]))
  {
    forall i | 0 <= i < |st.mantras| ensures !IsReference(IdOf(MantrasJson(st.mantras, iso)[i])) {
      MantraJsonFields(st.mantras[i], iso);
    }
    forall i | 0 <= i < |st.sessions| ensures !IsReference(IdOf(SessionsJson(st.sessions, isoDate)[i])) {
      SessionJsonFields(st.sessions[i], isoDate);
    }
  }

  /** Merging a backup of what is already saved imports nothing and changes nothing. */
  lemma MergeOfOwnBackupIsNoOp(st: MS.Store, now: int, iso: int -> string, isoDate: Stamp -> string)
    requires Exportable(st)
    requires forall d :: isoDate(d) != []
    ensures var saved := Saved(MantrasJson(st.mantras, iso), SessionsJson(st.sessions, isoDate));
      var r := ImportFromJson(saved, Success(ExportJson(Export(st, now), iso, isoDate)), Merge);
      && r.0.success && r.1 == saved
      && r.0.importedMantras == 0 && r.0.importedSessions == 0
      && |r.0.warnings| == |st.mantras| + |st.sessions|
  {
    var doc := ExportJson(Export(st, now), iso, isoDate);
    var ms := MantrasJson(st.mantras, iso);
    var ss := SessionsJson(st.sessions, isoDate);
    ExportValidates(st, now, iso, isoDate);
    ExportJsonFields(Export(st, now), iso, isoDate);
    assert Items(Field(doc, "mantras")) == ms;
    assert Items(Field(doc, "sessions")) == ss;
    ExportedIdsAreValues(st, iso, isoDate);
    MergeOwnList(ms);
    MergeOwnList(ss);
  }
}

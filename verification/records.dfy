/** One target's record (`TargetState` in state.py) and its conversion to
    and from the dictionary the snapshot stores (`to_dict` / `from_dict`). */
module Records {
  import opened Wrappers
  import opened Stages

  /** Timestamps are opaque ISO strings supplied by the caller. */
  type Timestamp = string

  datatype TargetState = TargetState(
    target: string,
    stage: ScanStage,
    directory: string,
    liveHosts: seq<string>,
    openPorts: Option<string>,
    targetUrls: seq<string>,
    nucleiStatus: Option<NucleiStatus>,
    startedAt: Timestamp,
    completedAt: Option<Timestamp>,
    error: Option<string>)

  /** `TargetState(target=…, stage=…, directory=…)`: the dataclass defaults
      followed by `__post_init__`, which turns the two list fields into empty
      lists and stamps `started_at` with the current time. */
  function NewTarget(target: string, stage: ScanStage, directory: string, now: Timestamp): (r: TargetState)
    ensures r.target == target && r.stage == stage && r.directory == directory
    ensures r.liveHosts == [] && r.targetUrls == []
    ensures r.openPorts == None && r.nucleiStatus == None
    ensures r.completedAt == None && r.error == None
    ensures r.startedAt == now
  {
    TargetState(target, stage, directory, [], None, [], None, now, None, None)
  }

  // ---------------------------------------------------------------------
  // The dictionary form

  /** The JSON values a record's fields take: a string, `null`, a list of
      strings, or anything else JSON allows. */
  datatype Json = JNull | JString(s: string) | JStrings(items: seq<string>) | JOther

  type Dict = map<string, Json>

  /** The dataclass's field names, which are the dictionary's keys. */
  const FieldNames: set<string> := {
    "target", "stage", "directory", "live_hosts", "open_ports", "target_urls",
    "nuclei_status", "started_at", "completed_at", "error"
  }

  function OptionalString(v: Option<string>): Json {
    match v
    case Some(s) => JString(s)
    case None => JNull
  }

  /** `asdict(record)`, with the stage and nuclei status as their stored names. */
  function ToDict(r: TargetState): (d: Dict)
    ensures d.Keys == FieldNames
    ensures d["stage"] == JString(StageName(r.stage))
  {
    map[
      "target" := JString(r.target),
      "stage" := JString(StageName(r.stage)),
      "directory" := JString(r.directory),
      "live_hosts" := JStrings(r.liveHosts),
      "open_ports" := OptionalString(r.openPorts),
      "target_urls" := JStrings(r.targetUrls),
      "nuclei_status" := OptionalString(if r.nucleiStatus.Some? then Some(NucleiStatusName(r.nucleiStatus.value)) else None),
      "started_at" := JString(r.startedAt),
      "completed_at" := OptionalString(r.completedAt),
      "error" := OptionalString(r.error)
    ]
  }

  /** A required string field: missing or of another type fails. */
  function RequiredString(d: Dict, key: string): Option<string> {
    if key in d && d[key].JString? then Some(d[key].s) else None
  }

  /** An optional string field: missing or `null` is `None` (outer `Some`),
      another type fails (outer `None`). */
  function OptionalStringField(d: Dict, key: string): Option<Option<string>> {
    if key !in d || d[key].JNull? then Some(None)
    else if d[key].JString? then Some(Some(d[key].s))
    else None
  }

  /** A list field: missing or `null` becomes `[]` as `__post_init__` does. */
  function ListField(d: Dict, key: string): Option<seq<string>> {
    if key !in d || d[key].JNull? then Some([])
    else if d[key].JStrings? then Some(d[key].items)
    else None
  }

  /** The field values of a dictionary, read but not yet interpreted. */
  datatype RawRecord = RawRecord(
    target: string, stage: string, directory: string, liveHosts: seq<string>,
    openPorts: Option<string>, targetUrls: seq<string>, nucleiStatus: Option<string>,
    startedAt: Option<string>, completedAt: Option<string>, error: Option<string>)

  /** Reads every field with its expected JSON type; a wrongly typed or missing
      required field fails. */
  function ReadRaw(d: Dict): Option<RawRecord> {
    var target := RequiredString(d, "target");
    var stage := RequiredString(d, "stage");
    var directory := RequiredString(d, "directory");
    var liveHosts := ListField(d, "live_hosts");
    var openPorts := OptionalStringField(d, "open_ports");
    var targetUrls := ListField(d, "target_urls");
    var nuclei := OptionalStringField(d, "nuclei_status");
    var startedAt := OptionalStringField(d, "started_at");
    var completedAt := OptionalStringField(d, "completed_at");
    var error := OptionalStringField(d, "error");
    if target.None? || stage.None? || directory.None? || liveHosts.None? || openPorts.None?
      || targetUrls.None? || nuclei.None? || startedAt.None? || completedAt.None? || error.None?
    then None
    else Some(RawRecord(
      target.value, stage.value, directory.value, liveHosts.value, openPorts.value,
      targetUrls.value, nuclei.value, startedAt.value, completedAt.value, error.value))
  }

  /** Interprets the stage and nuclei-status names and applies `__post_init__`. */
  function DecodeRaw(raw: RawRecord, now: Timestamp): Option<TargetState> {
    var stage := StageNamed(raw.stage);
    var nuclei := if raw.nucleiStatus.Some? then NucleiStatusNamed(raw.nucleiStatus.value) else None;
    if stage.None? || (raw.nucleiStatus.Some? && nuclei.None?) then None
    else Some(TargetState(
      raw.target, stage.value, raw.directory, raw.liveHosts, raw.openPorts,
      raw.targetUrls, nuclei, raw.startedAt.GetOr(now), raw.completedAt, raw.error))
  }

  /** `TargetState.from_dict(d)`, i.e. `TargetState(**d)`: an unknown key or a
      missing `target`/`stage`/`directory` raises TypeError (`None` here);
      absent optional fields take their defaults and a missing `started_at`
      is stamped with `now`. */
  function FromDict(d: Dict, now: Timestamp): (r: Option<TargetState>)
    ensures r.Some? ==> d.Keys <= FieldNames
    ensures r.Some? ==> "target" in d && "stage" in d && "directory" in d
    ensures r.Some? ==> d["stage"] == JString(StageName(r.value.stage))
  {
    if !(d.Keys <= FieldNames) then None
    else
      match ReadRaw(d)
      case None => None
      case Some(raw) => DecodeRaw(raw, now)
  }

  /** `key` holds a string. */
  predicate HoldsString(d: Dict, key: string) {
    key in d && d[key].JString?
  }

  /** `key` is absent, `null` or a string. */
  predicate HoldsStringOrNothing(d: Dict, key: string) {
    key !in d || d[key].JNull? || d[key].JString?
  }

  /** `key` is absent, `null` or a list of strings. */
  predicate HoldsListOrNothing(d: Dict, key: string) {
    key !in d || d[key].JNull? || d[key].JStrings?
  }

  /** The dictionaries a record can be built from: only field names as keys,
      the three required fields as strings, a known stage name, each list
      field a list or nothing, each optional field a string or nothing, and a
      nuclei status, when given, a known name. */
  predicate Loadable(d: Dict) {
    && d.Keys <= FieldNames
    && HoldsString(d, "target") && HoldsString(d, "stage") && HoldsString(d, "directory")
    && StageNamed(d["stage"].s).Some?
    && HoldsListOrNothing(d, "live_hosts") && HoldsListOrNothing(d, "target_urls")
    && HoldsStringOrNothing(d, "open_ports") && HoldsStringOrNothing(d, "nuclei_status")
    && HoldsStringOrNothing(d, "started_at") && HoldsStringOrNothing(d, "completed_at")
    && HoldsStringOrNothing(d, "error")
    && (HoldsString(d, "nuclei_status") ==> NucleiStatusNamed(d["nuclei_status"].s).Some?)
  }

  /** The string `key` holds, if it holds one. */
  function StringIn(d: Dict, key: string): Option<string> {
    if HoldsString(d, key) then Some(d[key].s) else None
  }

  /** The list `key` holds, or the empty list. */
  function ListIn(d: Dict, key: string): seq<string> {
    if key in d && d[key].JStrings? then d[key].items else []
  }

  /** A record is built exactly from a loadable dictionary, and then every
      field is the one stored under its key: absent lists are empty, absent
      optional fields are unset, and a missing `started_at` becomes `now`. */
  lemma FromDictReads(d: Dict, now: Timestamp)
    ensures FromDict(d, now).Some? <==> Loadable(d)
    ensures FromDict(d, now).Some? ==>
      var r := FromDict(d, now).value;
      && r.target == d["target"].s && r.directory == d["directory"].s
      && StageName(r.stage) == d["stage"].s
      && r.liveHosts == ListIn(d, "live_hosts") && r.targetUrls == ListIn(d, "target_urls")
      && r.openPorts == StringIn(d, "open_ports")
      && r.completedAt == StringIn(d, "completed_at")
      && r.error == StringIn(d, "error")
      && r.startedAt == StringIn(d, "started_at").GetOr(now)
      && (r.nucleiStatus.Some? <==> HoldsString(d, "nuclei_status"))
      && (r.nucleiStatus.Some? ==> NucleiStatusName(r.nucleiStatus.value) == d["nuclei_status"].s)
  {
    if d.Keys <= FieldNames && ReadRaw(d).Some? {
      var raw := ReadRaw(d).value;
      assert raw.target == d["target"].s && raw.stage == d["stage"].s && raw.directory == d["directory"].s;
      assert raw.liveHosts == ListIn(d, "live_hosts") && raw.targetUrls == ListIn(d, "target_urls");
      assert raw.openPorts == StringIn(d, "open_ports") && raw.nucleiStatus == StringIn(d, "nuclei_status");
      assert raw.startedAt == StringIn(d, "started_at") && raw.completedAt == StringIn(d, "completed_at");
      assert raw.error == StringIn(d, "error");
    }
  }

  /** Reading back a written record gives the record itself: `started_at` is
      always set once a record exists, so `now` is never consulted. */
  lemma DictRoundTrip(r: TargetState, now: Timestamp)
    ensures FromDict(ToDict(r), now) == Some(r)
  {
    var d := ToDict(r);
    var nuclei := if r.nucleiStatus.Some? then Some(NucleiStatusName(r.nucleiStatus.value)) else None;
    var raw := RawRecord(
      r.target, StageName(r.stage), r.directory, r.liveHosts, r.openPorts,
      r.targetUrls, nuclei, Some(r.startedAt), r.completedAt, r.error);
    assert RequiredString(d, "target") == Some(r.target);
    assert RequiredString(d, "stage") == Some(StageName(r.stage));
    assert RequiredString(d, "directory") == Some(r.directory);
    assert ListField(d, "live_hosts") == Some(r.liveHosts);
    assert ListField(d, "target_urls") == Some(r.targetUrls);
    assert OptionalStringField(d, "open_ports") == Some(r.openPorts);
    assert OptionalStringField(d, "nuclei_status") == Some(nuclei);
    assert OptionalStringField(d, "started_at") == Some(Some(r.startedAt));
    assert OptionalStringField(d, "completed_at") == Some(r.completedAt);
    assert OptionalStringField(d, "error") == Some(r.error);
    assert ReadRaw(d) == Some(raw);
    StageNameRoundTrip(r.stage);
    if r.nucleiStatus.Some? {
      NucleiStatusNameRoundTrip(r.nucleiStatus.value);
    }
  }

  /** The dictionary of the test suite's `test_target_from_dict` minus
      optional keys: the absent lists become empty and `started_at` is stamped. */
  lemma MinimalDictTakesDefaults(target: string, directory: string, now: Timestamp)
    ensures FromDict(map["target" := JString(target), "stage" := JString("pending"), "directory" := JString(directory)], now)
         == Some(NewTarget(target, Pending, directory, now))
  {
    var d := map["target" := JString(target), "stage" := JString("pending"), "directory" := JString(directory)];
    assert d.Keys <= FieldNames;
    assert ReadRaw(d) == Some(RawRecord(target, "pending", directory, [], None, [], None, None, None, None));
    StageNameRoundTrip(Pending);
  }
}

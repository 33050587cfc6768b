/** The scan-state registry (`ScanState` in state.py): every target's record
    keyed by target id, an index of ids by stage kept alongside the records
    so that readiness queries need not scan them, and the set of ids that sit
    in a work queue. Every mutator is a pure function from registry to
    registry; the snapshot file is the `Save`/`Load` pair. */
module Registry {
  import opened Wrappers
  import opened Stages
  import opened Records

  type Index = map<ScanStage, set<string>>

  datatype ScanState = ScanState(
    targets: map<string, TargetState>,
    index: Index,
    queued: set<string>)

  /** `_stage_index.get(stage, set())`: a stage without an entry has no ids. */
  function Members(index: Index, s: ScanStage): set<string> {
    if s in index then index[s] else {}
  }

  /** The ids whose record is at stage `s`, read off the records themselves. */
  function IdsAt(targets: map<string, TargetState>, s: ScanStage): set<string> {
    set id | id in targets && targets[id].stage == s
  }

  /** The registry's invariant: for every stage the index holds exactly the
      ids of the records at that stage, so the index partitions the ids. */
  ghost predicate Valid(st: ScanState) {
    forall s :: Members(st.index, s) == IdsAt(st.targets, s)
  }

  /** Replacing one record changes the stage partition only for that id. */
  lemma IdsAtUpdate(targets: map<string, TargetState>, id: string, rec: TargetState, s: ScanStage)
    ensures IdsAt(targets[id := rec], s) == (IdsAt(targets, s) - {id}) + (if rec.stage == s then {id} else {})
  {
  }

  /** Records whose stages are unchanged keep the index valid. */
  lemma SameStagesKeepValid(st: ScanState, targets: map<string, TargetState>)
    requires Valid(st)
    requires targets.Keys == st.targets.Keys
    requires forall id :: id in targets ==> targets[id].stage == st.targets[id].stage
    ensures Valid(st.(targets := targets))
  {
    forall s ensures Members(st.index, s) == IdsAt(targets, s) {
      assert IdsAt(targets, s) == IdsAt(st.targets, s);
    }
  }

  /** Only the record of `id` may differ between `st` and `r`; the index and
      the queued set are those of `st`. */
  ghost predicate OnlyRecordChanged(st: ScanState, r: ScanState, id: string) {
    && r.index == st.index
    && r.queued == st.queued
    && r.targets.Keys == st.targets.Keys
    && forall k :: k in st.targets && k != id ==> r.targets[k] == st.targets[k]
  }

  /** A registry with no targets, as the constructor leaves it when there is
      no snapshot to load. */
  function Empty(): (st: ScanState)
    ensures Valid(st)
    ensures st.targets == map[] && st.queued == {}
  {
    ScanState(map[], map[], {})
  }

  // ---------------------------------------------------------------------
  // Mutators

  /** `add_target`: a new id gets a fresh `pending` record and joins the
      pending index; an id already present is left untouched. */
  function AddTarget(st: ScanState, id: string, directory: string, now: Timestamp): (r: ScanState)
    ensures id in st.targets ==> r == st
    ensures r.targets.Keys == st.targets.Keys + {id}
    ensures forall k :: k in st.targets ==> r.targets[k] == st.targets[k]
    ensures id !in st.targets ==> r.targets[id] == NewTarget(id, Pending, directory, now)
    ensures r.queued == st.queued
    ensures Valid(st) ==> Valid(r) && id in IdsAt(r.targets, r.targets[id].stage)
  {
    if id in st.targets then st
    else
      var r := ScanState(
        st.targets[id := NewTarget(id, Pending, directory, now)],
        st.index[Pending := Members(st.index, Pending) + {id}],
        st.queued);
      assert Valid(st) ==> Valid(r) by {
        if Valid(st) {
          forall s ensures Members(r.index, s) == IdsAt(r.targets, s) {
            IdsAtUpdate(st.targets, id, NewTarget(id, Pending, directory, now), s);
          }
        }
      }
      r
  }

  /** Adding the same id twice is adding it once, whatever the second
      directory and time. */
  lemma AddTargetIdempotent(st: ScanState, id: string, d1: string, d2: string, t1: Timestamp, t2: Timestamp)
    ensures AddTarget(AddTarget(st, id, d1, t1), id, d2, t2) == AddTarget(st, id, d1, t1)
  {
  }

  /** `update_stage`: the id leaves its old stage's index entry (when that
      entry exists) and joins the new one, the record takes the new stage,
      a non-empty `error` overwrites the stored error, and the four stages
      of `StampsCompletion` stamp `completed_at`. An unknown id is a no-op. */
  function UpdateStage(st: ScanState, id: string, stage: ScanStage, error: string, now: Timestamp): (r: ScanState)
    ensures id !in st.targets ==> r == st
    ensures r.targets.Keys == st.targets.Keys && r.queued == st.queued
    ensures forall k :: k in st.targets && k != id ==> r.targets[k] == st.targets[k]
    ensures id in st.targets ==>
      var before, after := st.targets[id], r.targets[id];
      && after.stage == stage
      && after.error == (if error != "" then Some(error) else before.error)
      && after.completedAt == (if StampsCompletion(stage) then Some(now) else before.completedAt)
      && after == before.(stage := stage, error := after.error, completedAt := after.completedAt)
    ensures Valid(st) ==> Valid(r)
  {
    if id !in st.targets then st
    else
      var rec := st.targets[id];
      var oldStage := rec.stage;
      var dropped := if oldStage in st.index then st.index[oldStage := st.index[oldStage] - {id}] else st.index;
      var index := dropped[stage := Members(dropped, stage) + {id}];
      var updated := rec.(
        stage := stage,
        error := if error != "" then Some(error) else rec.error,
        completedAt := if StampsCompletion(stage) then Some(now) else rec.completedAt);
      var r := ScanState(st.targets[id := updated], index, st.queued);
      assert Valid(st) ==> Valid(r) by {
        if Valid(st) {
          forall s ensures Members(r.index, s) == IdsAt(r.targets, s) {
            IdsAtUpdate(st.targets, id, updated, s);
            assert id in IdsAt(st.targets, oldStage);
            assert Members(dropped, s) == Members(st.index, s) - (if s == oldStage then {id} else {});
          }
        }
      }
      r
  }

  /** After `update_stage` the id is indexed under the new stage and under no
      other: it has left its old stage's set. */
  lemma UpdateStageMovesId(st: ScanState, id: string, stage: ScanStage, error: string, now: Timestamp, s: ScanStage)
    requires Valid(st) && id in st.targets
    ensures id in Members(UpdateStage(st, id, stage, error, now).index, s) <==> s == stage
  {
    var r := UpdateStage(st, id, stage, error, now);
    assert Members(r.index, s) == IdsAt(r.targets, s);
  }

  /** `set_live_hosts`. */
  function SetLiveHosts(st: ScanState, id: string, hosts: seq<string>): (r: ScanState)
    ensures id !in st.targets ==> r == st
    ensures OnlyRecordChanged(st, r, id)
    ensures id in st.targets ==> r.targets[id] == st.targets[id].(liveHosts := hosts)
    ensures Valid(st) ==> Valid(r)
  {
    if id !in st.targets then st
    else
      var r := st.(targets := st.targets[id := st.targets[id].(liveHosts := hosts)]);
      assert Valid(st) ==> Valid(r) by {
        if Valid(st) { SameStagesKeepValid(st, r.targets); }
      }
      r
  }

  /** `set_open_ports`. */
  function SetOpenPorts(st: ScanState, id: string, ports: string): (r: ScanState)
    ensures id !in st.targets ==> r == st
    ensures OnlyRecordChanged(st, r, id)
    ensures id in st.targets ==> r.targets[id] == st.targets[id].(openPorts := Some(ports))
    ensures Valid(st) ==> Valid(r)
  {
    if id !in st.targets then st
    else
      var r := st.(targets := st.targets[id := st.targets[id].(openPorts := Some(ports))]);
      assert Valid(st) ==> Valid(r) by {
        if Valid(st) { SameStagesKeepValid(st, r.targets); }
      }
      r
  }

  /** `set_target_urls`. */
  function SetTargetUrls(st: ScanState, id: string, urls: seq<string>): (r: ScanState)
    ensures id !in st.targets ==> r == st
    ensures OnlyRecordChanged(st, r, id)
    ensures id in st.targets ==> r.targets[id] == st.targets[id].(targetUrls := urls)
    ensures Valid(st) ==> Valid(r)
  {
    if id !in st.targets then st
    else
      var r := st.(targets := st.targets[id := st.targets[id].(targetUrls := urls)]);
      assert Valid(st) ==> Valid(r) by {
        if Valid(st) { SameStagesKeepValid(st, r.targets); }
      }
      r
  }

  /** `set_nuclei_status`: the nuclei axis moves, the stage axis does not. */
  function SetNucleiStatus(st: ScanState, id: string, status: NucleiStatus): (r: ScanState)
    ensures id !in st.targets ==> r == st
    ensures OnlyRecordChanged(st, r, id)
    ensures id in st.targets ==> r.targets[id] == st.targets[id].(nucleiStatus := Some(status))
    ensures Valid(st) ==> Valid(r)
  {
    if id !in st.targets then st
    else
      var r := st.(targets := st.targets[id := st.targets[id].(nucleiStatus := Some(status))]);
      assert Valid(st) ==> Valid(r) by {
        if Valid(st) { SameStagesKeepValid(st, r.targets); }
      }
      r
  }

  /** `mark_queued`: set insertion; nothing else changes. */
  function MarkQueued(st: ScanState, id: string): (r: ScanState)
    ensures r.queued == st.queued + {id}
    ensures r.targets == st.targets && r.index == st.index
    ensures Valid(st) ==> Valid(r)
  {
    st.(queued := st.queued + {id})
  }

  /** `mark_dequeued`: set removal (`discard`, so absent ids are fine). */
  function MarkDequeued(st: ScanState, id: string): (r: ScanState)
    ensures r.queued == st.queued - {id}
    ensures r.targets == st.targets && r.index == st.index
    ensures Valid(st) ==> Valid(r)
  {
    st.(queued := st.queued - {id})
  }

  // ---------------------------------------------------------------------
  // Queries

  /** `get_targets_by_stage`, as a set (the source lists the set in its
      iteration order, which nothing depends on). */
  function TargetsByStage(st: ScanState, s: ScanStage): (r: set<string>)
    ensures Valid(st) ==> r == IdsAt(st.targets, s)
    ensures Valid(st) ==> forall id :: id in r ==> id in st.targets && st.targets[id].stage == s
  {
    Members(st.index, s)
  }

  /** Which records a stage's queue accepts, stated on the record alone:
      host discovery takes `pending`, port discovery takes
      `host_discovery_complete`, service scan takes `port_discovery_complete`,
      nuclei takes `service_scan_complete` with no nuclei status yet; no other
      stage has a queue. */
  predicate ReadyRecord(rec: TargetState, stage: ScanStage) {
    match stage
    case HostDiscovery => rec.stage == Pending
    case PortDiscovery => rec.stage == HostDiscoveryComplete
    case ServiceScan => rec.stage == PortDiscoveryComplete
    case NucleiScan => rec.stage == ServiceScanComplete && rec.nucleiStatus.None?
    case _ => false
  }

  /** The ids `get_targets_ready_for_stage` reads off the index, before the
      queued ones are taken out. */
  function IndexedReady(st: ScanState, stage: ScanStage): set<string> {
    if stage == HostDiscovery then Members(st.index, Pending)
    else if stage == PortDiscovery then Members(st.index, HostDiscoveryComplete)
    else if stage == ServiceScan then Members(st.index, PortDiscoveryComplete)
    else if stage == NucleiScan then
      set t | t in Members(st.index, ServiceScanComplete) && t in st.targets && st.targets[t].nucleiStatus.None?
    else {}
  }

  /** Over a valid registry, reading the index is reading the records. */
  lemma IndexedReadyMeaning(st: ScanState, stage: ScanStage, id: string)
    requires Valid(st)
    ensures id in IndexedReady(st, stage) <==> id in st.targets && ReadyRecord(st.targets[id], stage)
  {
    if stage == HostDiscovery {
      assert Members(st.index, Pending) == IdsAt(st.targets, Pending);
    } else if stage == PortDiscovery {
      assert Members(st.index, HostDiscoveryComplete) == IdsAt(st.targets, HostDiscoveryComplete);
    } else if stage == ServiceScan {
      assert Members(st.index, PortDiscoveryComplete) == IdsAt(st.targets, PortDiscoveryComplete);
    } else if stage == NucleiScan {
      assert Members(st.index, ServiceScanComplete) == IdsAt(st.targets, ServiceScanComplete);
    }
  }

  /** `get_targets_ready_for_stage`: read off the index, then filtered by the
      queued set. Over a valid registry it is exactly the unqueued ids whose
      record `ReadyRecord` accepts. */
  function ReadyFor(st: ScanState, stage: ScanStage): (r: set<string>)
    ensures r !! st.queued
    ensures Valid(st) ==> forall id :: id in r <==> id in st.targets && id !in st.queued && ReadyRecord(st.targets[id], stage)
  {
    var r := set t | t in IndexedReady(st, stage) && t !in st.queued;
    assert Valid(st) ==> forall id :: id in r <==> id in st.targets && id !in st.queued && ReadyRecord(st.targets[id], stage) by {
      if Valid(st) {
        forall id ensures id in r <==> id in st.targets && id !in st.queued && ReadyRecord(st.targets[id], stage) {
          IndexedReadyMeaning(st, stage, id);
        }
      }
    }
    r
  }

  /** A queued id is never offered again until it is dequeued ... */
  lemma QueuedNotOffered(st: ScanState, id: string, stage: ScanStage)
    ensures id !in ReadyFor(MarkQueued(st, id), stage)
  {
  }

  /** ... and once dequeued, a target still eligible is offered again. */
  lemma DequeueReoffers(st: ScanState, id: string, stage: ScanStage)
    requires Valid(st) && id in st.targets && ReadyRecord(st.targets[id], stage)
    ensures id in ReadyFor(MarkDequeued(st, id), stage)
  {
    assert Valid(MarkDequeued(st, id));
  }

  // ---------------------------------------------------------------------
  // Completion

  /** Statuses after which a target needs no more nuclei work: the set the
      nuclei worker's completion check accepts. */
  predicate NucleiSettled(n: Option<NucleiStatus>) {
    n == Some(NucleiComplete) || n == Some(NucleiFailed)
      || n == Some(SkippedNoTargets) || n == Some(SkippedNoHosts)
  }

  /** `is_target_complete` on one record, as written: the six terminal
      stages, and `service_scan_complete` with nuclei complete, failed or
      never set. */
  predicate CompleteAsWritten(rec: TargetState) {
    || IsTerminal(rec.stage)
    || (rec.stage == ServiceScanComplete
        && rec.nucleiStatus in {Some(NucleiComplete), Some(NucleiFailed), None})
  }

  /** The completion rule the scheduler needs: the six terminal stages, and
      `service_scan_complete` once the nuclei side has finished or been
      skipped. An unset nuclei status means nuclei has not run yet. */
  predicate Settled(rec: TargetState) {
    IsTerminal(rec.stage) || (rec.stage == ServiceScanComplete && NucleiSettled(rec.nucleiStatus))
  }

  /** The stages the program itself writes into a record; the five
      nuclei-named stage values only label queues and statuses. */
  predicate WrittenStage(s: ScanStage) {
    s !in {NucleiScan, NucleiQueuedStage, NucleiRunningStage, NucleiCompleteStage, NucleiFailedStage}
  }

  /** The record is in a stage only a running handler sets: one of the three
      nmap stages, or nuclei queued or running. During a run a worker holds
      such a target; a record loaded from a snapshot saved mid-step sits
      there with no worker at all. */
  predicate MidStage(rec: TargetState) {
    || rec.stage in {HostDiscovery, PortDiscovery, ServiceScan}
    || (rec.stage == ServiceScanComplete && rec.nucleiStatus in {Some(NucleiQueued), Some(NucleiRunning)})
  }

  /** The four stages that have a queue. */
  const QueueStages: seq<ScanStage> := [HostDiscovery, PortDiscovery, ServiceScan, NucleiScan]

  /** The corrected rule means what completion should mean: for a record in a
      stage the program writes, it is settled exactly when no queue would
      take it and it is not mid-step. */
  lemma SettledMeansNoWorkLeft(rec: TargetState)
    requires WrittenStage(rec.stage)
    ensures Settled(rec) <==> (forall q :: q in QueueStages ==> !ReadyRecord(rec, q)) && !MidStage(rec)
  {
    if !Settled(rec) && !MidStage(rec) {
      assert rec.stage in {Pending, HostDiscoveryComplete, PortDiscoveryComplete, ServiceScanComplete};
      if rec.stage == ServiceScanComplete {
        NucleiStatusCases(rec.nucleiStatus);
        assert ReadyRecord(rec, QueueStages[3]);
      } else if rec.stage == Pending {
        assert ReadyRecord(rec, QueueStages[0]);
      } else if rec.stage == HostDiscoveryComplete {
        assert ReadyRecord(rec, QueueStages[1]);
      } else {
        assert ReadyRecord(rec, QueueStages[2]);
      }
    }
  }

  /** Every nuclei status is unset, settled, or queued or running. */
  lemma NucleiStatusCases(n: Option<NucleiStatus>)
    ensures n.None? || NucleiSettled(n) || n in {Some(NucleiQueued), Some(NucleiRunning)}
  {
    if n.Some? {
      match n.value
      case NucleiQueued =>
      case NucleiRunning =>
      case NucleiComplete =>
      case NucleiFailed =>
      case SkippedNoTargets =>
      case SkippedNoHosts =>
    }
  }

  /** How the rule as written departs from the corrected one: it also
      accepts `service_scan_complete` with nuclei never set, and it rejects
      the two `skipped_*` statuses. */
  lemma AsWrittenVersusSettled(rec: TargetState)
    ensures CompleteAsWritten(rec) <==>
      || (Settled(rec) && !(rec.stage == ServiceScanComplete && rec.nucleiStatus in {Some(SkippedNoTargets), Some(SkippedNoHosts)}))
      || (rec.stage == ServiceScanComplete && rec.nucleiStatus.None?)
  {
  }

  /** The rule as written calls a target complete that the nuclei queue
      would still take. */
  lemma AsWrittenCompleteButNucleiReady(target: string, directory: string, now: Timestamp)
    ensures var rec := NewTarget(target, ServiceScanComplete, directory, now);
      CompleteAsWritten(rec) && ReadyRecord(rec, NucleiScan) && !Settled(rec)
  {
  }

  /** Which completion rule a caller applies. */
  datatype CompletionRule = AsWritten | Corrected

  predicate RecordComplete(rec: TargetState, rule: CompletionRule) {
    match rule
    case AsWritten => CompleteAsWritten(rec)
    case Corrected => Settled(rec)
  }

  /** `is_target_complete`, as written: unknown ids are not complete. */
  function IsTargetComplete(st: ScanState, id: string): (r: bool)
    ensures id !in st.targets ==> !r
    ensures id in st.targets && IsTerminal(st.targets[id].stage) ==> r
    ensures id in st.targets && st.targets[id].stage == ServiceScanComplete ==>
      (r <==> st.targets[id].nucleiStatus in {Some(NucleiComplete), Some(NucleiFailed), None})
    ensures id in st.targets && !IsTerminal(st.targets[id].stage) && st.targets[id].stage != ServiceScanComplete ==> !r
  {
    id in st.targets && CompleteAsWritten(st.targets[id])
  }

  /** The corrected completion check: known, and no work left for it. */
  function IsTargetSettled(st: ScanState, id: string): (r: bool)
    ensures r ==> id in st.targets
    ensures id in st.targets && WrittenStage(st.targets[id].stage) ==>
      (r <==> (forall q :: q in QueueStages ==> !ReadyRecord(st.targets[id], q)) && !MidStage(st.targets[id]))
  {
    if id in st.targets then
      var rec := st.targets[id];
      assert WrittenStage(rec.stage) ==>
        (Settled(rec) <==> (forall q :: q in QueueStages ==> !ReadyRecord(rec, q)) && !MidStage(rec)) by {
        if WrittenStage(rec.stage) { SettledMeansNoWorkLeft(rec); }
      }
      Settled(rec)
    else false
  }

  /** `get_incomplete_targets` under either rule, as a set of ids. */
  function IncompleteTargets(st: ScanState, rule: CompletionRule): (r: set<string>)
    ensures r <= st.targets.Keys
    ensures forall id :: id in st.targets ==> (id in r <==> !RecordComplete(st.targets[id], rule))
    ensures rule == AsWritten ==> forall id :: id in st.targets ==> (id in r <==> !IsTargetComplete(st, id))
    ensures rule == Corrected ==> forall id :: id in st.targets ==> (id in r <==> !IsTargetSettled(st, id))
  {
    set id | id in st.targets && !RecordComplete(st.targets[id], rule)
  }

  // ---------------------------------------------------------------------
  // Rebuilding the index and the snapshot

  /** The stages that occur among the records. */
  function StagesOf(targets: map<string, TargetState>): set<ScanStage> {
    set id | id in targets :: targets[id].stage
  }

  /** The index `_rebuild_stage_index` produces, defined directly: one entry
      per stage that occurs, holding the ids at that stage. */
  function BuildIndex(targets: map<string, TargetState>): (index: Index)
    ensures forall s :: Members(index, s) == IdsAt(targets, s)
    ensures forall s :: s in index ==> index[s] != {}
  {
    var index := map s | s in StagesOf(targets) :: IdsAt(targets, s);
    assert forall s :: Members(index, s) == IdsAt(targets, s) by {
      forall s ensures Members(index, s) == IdsAt(targets, s) {
        if id :| id in IdsAt(targets, s) {
          assert targets[id].stage in StagesOf(targets);
        }
      }
    }
    assert forall s :: s in index ==> index[s] != {} by {
      forall s | s in index ensures index[s] != {} {
        var id :| id in targets && targets[id].stage == s;
        assert id in IdsAt(targets, s);
      }
    }
    index
  }

  /** Two indexes without empty entries that agree on every stage's members
      are the same map. */
  lemma SameMembersSameIndex(a: Index, b: Index)
    requires forall s :: Members(a, s) == Members(b, s)
    requires forall s :: s in a ==> a[s] != {}
    requires forall s :: s in b ==> b[s] != {}
    ensures a == b
  {
    forall s ensures s in a <==> s in b {
      assert Members(a, s) == Members(b, s);
    }
    forall s | s in a ensures a[s] == b[s] {
      assert Members(a, s) == Members(b, s);
    }
  }

  /** The index holds, with no empty entry, exactly the ids outside `rest`. */
  ghost predicate IndexedExcept(index: Index, targets: map<string, TargetState>, rest: set<string>) {
    && (forall s :: Members(index, s) == IdsAt(targets, s) - rest)
    && (forall s :: s in index ==> index[s] != {})
  }

  /** Adding one more id under its record's stage keeps `IndexedExcept`. */
  lemma IndexStep(index: Index, targets: map<string, TargetState>, rest: set<string>, id: string)
    requires id in rest && rest <= targets.Keys
    requires IndexedExcept(index, targets, rest)
    ensures var stage := targets[id].stage;
      IndexedExcept(index[stage := Members(index, stage) + {id}], targets, rest - {id})
  {
    var stage := targets[id].stage;
    var next := index[stage := Members(index, stage) + {id}];
    forall s ensures Members(next, s) == IdsAt(targets, s) - (rest - {id}) {
      assert Members(index, s) == IdsAt(targets, s) - rest;
    }
  }

  /** With nothing left, the index is the one `BuildIndex` defines. */
  lemma IndexedAll(index: Index, targets: map<string, TargetState>)
    requires IndexedExcept(index, targets, {})
    ensures index == BuildIndex(targets)
  {
    var built := BuildIndex(targets);
    forall s ensures Members(index, s) == Members(built, s) {
      assert IdsAt(targets, s) - {} == IdsAt(targets, s);
    }
    SameMembersSameIndex(index, built);
  }

  /** `_rebuild_stage_index`: clear the index, then add every id under its
      record's stage, creating an entry the first time a stage is seen. */
  method RebuildIndex(targets: map<string, TargetState>) returns (index: Index)
    ensures index == BuildIndex(targets)
  {
    index := map[];
    var rest := targets.Keys;
    while rest != {}
      invariant rest <= targets.Keys
      invariant IndexedExcept(index, targets, rest)
      decreases |rest|
    {
      var id :| id in rest;
      var stage := targets[id].stage;
      IndexStep(index, targets, rest, id);
      index := index[stage := Members(index, stage) + {id}];
      rest := rest - {id};
    }
    IndexedAll(index, targets);
  }

  /** Rebuilding restores the invariant for any set of records. */
  lemma RebuiltIndexIsValid(targets: map<string, TargetState>, queued: set<string>)
    ensures Valid(ScanState(targets, BuildIndex(targets), queued))
  {
  }

  /** The rebuilt index and an incrementally maintained valid index have the
      same members at every stage; they may differ only in empty entries
      that `discard` leaves behind. */
  lemma RebuildAgreesWithIncremental(st: ScanState, s: ScanStage)
    requires Valid(st)
    ensures Members(BuildIndex(st.targets), s) == Members(st.index, s)
  {
  }

  /** The snapshot's `targets` object: each record's dictionary under its id. */
  function Save(st: ScanState): (snap: map<string, Dict>)
    ensures snap.Keys == st.targets.Keys
    ensures forall id :: id in snap ==> snap[id].Keys == FieldNames
  {
    map id | id in st.targets :: ToDict(st.targets[id])
  }

  /** The constructor: `_load_if_exists` then `_rebuild_stage_index`. A
      missing or unreadable snapshot (`None`), or one in which any record
      fails `from_dict`, leaves the registry empty; the queued set always
      starts empty. */
  function Load(snapshot: Option<map<string, Dict>>, now: Timestamp): (st: ScanState)
    ensures Valid(st)
    ensures st.queued == {}
    ensures snapshot.None? ==> st.targets == map[]
    ensures snapshot.Some? && (exists id :: id in snapshot.value && FromDict(snapshot.value[id], now).None?) ==> st.targets == map[]
    ensures snapshot.Some? && (forall id :: id in snapshot.value ==> FromDict(snapshot.value[id], now).Some?) ==>
      st.targets.Keys == snapshot.value.Keys
    ensures snapshot.Some? && (forall id :: id in snapshot.value ==> FromDict(snapshot.value[id], now).Some?) ==>
      forall id :: id in st.targets ==> Some(st.targets[id]) == FromDict(snapshot.value[id], now)
  {
    var targets :=
      if snapshot.Some? && forall id :: id in snapshot.value ==> FromDict(snapshot.value[id], now).Some?
      then map id | id in snapshot.value :: FromDict(snapshot.value[id], now).value
      else map[];
    ScanState(targets, BuildIndex(targets), {})
  }

  /** Saving and loading back gives the same records and, over a valid
      registry, the same index members at every stage; only the queued set
      is forgotten. */
  lemma SaveLoadRoundTrip(st: ScanState, now: Timestamp)
    ensures Load(Some(Save(st)), now).targets == st.targets
    ensures Load(Some(Save(st)), now).queued == {}
    ensures Valid(st) ==> forall s :: Members(Load(Some(Save(st)), now).index, s) == Members(st.index, s)
  {
    var snap := Save(st);
    assert forall id :: id in snap ==> FromDict(snap[id], now) == Some(st.targets[id]) by {
      forall id | id in snap ensures FromDict(snap[id], now) == Some(st.targets[id]) {
        DictRoundTrip(st.targets[id], now);
      }
    }
    LoadReadable(snap, st.targets, now);
  }

  /** A snapshot whose every record reads back loads those records. */
  lemma LoadReadable(snap: map<string, Dict>, targets: map<string, TargetState>, now: Timestamp)
    requires snap.Keys == targets.Keys
    requires forall id :: id in snap ==> FromDict(snap[id], now) == Some(targets[id])
    ensures Load(Some(snap), now).targets == targets
  {
  }

  // ---------------------------------------------------------------------
  // Resuming a run stopped mid-step

  /** A record as a resumed run should take it up: a step that was cut off
      is undone, so the record goes back to the stage its queue takes, and
      a nuclei run that was queued or running is forgotten. */
  function Rewound(rec: TargetState): (r: TargetState)
    ensures !MidStage(r)
    ensures !MidStage(rec) ==> r == rec
    ensures rec.stage in {HostDiscovery, PortDiscovery, ServiceScan} ==> ReadyRecord(r, rec.stage)
    ensures rec.stage == ServiceScanComplete && MidStage(rec) ==> ReadyRecord(r, NucleiScan)
    ensures r == rec.(stage := r.stage, nucleiStatus := r.nucleiStatus)
    ensures WrittenStage(rec.stage) ==> WrittenStage(r.stage)
  {
    match rec.stage
    case HostDiscovery => rec.(stage := Pending)
    case PortDiscovery => rec.(stage := HostDiscoveryComplete)
    case ServiceScan => rec.(stage := PortDiscoveryComplete)
    case _ => if MidStage(rec) then rec.(nucleiStatus := None) else rec
  }

  /** Every record rewound, with the index rebuilt to match. */
  function ResetInterrupted(st: ScanState): (r: ScanState)
    ensures Valid(r)
    ensures r.targets.Keys == st.targets.Keys && r.queued == st.queued
    ensures forall id :: id in st.targets ==> r.targets[id] == Rewound(st.targets[id])
  {
    var targets := map id | id in st.targets :: Rewound(st.targets[id]);
    ScanState(targets, BuildIndex(targets), st.queued)
  }
}

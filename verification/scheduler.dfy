/** One pass of the orchestrator loop (`_orchestrate` in scanner.py): stop
    when no target is incomplete, otherwise hand every ready target to the
    queue of its next stage — host discovery, port discovery, service scan,
    then nuclei — marking it queued so it is not handed out twice. The
    order within one stage follows set iteration, which is left open. */
module Scheduler {
  import opened Wrappers
  import opened Stages
  import opened Records
  import opened Registry
  import opened Workers

  /** `order` lists every id of `ids` exactly once. */
  predicate Enumerates(order: seq<string>, ids: set<string>) {
    && |order| == |ids|
    && (forall k :: 0 <= k < |order| ==> order[k] in ids)
    && (forall x :: x in ids ==> x in order)
    && (forall i, j :: 0 <= i < j < |order| ==> order[i] != order[j])
  }

  /** The nmap-queue items for a run of ids bound for one stage. */
  function Tasks(ids: seq<string>, stage: ScanStage): (ts: seq<NmapTask>)
    ensures |ts| == |ids|
    ensures forall k :: 0 <= k < |ids| ==> ts[k] == NmapTask(ids[k], StageName(stage))
  {
    seq(|ids|, k requires 0 <= k < |ids| => NmapTask(ids[k], StageName(stage)))
  }

  /** What one pass puts on the nmap queue: host-discovery tasks first,
      then port discovery, then service scans. */
  function NmapQueueItems(hosts: seq<string>, ports: seq<string>, services: seq<string>): seq<NmapTask> {
    Tasks(hosts, HostDiscovery) + Tasks(ports, PortDiscovery) + Tasks(services, ServiceScan)
  }

  /** The ids among the first `i` of `order`. */
  function Handed(order: seq<string>, i: nat): (r: set<string>)
    requires i <= |order|
    ensures forall x :: x in r <==> exists k :: 0 <= k < i && order[k] == x
  {
    set k | 0 <= k < i :: order[k]
  }

  lemma HandedStep(order: seq<string>, i: nat)
    requires i < |order|
    ensures Handed(order, i + 1) == Handed(order, i) + {order[i]}
  {
  }

  lemma HandedAll(order: seq<string>, ids: set<string>)
    requires Enumerates(order, ids)
    ensures Handed(order, |order|) == ids
  {
    forall x | x in ids ensures x in Handed(order, |order|) {
      var k :| 0 <= k < |order| && order[k] == x;
    }
  }

  /** Set iteration: some order in which every id comes up exactly once. */
  method Enumerate(ids: set<string>) returns (order: seq<string>)
    ensures Enumerates(order, ids)
  {
    order := [];
    var rest := ids;
    while rest != {}
      invariant rest <= ids
      invariant |order| + |rest| == |ids|
      invariant forall k :: 0 <= k < |order| ==> order[k] in ids && order[k] !in rest
      invariant forall x :: x in ids ==> x in rest || x in order
      invariant forall i, j :: 0 <= i < j < |order| ==> order[i] != order[j]
      decreases |rest|
    {
      var id :| id in rest;
      order := order + [id];
      rest := rest - {id};
    }
  }

  /** `put` then `mark_queued` for each id of a stage's ready set. */
  method EnqueueNmap(st: ScanState, ids: set<string>) returns (r: ScanState, order: seq<string>)
    ensures Enumerates(order, ids)
    ensures r.queued == st.queued + ids
    ensures r.targets == st.targets && r.index == st.index
  {
    order := Enumerate(ids);
    r := st;
    for i := 0 to |order|
      invariant r.queued == st.queued + Handed(order, i)
      invariant r.targets == st.targets && r.index == st.index
    {
      HandedStep(order, i);
      r := MarkQueued(r, order[i]);
    }
    HandedAll(order, ids);
  }

  /** The records with every id of `ids` carrying `nuclei_queued`. */
  function WithNucleiQueued(targets: map<string, TargetState>, ids: set<string>): map<string, TargetState> {
    map id | id in targets :: if id in ids then targets[id].(nucleiStatus := Some(NucleiQueued)) else targets[id]
  }

  /** Setting the status of one more id extends the set of queued ids. */
  lemma WithNucleiQueuedStep(targets: map<string, TargetState>, ids: set<string>, id: string)
    ensures var before := WithNucleiQueued(targets, ids);
      WithNucleiQueued(targets, ids + {id})
        == if id in targets then before[id := targets[id].(nucleiStatus := Some(NucleiQueued))] else before
  {
  }

  /** `put`, `mark_queued` and `set_nuclei_status(…, "nuclei_queued")` for
      each id of the nuclei ready set. */
  method EnqueueNuclei(st: ScanState, ids: set<string>) returns (r: ScanState, order: seq<string>)
    ensures Enumerates(order, ids)
    ensures r.queued == st.queued + ids
    ensures r.index == st.index && r.targets.Keys == st.targets.Keys
    ensures forall id :: id in st.targets ==>
      r.targets[id] == if id in ids then st.targets[id].(nucleiStatus := Some(NucleiQueued)) else st.targets[id]
    ensures Valid(st) ==> Valid(r)
  {
    order := Enumerate(ids);
    r := st;
    for i := 0 to |order|
      invariant r.queued == st.queued + Handed(order, i)
      invariant r.index == st.index && r.targets == WithNucleiQueued(st.targets, Handed(order, i))
    {
      HandedStep(order, i);
      var id := order[i];
      WithNucleiQueuedStep(st.targets, Handed(order, i), id);
      r := SetNucleiStatus(MarkQueued(r, id), id, NucleiQueued);
    }
    HandedAll(order, ids);
    if Valid(st) {
      SameStagesKeepValid(st, r.targets);
      assert r == st.(targets := r.targets, queued := r.queued);
    }
  }

  /** Marking one more id queued removes it from every ready set and
      leaves the rest as they were. */
  lemma ReadyAfterMarkQueued(st: ScanState, id: string, stage: ScanStage)
    requires Valid(st)
    ensures ReadyFor(MarkQueued(st, id), stage) == ReadyFor(st, stage) - {id}
  {
    var s := MarkQueued(st, id);
    assert Valid(s);
    forall x ensures x in ReadyFor(s, stage) <==> x in ReadyFor(st, stage) - {id} {
    }
  }

  /** Queuing ids ready for one stage does not change who is ready for a
      different stage: no record is ready for two stages. */
  lemma ReadyUnaffected(st: ScanState, ids: set<string>, queued: ScanStage, stage: ScanStage)
    requires Valid(st) && queued != stage
    requires ids <= ReadyFor(st, queued)
    ensures ReadyFor(st.(queued := st.queued + ids), stage) == ReadyFor(st, stage)
  {
    var s := st.(queued := st.queued + ids);
    assert Valid(s);
    forall x ensures x in ReadyFor(s, stage) <==> x in ReadyFor(st, stage) {
      if x in ids {
        assert ReadyRecord(st.targets[x], queued);
      }
    }
  }

  /** One pass of the loop under a completion rule: `done` when no target
      is incomplete (nothing is queued then); otherwise the four ready sets
      of the registry as it stood, each handed out exactly once, in stage
      order. Afterwards no target is ready for any queue. */
  method Tick(st: ScanState, rule: CompletionRule)
    returns (done: bool, r: ScanState, hosts: seq<string>, ports: seq<string>, services: seq<string>, nuclei: seq<string>)
    requires Valid(st)
    ensures done <==> IncompleteTargets(st, rule) == {}
    ensures done ==> r == st && hosts == [] && ports == [] && services == [] && nuclei == []
    ensures !done ==>
      && Enumerates(hosts, ReadyFor(st, HostDiscovery))
      && Enumerates(ports, ReadyFor(st, PortDiscovery))
      && Enumerates(services, ReadyFor(st, ServiceScan))
      && Enumerates(nuclei, ReadyFor(st, NucleiScan))
    ensures !done ==>
      r.queued == st.queued + ReadyFor(st, HostDiscovery) + ReadyFor(st, PortDiscovery)
                            + ReadyFor(st, ServiceScan) + ReadyFor(st, NucleiScan)
    ensures r.targets.Keys == st.targets.Keys
    ensures forall id :: id in st.targets ==>
      r.targets[id] == if !done && id in ReadyFor(st, NucleiScan)
                       then st.targets[id].(nucleiStatus := Some(NucleiQueued))
                       else st.targets[id]
    ensures Valid(r)
    ensures !done ==> forall q :: q in QueueStages ==> ReadyFor(r, q) == {}
  {
    if IncompleteTargets(st, rule) == {} {
      return true, st, [], [], [], [];
    }
    done := false;
    var readyHosts := ReadyFor(st, HostDiscovery);
    var s1;
    s1, hosts := EnqueueNmap(st, readyHosts);
    assert s1 == st.(queued := st.queued + readyHosts);
    assert Valid(s1);
    ReadyUnaffected(st, readyHosts, HostDiscovery, PortDiscovery);
    ReadyUnaffected(st, readyHosts, HostDiscovery, ServiceScan);
    ReadyUnaffected(st, readyHosts, HostDiscovery, NucleiScan);

    var readyPorts := ReadyFor(s1, PortDiscovery);
    var s2;
    s2, ports := EnqueueNmap(s1, readyPorts);
    assert s2 == s1.(queued := s1.queued + readyPorts);
    assert Valid(s2);
    ReadyUnaffected(s1, readyPorts, PortDiscovery, ServiceScan);
    ReadyUnaffected(s1, readyPorts, PortDiscovery, NucleiScan);

    var readyServices := ReadyFor(s2, ServiceScan);
    var s3;
    s3, services := EnqueueNmap(s2, readyServices);
    assert s3 == s2.(queued := s2.queued + readyServices);
    assert Valid(s3);
    ReadyUnaffected(s2, readyServices, ServiceScan, NucleiScan);

    var readyNuclei := ReadyFor(s3, NucleiScan);
    r, nuclei := EnqueueNuclei(s3, readyNuclei);
    NothingLeftReady(st, r);
  }

  /** After a pass every id ready at its start is queued and every id
      ready for nuclei carries `nuclei_queued`, so no queue would take
      anything. */
  lemma NothingLeftReady(st: ScanState, r: ScanState)
    requires Valid(st) && Valid(r)
    requires r.targets.Keys == st.targets.Keys
    requires r.queued == st.queued + ReadyFor(st, HostDiscovery) + ReadyFor(st, PortDiscovery)
                                   + ReadyFor(st, ServiceScan) + ReadyFor(st, NucleiScan)
    requires forall id :: id in st.targets ==>
      r.targets[id] == if id in ReadyFor(st, NucleiScan)
                       then st.targets[id].(nucleiStatus := Some(NucleiQueued))
                       else st.targets[id]
    ensures forall q :: q in QueueStages ==> ReadyFor(r, q) == {}
  {
    forall q, x | q in QueueStages ensures x !in ReadyFor(r, q) {
    }
  }

  /** A task the loop puts on the nmap queue reaches its stage's handler. */
  lemma HostTaskReachesHandler(st: ScanState, id: string, w: NmapWorld, now: Timestamp)
    requires w.fault.None?
    ensures NmapWorkerStep(st, NmapTask(id, StageName(HostDiscovery)), w, now)
      == AfterHostDiscovery(MarkDequeued(st, id), id, w.run, w.gnmap, w.saved, now)
  {
  }

  lemma PortTaskReachesHandler(st: ScanState, id: string, w: NmapWorld, now: Timestamp)
    requires w.fault.None?
    ensures NmapWorkerStep(st, NmapTask(id, StageName(PortDiscovery)), w, now)
      == AfterPortDiscovery(MarkDequeued(st, id), id, w.run, w.xml, now)
  {
    assert StageName(PortDiscovery) != StageName(HostDiscovery);
  }

  lemma ServiceTaskReachesHandler(st: ScanState, id: string, w: NmapWorld, now: Timestamp)
    requires w.fault.None?
    ensures NmapWorkerStep(st, NmapTask(id, StageName(ServiceScan)), w, now)
      == AfterServiceScan(MarkDequeued(st, id), id, w.run, now)
  {
    assert StageName(ServiceScan) != StageName(HostDiscovery);
    assert StageName(ServiceScan) != StageName(PortDiscovery);
  }

  // ---------------------------------------------------------------------
  // When the loop stops

  /** Under the corrected rule the loop stops exactly when, over records in
      stages the program writes, no queue would take any target and none is
      mid-step. In a run started from an empty registry a mid-step record
      is one a worker holds; a resumed registry may hold mid-step records
      nobody works on (see ResumedMidStepSpins). */
  lemma CorrectedStopMeansNoWork(st: ScanState)
    requires forall id :: id in st.targets ==> WrittenStage(st.targets[id].stage)
    ensures IncompleteTargets(st, Corrected) == {} <==>
      forall id :: id in st.targets ==>
        (forall q :: q in QueueStages ==> !ReadyRecord(st.targets[id], q)) && !MidStage(st.targets[id])
  {
    forall id | id in st.targets
      ensures Settled(st.targets[id]) <==>
        (forall q :: q in QueueStages ==> !ReadyRecord(st.targets[id], q)) && !MidStage(st.targets[id])
    {
      SettledMeansNoWorkLeft(st.targets[id]);
    }
    if IncompleteTargets(st, Corrected) != {} {
      var id :| id in IncompleteTargets(st, Corrected);
      assert !Settled(st.targets[id]);
    }
  }

  /** A registry holding one target that has finished its service scan and
      has not been offered to nuclei. */
  function AwaitingNuclei(id: string, directory: string, now: Timestamp): (st: ScanState)
    ensures Valid(st)
    ensures st.targets.Keys == {id} && st.queued == {}
    ensures st.targets[id].stage == ServiceScanComplete && st.targets[id].nucleiStatus.None?
  {
    var st := ScanState(map[id := NewTarget(id, ServiceScanComplete, directory, now)], map[ServiceScanComplete := {id}], {});
    assert Valid(st) by {
      forall s ensures Members(st.index, s) == IdsAt(st.targets, s) {
        if s == ServiceScanComplete {
          assert id in IdsAt(st.targets, s);
        }
      }
    }
    st
  }

  /** With the rule as written the loop stops on that registry although
      the nuclei queue would still take its target, so nuclei never runs
      for it ... */
  lemma AsWrittenStopsBeforeNuclei(id: string, directory: string, now: Timestamp)
    ensures var st := AwaitingNuclei(id, directory, now);
      IncompleteTargets(st, AsWritten) == {} && ReadyFor(st, NucleiScan) == {id}
  {
    var st := AwaitingNuclei(id, directory, now);
    assert IncompleteTargets(st, AsWritten) == {} by {
      assert CompleteAsWritten(st.targets[id]);
    }
  }

  /** ... while with the corrected rule the loop goes on and hands it to
      nuclei. */
  lemma CorrectedQueuesNuclei(id: string, directory: string, now: Timestamp)
    ensures var st := AwaitingNuclei(id, directory, now);
      IncompleteTargets(st, Corrected) == {id} && ReadyFor(st, NucleiScan) == {id}
  {
    var st := AwaitingNuclei(id, directory, now);
    assert !Settled(st.targets[id]);
  }

  /** More generally, whenever the corrected rule lets the loop stop, so
      does the rule as written, except for targets whose nuclei side was
      skipped. */
  lemma CorrectedStopImpliesAsWrittenStop(st: ScanState)
    requires forall id :: id in st.targets ==>
      st.targets[id].nucleiStatus !in {Some(SkippedNoTargets), Some(SkippedNoHosts)} || st.targets[id].stage != ServiceScanComplete
    ensures IncompleteTargets(st, Corrected) == {} ==> IncompleteTargets(st, AsWritten) == {}
  {
    if IncompleteTargets(st, Corrected) == {} && IncompleteTargets(st, AsWritten) != {} {
      var id :| id in IncompleteTargets(st, AsWritten);
      assert Settled(st.targets[id]);
      AsWrittenVersusSettled(st.targets[id]);
    }
  }

  // ---------------------------------------------------------------------
  // Resuming a run stopped mid-step

  /** The snapshot a run leaves when it is stopped while host discovery
      runs for its one target: the handler saved the record at
      `host_discovery` before starting nmap. */
  function InterruptedSnapshot(id: string, directory: string, now: Timestamp): map<string, Dict> {
    map[id := ToDict(NewTarget(id, HostDiscovery, directory, now))]
  }

  /** Resuming from that snapshot, the loop never ends under either rule:
      the target is incomplete, yet no queue takes it and no worker holds
      it. */
  lemma ResumedMidStepSpins(id: string, directory: string, now: Timestamp, rule: CompletionRule)
    ensures var st := Load(Some(InterruptedSnapshot(id, directory, now)), now);
      && Valid(st) && st.queued == {}
      && st.targets == map[id := NewTarget(id, HostDiscovery, directory, now)]
      && IncompleteTargets(st, rule) == {id}
      && forall q :: q in QueueStages ==> ReadyFor(st, q) == {}
  {
    var rec := NewTarget(id, HostDiscovery, directory, now);
    DictRoundTrip(rec, now);
    LoadReadable(InterruptedSnapshot(id, directory, now), map[id := rec], now);
    LoneMidStepIdles(Load(Some(InterruptedSnapshot(id, directory, now)), now), id, rule);
  }

  /** A registry whose one target is at `host_discovery`, with nothing
      queued, is incomplete and offers nothing. */
  lemma LoneMidStepIdles(st: ScanState, id: string, rule: CompletionRule)
    requires Valid(st) && st.queued == {}
    requires st.targets.Keys == {id} && st.targets[id].stage == HostDiscovery
    ensures IncompleteTargets(st, rule) == {id}
    ensures forall q :: q in QueueStages ==> ReadyFor(st, q) == {}
  {
    assert !RecordComplete(st.targets[id], rule);
    forall q, x | q in QueueStages ensures x !in ReadyFor(st, q) {
    }
  }

  /** A loop pass over that registry hands out nothing and changes nothing,
      so the next pass sees the same registry. */
  method ResumedTickIdles(id: string, directory: string, now: Timestamp, rule: CompletionRule)
    returns (done: bool, r: ScanState, handed: nat)
    ensures !done && handed == 0
    ensures r.targets == Load(Some(InterruptedSnapshot(id, directory, now)), now).targets
    ensures r.queued == {}
  {
    var st := Load(Some(InterruptedSnapshot(id, directory, now)), now);
    ResumedMidStepSpins(id, directory, now, rule);
    done, r, handed := IdleTick(st, rule);
  }

  /** One pass over an incomplete registry that offers nothing. */
  method IdleTick(st: ScanState, rule: CompletionRule) returns (done: bool, r: ScanState, handed: nat)
    requires Valid(st) && IncompleteTargets(st, rule) != {}
    requires forall q :: q in QueueStages ==> ReadyFor(st, q) == {}
    ensures !done && handed == 0 && r.targets == st.targets && r.queued == st.queued
  {
    assert HostDiscovery in QueueStages && PortDiscovery in QueueStages;
    assert ServiceScan in QueueStages && NucleiScan in QueueStages;
    assert ReadyFor(st, HostDiscovery) == {} && ReadyFor(st, PortDiscovery) == {};
    assert ReadyFor(st, ServiceScan) == {} && ReadyFor(st, NucleiScan) == {};
    var hosts, ports, services, nuclei;
    done, r, hosts, ports, services, nuclei := Tick(st, rule);
    assert |hosts| == 0 && |ports| == 0 && |services| == 0 && |nuclei| == 0;
    assert r.targets == st.targets by {
      assert r.targets.Keys == st.targets.Keys;
      forall id | id in st.targets ensures r.targets[id] == st.targets[id] {
        assert id !in ReadyFor(st, NucleiScan);
      }
    }
    handed := |hosts| + |ports| + |services| + |nuclei|;
  }

  /** With interrupted steps rewound on resume, the corrected loop is never
      stuck: either it stops, or some queue takes a target. No record is
      left mid-step. */
  lemma RewoundResumeHasWork(st: ScanState)
    requires Valid(st) && st.queued == {}
    requires forall id :: id in st.targets ==> WrittenStage(st.targets[id].stage)
    ensures var r := ResetInterrupted(st);
      && (forall id :: id in r.targets ==> !MidStage(r.targets[id]))
      && (IncompleteTargets(r, Corrected) != {} ==> exists q :: q in QueueStages && ReadyFor(r, q) != {})
  {
    var r := ResetInterrupted(st);
    if IncompleteTargets(r, Corrected) != {} {
      var id :| id in IncompleteTargets(r, Corrected);
      var rec := r.targets[id];
      SettledMeansNoWorkLeft(rec);
      var q :| q in QueueStages && ReadyRecord(rec, q);
      assert id in ReadyFor(r, q);
    }
  }

  /** On the interrupted snapshot, rewinding hands host discovery its
      target again. */
  lemma RewoundResumeRerunsHostDiscovery(id: string, directory: string, now: Timestamp)
    ensures ReadyFor(ResetInterrupted(Load(Some(InterruptedSnapshot(id, directory, now)), now)), HostDiscovery) == {id}
  {
    ResumedMidStepSpins(id, directory, now, Corrected);
    var r := ResetInterrupted(Load(Some(InterruptedSnapshot(id, directory, now)), now));
    assert ReadyRecord(r.targets[id], HostDiscovery);
  }
}

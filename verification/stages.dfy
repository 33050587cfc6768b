/** The two status axes of a target: the primary `ScanStage` (the
    `ScanStage` enum of state.py, whose string values are what the snapshot
    stores) and the independent nuclei status, which the program stores as a
    free string in `nuclei_status` but only ever sets to one of six values. */
module Stages {
  import opened Wrappers

  datatype ScanStage =
    | Pending
    | HostDiscovery
    | HostDiscoveryComplete
    | NoHostsFound
    | PortDiscovery
    | PortDiscoveryComplete
    | NoPortsFound
    | ServiceScan
    | ServiceScanComplete
    | NucleiScan
    | NucleiQueuedStage
    | NucleiRunningStage
    | NucleiCompleteStage
    | NucleiFailedStage
    | Complete
    | CompleteHostsOnly
    | CompletePortsOnly
    | Failed

  /** Every stage once, in the enum's declaration order. */
  const AllStages: seq<ScanStage> := [
    Pending, HostDiscovery, HostDiscoveryComplete, NoHostsFound, PortDiscovery,
    PortDiscoveryComplete, NoPortsFound, ServiceScan, ServiceScanComplete, NucleiScan,
    NucleiQueuedStage, NucleiRunningStage, NucleiCompleteStage, NucleiFailedStage,
    Complete, CompleteHostsOnly, CompletePortsOnly, Failed
  ]

  /** The position of a stage in the enum's declaration order. */
  function Ordinal(s: ScanStage): (i: nat)
    ensures i < |AllStages| && AllStages[i] == s
  {
    match s
    case Pending => 0
    case HostDiscovery => 1
    case HostDiscoveryComplete => 2
    case NoHostsFound => 3
    case PortDiscovery => 4
    case PortDiscoveryComplete => 5
    case NoPortsFound => 6
    case ServiceScan => 7
    case ServiceScanComplete => 8
    case NucleiScan => 9
    case NucleiQueuedStage => 10
    case NucleiRunningStage => 11
    case NucleiCompleteStage => 12
    case NucleiFailedStage => 13
    case Complete => 14
    case CompleteHostsOnly => 15
    case CompletePortsOnly => 16
    case Failed => 17
  }

  lemma AllStagesListsEveryStageOnce()
    ensures forall s: ScanStage :: s in AllStages
    ensures forall i, j :: 0 <= i < j < |AllStages| ==> AllStages[i] != AllStages[j]
  {
    forall s: ScanStage ensures s in AllStages {
      assert AllStages[Ordinal(s)] == s;
    }
  }

  /** The enum member's `.value`, the string the snapshot stores. */
  function StageName(s: ScanStage): string {
    match s
    case Pending => "pending"
    case HostDiscovery => "host_discovery"
    case HostDiscoveryComplete => "host_discovery_complete"
    case NoHostsFound => "no_hosts_found"
    case PortDiscovery => "port_discovery"
    case PortDiscoveryComplete => "port_discovery_complete"
    case NoPortsFound => "no_ports_found"
    case ServiceScan => "service_scan"
    case ServiceScanComplete => "service_scan_complete"
    case NucleiScan => "nuclei_scan"
    case NucleiQueuedStage => "nuclei_queued"
    case NucleiRunningStage => "nuclei_running"
    case NucleiCompleteStage => "nuclei_complete"
    case NucleiFailedStage => "nuclei_failed"
    case Complete => "complete"
    case CompleteHostsOnly => "complete_hosts_only"
    case CompletePortsOnly => "complete_ports_only"
    case Failed => "failed"
  }

  /** `ScanStage(name)`: the member whose value is `name`, if any. */
  function StageNamed(name: string): (r: Option<ScanStage>)
    ensures r.Some? ==> StageName(r.value) == name
    ensures r.None? ==> forall s :: StageName(s) != name
  {
    FindStage(AllStages, name)
  }

  function FindStage(candidates: seq<ScanStage>, name: string): (r: Option<ScanStage>)
    requires |candidates| <= |AllStages|
    requires candidates == AllStages[|AllStages| - |candidates|..]
    ensures r.Some? ==> StageName(r.value) == name
    ensures r.None? ==> forall s :: Ordinal(s) >= |AllStages| - |candidates| ==> StageName(s) != name
    decreases |candidates|
  {
    if |candidates| == 0 then None
    else if StageName(candidates[0]) == name then Some(candidates[0])
    else
      assert forall s :: Ordinal(s) == |AllStages| - |candidates| ==> s == candidates[0];
      FindStage(candidates[1..], name)
  }

  /** Stage names are distinct, so reading a stored name gives back the stage. */
  lemma StageNameRoundTrip(s: ScanStage)
    ensures StageNamed(StageName(s)) == Some(s)
  {
    var r := StageNamed(StageName(s));
    assert r.Some?;
    StageNameInjective(r.value, s);
  }

  lemma StageNameInjective(s: ScanStage, t: ScanStage)
    requires StageName(s) == StageName(t)
    ensures s == t
  {
  }

  /** The stages on which `update_stage` stamps `completed_at`. */
  predicate StampsCompletion(s: ScanStage) {
    s == Complete || s == Failed || s == NoHostsFound || s == NoPortsFound
  }

  /** The stages `is_target_complete` accepts on their own, whatever the nuclei status. */
  predicate IsTerminal(s: ScanStage) {
    || s == Complete || s == CompleteHostsOnly || s == CompletePortsOnly
    || s == Failed || s == NoHostsFound || s == NoPortsFound
  }

  /** Values the program writes into `nuclei_status`. */
  datatype NucleiStatus =
    | NucleiQueued
    | NucleiRunning
    | NucleiComplete
    | NucleiFailed
    | SkippedNoTargets
    | SkippedNoHosts

  const AllNucleiStatuses: seq<NucleiStatus> := [
    NucleiQueued, NucleiRunning, NucleiComplete, NucleiFailed, SkippedNoTargets, SkippedNoHosts
  ]

  function NucleiStatusName(n: NucleiStatus): string {
    match n
    case NucleiQueued => "nuclei_queued"
    case NucleiRunning => "nuclei_running"
    case NucleiComplete => "nuclei_complete"
    case NucleiFailed => "nuclei_failed"
    case SkippedNoTargets => "skipped_no_targets"
    case SkippedNoHosts => "skipped_no_hosts"
  }

  function NucleiStatusNamed(name: string): (r: Option<NucleiStatus>)
    ensures r.Some? ==> NucleiStatusName(r.value) == name
    ensures r.None? ==> forall n :: NucleiStatusName(n) != name
  {
    if name == "nuclei_queued" then Some(NucleiQueued)
    else if name == "nuclei_running" then Some(NucleiRunning)
    else if name == "nuclei_complete" then Some(NucleiComplete)
    else if name == "nuclei_failed" then Some(NucleiFailed)
    else if name == "skipped_no_targets" then Some(SkippedNoTargets)
    else if name == "skipped_no_hosts" then Some(SkippedNoHosts)
    else None
  }

  lemma NucleiStatusNameRoundTrip(n: NucleiStatus)
    ensures NucleiStatusNamed(NucleiStatusName(n)) == Some(n)
  {
  }

  /** The nuclei statuses written with the value of the matching `ScanStage`
      member share its name, as in scanner.py. */
  lemma NucleiStatusesReuseStageNames()
    ensures NucleiStatusName(NucleiQueued) == StageName(NucleiQueuedStage)
    ensures NucleiStatusName(NucleiRunning) == StageName(NucleiRunningStage)
    ensures NucleiStatusName(NucleiComplete) == StageName(NucleiCompleteStage)
    ensures NucleiStatusName(NucleiFailed) == StageName(NucleiFailedStage)
  {
  }
}

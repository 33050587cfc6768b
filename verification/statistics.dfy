/** The counts the registry reports: `get_statistics` (targets per stage,
    per outcome class and per nuclei status) and the count part of
    `get_scan_summary` (hosts and ports found). Both walk the records in
    the registry's iteration order, given here as a sequence. */
module Statistics {
  import opened Wrappers
  import opened Text
  import opened Stages
  import opened Records
  import opened Counting

  /** The `if`/`elif` chain of the loop body: one more in the record's
      outcome class, nothing for `pending`. */
  function CountClass(acc: Statistics, stage: ScanStage): (r: Statistics)
    ensures r.total == acc.total
  {
    match OutcomeOf(stage)
    case Completed => acc.(completed := acc.completed + 1)
    case FailedOutcome => acc.(failed := acc.failed + 1)
    case NoHosts => acc.(noHosts := acc.noHosts + 1)
    case NoPorts => acc.(noPorts := acc.noPorts + 1)
    case InProgress => acc.(inProgress := acc.inProgress + 1)
    case NotStarted => acc
  }

  /** The loop body for one record: its stage's count, its outcome class,
      and its nuclei status's count when one is set. */
  function CountRecord(acc: Statistics, rec: TargetState): (r: Statistics)
    ensures r.total == acc.total
  {
    var counted := CountClass(acc, rec.stage);
    counted.(byStage := BumpStage(acc.byStage, rec.stage), nucleiStatus := BumpNuclei(acc.nucleiStatus, rec.nucleiStatus))
  }

  /** `by_stage[stage] = by_stage.get(stage, 0) + 1` */
  function BumpStage(m: map<ScanStage, nat>, s: ScanStage): map<ScanStage, nat> {
    m[s := StageTally(m, s) + 1]
  }

  /** The same for `nuclei_status`, skipped when the record has none. */
  function BumpNuclei(m: map<NucleiStatus, nat>, n: Option<NucleiStatus>): map<NucleiStatus, nat> {
    if n.Some? then m[n.value := NucleiTally(m, n.value) + 1] else m
  }

  lemma StageCountStep(m: map<ScanStage, nat>, rs: seq<TargetState>, n: nat)
    requires n < |rs| && StageCounts(m, rs, n)
    ensures StageCounts(BumpStage(m, rs[n].stage), rs, n + 1)
  {
  }

  lemma NucleiCountStep(m: map<NucleiStatus, nat>, rs: seq<TargetState>, n: nat)
    requires n < |rs| && NucleiCounts(m, rs, n)
    ensures NucleiCounts(BumpNuclei(m, rs[n].nucleiStatus), rs, n + 1)
  {
  }

  lemma ClassCountStep(acc: Statistics, rs: seq<TargetState>, n: nat)
    requires n < |rs| && ClassCounts(acc, rs, n)
    ensures ClassCounts(CountRecord(acc, rs[n]), rs, n + 1)
  {
  }

  /** Counting one more record keeps every counter equal to its count. */
  lemma RecordStep(acc: Statistics, rs: seq<TargetState>, n: nat)
    requires n < |rs| && CountsOf(acc, rs, n)
    ensures CountsOf(CountRecord(acc, rs[n]), rs, n + 1)
  {
    StageCountStep(acc.byStage, rs, n);
    NucleiCountStep(acc.nucleiStatus, rs, n);
    ClassCountStep(acc, rs, n);
  }

  /** Before any record is counted, every counter is zero and both maps
      are empty. */
  lemma NothingCounted(rs: seq<TargetState>, total: nat)
    ensures CountsOf(Statistics(total, map[], 0, 0, 0, 0, 0, map[]), rs, 0)
  {
  }

  /** `get_statistics` over the records in iteration order: `total` is the
      number of records and the other counters are the counts over them;
      the outcome classes and `pending` add up to the total. */
  method GetStatistics(rs: seq<TargetState>) returns (stats: Statistics)
    ensures stats.total == |rs|
    ensures CountsOf(stats, rs, |rs|)
    ensures stats.completed + stats.failed + stats.noHosts + stats.noPorts + stats.inProgress
            + StageTally(stats.byStage, Pending) == stats.total
  {
    stats := Statistics(|rs|, map[], 0, 0, 0, 0, 0, map[]);
    NothingCounted(rs, |rs|);
    var i := 0;
    while i < |rs|
      invariant i <= |rs|
      invariant stats.total == |rs| && CountsOf(stats, rs, i)
    {
      RecordStep(stats, rs, i);
      stats := CountRecord(stats, rs[i]);
      i := i + 1;
    }
    ClassesCoverRecords(rs, |rs|);
  }

  /** The `by_stage` counts add up to `total`. */
  lemma ByStageSumsToTotal(stats: Statistics, rs: seq<TargetState>)
    requires stats.total == |rs| && CountsOf(stats, rs, |rs|)
    ensures SumTally(stats.byStage, AllStages) == stats.total
  {
    SumTallyMatchesCounts(stats.byStage, rs, |rs|, AllStages);
    StagesPartitionRecords(rs, |rs|);
  }

  /** The outcome counters agree with `by_stage`: `completed` is the three
      complete stages together and the other outcome counters are one stage
      each. */
  lemma OutcomeCountersMatchStages(stats: Statistics, rs: seq<TargetState>)
    requires CountsOf(stats, rs, |rs|)
    ensures stats.completed == StageTally(stats.byStage, Complete) + StageTally(stats.byStage, CompleteHostsOnly)
                               + StageTally(stats.byStage, CompletePortsOnly)
    ensures stats.failed == StageTally(stats.byStage, Failed)
    ensures stats.noHosts == StageTally(stats.byStage, NoHostsFound)
    ensures stats.noPorts == StageTally(stats.byStage, NoPortsFound)
  {
    CompletedIsThreeStages(rs, |rs|);
    OutcomeIsStage(rs, |rs|, FailedOutcome, Failed);
    OutcomeIsStage(rs, |rs|, NoHosts, NoHostsFound);
    OutcomeIsStage(rs, |rs|, NoPorts, NoPortsFound);
  }

  // ---------------------------------------------------------------------
  // The counts of get_scan_summary

  /** `open_ports` is truthy: set and non-empty. */
  predicate HasOpenPorts(rec: TargetState) {
    rec.openPorts.Some? && rec.openPorts.value != ""
  }

  /** What a record contributes to each summary count. */
  datatype Measure = HostCount | PortCount | HasPorts

  function Weight(rec: TargetState, m: Measure): nat {
    match m
    case HostCount => |rec.liveHosts|
    case PortCount => if HasOpenPorts(rec) then |Split(rec.openPorts.value, ',')| else 0
    case HasPorts => if HasOpenPorts(rec) then 1 else 0
  }

  /** The sum of a measure over the first `n` records. */
  function SumOver(rs: seq<TargetState>, n: nat, m: Measure): nat
    requires n <= |rs|
  {
    if n == 0 then 0 else SumOver(rs, n - 1, m) + Weight(rs[n - 1], m)
  }

  /** Every record with open ports lists at least one, so the port count
      is never below the number of records with ports. */
  lemma {:induction false} PortsAtLeastHosts(rs: seq<TargetState>, n: nat)
    requires n <= |rs|
    ensures SumOver(rs, n, HasPorts) <= SumOver(rs, n, PortCount)
  {
    if n > 0 {
      PortsAtLeastHosts(rs, n - 1);
    }
  }

  datatype ScanSummary = ScanSummary(totalTargets: nat, totalHosts: nat, totalPorts: nat, hostsWithPorts: nat)

  /** The counting loop of `get_scan_summary`: hosts are the sum of the
      `live_hosts` lengths, ports the sum of the comma-separated entries of
      every non-empty `open_ports`, and `hosts_with_ports` the number of
      records with a non-empty `open_ports`, never more than the ports. */
  method GetScanSummary(rs: seq<TargetState>) returns (summary: ScanSummary)
    ensures summary.totalTargets == |rs|
    ensures summary.totalHosts == SumOver(rs, |rs|, HostCount)
    ensures summary.totalPorts == SumOver(rs, |rs|, PortCount)
    ensures summary.hostsWithPorts == SumOver(rs, |rs|, HasPorts)
    ensures summary.hostsWithPorts <= summary.totalPorts
  {
    var hosts, ports, withPorts := 0, 0, 0;
    var i := 0;
    while i < |rs|
      invariant i <= |rs|
      invariant hosts == SumOver(rs, i, HostCount)
      invariant ports == SumOver(rs, i, PortCount)
      invariant withPorts == SumOver(rs, i, HasPorts)
    {
      var rec := rs[i];
      if |rec.liveHosts| > 0 {
        hosts := hosts + |rec.liveHosts|;
      }
      if HasOpenPorts(rec) {
        ports := ports + |Split(rec.openPorts.value, ',')|;
        withPorts := withPorts + 1;
      }
      i := i + 1;
    }
    PortsAtLeastHosts(rs, |rs|);
    summary := ScanSummary(|rs|, hosts, ports, withPorts);
  }
}

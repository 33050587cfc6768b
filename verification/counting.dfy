/** What the counters of `get_statistics` mean, stated independently of
    the loop that computes them: counts of records by stage, by nuclei
    status and by outcome class over a prefix of the records, and the fact
    that the stages partition the records. */
module Counting {
  import opened Wrappers
  import opened Stages
  import opened Records

  /** The outcome classes `get_statistics` sorts a stage into. */
  datatype Outcome = Completed | FailedOutcome | NoHosts | NoPorts | InProgress | NotStarted

  /** The first class whose test a stage passes, in the order the loop
      tests them: any stage but `pending` that is no outcome is in progress. */
  function OutcomeOf(s: ScanStage): Outcome {
    if s == Complete || s == CompleteHostsOnly || s == CompletePortsOnly then Completed
    else if s == Failed then FailedOutcome
    else if s == NoHostsFound then NoHosts
    else if s == NoPortsFound then NoPorts
    else if s != Pending then InProgress
    else NotStarted
  }

  /** Which records a count takes in. */
  datatype Filter = AtStage(stage: ScanStage) | WithNuclei(status: NucleiStatus) | InClass(outcome: Outcome)

  predicate Matches(rec: TargetState, f: Filter) {
    match f
    case AtStage(s) => rec.stage == s
    case WithNuclei(n) => rec.nucleiStatus == Some(n)
    case InClass(o) => OutcomeOf(rec.stage) == o
  }

  /** How many of the first `n` records the filter takes in. */
  function Count(rs: seq<TargetState>, n: nat, f: Filter): (c: nat)
    requires n <= |rs|
    ensures c <= n
  {
    if n == 0 then 0 else Count(rs, n - 1, f) + (if Matches(rs[n - 1], f) then 1 else 0)
  }

  // ---------------------------------------------------------------------
  // Per-stage counts partition the records

  /** A count map read the way `dict.get(key, 0)` reads it. */
  function StageTally(m: map<ScanStage, nat>, s: ScanStage): nat {
    if s in m then m[s] else 0
  }

  function NucleiTally(m: map<NucleiStatus, nat>, n: NucleiStatus): nat {
    if n in m then m[n] else 0
  }

  function SumTally(m: map<ScanStage, nat>, stages: seq<ScanStage>): nat {
    if |stages| == 0 then 0 else StageTally(m, stages[0]) + SumTally(m, stages[1..])
  }

  /** The number of records among the first `n` at each of `stages`, added up. */
  function SumCounts(rs: seq<TargetState>, n: nat, stages: seq<ScanStage>): nat
    requires n <= |rs|
  {
    if |stages| == 0 then 0 else Count(rs, n, AtStage(stages[0])) + SumCounts(rs, n, stages[1..])
  }

  predicate NoDuplicates(xs: seq<ScanStage>) {
    forall i, j :: 0 <= i < j < |xs| ==> xs[i] != xs[j]
  }

  /** One more record raises a sum of per-stage counts over distinct stages
      by one exactly when its stage is among them. */
  lemma {:induction false} SumCountsStep(rs: seq<TargetState>, n: nat, stages: seq<ScanStage>)
    requires n < |rs| && NoDuplicates(stages)
    ensures SumCounts(rs, n + 1, stages) == SumCounts(rs, n, stages) + (if rs[n].stage in stages then 1 else 0)
  {
    if |stages| > 0 {
      assert NoDuplicates(stages[1..]);
      SumCountsStep(rs, n, stages[1..]);
      assert rs[n].stage in stages <==> rs[n].stage == stages[0] || rs[n].stage in stages[1..];
      if rs[n].stage == stages[0] {
        assert rs[n].stage !in stages[1..];
      }
    }
  }

  lemma {:induction false} SumCountsNone(rs: seq<TargetState>, stages: seq<ScanStage>)
    ensures SumCounts(rs, 0, stages) == 0
  {
    if |stages| > 0 {
      SumCountsNone(rs, stages[1..]);
    }
  }

  /** The stages partition the records: each record is counted under
      exactly one stage, so the per-stage counts add up to the total. */
  lemma {:induction false} StagesPartitionRecords(rs: seq<TargetState>, n: nat)
    requires n <= |rs|
    ensures SumCounts(rs, n, AllStages) == n
  {
    if n == 0 {
      SumCountsNone(rs, AllStages);
    } else {
      StagesPartitionRecords(rs, n - 1);
      AllStagesListsEveryStageOnce();
      SumCountsStep(rs, n - 1, AllStages);
    }
  }

  lemma {:induction false} SumTallyMatchesCounts(m: map<ScanStage, nat>, rs: seq<TargetState>, n: nat, stages: seq<ScanStage>)
    requires n <= |rs|
    requires forall s :: StageTally(m, s) == Count(rs, n, AtStage(s))
    ensures SumTally(m, stages) == SumCounts(rs, n, stages)
  {
    if |stages| > 0 {
      SumTallyMatchesCounts(m, rs, n, stages[1..]);
    }
  }

  // ---------------------------------------------------------------------
  // The statistics and what they should be

  datatype Statistics = Statistics(
    total: nat,
    byStage: map<ScanStage, nat>,
    completed: nat,
    failed: nat,
    noHosts: nat,
    noPorts: nat,
    inProgress: nat,
    nucleiStatus: map<NucleiStatus, nat>)

  /** Per-stage counts over the first `n` records, with only the stages
      that occur as keys. */
  ghost predicate StageCounts(m: map<ScanStage, nat>, rs: seq<TargetState>, n: nat)
    requires n <= |rs|
  {
    && (forall s :: StageTally(m, s) == Count(rs, n, AtStage(s)))
    && (forall s :: s in m ==> m[s] > 0)
  }

  /** Per-status counts over the first `n` records, with only the statuses
      that occur as keys. */
  ghost predicate NucleiCounts(m: map<NucleiStatus, nat>, rs: seq<TargetState>, n: nat)
    requires n <= |rs|
  {
    && (forall st :: NucleiTally(m, st) == Count(rs, n, WithNuclei(st)))
    && (forall st :: st in m ==> m[st] > 0)
  }

  /** The five outcome-class counters of `get_statistics`. */
  datatype Classes = Classes(completed: nat, failed: nat, noHosts: nat, noPorts: nat, inProgress: nat)

  function ClassesOf(stats: Statistics): Classes {
    Classes(stats.completed, stats.failed, stats.noHosts, stats.noPorts, stats.inProgress)
  }

  function ClassTotal(c: Classes): nat {
    c.completed + c.failed + c.noHosts + c.noPorts + c.inProgress
  }

  /** What the outcome-class counters should be over the first `n` records. */
  function ExpectedClasses(rs: seq<TargetState>, n: nat): Classes
    requires n <= |rs|
  {
    Classes(
      Count(rs, n, InClass(Completed)),
      Count(rs, n, InClass(FailedOutcome)),
      Count(rs, n, InClass(NoHosts)),
      Count(rs, n, InClass(NoPorts)),
      Count(rs, n, InClass(InProgress)))
  }

  /** The outcome classes partition the records. */
  lemma {:induction false} ClassesPartition(rs: seq<TargetState>, n: nat)
    requires n <= |rs|
    ensures ClassTotal(ExpectedClasses(rs, n)) + Count(rs, n, InClass(NotStarted)) == n
  {
    if n > 0 {
      ClassesPartition(rs, n - 1);
      match OutcomeOf(rs[n - 1].stage)
      case Completed =>
      case FailedOutcome =>
      case NoHosts =>
      case NoPorts =>
      case InProgress =>
      case NotStarted =>
    }
  }

  /** Every record falls in exactly one outcome class or is `pending`. */
  lemma ClassesCoverRecords(rs: seq<TargetState>, n: nat)
    requires n <= |rs|
    ensures ClassTotal(ExpectedClasses(rs, n)) + Count(rs, n, AtStage(Pending)) == n
  {
    ClassesPartition(rs, n);
    OutcomeIsStage(rs, n, NotStarted, Pending);
  }

  /** The completed class is the three complete stages together. */
  lemma {:induction false} CompletedIsThreeStages(rs: seq<TargetState>, n: nat)
    requires n <= |rs|
    ensures Count(rs, n, InClass(Completed))
         == Count(rs, n, AtStage(Complete)) + Count(rs, n, AtStage(CompleteHostsOnly)) + Count(rs, n, AtStage(CompletePortsOnly))
  {
    if n > 0 {
      CompletedIsThreeStages(rs, n - 1);
    }
  }

  /** Each of the other outcome classes is one stage. */
  lemma {:induction false} OutcomeIsStage(rs: seq<TargetState>, n: nat, o: Outcome, s: ScanStage)
    requires n <= |rs|
    requires (o, s) in {(FailedOutcome, Failed), (NoHosts, NoHostsFound), (NoPorts, NoPortsFound), (NotStarted, Pending)}
    ensures Count(rs, n, InClass(o)) == Count(rs, n, AtStage(s))
  {
    if n > 0 {
      OutcomeIsStage(rs, n - 1, o, s);
    }
  }

  /** The outcome-class counters of `stats` are those of the first `n` records. */
  ghost predicate ClassCounts(stats: Statistics, rs: seq<TargetState>, n: nat)
    requires n <= |rs|
  {
    ClassesOf(stats) == ExpectedClasses(rs, n)
  }

  /** The counters of `stats` are the counts over the first `n` records. */
  ghost predicate CountsOf(stats: Statistics, rs: seq<TargetState>, n: nat)
    requires n <= |rs|
  {
    StageCounts(stats.byStage, rs, n) && NucleiCounts(stats.nucleiStatus, rs, n) && ClassCounts(stats, rs, n)
  }
}

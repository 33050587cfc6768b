/** The scan configuration (`ScanConfig` in config.py): its field defaults
    and the checks of `__post_init__`, which fill in the state-file path and
    reject contradictory flags and out-of-range numbers. */
module Config {
  import opened Wrappers

  datatype ScanConfig = ScanConfig(
    targetsFile: string,
    outputDir: string,
    stateFile: Option<string>,
    hostsOnly: bool,
    portsOnly: bool,
    maxNmapWorkers: int,
    maxNucleiWorkers: int,
    hostDiscoveryTimeout: int,
    portScanTimeout: int,
    serviceScanTimeout: int,
    nucleiTimeout: int,
    topPorts: int,
    minRate: int,
    maxRetries: int,
    hostDiscoveryMinRate: int,
    hostDiscoveryMinHostgroup: int,
    hostDiscoveryMaxRttTimeout: string,
    versionIntensity: int,
    resume: bool)

  /** `ScanConfig(targets_file=…)` with every other field at its default,
      before `__post_init__` runs. */
  function Defaults(targetsFile: string): ScanConfig {
    ScanConfig(
      targetsFile, "scan_results", None, false, false, 1, 1, 30, 60, 60, 60,
      1000, 500, 3, 1000, 512, "200ms", 2, false)
  }

  /** The bounds `__post_init__` enforces, stated field by field. */
  predicate WithinBounds(c: ScanConfig) {
    && 1 <= c.maxNmapWorkers <= 100
    && 1 <= c.maxNucleiWorkers <= 100
    && 1 <= c.hostDiscoveryTimeout <= 1440
    && 1 <= c.portScanTimeout <= 1440
    && 1 <= c.serviceScanTimeout <= 1440
    && 1 <= c.nucleiTimeout <= 1440
    && 1 <= c.topPorts <= 65535
    && 1 <= c.minRate <= 100000
    && 1 <= c.hostDiscoveryMinRate <= 100000
    && 1 <= c.hostDiscoveryMinHostgroup <= 8192
    && 0 <= c.versionIntensity <= 9
  }

  /** One range check: the value and its inclusive bounds. */
  datatype RangeCheck = RangeCheck(value: int, lo: int, hi: int)

  predicate Passes(k: RangeCheck) {
    k.lo <= k.value <= k.hi
  }

  const CheckCount: nat := 11

  /** The `i`-th range check, in the order `__post_init__` makes them. */
  function Check(c: ScanConfig, i: nat): RangeCheck
    requires i < CheckCount
  {
    match i
    case 0 => RangeCheck(c.maxNmapWorkers, 1, 100)
    case 1 => RangeCheck(c.maxNucleiWorkers, 1, 100)
    case 2 => RangeCheck(c.hostDiscoveryTimeout, 1, 1440)
    case 3 => RangeCheck(c.portScanTimeout, 1, 1440)
    case 4 => RangeCheck(c.serviceScanTimeout, 1, 1440)
    case 5 => RangeCheck(c.nucleiTimeout, 1, 1440)
    case 6 => RangeCheck(c.topPorts, 1, 65535)
    case 7 => RangeCheck(c.minRate, 1, 100000)
    case 8 => RangeCheck(c.hostDiscoveryMinRate, 1, 100000)
    case 9 => RangeCheck(c.hostDiscoveryMinHostgroup, 1, 8192)
    case _ => RangeCheck(c.versionIntensity, 0, 9)
  }

  /** The `ValueError` message of the `i`-th check. */
  function Message(i: nat): string
    requires i < CheckCount
  {
    match i
    case 0 => "max_nmap_workers must be between 1 and 100"
    case 1 => "max_nuclei_workers must be between 1 and 100"
    case 2 => "host_discovery_timeout must be between 1 and 1440 minutes"
    case 3 => "port_scan_timeout must be between 1 and 1440 minutes"
    case 4 => "service_scan_timeout must be between 1 and 1440 minutes"
    case 5 => "nuclei_timeout must be between 1 and 1440 minutes"
    case 6 => "top_ports must be between 1 and 65535"
    case 7 => "min_rate must be between 1 and 100000"
    case 8 => "host_discovery_min_rate must be between 1 and 100000"
    case 9 => "host_discovery_min_hostgroup must be between 1 and 8192"
    case _ => "version_intensity must be between 0 and 9"
  }

  /** The index of the first failing check from the `i`-th on, if any. */
  function FirstFailure(c: ScanConfig, i: nat): (r: Option<nat>)
    requires i <= CheckCount
    ensures r.None? <==> forall j :: i <= j < CheckCount ==> Passes(Check(c, j))
    ensures r.Some? ==> i <= r.value < CheckCount && !Passes(Check(c, r.value))
    decreases CheckCount - i
  {
    if i == CheckCount then None
    else if !Passes(Check(c, i)) then Some(i)
    else FirstFailure(c, i + 1)
  }

  /** The failing check reported is the first failing one. */
  lemma {:induction false} FirstFailureAt(c: ScanConfig, from: nat, i: nat)
    requires from <= i < CheckCount && !Passes(Check(c, i))
    requires forall j :: from <= j < i ==> Passes(Check(c, j))
    ensures FirstFailure(c, from) == Some(i)
    decreases i - from
  {
    if from < i {
      FirstFailureAt(c, from + 1, i);
    }
  }

  /** The checks, taken together, are the bounds. */
  lemma ChecksAreBounds(c: ScanConfig)
    ensures (forall j :: 0 <= j < CheckCount ==> Passes(Check(c, j))) <==> WithinBounds(c)
  {
    if forall j :: 0 <= j < CheckCount ==> Passes(Check(c, j)) {
      assert Passes(Check(c, 0)) && Passes(Check(c, 1)) && Passes(Check(c, 2)) && Passes(Check(c, 3));
      assert Passes(Check(c, 4)) && Passes(Check(c, 5)) && Passes(Check(c, 6)) && Passes(Check(c, 7));
      assert Passes(Check(c, 8)) && Passes(Check(c, 9)) && Passes(Check(c, 10));
    }
  }

  const BothModesMessage := "Cannot use both --hosts-only and --ports-only"

  /** The state file `__post_init__` derives when none is given, from the
      targets file's stem (its name without directory and extension). */
  function DefaultStateFile(outputDir: string, stem: string): (path: string)
    ensures |path| > |outputDir| && path[..|outputDir|] == outputDir && path[|outputDir|] == '/'
  {
    outputDir + "/" + stem + "_state.json"
  }

  /** `__post_init__` without its file-system checks: the state file is
      filled in, then the two mode flags are checked, then the ranges in
      order. A `Failure` carries the `ValueError` message. `stem` is the
      stem of `targets_file`. */
  function PostInit(c: ScanConfig, stem: string): (r: Result<ScanConfig, string>)
    ensures r.Success? <==> !(c.hostsOnly && c.portsOnly) && WithinBounds(c)
    ensures r.Success? ==> r.value == c.(stateFile := r.value.stateFile)
    ensures r.Success? ==> r.value.stateFile == Some(c.stateFile.GetOr(DefaultStateFile(c.outputDir, stem)))
    ensures c.hostsOnly && c.portsOnly ==> r == Failure(BothModesMessage)
  {
    var filled := c.(stateFile := Some(c.stateFile.GetOr(DefaultStateFile(c.outputDir, stem))));
    ChecksAreBounds(c);
    if c.hostsOnly && c.portsOnly then Failure(BothModesMessage)
    else
      match FirstFailure(c, 0)
      case Some(i) => Failure(Message(i))
      case None => Success(filled)
  }

  /** With compatible flags, the error is the message of the first range
      check, in source order, that the configuration fails. */
  lemma PostInitReportsFirstFailure(c: ScanConfig, stem: string, i: nat)
    requires !(c.hostsOnly && c.portsOnly)
    requires i < CheckCount && !Passes(Check(c, i))
    requires forall j :: 0 <= j < i ==> Passes(Check(c, j))
    ensures PostInit(c, stem) == Failure(Message(i))
  {
    FirstFailureAt(c, 0, i);
  }

  /** The defaults pass every check, and the derived state file sits in
      the default output directory. */
  lemma DefaultsValidate(targetsFile: string, stem: string)
    ensures PostInit(Defaults(targetsFile), stem).Success?
    ensures PostInit(Defaults(targetsFile), stem).value.stateFile == Some("scan_results/" + stem + "_state.json")
  {
    assert "scan_results" + "/" + stem + "_state.json" == "scan_results/" + stem + "_state.json";
  }

  /** Running the checks again on their own result changes nothing: the
      state file is now set, and the checked fields are unchanged. */
  lemma PostInitIdempotent(c: ScanConfig, stem: string, stem2: string)
    requires PostInit(c, stem).Success?
    ensures PostInit(PostInit(c, stem).value, stem2) == PostInit(c, stem)
  {
  }

  /** An explicit state file is kept whatever the targets file is called. */
  lemma ExplicitStateFileKept(c: ScanConfig, stem: string, path: string)
    requires PostInit(c.(stateFile := Some(path)), stem).Success?
    ensures PostInit(c.(stateFile := Some(path)), stem).value.stateFile == Some(path)
  {
  }

  /** A stage timeout as `run_command` receives it: minutes times 60. */
  function TimeoutSeconds(minutes: int): (seconds: int)
    ensures 1 <= minutes <= 1440 ==> 60 <= seconds <= 86400
    ensures seconds % 60 == 0 && seconds / 60 == minutes
  {
    minutes * 60
  }
}

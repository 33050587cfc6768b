/** The worker side of scanner.py: the three nmap stage handlers, the nuclei
    handler, the two completion checks and the error boundaries of the
    worker loops. Each handler is a transition of the registry; what the
    outside world does — the exit status of the tool, the files it leaves
    behind, whether a list file could be written, an exception — is a
    parameter. A handler has three effects, each its own function: the
    command it launches (with the registry as it stands while the command
    runs), the list files it writes, and the registry it leaves. */
module Workers {
  import opened Wrappers
  import opened Text
  import opened Stages
  import opened Records
  import opened Registry
  import opened Config
  import opened Commands
  import opened Extract

  /** What `run_command` reports: the exit status and whether the overall
      timeout fired. */
  datatype RunResult = RunResult(code: int, timedOut: bool)

  /** `"timed out" if timed_out else f"exit code {ret}"`. */
  function FailureText(run: RunResult): string {
    if run.timedOut then "timed out" else "exit code " + IntToString(run.code)
  }

  /** A command handed to `run_command`: the registry as it stands while the
      command runs, the formatted command and the timeout in seconds. */
  datatype Launch = Launch(state: ScanState, command: Option<seq<string>>, timeoutSeconds: int)

  /** A list file `save_list_to_file` is asked to write. */
  datatype FileWrite = FileWrite(path: string, content: string)

  /** Only the record of `id` may differ; ids and the queued set are kept. */
  ghost predicate Framed(st: ScanState, r: ScanState, id: string) {
    && r.targets.Keys == st.targets.Keys
    && r.queued == st.queued
    && forall k :: k in st.targets && k != id ==> r.targets[k] == st.targets[k]
  }

  /** The fields no handler writes: id, directory and start time. */
  predicate SameIdentity(a: TargetState, b: TargetState) {
    a.target == b.target && a.directory == b.directory && a.startedAt == b.startedAt
  }

  // ---------------------------------------------------------------------
  // Host discovery

  /** The keyword arguments of the host-discovery command. */
  function HostDiscoveryEnv(c: ScanConfig, directory: string, target: string): Bindings {
    map[
      "min_hostgroup" := IntToString(c.hostDiscoveryMinHostgroup),
      "min_rate" := IntToString(c.hostDiscoveryMinRate),
      "max_retries" := IntToString(c.maxRetries),
      "max_rtt_timeout" := c.hostDiscoveryMaxRttTimeout,
      "output_base" := directory + "/hosts",
      "target" := target]
  }

  /** The nmap run of `_do_host_discovery`, made after the stage becomes
      `host_discovery`; none for an unknown target. */
  function HostDiscoveryLaunch(c: ScanConfig, st: ScanState, id: string, now: Timestamp): (l: Option<Launch>)
    ensures l.Some? <==> id in st.targets
  {
    if id !in st.targets then None
    else Some(Launch(
      UpdateStage(st, id, HostDiscovery, "", now),
      FormatCommand(HostDiscoveryTemplate, HostDiscoveryEnv(c, st.targets[id].directory, id)),
      TimeoutSeconds(c.hostDiscoveryTimeout)))
  }

  /** `ips.txt`, written when a clean run found live hosts in its `.gnmap`
      file (`gnmap`, `None` when missing). */
  function HostDiscoveryWrites(st: ScanState, id: string, run: RunResult, gnmap: Option<seq<string>>): seq<FileWrite> {
    var hosts := ExtractLiveHosts(gnmap);
    if id !in st.targets || run.code != 0 || |hosts| == 0 then []
    else [FileWrite(st.targets[id].directory + "/ips.txt", ListFileContent(hosts))]
  }

  /** The registry `_do_host_discovery` leaves; `saved` is whether `ips.txt`
      could be written. */
  function AfterHostDiscovery(st: ScanState, id: string, run: RunResult,
                              gnmap: Option<seq<string>>, saved: bool, now: Timestamp): (r: ScanState)
    ensures id !in st.targets ==> r == st
    ensures Framed(st, r, id)
    ensures id in st.targets ==> SameIdentity(st.targets[id], r.targets[id])
    ensures Valid(st) ==> Valid(r)
  {
    if id !in st.targets then st
    else
      var running := UpdateStage(st, id, HostDiscovery, "", now);
      var hosts := ExtractLiveHosts(gnmap);
      if run.code != 0 then UpdateStage(running, id, Failed, "Host discovery " + FailureText(run), now)
      else if |hosts| == 0 then UpdateStage(SetLiveHosts(running, id, []), id, NoHostsFound, "", now)
      else if !saved then UpdateStage(running, id, Failed, "Could not save live hosts", now)
      else UpdateStage(SetLiveHosts(running, id, hosts), id, HostDiscoveryComplete, "", now)
  }

  /** While nmap runs the target sits at `host_discovery`, which no queue
      takes, and the timeout is the configured minutes in seconds. */
  lemma HostDiscoveryLaunches(c: ScanConfig, st: ScanState, id: string, now: Timestamp)
    requires id in st.targets
    ensures var l := HostDiscoveryLaunch(c, st, id, now).value;
      && l.state.targets[id].stage == HostDiscovery
      && MidStage(l.state.targets[id])
      && l.timeoutSeconds == 60 * c.hostDiscoveryTimeout
  {
  }

  /** A non-zero exit fails the target with the tool's error; the hosts
      stay as they were and no list is written. */
  lemma HostDiscoveryToolFails(st: ScanState, id: string, run: RunResult,
                               gnmap: Option<seq<string>>, saved: bool, now: Timestamp)
    requires id in st.targets && run.code != 0
    ensures var before, rec := st.targets[id], AfterHostDiscovery(st, id, run, gnmap, saved, now).targets[id];
      && rec.stage == Failed && rec.error == Some("Host discovery " + FailureText(run))
      && rec.completedAt == Some(now) && rec.liveHosts == before.liveHosts
    ensures HostDiscoveryWrites(st, id, run, gnmap) == []
  {
  }

  /** A clean run without live hosts stores the empty list and ends at
      `no_hosts_found`. */
  lemma HostDiscoveryNoHosts(st: ScanState, id: string, run: RunResult,
                             gnmap: Option<seq<string>>, saved: bool, now: Timestamp)
    requires id in st.targets && run.code == 0 && ExtractLiveHosts(gnmap) == []
    ensures var before, rec := st.targets[id], AfterHostDiscovery(st, id, run, gnmap, saved, now).targets[id];
      rec.stage == NoHostsFound && rec.liveHosts == [] && rec.error == before.error
    ensures HostDiscoveryWrites(st, id, run, gnmap) == []
  {
  }

  /** Every live host is a single word, so it holds no newline. */
  lemma LiveHostsHaveNoNewline(gnmap: Option<seq<string>>)
    ensures forall k :: 0 <= k < |ExtractLiveHosts(gnmap)| ==> '\n' !in ExtractLiveHosts(gnmap)[k]
  {
    if gnmap.Some? {
      var up := UpLines(gnmap.value);
      LiveHostsOfLines(gnmap.value);
      forall k | 0 <= k < |up| ensures '\n' !in Words(up[k])[1] {
        WordsHaveNoSpace(up[k]);
        assert IsSpace('\n');
      }
    }
  }

  /** Live hosts are written to `ips.txt`, one per line, and reading the
      file back line by line gives them again ... */
  lemma HostDiscoveryWritesHosts(st: ScanState, id: string, run: RunResult, gnmap: Option<seq<string>>)
    requires id in st.targets && run.code == 0 && ExtractLiveHosts(gnmap) != []
    ensures var w := HostDiscoveryWrites(st, id, run, gnmap);
      && |w| == 1 && w[0].path == st.targets[id].directory + "/ips.txt"
      && Split(w[0].content, '\n') == ExtractLiveHosts(gnmap) + [""]
  {
    LiveHostsHaveNoNewline(gnmap);
    ListFileRoundTrip(ExtractLiveHosts(gnmap));
  }

  /** ... if that fails the target fails and its hosts are not stored ... */
  lemma HostDiscoveryCannotSave(st: ScanState, id: string, run: RunResult, gnmap: Option<seq<string>>, now: Timestamp)
    requires id in st.targets && run.code == 0 && ExtractLiveHosts(gnmap) != []
    ensures var before, rec := st.targets[id], AfterHostDiscovery(st, id, run, gnmap, false, now).targets[id];
      rec.stage == Failed && rec.error == Some("Could not save live hosts") && rec.liveHosts == before.liveHosts
  {
  }

  /** ... otherwise the hosts are stored and the target is ready for port
      discovery. */
  lemma HostDiscoverySucceeds(st: ScanState, id: string, run: RunResult, gnmap: Option<seq<string>>, now: Timestamp)
    requires id in st.targets && run.code == 0 && ExtractLiveHosts(gnmap) != []
    ensures var before, rec := st.targets[id], AfterHostDiscovery(st, id, run, gnmap, true, now).targets[id];
      && rec.stage == HostDiscoveryComplete && rec.liveHosts == ExtractLiveHosts(gnmap) && rec.error == before.error
      && ReadyRecord(rec, PortDiscovery)
  {
  }

  // ---------------------------------------------------------------------
  // Port discovery

  function PortDiscoveryEnv(c: ScanConfig, directory: string): Bindings {
    map[
      "min_rate" := IntToString(c.minRate),
      "max_retries" := IntToString(c.maxRetries),
      "top_ports" := IntToString(c.topPorts),
      "output_file" := directory + "/open-ports.xml",
      "input_file" := directory + "/ips.txt"]
  }

  /** The `ip:port` list read from the port-discovery XML (empty when the
      document could not be parsed). */
  function IpPortTargets(xml: Option<seq<Host>>): seq<string> {
    if xml.Some? then Pairs(xml.value) else []
  }

  /** The nmap run of `_do_port_discovery`: only for a target with live
      hosts, after its stage becomes `port_discovery`. */
  function PortDiscoveryLaunch(c: ScanConfig, st: ScanState, id: string, now: Timestamp): (l: Option<Launch>)
    ensures l.Some? <==> id in st.targets && st.targets[id].liveHosts != []
  {
    if id !in st.targets || |st.targets[id].liveHosts| == 0 then None
    else Some(Launch(
      UpdateStage(st, id, PortDiscovery, "", now),
      FormatCommand(PortDiscoveryTemplate, PortDiscoveryEnv(c, st.targets[id].directory)),
      TimeoutSeconds(c.portScanTimeout)))
  }

  /** `target_urls.txt`, written when a clean run found open ports and a
      non-empty `ip:port` list in the XML output (`xml`, `None` when
      unparsable). Whether it could be written does not matter. */
  function PortDiscoveryWrites(st: ScanState, id: string, run: RunResult, xml: Option<seq<Host>>): seq<FileWrite> {
    var urls := IpPortTargets(xml);
    if id !in st.targets || |st.targets[id].liveHosts| == 0 || run.code != 0 || ExtractOpenPorts(xml) == "" || |urls| == 0 then []
    else [FileWrite(st.targets[id].directory + "/target_urls.txt", ListFileContent(urls))]
  }

  /** The registry `_do_port_discovery` leaves. */
  function AfterPortDiscovery(st: ScanState, id: string, run: RunResult, xml: Option<seq<Host>>, now: Timestamp): (r: ScanState)
    ensures id !in st.targets ==> r == st
    ensures Framed(st, r, id)
    ensures id in st.targets ==> SameIdentity(st.targets[id], r.targets[id])
    ensures Valid(st) ==> Valid(r)
  {
    if id !in st.targets then st
    else if |st.targets[id].liveHosts| == 0 then UpdateStage(st, id, NoHostsFound, "", now)
    else
      var running := UpdateStage(st, id, PortDiscovery, "", now);
      var ports := ExtractOpenPorts(xml);
      if run.code != 0 then UpdateStage(running, id, Failed, "Port discovery " + FailureText(run), now)
      else if ports == "" then UpdateStage(SetOpenPorts(running, id, ""), id, NoPortsFound, "", now)
      else
        var withPorts := SetOpenPorts(running, id, ports);
        var urls := IpPortTargets(xml);
        var withUrls := if |urls| == 0 then withPorts else SetTargetUrls(withPorts, id, urls);
        UpdateStage(withUrls, id, PortDiscoveryComplete, "", now)
  }

  /** Without live hosts nothing runs, nothing is written and the target
      ends at `no_hosts_found`. */
  lemma PortDiscoverySkipped(st: ScanState, id: string, run: RunResult, xml: Option<seq<Host>>, now: Timestamp)
    requires id in st.targets && st.targets[id].liveHosts == []
    ensures PortDiscoveryWrites(st, id, run, xml) == []
    ensures var before, rec := st.targets[id], AfterPortDiscovery(st, id, run, xml, now).targets[id];
      rec.stage == NoHostsFound && rec.openPorts == before.openPorts
  {
  }

  /** With live hosts nmap runs while the target sits at `port_discovery`. */
  lemma PortDiscoveryLaunches(c: ScanConfig, st: ScanState, id: string, now: Timestamp)
    requires id in st.targets && st.targets[id].liveHosts != []
    ensures var l := PortDiscoveryLaunch(c, st, id, now).value;
      && l.state.targets[id].stage == PortDiscovery
      && MidStage(l.state.targets[id])
      && l.timeoutSeconds == 60 * c.portScanTimeout
  {
  }

  /** A non-zero exit fails the target with the tool's error. */
  lemma PortDiscoveryToolFails(st: ScanState, id: string, run: RunResult, xml: Option<seq<Host>>, now: Timestamp)
    requires id in st.targets && st.targets[id].liveHosts != [] && run.code != 0
    ensures var before, rec := st.targets[id], AfterPortDiscovery(st, id, run, xml, now).targets[id];
      && rec.stage == Failed && rec.error == Some("Port discovery " + FailureText(run))
      && rec.openPorts == before.openPorts
    ensures PortDiscoveryWrites(st, id, run, xml) == []
  {
  }

  /** A clean run without open ports stores the empty string and ends at
      `no_ports_found`. */
  lemma PortDiscoveryNoPorts(st: ScanState, id: string, run: RunResult, xml: Option<seq<Host>>, now: Timestamp)
    requires id in st.targets && st.targets[id].liveHosts != [] && run.code == 0 && ExtractOpenPorts(xml) == ""
    ensures var before, rec := st.targets[id], AfterPortDiscovery(st, id, run, xml, now).targets[id];
      rec.stage == NoPortsFound && rec.openPorts == Some("") && rec.targetUrls == before.targetUrls
    ensures PortDiscoveryWrites(st, id, run, xml) == []
  {
  }

  /** Otherwise the ports are stored, the `ip:port` list is stored and
      written only when non-empty, and the target is ready for the service
      scan. */
  lemma PortDiscoverySucceeds(st: ScanState, id: string, run: RunResult, xml: Option<seq<Host>>, now: Timestamp)
    requires id in st.targets && st.targets[id].liveHosts != [] && run.code == 0 && ExtractOpenPorts(xml) != ""
    ensures var before, rec, urls := st.targets[id], AfterPortDiscovery(st, id, run, xml, now).targets[id], IpPortTargets(xml);
      && rec.stage == PortDiscoveryComplete && rec.openPorts == Some(ExtractOpenPorts(xml))
      && rec.targetUrls == (if urls == [] then before.targetUrls else urls)
      && ReadyRecord(rec, ServiceScan)
    ensures var urls := IpPortTargets(xml);
      PortDiscoveryWrites(st, id, run, xml)
        == if urls == [] then [] else [FileWrite(st.targets[id].directory + "/target_urls.txt", ListFileContent(urls))]
  {
  }

  // ---------------------------------------------------------------------
  // Service scan and its completion check

  function ServiceScanEnv(c: ScanConfig, directory: string, ports: string): Bindings {
    map[
      "version_intensity" := IntToString(c.versionIntensity),
      "input_file" := directory + "/ips.txt",
      "ports" := ports,
      "output_base" := directory + "/service_scan"]
  }

  /** `open_ports` is truthy. */
  predicate HasPorts(rec: TargetState) {
    rec.openPorts.Some? && rec.openPorts.value != ""
  }

  /** `_check_and_mark_complete`: a `service_scan_complete` target whose
      nuclei status is complete or failed becomes `complete`. */
  function CheckAndMarkComplete(st: ScanState, id: string, now: Timestamp): (r: ScanState)
    ensures Framed(st, r, id)
    ensures Valid(st) ==> Valid(r)
    ensures id in st.targets ==>
      var before := st.targets[id];
      r.targets[id] == if before.stage == ServiceScanComplete && before.nucleiStatus in {Some(NucleiComplete), Some(NucleiFailed)}
                       then before.(stage := Complete, completedAt := Some(now))
                       else before
  {
    if id in st.targets && st.targets[id].stage == ServiceScanComplete
       && st.targets[id].nucleiStatus in {Some(NucleiComplete), Some(NucleiFailed)}
    then UpdateStage(st, id, Complete, "", now)
    else st
  }

  /** The nmap run of `_do_service_scan`: only for a target with open ports,
      after its stage becomes `service_scan`, over the stored port list. */
  function ServiceScanLaunch(c: ScanConfig, st: ScanState, id: string, now: Timestamp): (l: Option<Launch>)
    ensures l.Some? <==> id in st.targets && HasPorts(st.targets[id])
  {
    if id !in st.targets || !HasPorts(st.targets[id]) then None
    else
      var rec := st.targets[id];
      Some(Launch(
        UpdateStage(st, id, ServiceScan, "", now),
        FormatCommand(ServiceScanTemplate, ServiceScanEnv(c, rec.directory, rec.openPorts.value)),
        TimeoutSeconds(c.serviceScanTimeout)))
  }

  /** The registry `_do_service_scan` leaves: on success the stage becomes
      `service_scan_complete` and the completion check runs. It writes no
      list file. */
  function AfterServiceScan(st: ScanState, id: string, run: RunResult, now: Timestamp): (r: ScanState)
    ensures id !in st.targets ==> r == st
    ensures Framed(st, r, id)
    ensures id in st.targets ==> SameIdentity(st.targets[id], r.targets[id])
    ensures Valid(st) ==> Valid(r)
  {
    if id !in st.targets then st
    else if !HasPorts(st.targets[id]) then UpdateStage(st, id, NoPortsFound, "", now)
    else
      var running := UpdateStage(st, id, ServiceScan, "", now);
      if run.code != 0 then UpdateStage(running, id, Failed, "Service scan " + FailureText(run), now)
      else CheckAndMarkComplete(UpdateStage(running, id, ServiceScanComplete, "", now), id, now)
  }

  /** Without open ports nothing runs and the target ends at
      `no_ports_found`. */
  lemma ServiceScanSkipped(st: ScanState, id: string, run: RunResult, now: Timestamp)
    requires id in st.targets && !HasPorts(st.targets[id])
    ensures AfterServiceScan(st, id, run, now).targets[id].stage == NoPortsFound
  {
  }

  /** With open ports nmap runs over the stored port list, passed right
      after `-p`, while the target sits at `service_scan`. */
  lemma ServiceScanLaunches(c: ScanConfig, st: ScanState, id: string, now: Timestamp)
    requires id in st.targets && HasPorts(st.targets[id])
    ensures var l := ServiceScanLaunch(c, st, id, now).value;
      && l.state.targets[id].stage == ServiceScan
      && MidStage(l.state.targets[id])
      && l.timeoutSeconds == 60 * c.serviceScanTimeout
      && l.command.Some? && l.command.value[8] == "-p"
      && l.command.value[9] == st.targets[id].openPorts.value
  {
    var rec := st.targets[id];
    ServiceScanCommand(ServiceScanEnv(c, rec.directory, rec.openPorts.value));
  }

  /** After the run: failure with the tool's error, or
      `service_scan_complete`, promoted to `complete` only when nuclei has
      already completed or failed. The nuclei status is never touched. */
  lemma ServiceScanEnds(st: ScanState, id: string, run: RunResult, now: Timestamp)
    requires id in st.targets && HasPorts(st.targets[id])
    ensures var before, rec := st.targets[id], AfterServiceScan(st, id, run, now).targets[id];
      && rec.nucleiStatus == before.nucleiStatus
      && (run.code != 0 ==> rec.stage == Failed && rec.error == Some("Service scan " + FailureText(run)))
      && (run.code == 0 ==>
            rec.stage == (if before.nucleiStatus in {Some(NucleiComplete), Some(NucleiFailed)} then Complete else ServiceScanComplete))
  {
  }

  // ---------------------------------------------------------------------
  // Nuclei and its completion check

  /** `_check_target_completion`: like the service-scan check, but the two
      `skipped_*` statuses also count as done. */
  function CheckTargetCompletion(st: ScanState, id: string, now: Timestamp): (r: ScanState)
    ensures Framed(st, r, id)
    ensures Valid(st) ==> Valid(r)
    ensures id in st.targets ==>
      var before := st.targets[id];
      r.targets[id] == if before.stage == ServiceScanComplete && NucleiSettled(before.nucleiStatus)
                       then before.(stage := Complete, completedAt := Some(now))
                       else before
  {
    if id in st.targets && st.targets[id].stage == ServiceScanComplete && NucleiSettled(st.targets[id].nucleiStatus)
    then UpdateStage(st, id, Complete, "", now)
    else st
  }

  /** The service-scan check accepts fewer statuses than the nuclei check:
      a `service_scan_complete` target with a `skipped_*` status is
      completed by one and not the other. */
  lemma CompletionChecksDiffer(st: ScanState, id: string, now: Timestamp)
    requires id in st.targets && st.targets[id].stage == ServiceScanComplete
    requires st.targets[id].nucleiStatus in {Some(SkippedNoTargets), Some(SkippedNoHosts)}
    ensures CheckAndMarkComplete(st, id, now).targets[id].stage == ServiceScanComplete
    ensures CheckTargetCompletion(st, id, now).targets[id].stage == Complete
  {
  }

  function NucleiEnv(directory: string): Bindings {
    map[
      "urls_file" := directory + "/target_urls.txt",
      "markdown_dir" := directory + "/nuclei",
      "json_file" := directory + "/nuclei/output.json"]
  }

  /** The nuclei run of `_do_nuclei_scan`: only for a target with `ip:port`
      targets, after its status becomes `nuclei_running`. */
  function NucleiLaunch(c: ScanConfig, st: ScanState, id: string): (l: Option<Launch>)
    ensures l.Some? <==> id in st.targets && st.targets[id].targetUrls != []
  {
    if id !in st.targets || |st.targets[id].targetUrls| == 0 then None
    else Some(Launch(
      SetNucleiStatus(st, id, NucleiRunning),
      FormatCommand(NucleiUrlsTemplate, NucleiEnv(st.targets[id].directory)),
      TimeoutSeconds(c.nucleiTimeout)))
  }

  /** The registry `_do_nuclei_scan` leaves: without `ip:port` targets the
      status becomes `skipped_no_targets`, otherwise `nuclei_failed` or
      `nuclei_complete` by exit status; either way the completion check
      runs afterwards. It writes no list file. */
  function AfterNuclei(st: ScanState, id: string, run: RunResult, now: Timestamp): (r: ScanState)
    ensures id !in st.targets ==> r == st
    ensures Framed(st, r, id)
    ensures id in st.targets ==> SameIdentity(st.targets[id], r.targets[id])
    ensures Valid(st) ==> Valid(r)
  {
    if id !in st.targets then st
    else if |st.targets[id].targetUrls| == 0 then
      CheckTargetCompletion(SetNucleiStatus(st, id, SkippedNoTargets), id, now)
    else
      var running := SetNucleiStatus(st, id, NucleiRunning);
      var status := if run.code != 0 then NucleiFailed else NucleiComplete;
      CheckTargetCompletion(SetNucleiStatus(running, id, status), id, now)
  }

  /** How nuclei ends: the status records the outcome, the stored error is
      kept, and the stage moves only from `service_scan_complete` to
      `complete` — never to `failed`. */
  lemma NucleiOutcome(st: ScanState, id: string, run: RunResult, now: Timestamp)
    requires id in st.targets
    ensures var before, rec := st.targets[id], AfterNuclei(st, id, run, now).targets[id];
      var status := if before.targetUrls == [] then SkippedNoTargets else if run.code != 0 then NucleiFailed else NucleiComplete;
      && rec.nucleiStatus == Some(status)
      && rec.stage == (if before.stage == ServiceScanComplete then Complete else before.stage)
      && rec.error == before.error
  {
    var before := st.targets[id];
    var status := if before.targetUrls == [] then SkippedNoTargets else if run.code != 0 then NucleiFailed else NucleiComplete;
    var marked := if before.targetUrls == [] then SetNucleiStatus(st, id, status)
      else SetNucleiStatus(SetNucleiStatus(st, id, NucleiRunning), id, status);
    assert marked.targets[id] == before.(nucleiStatus := Some(status));
    assert AfterNuclei(st, id, run, now) == CheckTargetCompletion(marked, id, now);
  }

  /** With `ip:port` targets nuclei runs over `target_urls.txt` while the
      status is `nuclei_running`, exporting into the `nuclei/` directory. */
  lemma NucleiLaunches(c: ScanConfig, st: ScanState, id: string)
    requires id in st.targets && st.targets[id].targetUrls != []
    ensures var l, dir := NucleiLaunch(c, st, id).value, st.targets[id].directory;
      && l.state.targets[id].nucleiStatus == Some(NucleiRunning)
      && l.state.targets[id].stage == st.targets[id].stage
      && l.timeoutSeconds == 60 * c.nucleiTimeout
      && l.command.Some?
      && l.command.value[2] == dir + "/target_urls.txt"
      && l.command.value[4] == dir + "/nuclei/"
  {
    var dir := st.targets[id].directory;
    NucleiCommand(NucleiEnv(dir));
    assert dir + "/nuclei" + "/" == dir + "/nuclei/";
  }

  // ---------------------------------------------------------------------
  // The worker loops' error boundaries

  /** An item of the nmap queue. */
  datatype NmapTask = NmapTask(target: string, stage: string)

  /** Everything the outside world contributes to one nmap task. `fault` is
      an exception escaping the handler, taken to be raised before the
      handler changes the registry. */
  datatype NmapWorld = NmapWorld(
    run: RunResult, gnmap: Option<seq<string>>, saved: bool, xml: Option<seq<Host>>, fault: Option<string>)

  /** One pass of `NmapWorker.run` over a task: the target is dequeued, then
      dispatched on the task's stage name; an exception marks it `failed`
      with the exception's text. */
  function NmapWorkerStep(st: ScanState, task: NmapTask, w: NmapWorld, now: Timestamp): (r: ScanState)
    ensures r.queued == st.queued - {task.target}
    ensures r.targets.Keys == st.targets.Keys
    ensures forall k :: k in st.targets && k != task.target ==> r.targets[k] == st.targets[k]
    ensures Valid(st) ==> Valid(r)
  {
    var s := MarkDequeued(st, task.target);
    if w.fault.Some? then UpdateStage(s, task.target, Failed, w.fault.value, now)
    else if task.stage == StageName(HostDiscovery) then AfterHostDiscovery(s, task.target, w.run, w.gnmap, w.saved, now)
    else if task.stage == StageName(PortDiscovery) then AfterPortDiscovery(s, task.target, w.run, w.xml, now)
    else if task.stage == StageName(ServiceScan) then AfterServiceScan(s, task.target, w.run, now)
    else s
  }

  /** One pass of `NucleiWorker.run`: the target is dequeued and scanned; an
      exception sets `nuclei_failed` and re-runs the completion check. */
  function NucleiWorkerStep(st: ScanState, target: string, run: RunResult, fault: Option<string>, now: Timestamp): (r: ScanState)
    ensures r.queued == st.queued - {target}
    ensures r.targets.Keys == st.targets.Keys
    ensures forall k :: k in st.targets && k != target ==> r.targets[k] == st.targets[k]
    ensures Valid(st) ==> Valid(r)
  {
    var s := MarkDequeued(st, target);
    if fault.Some? then CheckTargetCompletion(SetNucleiStatus(s, target, NucleiFailed), target, now)
    else AfterNuclei(s, target, run, now)
  }

  /** An exception in an nmap handler fails the target and records the
      exception's text (a blank text leaves the stored error as it was). */
  lemma NmapFaultFails(st: ScanState, task: NmapTask, w: NmapWorld, now: Timestamp)
    requires task.target in st.targets && w.fault.Some?
    ensures var rec := NmapWorkerStep(st, task, w, now).targets[task.target];
      && rec.stage == Failed && rec.completedAt == Some(now)
      && rec.error == (if w.fault.value != "" then w.fault else st.targets[task.target].error)
  {
  }

  /** An exception on the nuclei side never fails the target: the nuclei
      status becomes `nuclei_failed` and a `service_scan_complete` target
      is completed. */
  lemma NucleiFaultDoesNotFail(st: ScanState, target: string, run: RunResult, fault: string, now: Timestamp)
    requires target in st.targets
    ensures var before, rec := st.targets[target], NucleiWorkerStep(st, target, run, Some(fault), now).targets[target];
      && rec.nucleiStatus == Some(NucleiFailed)
      && rec.stage == (if before.stage == ServiceScanComplete then Complete else before.stage)
      && rec.error == before.error
  {
  }

  /** The nuclei worker never moves a target to `failed`, whatever happens. */
  lemma NucleiNeverFails(st: ScanState, target: string, run: RunResult, fault: Option<string>, now: Timestamp)
    requires target in st.targets && st.targets[target].stage != Failed
    ensures NucleiWorkerStep(st, target, run, fault, now).targets[target].stage != Failed
  {
    if fault.None? {
      NucleiOutcome(MarkDequeued(st, target), target, run, now);
    }
  }

  /** An unknown stage name in a task only dequeues the target. */
  lemma UnknownTaskOnlyDequeues(st: ScanState, task: NmapTask, w: NmapWorld, now: Timestamp)
    requires w.fault.None?
    requires task.stage !in {StageName(HostDiscovery), StageName(PortDiscovery), StageName(ServiceScan)}
    ensures NmapWorkerStep(st, task, w, now) == MarkDequeued(st, task.target)
  {
  }
}

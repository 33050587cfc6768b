# reconductor — a Dafny model of the scan-state registry and its stage machine

reconductor drives a network reconnaissance pipeline. It reads a list of IPv4 targets and splits networks into `/24` pieces. Each piece then moves through a fixed sequence of stages:

- `pending`;
- host discovery, an nmap ping sweep;
- port discovery, an nmap SYN scan;
- service scan, nmap `-sV`;
- a separate nuclei scan of the discovered `ip:port` pairs.

A persistent registry (`ScanState`) holds one record per target. It keeps an index from stage to targets and a set of targets that are currently queued. An orchestrator loop repeatedly asks the registry which targets are ready for each stage. It enqueues those targets. Worker coroutines run the external tools and write the outcome back into the registry.

This project models that core as pure Dafny functions over immutable data and proves what the code promises:

- `stages.dfy`: the closed stage and nuclei-status enumerations and their string names.
- `records.dfy`: the per-target record, its defaults and its dictionary round trip.
- `registry.dfy`: the registry as a map, a stage index and a queued set. It carries the invariant that the index is exactly the partition of ids by stage. It models every mutator, the readiness queries, the completion predicate, the index rebuild and the snapshot save/load.
- `counting.dfy` and `statistics.dfy`: `get_statistics` and the counting part of `get_scan_summary`.
- `text.dfy`: the Python string builtins the code relies on (`strip`, `split`, `join`, `int`, `str`).
- `targetsyntax.dfy`: `is_valid_target` and `sanitize_target_name`.
- `subnets.dfy`: `split_into_24_subnets` as arithmetic on a parsed (address, prefix).
- `extract.dfy`: the gnmap live-host parser and the two XML extractors. The extractors work over already-parsed host and port elements.
- `commands.dfy`: `format_command`, the command templates of the configuration and the content written by `save_list_to_file`.
- `config.dfy`: the range checks of `ScanConfig.__post_init__` and the default state-file path.
- `workers.dfy`: the four stage handlers and both worker error boundaries. Each is a transition from (registry, tool outcome) to registry.
- `scheduler.dfy`: one iteration of `_orchestrate`.
- `startup.dfy`: `load_targets`, `initialize_state` and the exit status of `main`.

External tool runs are parameters. A `RunResult` carries the exit code and a timed-out flag. Tool output enters as the parsed file contents: `Option<seq<string>>` lines of a gnmap file, or `Option<seq<Host>>` for an XML report, where `None` means a missing or unparsable file. Whether a file write succeeded is a boolean. Timestamps are opaque `now` values.

## Model

| member | source | states |
|---|---|---|
| Stages.StageNameRoundTrip | state.py:16-36 | every stage's stored string reads back as the same stage |
| Stages.StageNameInjective | state.py:16-36 | no two stages share a stored string |
| Stages.NucleiStatusNameRoundTrip | state.py:29-32 | every nuclei status's stored string reads back as the same status |
| Records.NewTarget | state.py:39-60 | a fresh record has empty host and URL lists and no ports, nuclei status, completion time or error; its start time is the creation time |
| Records.ToDict | state.py:62-64 | the dictionary has exactly the record's field names and stores the stage by name |
| Records.FromDict | state.py:66-69 | a record is read only from a dictionary with known keys whose target, stage and directory are present, and its stage is the stored name |
| Records.FromDictReads | state.py:39-69 | a record is built exactly when the keys are field names, target, stage and directory are strings, the stage is known, list fields are lists or absent, optional fields are strings or absent, and any nuclei status is known; each field is then the stored value, absent lists are empty, absent optional fields unset, and a missing `started_at` is `now` |
| Records.DictRoundTrip | state.py:54-69 | reading back a saved record gives the same record |
| Records.MinimalDictTakesDefaults | state.py:39-60 | a dictionary holding only target, stage and directory reads as a fresh record |
| Registry.Empty | state.py:75-87 | a registry with no snapshot has no targets, nothing queued, and a consistent index |
| Registry.AddTarget | state.py:134-147 | adding a known id changes nothing; adding a new id creates a pending default record, indexes it, and keeps every other record and the index partition |
| Registry.AddTargetIdempotent | state.py:134-147 | adding the same id twice is the same as adding it once |
| Registry.UpdateStage | state.py:149-171 | an unknown id is a no-op; otherwise only that record's stage changes, its error only when a non-empty error is given, its completion time only on the four terminal stages, and the index stays the partition by stage |
| Registry.UpdateStageMovesId | state.py:152-158 | after a stage update the id is in exactly one index bucket, the new stage's |
| Registry.SetLiveHosts | state.py:173-177 | an unknown id is a no-op; otherwise only that record's host list changes |
| Registry.SetOpenPorts | state.py:179-183 | an unknown id is a no-op; otherwise only that record's port string changes |
| Registry.SetTargetUrls | state.py:185-189 | an unknown id is a no-op; otherwise only that record's URL list changes |
| Registry.SetNucleiStatus | state.py:191-195 | an unknown id is a no-op; otherwise only that record's nuclei status changes |
| Registry.MarkQueued | state.py:224-226 | queueing inserts the id into the queued set and touches nothing else |
| Registry.MarkDequeued | state.py:228-230 | dequeueing removes the id from the queued set and touches nothing else |
| Registry.TargetsByStage | state.py:197-199 | the ids listed for a stage are exactly the records at that stage |
| Registry.ReadyFor | state.py:201-222 | the ids ready for a stage are exactly the unqueued records in its input stage (pending, host discovery complete, port discovery complete, or service scan complete with no nuclei status); other stages have none |
| Registry.QueuedNotOffered | state.py:201-226 | a queued id is never offered |
| Registry.DequeueReoffers | state.py:201-230 | an eligible target is offered again once dequeued |
| Registry.IsTargetComplete | state.py:232-261 | unknown ids are incomplete; the six terminal stages are complete; service scan complete counts as complete exactly when nuclei is complete, failed or unset; every other stage is incomplete |
| Registry.SettledMeansNoWorkLeft | state.py:201-261 | the corrected completion rule holds exactly when no queue would take the record and it is not mid-step (in one of the three nmap stages, or with nuclei queued or running, which only a running handler sets) |
| Registry.AsWrittenVersusSettled | state.py:232-261 | the written rule and the corrected rule differ only for service scan complete with unset or skipped nuclei status |
| Registry.AsWrittenCompleteButNucleiReady | state.py:252-259 | a record at service scan complete with no nuclei status is counted complete although nuclei is still ready for it |
| Registry.IsTargetSettled | state.py:232-261 | the corrected completion check: true exactly when no queue would take the record and it is not mid-step |
| Registry.IncompleteTargets | state.py:267-273 | the incomplete ids are exactly the registered ids that the chosen completion rule rejects |
| Registry.BuildIndex | state.py:107-114 | the rebuilt index lists each stage's records and has no empty buckets |
| Registry.RebuildIndex | state.py:107-114 | the loop that rebuilds the index produces the partition of ids by stage |
| Registry.RebuildAgreesWithIncremental | state.py:107-114 | rebuilding from the records gives the same members for every stage as the index kept by the mutators |
| Registry.Save | state.py:116-132 | the snapshot has one dictionary per target, each with exactly the record's field names |
| Registry.Load | state.py:89-105 | a loaded registry is consistent and has nothing queued; a missing or unreadable snapshot gives an empty registry; a readable one keeps every id with the record read from its dictionary |
| Registry.SaveLoadRoundTrip | state.py:89-132 | loading a saved registry gives back the same records and the same index, with an empty queued set |
| Counting.StagesPartitionRecords | state.py:288-290 | every record is counted under exactly one stage |
| Counting.ClassesCoverRecords | state.py:292-305 | completed + failed + no hosts + no ports + in progress + pending records = all records |
| Counting.CompletedIsThreeStages | state.py:292-297 | the completed counter counts the three complete stages |
| Statistics.GetStatistics | state.py:275-313 | the loop counts every record once: its stage, its outcome class and its nuclei status; the outcome classes plus pending sum to the total |
| Statistics.ByStageSumsToTotal | state.py:288-290 | the per-stage counts sum to the total |
| Statistics.OutcomeCountersMatchStages | state.py:292-303 | each outcome counter equals the count of its stages in the per-stage table |
| Statistics.PortsAtLeastHosts | state.py:337-363 | over any records, the number with open ports never exceeds the total number of open ports |
| Statistics.GetScanSummary | state.py:337-363 | total hosts is the sum of host-list lengths, total ports the sum of port-list lengths, and records with ports never exceed ports |
| TargetSyntax.IsValidTargetCharacterised | utils.py:15-52 | a string passes exactly when it is a well-formed dotted quad with an optional canonical prefix 0-32, or such a string (not ending in a bare `0` octet) followed by one newline |
| TargetSyntax.ValidWithoutNewline | utils.py:15-52 | without a trailing newline, passing is exactly well-formedness |
| TargetSyntax.SanitizeTargetName | utils.py:55-74 | length is kept, every output character is a letter, digit, `_` or `-`, `.` becomes `_`, `/` becomes `-`, and any other unsafe character becomes `_` |
| TargetSyntax.SanitizeIdempotent | utils.py:55-74 | sanitising twice is sanitising once |
| TargetSyntax.SanitizeInjectiveOnTargets | utils.py:55-74 | distinct strings of digits, `.` and `/` get distinct sanitised names |
| Subnets.ParseNetwork | utils.py:96-109 | a network is parsed exactly from a well-formed target, with host bits cleared |
| Subnets.ParseNetworkContainsTarget | utils.py:96-97 | the parsed network keeps the written prefix and contains the written address |
| Subnets.Split24 | utils.py:99-104 | a network of prefix 24 or longer stays whole; a shorter prefix p gives 2^(24-p) pieces |
| Subnets.Split24Valid | utils.py:99-105 | every piece is an aligned network of prefix 24 (or the original prefix if longer), in ascending address order |
| Subnets.SplitInto24Subnets | utils.py:77-109 | the result is empty exactly for a target that does not parse |
| Subnets.SplitCount | utils.py:99-104 | the number of names is 1 for prefix 24 or longer and 2^(24-p) otherwise |
| Subnets.SplitCoversTarget | utils.py:77-109 | an address lies in the target network exactly when it lies in one of the pieces, and never in two |
| Subnets.FormatParseRoundTrip | utils.py:15-109 | the printed form of a network is a well-formed target that parses back to the same network |
| Subnets.SplitOutputsAreTargets | utils.py:15-109 | every name the split produces is a valid target of prefix 24 or longer |
| Subnets.SplitIdempotent | utils.py:77-109 | splitting a produced name gives just that name |
| Extract.LiveHostsOfLines | utils.py:112-131 | one host per line containing "Status: Up", in file order, each the line's second whitespace-separated word |
| Extract.LiveHostsConcat | utils.py:112-131 | live hosts of a concatenation are the concatenation of live hosts |
| Extract.OpenPortsMeaning | utils.py:134-171 | the port string is empty exactly for a missing document, a port id that is not an ASCII integer, or no open port; otherwise it reads back as an ascending list of exactly the open port numbers |
| Extract.OpenPortsAreSortedSet | utils.py:134-171 | the port string reads back as the unique ascending list of the open ports |
| Extract.FormatPortsReadBack | utils.py:158-161 | the comma-joined port list reads back as the same list, and is empty only for no ports |
| Extract.ExtractIpPortCombinations | utils.py:174-219 | a missing document gives no pairs; otherwise the pairs of every ipv4 host's open ports, in document order |
| Extract.PairsMembership | utils.py:174-219 | a string is produced exactly when some ipv4 host has that address and an open port with that id |
| Extract.PairsCount | utils.py:174-219 | one pair per open port of each host with an ipv4 address, duplicates kept |
| Commands.FormatArg | utils.py:313-324 | an argument formats exactly when every placeholder in it is bound |
| Commands.FormatCommand | utils.py:313-324 | a template formats exactly when all its placeholders are bound, keeping its length and formatting each argument on its own |
| Commands.FormatArgConcat | utils.py:313-324 | formatting two runs of pieces one after the other gives the two formatted texts one after the other, and fails if either fails |
| Commands.FormatArgCases | utils.py:313-324 | literal text is kept as written; a lone placeholder becomes its value, or fails when unbound |
| Commands.FormatArgAt | utils.py:313-324 | in a bound argument, each piece appears right after the formatted text of the pieces before it: a literal as written, a placeholder as its value |
| Commands.FormatIgnoresUnused | utils.py:313-324 | binding a name the template does not mention changes nothing |
| Commands.ServiceScanCommand | config.py:148-161 | the service-scan command has 12 words and passes the port list right after `-p` |
| Commands.NucleiCommand | config.py:174-182 | the nuclei command reads the URL file and writes markdown under the given directory followed by `/` |
| Commands.EmptyListFile | utils.py:339-340 | an empty list is saved as a single newline |
| Commands.ListFileRoundTrip | utils.py:339-340 | for a non-empty list of newline-free items the content has one newline per item and splits back into the items plus a final empty part |
| Config.PostInit | config.py:50-103 | configuration is accepted exactly when not both scan modes are set and every range check passes; only the state file is filled in, defaulting to `{output_dir}/{stem}_state.json`; both modes at once is reported as such |
| Config.PostInitReportsFirstFailure | config.py:80-103 | the reported error is the first range check that fails, in the source's order |
| Config.ChecksAreBounds | config.py:80-103 | the ordered checks pass exactly when every field lies in its range |
| Config.DefaultsValidate | config.py:25-48 | the default configuration passes all checks and gets `scan_results/{stem}_state.json` |
| Config.ExplicitStateFileKept | config.py:52-54 | an explicit state file is kept |
| Config.PostInitIdempotent | config.py:50-103 | validating an accepted configuration again accepts it unchanged |
| Config.TimeoutSeconds | scanner.py:106 | a timeout in minutes within the allowed range of 1-1440 becomes 60-86400 seconds |
| Workers.HostDiscoveryLaunch | scanner.py:83-106 | host discovery launches exactly for a registered target |
| Workers.HostDiscoveryLaunches | scanner.py:91-106 | the target is at host discovery while the tool runs, with the configured timeout in seconds |
| Workers.AfterHostDiscovery | scanner.py:106-139 | the outcome touches only the target's record and keeps the index consistent |
| Workers.HostDiscoveryToolFails | scanner.py:109-115 | a non-zero exit fails the target with "Host discovery timed out" or "exit code N", stamps completion and writes nothing |
| Workers.HostDiscoveryNoHosts | scanner.py:121-125 | no live host gives an empty host list and no hosts found |
| Workers.HostDiscoveryWritesHosts | scanner.py:129-131 | the live hosts are written one per line to `ips.txt` in the target's directory |
| Workers.HostDiscoveryCannotSave | scanner.py:131-135 | a failed save of the live hosts fails the target |
| Workers.HostDiscoverySucceeds | scanner.py:137-138 | success records the live hosts, moves to host discovery complete, and makes the target ready for port discovery |
| Workers.PortDiscoveryLaunch | scanner.py:141-168 | port discovery launches exactly for a registered target with live hosts |
| Workers.PortDiscoverySkipped | scanner.py:147-150 | with no live hosts the target goes to no hosts found without a run |
| Workers.PortDiscoveryLaunches | scanner.py:153-168 | the target is at port discovery while the tool runs, with the configured timeout in seconds |
| Workers.AfterPortDiscovery | scanner.py:168-205 | the outcome touches only the target's record and keeps the index consistent |
| Workers.PortDiscoveryToolFails | scanner.py:171-177 | a non-zero exit fails the target with a "Port discovery" error |
| Workers.PortDiscoveryNoPorts | scanner.py:182-186 | no open port stores an empty port string and moves to no ports found |
| Workers.PortDiscoverySucceeds | scanner.py:189-204 | the ports are stored, the URL list is replaced only by a non-empty pair list (and then written to `target_urls.txt`), and the target becomes ready for the service scan |
| Workers.CheckAndMarkComplete | scanner.py:250-264 | after a service scan the target becomes complete only when nuclei has completed or failed |
| Workers.ServiceScanLaunch | scanner.py:207-233 | the service scan launches exactly for a target with a non-empty port string |
| Workers.ServiceScanLaunches | scanner.py:219-233 | the target is at service scan while the tool runs, the command scans the stored ports, with the configured timeout in seconds |
| Workers.ServiceScanSkipped | scanner.py:213-216 | with no stored ports the target goes to no ports found |
| Workers.AfterServiceScan | scanner.py:233-248 | the outcome touches only the target's record and keeps the index consistent |
| Workers.ServiceScanEnds | scanner.py:236-248 | a non-zero exit fails the target with a "Service scan" error; success gives service scan complete, or complete when nuclei already completed or failed |
| Workers.CheckTargetCompletion | scanner.py:346-362 | after nuclei the target becomes complete when it is at service scan complete and nuclei completed, failed or was skipped |
| Workers.CompletionChecksDiffer | scanner.py:259-262 | a skipped nuclei status completes a target on the nuclei side but not on the service-scan side |
| Workers.NucleiLaunch | scanner.py:300-332 | nuclei launches exactly for a target with a URL list |
| Workers.NucleiLaunches | scanner.py:315-332 | the nuclei status is running while the tool runs, the stage is untouched, and the command reads `target_urls.txt` and writes under `nuclei/` |
| Workers.AfterNuclei | scanner.py:300-344 | the outcome touches only the target's record and keeps the index consistent |
| Workers.NucleiOutcome | scanner.py:307-344 | nuclei ends skipped without URLs, failed on a non-zero exit and complete otherwise; the stage moves only from service scan complete to complete |
| Workers.NmapWorkerStep | scanner.py:47-81 | an nmap task dequeues its target first and changes no other record |
| Workers.NmapFaultFails | scanner.py:75-77 | an exception in an nmap handler fails the target with the exception text |
| Workers.UnknownTaskOnlyDequeues | scanner.py:66-73 | a task for an unknown stage only dequeues its target |
| Workers.NucleiWorkerStep | scanner.py:270-298 | a nuclei task dequeues its target first and changes no other record |
| Workers.NucleiFaultDoesNotFail | scanner.py:289-294 | an exception in the nuclei handler marks nuclei failed and re-checks completion |
| Workers.NucleiNeverFails | scanner.py:270-344 | the nuclei side never moves a target to failed |
| Scheduler.HostTaskReachesHandler | scanner.py:66-69 | a host-discovery task runs the host-discovery handler after dequeueing |
| Scheduler.PortTaskReachesHandler | scanner.py:66-71 | a port-discovery task runs the port-discovery handler after dequeueing |
| Scheduler.ServiceTaskReachesHandler | scanner.py:66-73 | a service-scan task runs the service-scan handler after dequeueing |
| Scheduler.EnqueueNuclei | scanner.py:447-454 | each nuclei-ready target is handed over once, queued, and given status queued; no other record changes |
| Scheduler.Tick | scanner.py:411-459 | the loop stops exactly when no target is incomplete, then enqueuing nothing; otherwise every ready target of each stage is handed over exactly once and queued, only nuclei items change their record, and afterwards nothing is ready |
| Scheduler.ReadyAfterMarkQueued | scanner.py:423-454 | queueing a target removes only that target from every ready set |
| Scheduler.CorrectedStopMeansNoWork | scanner.py:417-420 | under the corrected rule the loop stops exactly when no queue would take any target and none is mid-step; in a run started without mid-step records these are the targets a worker holds |
| Scheduler.AsWrittenStopsBeforeNuclei | scanner.py:417-420 | with the rule as written, a registry whose only target awaits nuclei stops although nuclei is ready for it |
| Scheduler.CorrectedQueuesNuclei | scanner.py:417-454 | under the corrected rule the same registry keeps going and offers the target to nuclei |
| Scheduler.CorrectedStopImpliesAsWrittenStop | scanner.py:417-420 | without skipped nuclei statuses, whenever the corrected loop stops the written loop stops too |
| Scheduler.ResumedMidStepSpins | reconductor.py:210-236 | a snapshot saved while host discovery ran loads with its target at `host_discovery` and nothing queued; under either completion rule the target is incomplete and no queue takes it |
| Scheduler.LoneMidStepIdles | state.py:201-273 | a registry whose one target sits at `host_discovery` with nothing queued is incomplete and offers nothing to any queue |
| Scheduler.IdleTick | scanner.py:411-459 | over an incomplete registry that offers nothing, a loop pass neither stops nor hands anything out, and leaves records and queued set as they were |
| Scheduler.ResumedTickIdles | scanner.py:411-459 | on the reloaded snapshot a loop pass does not stop, hands out nothing and leaves the records as loaded, so every later pass repeats it |
| Registry.Rewound | scanner.py:91-106 | a record taken up on resume is not mid-step; an interrupted nmap step goes back to the stage that step's queue takes, interrupted nuclei work is reset to unset; nothing else in the record changes, and a record not mid-step is kept |
| Registry.ResetInterrupted | reconductor.py:223-236 | rewinding keeps the ids and the queued set, rewinds every record, and leaves the index consistent |
| Scheduler.RewoundResumeHasWork | scanner.py:411-459 | after rewinding a loaded registry, no record is mid-step, and whenever the corrected loop does not stop some queue takes a target |
| Scheduler.RewoundResumeRerunsHostDiscovery | scanner.py:423-428 | on the interrupted snapshot, rewinding hands host discovery its target again |
| Startup.FilterLines | reconductor.py:170-175 | kept lines are stripped, non-empty and not comments |
| Startup.FilterLinesIdempotent | reconductor.py:170-175 | filtering filtered lines changes nothing |
| Startup.FilterLinesConcat | reconductor.py:170-175 | filtering is line by line and keeps order |
| Startup.ExpandConcat | reconductor.py:188-207 | expansion is target by target and keeps order |
| Startup.ExpandIdempotent | reconductor.py:188-207 | expanding expanded targets changes nothing |
| Startup.LoadTargets | reconductor.py:155-207 | a missing file fails; no kept line fails; otherwise the kept lines are returned as they are, or expanded into their `/24` pieces when splitting |
| Startup.LoadedTargetsAreSplit | reconductor.py:188-207 | with splitting, every loaded target is valid and already split |
| Startup.CommentsOnlyIsNoTargets | reconductor.py:170-179 | a file of one comment line has no targets |
| Startup.StopBeforeScan | reconductor.py:264-269 | the program goes on to scan exactly when loading succeeded with at least one target |
| Startup.InvalidOnlyIsNothingToScan | reconductor.py:188-207 | when every kept line is invalid, loading succeeds with no targets and the program stops with nothing to scan |
| Startup.TargetDirectory | reconductor.py:234 | a target's directory is the output directory, `/`, and the sanitised name |
| Startup.DistinctDirectories | reconductor.py:234-241 | distinct targets made only of digits, dots and slashes get distinct directories |
| Startup.LoadedDirectoriesDistinct | reconductor.py:188-241 | with splitting, every two distinct loaded targets get distinct directories |
| Startup.NoSplitDirectoriesCollide | reconductor.py:183-184 | without splitting, `10.0.0.1/24` and `10.0.0.1-24` share a directory |
| Startup.InitializeState | reconductor.py:210-247 | after seeding, the registry holds the loaded ids and the listed ones; loaded records are untouched and every new id gets a pending record in its directory |
| Startup.ResumeAndFreshAgree | reconductor.py:223-245 | resume mode (adding only unknown ids) and fresh mode (adding every id) give the same registry |
| Startup.AddTargetsIdempotent | reconductor.py:237-245 | seeding the same targets again changes nothing |
| Startup.AllKnownAddsNothing | reconductor.py:223-236 | when every listed target is already known, seeding changes nothing |
| Startup.ExitCode | reconductor.py:257-345 | declining to run without root exits 0; a load failure or nothing to scan exits 1; an interrupt exits 130, whether `main`'s handler or the entry point's guard catches it; a crash exits 1; a finished run exits 1 exactly when some target failed, else 0 |

## Left out

- Running tools (`run_command`, utils.py:222-292) is subprocess control with streaming and kill escalation. Only its (exit code, timed-out) result is modelled, as a parameter.
- The asyncio queues and the `while self.active` worker loops are not modelled, nor are `ScanOrchestrator.start`, the sleep between ticks and the progress reporting. Concurrency is left out: one tick and one handler invocation at a time are modelled.
- Real file I/O is not modelled: JSON encoding, the temp-file-and-rename in `save`, directory creation, and the filesystem checks of `ScanConfig.__post_init__` (config.py:61-77, 106). A snapshot is a map of dictionaries; a missing or unreadable one loads as an empty registry.
- `xml.etree` and `ipaddress` are foreign libraries. The XML extractors take the parsed hosts and ports, and `None` stands for a parse failure. The `.//port` search is taken as the ports listed under each host. The subnet split takes the address and prefix that `ip_network(..., strict=False)` parses, here computed from the well-formed dotted quad.
- Records.FromDict: the stage and nuclei status are closed enumerations, so a stored string that names no stage fails to load. Python would accept any string.
- Startup.DistinctDirectories: only targets of digits, dots and slashes are kept apart, which covers every target when splitting. Without splitting, lines reach the registry as written, and two of them can share a directory (`10.0.0.1/24` and `10.0.0.1-24`, or `a.b` and `a_b`); Startup.NoSplitDirectoriesCollide exhibits this and the model keeps the behaviour.
- Commands.FormatArg: templates are given already parsed into literal text and named placeholders. The `str.format` mini-language is not modelled: no `{{`/`}}` escapes, `!r` conversions, `:spec` format specs or positional fields. The templates in config.py use none of these.
- Extract.OpenPortsMeaning: port ids are read as ASCII decimal integers. Python's `int()` also accepts other Unicode decimal digits (`int("٨٠") == 80`), which the model treats as unconvertible.
- Records.FromDict: wrongly typed field values are rejected (a number as `error`, a string as `live_hosts`), and one such record makes Registry.Load return an empty registry. Python's dataclass does not check types and accepts any JSON value.
- Timestamps are opaque values passed in as `now`. One `now` serves a whole seeding pass. `Path.stem` is a parameter.
- Printing is left out (`print_summary`, `print_scan_summary`, `print_header`). So are the duration and timestamp fields of `get_scan_summary`, `argparse`, and the interactive root-privilege check (its answer is the `Declined` outcome).
- Startup.ExitCode: which handler catches Ctrl+C is a parameter. Under `asyncio.run`, the event loop usually cancels `main`, so the entry point's guard catches the interrupt rather than `main`'s handler. Both exit with 130; only the messages they print differ, and printing is not modelled.
- Registry.MidStage: this is a test of the stage, not of whether a worker is running. The corrected completion rule stops the loop only when no record is mid-step. Registry.ResetInterrupted supplies that condition for a resumed registry; Startup.InitializeState still models the code as written, which keeps mid-step records.
- Workers.NmapFaultFails: an exception is taken as raised before the handler changes anything. A fault that strikes after a partial update is not modelled.
- `hosts_only` and `ports_only` are validated but consulted nowhere else in the code. The stages `complete_hosts_only` and `complete_ports_only` are never written, so they appear only as stages that may be loaded.
- Statistics.GetStatistics: the records are taken as a sequence in the registry's iteration order. Which order Python's dict and set iteration chooses is left open: the readiness queries return sets, and the tick hands them over in an arbitrary enumeration.
- The `NUCLEI_SCAN_TEMPLATE` (config.py:163-171) is never used by the scanner and is not modelled. The scanner uses the URL-list template (config.py:174-182).
- The host- and port-discovery command contents are modelled as templates, but no lemma states their individual arguments.
- `is_valid_target` accepts one trailing newline, because Python's `$` matches before a final `\n` and `int()` strips it. This is modelled, and TargetSyntax.IsValidTargetCharacterised states it exactly. It cannot affect loading, because target lines are stripped first.

## Findings

| source | as written | input that shows it | evidently intended | confidence | as-written member | corrected member |
|---|---|---|---|---|---|---|
| state.py:252-259 with scanner.py:417-420 | `is_target_complete` counts a target at service scan complete with no nuclei status as complete, and the orchestrator stops once every target is complete | one target at service scan complete whose nuclei status is unset and which has URLs: the loop stops before nuclei is ever queued for it, while `get_targets_ready_for_stage(NUCLEI_SCAN)` still returns it | stop only when no queue would take any target and none is mid-step (for a resumed registry this also needs the second row's correction) | not executed | Scheduler.AsWrittenStopsBeforeNuclei, Registry.AsWrittenCompleteButNucleiReady | Registry.IsTargetSettled, Scheduler.CorrectedQueuesNuclei, Scheduler.CorrectedStopMeansNoWork |
| scanner.py:91-106 with reconductor.py:210-236 and scanner.py:415-457 | each nmap handler saves the record at its running stage (and the loop saves `nuclei_queued`) before the tool runs, and the state file is loaded again on the next start, in resume and fresh mode alike, with no step to undo interrupted work | a run stopped with Ctrl+C while host discovery runs for its only target, then started again with `--resume`: the target loads at `host_discovery`, no queue takes that stage, it is incomplete under either completion rule, and the loop polls forever | a resumed run takes up the interrupted step again, as the Ctrl+C message's advice to resume promises | not executed | Scheduler.ResumedMidStepSpins, Scheduler.ResumedTickIdles | Registry.Rewound, Registry.ResetInterrupted, Scheduler.RewoundResumeHasWork, Scheduler.RewoundResumeRerunsHostDiscovery |

/** The start-up and shut-down steps of reconductor.py: reading the
    targets file (`load_targets`), seeding the registry (`initialize_state`)
    and the process exit status at the end of `main`. */
module Startup {
  import opened Wrappers
  import opened Text
  import opened Stages
  import opened Records
  import opened Registry
  import opened TargetSyntax
  import opened Subnets
  import opened Counting
  import opened Statistics

  // ---------------------------------------------------------------------
  // load_targets

  /** A line of the targets file is kept when, stripped, it is neither
      empty nor a comment. */
  predicate KeptLine(line: string) {
    var s := Strip(line);
    s != "" && s[0] != '#'
  }

  /** The stripped lines that are neither empty nor comments, in file order. */
  function FilterLines(lines: seq<string>): (r: seq<string>)
    ensures |r| <= |lines|
    ensures forall k :: 0 <= k < |r| ==>
      && r[k] != "" && r[k][0] != '#'
      && !IsSpace(r[k][0]) && !IsSpace(r[k][|r[k]| - 1])
  {
    if |lines| == 0 then []
    else (if KeptLine(lines[0]) then [Strip(lines[0])] else []) + FilterLines(lines[1..])
  }

  /** Lines are filtered one at a time, so a file read in two pieces gives
      the targets of the first piece followed by those of the second. */
  lemma {:induction false} FilterLinesConcat(a: seq<string>, b: seq<string>)
    ensures FilterLines(a + b) == FilterLines(a) + FilterLines(b)
    decreases |a|
  {
    if |a| == 0 {
      assert a + b == b;
    } else {
      assert (a + b)[0] == a[0];
      assert (a + b)[1..] == a[1..] + b;
      FilterLinesConcat(a[1..], b);
    }
  }

  /** Reading the kept lines back as a targets file keeps all of them
      unchanged. */
  lemma {:induction false} FilterLinesIdempotent(lines: seq<string>)
    ensures FilterLines(FilterLines(lines)) == FilterLines(lines)
    decreases |lines|
  {
    if |lines| > 0 {
      var head := if KeptLine(lines[0]) then [Strip(lines[0])] else [];
      FilterLinesConcat(head, FilterLines(lines[1..]));
      FilterLinesIdempotent(lines[1..]);
      if KeptLine(lines[0]) {
        StripIdempotent(lines[0]);
        assert head[1..] == [];
      }
    }
  }

  /** What one raw target contributes when subnets are split: nothing for
      an invalid target or one that does not parse, else its `/24` pieces. */
  function TargetPieces24(t: string): seq<string> {
    if IsValidTarget(t) then SplitInto24Subnets(t) else []
  }

  /** Each raw target's contribution under `pieces`, in order: the shape
      of the expansion loop of `load_targets`. */
  function Concatenated(raw: seq<string>, pieces: string -> seq<string>): seq<string> {
    if |raw| == 0 then [] else pieces(raw[0]) + Concatenated(raw[1..], pieces)
  }

  /** The expansion loop of `load_targets`, in order. */
  function ExpandTargets(raw: seq<string>): (r: seq<string>) {
    Concatenated(raw, TargetPieces24)
  }

  lemma {:induction false} ConcatenatedAppend(a: seq<string>, b: seq<string>, pieces: string -> seq<string>)
    ensures Concatenated(a + b, pieces) == Concatenated(a, pieces) + Concatenated(b, pieces)
    decreases |a|
  {
    if |a| == 0 {
      assert a + b == b;
    } else {
      assert (a + b)[0] == a[0];
      assert (a + b)[1..] == a[1..] + b;
      ConcatenatedAppend(a[1..], b, pieces);
    }
  }

  /** Everything in the result comes from one raw target. */
  lemma {:induction false} ConcatenatedFrom(raw: seq<string>, pieces: string -> seq<string>, x: string)
    requires x in Concatenated(raw, pieces)
    ensures exists k :: 0 <= k < |raw| && x in pieces(raw[k])
    decreases |raw|
  {
    if x !in pieces(raw[0]) {
      ConcatenatedFrom(raw[1..], pieces, x);
      var k :| 0 <= k < |raw[1..]| && x in pieces(raw[1..][k]);
      assert raw[1..][k] == raw[k + 1];
    }
  }

  /** Targets that each contribute nothing leave nothing. */
  lemma {:induction false} ConcatenatedNothing(raw: seq<string>, pieces: string -> seq<string>)
    requires forall k :: 0 <= k < |raw| ==> pieces(raw[k]) == []
    ensures Concatenated(raw, pieces) == []
    decreases |raw|
  {
    if |raw| > 0 {
      assert forall k :: 0 <= k < |raw[1..]| ==> raw[1..][k] == raw[k + 1];
      ConcatenatedNothing(raw[1..], pieces);
    }
  }

  /** Targets that each contribute just themselves are kept as they are. */
  lemma {:induction false} ConcatenatedFixed(xs: seq<string>, pieces: string -> seq<string>)
    requires forall k :: 0 <= k < |xs| ==> pieces(xs[k]) == [xs[k]]
    ensures Concatenated(xs, pieces) == xs
    decreases |xs|
  {
    if |xs| > 0 {
      assert forall k :: 0 <= k < |xs[1..]| ==> xs[1..][k] == xs[k + 1];
      ConcatenatedFixed(xs[1..], pieces);
      assert xs == [xs[0]] + xs[1..];
    }
  }

  /** A valid target that splits into just itself: a network of prefix
      24 or longer. */
  predicate SinglePiece(t: string) {
    IsValidTarget(t) && SplitInto24Subnets(t) == [t]
  }

  /** Each piece one raw target contributes is a single piece. */
  lemma PiecesAreSingle(t: string)
    ensures forall x :: x in TargetPieces24(t) ==> SinglePiece(x)
  {
    SplitOutputsAreTargets(t);
    SplitIdempotent(t);
  }

  /** Every expanded target is a single piece. */
  lemma ExpandedAreTargets(raw: seq<string>)
    ensures forall x :: x in ExpandTargets(raw) ==> SinglePiece(x)
  {
    forall x | x in ExpandTargets(raw) ensures SinglePiece(x) {
      ConcatenatedFrom(raw, TargetPieces24, x);
      var k :| 0 <= k < |raw| && x in TargetPieces24(raw[k]);
      PiecesAreSingle(raw[k]);
    }
  }

  /** Splitting a list read in two pieces gives the targets of the first
      piece followed by those of the second. */
  lemma ExpandConcat(a: seq<string>, b: seq<string>)
    ensures ExpandTargets(a + b) == ExpandTargets(a) + ExpandTargets(b)
  {
    ConcatenatedAppend(a, b, TargetPieces24);
  }

  /** Expanding an expanded list changes nothing: every piece is already a
      `/24` or smaller. */
  lemma ExpandIdempotent(raw: seq<string>)
    ensures ExpandTargets(ExpandTargets(raw)) == ExpandTargets(raw)
  {
    var r := ExpandTargets(raw);
    ExpandedAreTargets(raw);
    forall k | 0 <= k < |r| ensures TargetPieces24(r[k]) == [r[k]] {
      assert r[k] in r;
    }
    ConcatenatedFixed(r, TargetPieces24);
  }

  /** Why `load_targets` ends the program (`sys.exit(1)` in both cases). */
  datatype LoadError = TargetsFileMissing | NoTargets

  /** `load_targets`: `file` is the file's lines, `None` when it does not
      exist. The program stops when no line survives filtering, but not
      when every target is later skipped during expansion. */
  function LoadTargets(file: Option<seq<string>>, splitSubnets: bool): (r: Result<seq<string>, LoadError>)
    ensures file.None? ==> r == Failure(TargetsFileMissing)
    ensures file.Some? ==> (r == Failure(NoTargets) <==> FilterLines(file.value) == [])
    ensures r.Success? ==> r.value == if splitSubnets then ExpandTargets(FilterLines(file.value)) else FilterLines(file.value)
  {
    match file
    case None => Failure(TargetsFileMissing)
    case Some(lines) =>
      var raw := FilterLines(lines);
      if |raw| == 0 then Failure(NoTargets)
      else if !splitSubnets then Success(raw)
      else Success(ExpandTargets(raw))
  }

  /** With splitting on, whatever is loaded is a list of valid targets
      each of which splits into just itself, and loading the list again
      gives it back. */
  lemma LoadedTargetsAreSplit(lines: seq<string>)
    requires LoadTargets(Some(lines), true).Success?
    ensures var ts := LoadTargets(Some(lines), true).value;
      && (forall t :: t in ts ==> IsValidTarget(t) && SplitInto24Subnets(t) == [t])
      && ExpandTargets(ts) == ts
  {
    ExpandedAreTargets(FilterLines(lines));
    ExpandIdempotent(FilterLines(lines));
  }

  /** A targets file holding only a comment has no targets. */
  lemma CommentsOnlyIsNoTargets(comment: string)
    requires |comment| > 0 && comment[0] == '#' && !IsSpace(comment[|comment| - 1])
    ensures LoadTargets(Some([comment]), true) == Failure(NoTargets)
  {
    StripIdentity(comment);
  }

  /** What `main` makes of loading: the program stops when `load_targets`
      does, and also when loading succeeds with no target left to scan;
      `None` means scanning goes ahead with the loaded targets. */
  function StopBeforeScan(file: Option<seq<string>>, splitSubnets: bool): (r: Option<RunEnd>)
    ensures r.None? <==> LoadTargets(file, splitSubnets).Success? && LoadTargets(file, splitSubnets).value != []
    ensures r.Some? ==> r.value.LoadFailed? || r.value == NothingToScan
  {
    match LoadTargets(file, splitSubnets)
    case Failure(e) => Some(LoadFailed(e))
    case Success(ts) => if |ts| == 0 then Some(NothingToScan) else None
  }

  /** When no kept line is a valid target, `load_targets` succeeds with
      an empty list and the program stops with nothing to scan. */
  lemma InvalidOnlyIsNothingToScan(lines: seq<string>)
    requires FilterLines(lines) != []
    requires forall t :: t in FilterLines(lines) ==> !IsValidTarget(t)
    ensures LoadTargets(Some(lines), true) == Success([])
    ensures StopBeforeScan(Some(lines), true) == Some(NothingToScan)
  {
    var raw := FilterLines(lines);
    forall k | 0 <= k < |raw|
      ensures TargetPieces24(raw[k]) == []
    {
      assert raw[k] in raw;
    }
    ConcatenatedNothing(raw, TargetPieces24);
  }

  // ---------------------------------------------------------------------
  // initialize_state

  /** `f"{output_dir}/{sanitize_target_name(target)}"` */
  function TargetDirectory(outputDir: string, target: string): (d: string)
    ensures |d| == |outputDir| + 1 + |target| && d[..|outputDir|] == outputDir && d[|outputDir|] == '/'
  {
    outputDir + "/" + SanitizeTargetName(target)
  }

  /** Distinct targets made of digits, dots and slashes get distinct
      directories. */
  lemma DistinctDirectories(outputDir: string, t: string, u: string)
    requires forall i :: 0 <= i < |t| ==> TargetChar(t[i])
    requires forall i :: 0 <= i < |u| ==> TargetChar(u[i])
    requires t != u
    ensures TargetDirectory(outputDir, t) != TargetDirectory(outputDir, u)
  {
    if TargetDirectory(outputDir, t) == TargetDirectory(outputDir, u) {
      var n := |outputDir| + 1;
      assert TargetDirectory(outputDir, t)[n..] == SanitizeTargetName(t);
      assert TargetDirectory(outputDir, u)[n..] == SanitizeTargetName(u);
      SanitizeInjectiveOnTargets(t, u);
      assert false;
    }
  }

  /** With splitting, every loaded target is a network's name, so distinct
      loaded targets get distinct directories. */
  lemma LoadedDirectoriesDistinct(outputDir: string, lines: seq<string>, t: string, u: string)
    requires LoadTargets(Some(lines), true).Success?
    requires t in LoadTargets(Some(lines), true).value && u in LoadTargets(Some(lines), true).value
    requires t != u
    ensures TargetDirectory(outputDir, t) != TargetDirectory(outputDir, u)
  {
    LoadedTargetsAreSplit(lines);
    NetworkNameChars(t);
    NetworkNameChars(u);
    DistinctDirectories(outputDir, t, u);
  }

  /** A target that is its own split is a network's name. */
  lemma NetworkNameChars(t: string)
    requires SplitInto24Subnets(t) == [t]
    ensures forall i :: 0 <= i < |t| ==> TargetChar(t[i])
  {
    var n, pieces := TargetPieces(t);
    assert t == Names(pieces)[0];
    NetworkStringChars(pieces[0]);
  }

  /** Without splitting, targets reach the registry as written, and two of
      them can share a directory: the slash of a CIDR range and a dash are
      both sanitised to `-`. */
  lemma NoSplitDirectoriesCollide(outputDir: string)
    ensures TargetDirectory(outputDir, "10.0.0.1/24") == TargetDirectory(outputDir, "10.0.0.1-24")
  {
    var t, u := "10.0.0.1/24", "10.0.0.1-24";
    forall i | 0 <= i < |t| ensures SanitizeTargetName(t)[i] == SanitizeTargetName(u)[i] {
    }
  }

  /** `add_target` for each target in order, each in its own directory. */
  function AddTargets(st: ScanState, outputDir: string, targets: seq<string>, now: Timestamp): (r: ScanState)
    ensures forall t :: t in r.targets <==> t in st.targets || t in targets
    ensures forall t :: t in st.targets ==> r.targets[t] == st.targets[t]
    ensures forall t :: t in targets && t !in st.targets ==>
      r.targets[t] == NewTarget(t, Pending, TargetDirectory(outputDir, t), now)
    ensures r.queued == st.queued
    ensures Valid(st) ==> Valid(r)
    decreases |targets|
  {
    if |targets| == 0 then st
    else AddTargets(AddTarget(st, targets[0], TargetDirectory(outputDir, targets[0]), now), outputDir, targets[1..], now)
  }

  /** `[t for t in targets if t not in existing]` */
  function NotIn(targets: seq<string>, existing: set<string>): (r: seq<string>)
    ensures forall t :: t in r <==> t in targets && t !in existing
  {
    if |targets| == 0 then []
    else (if targets[0] in existing then [] else [targets[0]]) + NotIn(targets[1..], existing)
  }

  /** `initialize_state`: `loaded` is the registry as the constructor
      leaves it, loaded from the state file whenever that file exists. A
      resumed scan adds only the targets the snapshot lacks; a fresh scan
      adds them all. */
  function InitializeState(loaded: ScanState, resume: bool, outputDir: string, targets: seq<string>, now: Timestamp): (r: ScanState)
    ensures forall t :: t in r.targets <==> t in loaded.targets || t in targets
    ensures forall t :: t in loaded.targets ==> r.targets[t] == loaded.targets[t]
    ensures forall t :: t in targets && t !in loaded.targets ==>
      r.targets[t] == NewTarget(t, Pending, TargetDirectory(outputDir, t), now)
    ensures r.queued == loaded.queued
    ensures Valid(loaded) ==> Valid(r)
  {
    if resume then AddTargets(loaded, outputDir, NotIn(targets, loaded.targets.Keys), now)
    else AddTargets(loaded, outputDir, targets, now)
  }

  /** Leaving out ids the registry already holds changes nothing, since
      `add_target` ignores them. */
  lemma {:induction false} AddTargetsSkipsKnown(st: ScanState, outputDir: string, targets: seq<string>, existing: set<string>, now: Timestamp)
    requires existing <= st.targets.Keys
    ensures AddTargets(st, outputDir, NotIn(targets, existing), now) == AddTargets(st, outputDir, targets, now)
    decreases |targets|
  {
    if |targets| > 0 {
      var t := targets[0];
      var next := AddTarget(st, t, TargetDirectory(outputDir, t), now);
      if t in existing {
        assert NotIn(targets, existing) == NotIn(targets[1..], existing);
        AddTargetsSkipsKnown(st, outputDir, targets[1..], existing, now);
      } else {
        var rest := NotIn(targets[1..], existing);
        assert NotIn(targets, existing) == [t] + rest;
        assert ([t] + rest)[1..] == rest;
        AddTargetsSkipsKnown(next, outputDir, targets[1..], existing, now);
      }
    }
  }

  /** Because the constructor loads the snapshot in both modes, a fresh
      start over an existing state file seeds the same registry as a
      resumed one. */
  lemma ResumeAndFreshAgree(loaded: ScanState, outputDir: string, targets: seq<string>, now: Timestamp)
    ensures InitializeState(loaded, true, outputDir, targets, now) == InitializeState(loaded, false, outputDir, targets, now)
  {
    AddTargetsSkipsKnown(loaded, outputDir, targets, loaded.targets.Keys, now);
  }

  /** Seeding twice with the same targets adds nothing the second time. */
  lemma {:induction false} AddTargetsIdempotent(st: ScanState, outputDir: string, targets: seq<string>, now: Timestamp, later: Timestamp)
    ensures var once := AddTargets(st, outputDir, targets, now);
      AddTargets(once, outputDir, targets, later) == once
    decreases |targets|
  {
    var once := AddTargets(st, outputDir, targets, now);
    AllKnownAddsNothing(once, outputDir, targets, later);
  }

  lemma {:induction false} AllKnownAddsNothing(st: ScanState, outputDir: string, targets: seq<string>, now: Timestamp)
    requires forall t :: t in targets ==> t in st.targets
    ensures AddTargets(st, outputDir, targets, now) == st
    decreases |targets|
  {
    if |targets| > 0 {
      assert targets[0] in targets;
      AllKnownAddsNothing(st, outputDir, targets[1..], now);
    }
  }

  // ---------------------------------------------------------------------
  // The exit status

  /** How `main` ends: the user declines to go on without root, loading
      the targets stops the program, loading yields no target to scan, the
      run is interrupted with Ctrl+C, another exception escapes the
      orchestrator, or the run finishes. */
  datatype RunEnd =
    | Declined
    | LoadFailed(error: LoadError)
    | NothingToScan
    | Interrupted(site: InterruptSite)
    | Crashed(message: string)
    | Finished

  /** Which handler sees Ctrl+C. `InMain`: a `KeyboardInterrupt` raised
      inside `orchestrator.start()` reaches `main`'s own handler.
      `AtEntryPoint`: the interrupt leaves `asyncio.run` and reaches the
      `__main__` guard. That happens when the event loop's SIGINT handling
      cancels `main` (the `CancelledError` passes `main`'s handlers, and the
      runner re-raises it as `KeyboardInterrupt`), and for an interrupt
      anywhere else in `main`. */
  datatype InterruptSite = InMain | AtEntryPoint

  /** A count is positive exactly when one of the counted records matches. */
  lemma {:induction false} CountPositive(rs: seq<TargetState>, n: nat, f: Filter)
    requires n <= |rs|
    ensures Count(rs, n, f) > 0 <==> exists k :: 0 <= k < n && Matches(rs[k], f)
  {
    if n > 0 {
      CountPositive(rs, n - 1, f);
      if Matches(rs[n - 1], f) {
        assert Matches(rs[n - 1], f);
      }
    }
  }

  /** The exit status of the program: 0 when the user declines, 1 when
      loading stops it or leaves nothing to scan, 130 on Ctrl+C whichever
      handler catches it, 1 on any
      other exception escaping the orchestrator, and after a finished run 1
      exactly when the statistics count a failed target, else 0. `rs` are
      the records at the end of the run. */
  method ExitCode(end: RunEnd, rs: seq<TargetState>) returns (code: int)
    ensures end == Declined ==> code == 0
    ensures end.LoadFailed? || end == NothingToScan ==> code == 1
    ensures end.Interrupted? ==> code == 130
    ensures end.Crashed? ==> code == 1
    ensures end == Finished ==> code in {0, 1}
    ensures end == Finished ==> (code == 1 <==> exists k :: 0 <= k < |rs| && rs[k].stage == Failed)
  {
    match end
    case Declined => return 0;
    case LoadFailed(_) => return 1;
    case NothingToScan => return 1;
    case Interrupted(InMain) => return 130;
    case Interrupted(AtEntryPoint) => return 130;
    case Crashed(_) => return 1;
    case Finished =>
      var stats := GetStatistics(rs);
      assert stats.failed == Count(rs, |rs|, InClass(FailedOutcome));
      OutcomeIsStage(rs, |rs|, FailedOutcome, Failed);
      CountPositive(rs, |rs|, AtStage(Failed));
      code := if stats.failed > 0 then 1 else 0;
  }
}

/** Command lines and list files: `format_command` fills the `{name}`
    placeholders of a command template, the templates of config.py, and
    the text `save_list_to_file` writes. */
module Commands {
  import opened Wrappers
  import opened Text

  // ---------------------------------------------------------------------
  // format_command

  /** A piece of a template argument: literal text or a `{name}` placeholder. */
  datatype Piece = Lit(text: string) | Hole(name: string)

  /** One template argument, as the pieces `str.format` sees in it. */
  type Arg = seq<Piece>

  /** The keyword arguments, already converted with `str()`. */
  type Bindings = map<string, string>

  predicate Bound(arg: Arg, env: Bindings) {
    forall k :: 0 <= k < |arg| ==> arg[k].Hole? ==> arg[k].name in env
  }

  /** `arg.format(**env)`: each placeholder replaced by its value; `None`
      for a placeholder without a value (KeyError). */
  function FormatArg(arg: Arg, env: Bindings): (r: Option<string>)
    ensures r.Some? <==> Bound(arg, env)
  {
    if |arg| == 0 then Some("")
    else
      var head := match arg[0] case Lit(t) => Some(t) case Hole(n) => if n in env then Some(env[n]) else None;
      var rest := FormatArg(arg[1..], env);
      if head.None? || rest.None? then None else Some(head.value + rest.value)
  }

  /** `format_command(template, **env)`: every argument formatted, or
      `None` when one of them raises. */
  function FormatCommand(template: seq<Arg>, env: Bindings): (r: Option<seq<string>>)
    ensures r.Some? <==> forall k :: 0 <= k < |template| ==> Bound(template[k], env)
    ensures r.Some? ==> |r.value| == |template|
    ensures r.Some? ==> forall k :: 0 <= k < |template| ==> FormatArg(template[k], env) == Some(r.value[k])
  {
    if |template| == 0 then Some([])
    else
      var head := FormatArg(template[0], env);
      var rest := FormatCommand(template[1..], env);
      if head.None? || rest.None? then None else Some([head.value] + rest.value)
  }

  /** Formatting an argument splits over concatenation of its pieces. */
  lemma {:induction false} FormatArgConcat(a: Arg, b: Arg, env: Bindings)
    requires Bound(a, env) && Bound(b, env)
    ensures FormatArg(a + b, env) == Some(FormatArg(a, env).value + FormatArg(b, env).value)
    decreases |a|
  {
    if |a| == 0 {
      assert a + b == b;
      assert "" + FormatArg(b, env).value == FormatArg(b, env).value;
    } else {
      assert (a + b)[0] == a[0];
      assert (a + b)[1..] == a[1..] + b;
      FormatArgConcat(a[1..], b, env);
      var head := match a[0] case Lit(t) => t case Hole(n) => env[n];
      var x, y := FormatArg(a[1..], env).value, FormatArg(b, env).value;
      assert FormatArg(a, env) == Some(head + x);
      assert FormatArg(a + b, env) == Some(head + (x + y));
      assert head + (x + y) == (head + x) + y;
    }
  }

  /** A literal argument is kept as it is, and a lone placeholder becomes
      its value or raises. */
  lemma FormatArgCases(t: string, n: string, env: Bindings)
    ensures FormatArg([Lit(t)], env) == Some(t)
    ensures FormatArg([Hole(n)], env) == if n in env then Some(env[n]) else None
  {
    assert [Lit(t)][1..] == [];
    assert [Hole(n)][1..] == [];
    assert t + "" == t;
    if n in env {
      assert env[n] + "" == env[n];
    }
  }

  /** Each piece's text sits in the formatted argument right after the text
      of the pieces before it: a literal as written, a placeholder as its value. */
  lemma FormatArgAt(arg: Arg, env: Bindings, i: nat)
    requires Bound(arg, env) && i < |arg|
    ensures var out, at := FormatArg(arg, env).value, |FormatArg(arg[..i], env).value|;
      && (arg[i].Lit? ==> at + |arg[i].text| <= |out| && out[at..at + |arg[i].text|] == arg[i].text)
      && (arg[i].Hole? ==> at + |env[arg[i].name]| <= |out| && out[at..at + |env[arg[i].name]|] == env[arg[i].name])
  {
    var pre, mid, post := arg[..i], [arg[i]], arg[i + 1..];
    assert arg == pre + (mid + post);
    BoundParts(arg, env, i);
    var piece := match arg[i] case Lit(t) => t case Hole(n) => env[n];
    assert FormatArg(mid, env) == Some(piece) by {
      match arg[i]
      case Lit(t) => FormatArgCases(t, "", env);
      case Hole(n) => FormatArgCases("", n, env);
    }
    FormatArgConcat(mid, post, env);
    FormatArgConcat(pre, mid + post, env);
    SliceOfMiddle(FormatArg(pre, env).value, piece, FormatArg(post, env).value);
  }

  lemma BoundParts(arg: Arg, env: Bindings, i: nat)
    requires Bound(arg, env) && i < |arg|
    ensures Bound(arg[..i], env) && Bound(arg[i + 1..], env)
  {
    var post := arg[i + 1..];
    forall k | 0 <= k < |post| ensures post[k].Hole? ==> post[k].name in env {
      assert post[k] == arg[i + 1 + k];
    }
  }

  lemma SliceOfMiddle(x: string, m: string, y: string)
    ensures |x| + |m| <= |x + (m + y)| && (x + (m + y))[|x|..|x| + |m|] == m
  {
  }

  /** Values not mentioned by a template do not change its command. */
  lemma {:induction false} FormatIgnoresUnused(template: seq<Arg>, env: Bindings, extra: string, v: string)
    requires forall k, j :: 0 <= k < |template| && 0 <= j < |template[k]| ==> template[k][j] != Hole(extra)
    ensures FormatCommand(template, env[extra := v]) == FormatCommand(template, env)
    decreases |template|
  {
    if |template| > 0 {
      FormatArgIgnoresUnused(template[0], env, extra, v);
      FormatIgnoresUnused(template[1..], env, extra, v);
    }
  }

  lemma {:induction false} FormatArgIgnoresUnused(arg: Arg, env: Bindings, extra: string, v: string)
    requires forall j :: 0 <= j < |arg| ==> arg[j] != Hole(extra)
    ensures FormatArg(arg, env[extra := v]) == FormatArg(arg, env)
    decreases |arg|
  {
    if |arg| > 0 {
      FormatArgIgnoresUnused(arg[1..], env, extra, v);
    }
  }

  // ---------------------------------------------------------------------
  // The templates of config.py

  function L(t: string): Arg { [Lit(t)] }
  function H(n: string): Arg { [Hole(n)] }

  const HostDiscoveryTemplate: seq<Arg> := [
    L("nmap"), L("-vvv"), L("-n"), L("-sn"), L("-PE"), L("-PM"), L("-PP"),
    L("--min-hostgroup"), H("min_hostgroup"), L("--min-rate"), H("min_rate"),
    L("--max-retries"), H("max_retries"), L("--max-rtt-timeout"), H("max_rtt_timeout"),
    L("-oA"), H("output_base"), H("target")
  ]

  const PortDiscoveryTemplate: seq<Arg> := [
    L("nmap"), L("-n"), L("-Pn"), L("-sS"), L("--min-rate"), H("min_rate"),
    L("--max-retries"), H("max_retries"), L("--top-ports"), H("top_ports"),
    L("-oX"), H("output_file"), L("-iL"), H("input_file")
  ]

  const ServiceScanTemplate: seq<Arg> := [
    L("nmap"), L("-n"), L("-Pn"), L("-sV"), L("--version-intensity"), H("version_intensity"),
    L("-iL"), H("input_file"), L("-p"), H("ports"), L("-oA"), H("output_base")
  ]

  /** The nuclei template the scanner uses: the markdown directory argument
      is a placeholder followed by a literal `/`. */
  const NucleiUrlsTemplate: seq<Arg> := [
    L("nuclei"), L("-list"), H("urls_file"), L("-markdown-export"), [Hole("markdown_dir"), Lit("/")],
    L("-json-export"), H("json_file")
  ]

  /** The service-scan command passes the stored port list right after `-p`. */
  lemma ServiceScanCommand(env: Bindings)
    requires forall n :: n in ["version_intensity", "input_file", "ports", "output_base"] ==> n in env
    ensures var cmd := FormatCommand(ServiceScanTemplate, env);
      && cmd.Some? && |cmd.value| == 12
      && cmd.value[8] == "-p" && cmd.value[9] == env["ports"]
  {
    var t := ServiceScanTemplate;
    assert forall k :: 0 <= k < |t| ==> Bound(t[k], env);
    FormatArgCases("-p", "ports", env);
  }

  /** The nuclei command's markdown argument is the directory with a slash
      appended. */
  lemma NucleiCommand(env: Bindings)
    requires forall n :: n in ["urls_file", "markdown_dir", "json_file"] ==> n in env
    ensures var cmd := FormatCommand(NucleiUrlsTemplate, env);
      && cmd.Some? && |cmd.value| == 7
      && cmd.value[2] == env["urls_file"] && cmd.value[4] == env["markdown_dir"] + "/"
  {
    var t := NucleiUrlsTemplate;
    assert forall k :: 0 <= k < |t| ==> Bound(t[k], env);
    FormatArgCases("", "urls_file", env);
    FormatArgConcat([Hole("markdown_dir")], [Lit("/")], env);
    FormatArgCases("/", "markdown_dir", env);
    assert t[4] == [Hole("markdown_dir")] + [Lit("/")];
  }

  // ---------------------------------------------------------------------
  // save_list_to_file

  /** The text `save_list_to_file` writes: the items joined by newlines,
      plus a final newline. */
  function ListFileContent(items: seq<string>): (content: string)
    ensures |content| >= 1 && content[|content| - 1] == '\n'
  {
    Join(items, "\n") + "\n"
  }

  /** An empty list writes a lone newline. */
  lemma EmptyListFile()
    ensures ListFileContent([]) == "\n"
  {
  }

  /** Items without newlines: one newline per item, and splitting the text
      at newlines gives back the items followed by the empty remainder. */
  lemma ListFileRoundTrip(items: seq<string>)
    requires |items| >= 1
    requires forall k :: 0 <= k < |items| ==> '\n' !in items[k]
    ensures multiset(ListFileContent(items))['\n'] == |items|
    ensures Split(ListFileContent(items), '\n') == items + [""]
  {
    CountInJoin(items, '\n');
    var parts := items + [""];
    forall k | 0 <= k < |parts| ensures '\n' !in parts[k] {
    }
    JoinSnocEmpty(items, '\n');
    SplitOfJoin(parts, '\n');
    assert multiset(Join(items, "\n") + "\n") == multiset(Join(items, "\n")) + multiset("\n");
  }

  /** Appending an empty part to a join adds one separator. */
  lemma {:induction false} JoinSnocEmpty(parts: seq<string>, c: char)
    requires |parts| >= 1
    ensures Join(parts + [""], [c]) == Join(parts, [c]) + [c]
    decreases |parts|
  {
    if |parts| == 1 {
      assert (parts + [""])[1..] == [""];
    } else {
      assert (parts + [""])[1..] == parts[1..] + [""];
      JoinSnocEmpty(parts[1..], c);
    }
  }
}

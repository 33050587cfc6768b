/** The readers of nmap's output files: live hosts from the greppable
    output (`extract_live_hosts`), and the open ports and `ip:port` pairs
    from the XML output (`extract_open_ports_from_xml`,
    `extract_ip_port_combinations_from_xml`). Files are given as their
    lines or as the elements the XML parser returns; `None` stands for a
    file that cannot be opened or parsed. */
module Extract {
  import opened Wrappers
  import opened Text

  // ---------------------------------------------------------------------
  // extract_live_hosts

  const UpMarker: string := "Status: Up"

  predicate IsUpLine(line: string) {
    Contains(line, UpMarker)
  }

  /** The lines reporting a host up, in file order. */
  function UpLines(lines: seq<string>): (r: seq<string>)
    ensures |r| <= |lines|
    ensures forall k :: 0 <= k < |r| ==> IsUpLine(r[k])
  {
    if |lines| == 0 then []
    else (if IsUpLine(lines[0]) then [lines[0]] else []) + UpLines(lines[1..])
  }

  /** `[line.split()[1] for line in f if "Status: Up" in line]`: `None` when
      some matching line has fewer than two words (IndexError). */
  function HostsIn(lines: seq<string>): Option<seq<string>>
  {
    if |lines| == 0 then Some([])
    else
      var rest := HostsIn(lines[1..]);
      if !IsUpLine(lines[0]) then rest
      else
        var ws := Words(lines[0]);
        if |ws| < 2 || rest.None? then None else Some([ws[1]] + rest.value)
  }

  /** `extract_live_hosts`: every exception (missing file, IndexError)
      yields `[]`. */
  function ExtractLiveHosts(file: Option<seq<string>>): seq<string> {
    match file
    case None => []
    case Some(lines) => HostsIn(lines).GetOr([])
  }

  /** A line containing the marker has at least two words, `Status:` and
      `Up` among them, so the comprehension never raises. */
  lemma UpLineHasTwoWords(line: string)
    requires IsUpLine(line)
    ensures |Words(line)| >= 2
  {
    var i := ContainsWitness(line, UpMarker);
    assert line[i..i + |UpMarker|] == UpMarker;
    assert line[i] == 'S' && line[i + 7] == ' ' && line[i + 8] == 'U';
    WordsAtLeastTwo(line, i, i + 7, i + 8);
  }

  /** The second word of each line reporting a host up, in file order. */
  lemma {:induction false} HostsInUpLines(lines: seq<string>)
    ensures var up := UpLines(lines);
      && HostsIn(lines).Some?
      && |HostsIn(lines).value| == |up|
      && forall k :: 0 <= k < |up| ==> |Words(up[k])| >= 2 && HostsIn(lines).value[k] == Words(up[k])[1]
  {
    if |lines| > 0 {
      HostsInUpLines(lines[1..]);
      if IsUpLine(lines[0]) {
        UpLineHasTwoWords(lines[0]);
        var up := UpLines(lines);
        assert up == [lines[0]] + UpLines(lines[1..]);
      } else {
        assert UpLines(lines) == UpLines(lines[1..]);
      }
    }
  }

  /** `extract_live_hosts` of a readable file: one host per line reporting
      a host up, its second word, in file order. */
  lemma LiveHostsOfLines(lines: seq<string>)
    ensures var up := UpLines(lines); var hosts := ExtractLiveHosts(Some(lines));
      && |hosts| == |up|
      && forall k :: 0 <= k < |up| ==> |Words(up[k])| >= 2 && hosts[k] == Words(up[k])[1] && |hosts[k]| >= 1
  {
    HostsInUpLines(lines);
  }

  /** Reading a file in two pieces gives the hosts of the first followed by
      those of the second: lines are read independently and in order. */
  lemma {:induction false} LiveHostsConcat(a: seq<string>, b: seq<string>)
    ensures ExtractLiveHosts(Some(a + b)) == ExtractLiveHosts(Some(a)) + ExtractLiveHosts(Some(b))
  {
    HostsInConcat(a, b);
    HostsInUpLines(a);
    HostsInUpLines(b);
  }

  lemma {:induction false} HostsInConcat(a: seq<string>, b: seq<string>)
    ensures HostsIn(a).Some? && HostsIn(b).Some? ==> HostsIn(a + b) == Some(HostsIn(a).value + HostsIn(b).value)
    decreases |a|
  {
    if |a| == 0 {
      assert a + b == b;
      assert HostsIn(a) == Some([]);
      assert [] + HostsIn(b).GetOr([]) == HostsIn(b).GetOr([]);
    } else {
      assert (a + b)[0] == a[0];
      assert (a + b)[1..] == a[1..] + b;
      HostsInConcat(a[1..], b);
      if HostsIn(a).Some? && HostsIn(b).Some? && IsUpLine(a[0]) {
        var x := Words(a[0])[1];
        var rest, tail := HostsIn(a[1..]).value, HostsIn(b).value;
        assert HostsIn(a) == Some([x] + rest);
        assert HostsIn(a + b) == Some([x] + (rest + tail));
        assert [x] + (rest + tail) == ([x] + rest) + tail;
      }
    }
  }

  // ---------------------------------------------------------------------
  // The XML elements

  /** A `<port>` element: the `state` attribute of its `<state>` child
      (`None` when either is missing) and its `portid` attribute. */
  datatype Port = Port(state: Option<string>, portid: Option<string>)

  /** A `<host>` element: the `addr` of its first `addrtype='ipv4'`
      `<address>` (`None` when there is none or it has no `addr`), and its
      `<port>` elements in document order. */
  datatype Host = Host(ipv4: Option<string>, ports: seq<Port>)

  /** Open with a non-empty `portid`: the ports both extractors report. */
  predicate Reported(p: Port) {
    p.state == Some("open") && p.portid.Some? && p.portid.value != ""
  }

  /** The `portid`s of the reported ports among `ports`, in order. */
  function ReportedIds(ports: seq<Port>): (r: seq<string>)
    ensures |r| <= |ports|
  {
    if |ports| == 0 then []
    else (if Reported(ports[0]) then [ports[0].portid.value] else []) + ReportedIds(ports[1..])
  }

  /** The `portid`s of every reported port of the document (`.//port`). */
  function DocumentIds(hosts: seq<Host>): seq<string> {
    if |hosts| == 0 then [] else ReportedIds(hosts[0].ports) + DocumentIds(hosts[1..])
  }

  // ---------------------------------------------------------------------
  // extract_open_ports_from_xml

  /** Strictly ascending, hence without duplicates. */
  predicate Increasing(r: seq<int>) {
    forall i, j :: 0 <= i < j < |r| ==> r[i] < r[j]
  }

  /** `x` added to an ascending sequence, kept ascending and duplicate-free. */
  function Insert(x: int, r: seq<int>): (r': seq<int>)
    requires Increasing(r)
    ensures Increasing(r')
    ensures forall y :: y in r' <==> y == x || y in r
  {
    if |r| == 0 then [x]
    else if x == r[0] then r
    else if x < r[0] then [x] + r
    else
      var t := Insert(x, r[1..]);
      assert forall y :: y in t ==> r[0] < y by {
        forall y | y in r[1..] ensures r[0] < y {
          var i :| 0 <= i < |r[1..]| && r[1..][i] == y;
          assert r[i + 1] == y;
        }
      }
      ConsIncreasing(r[0], t);
      [r[0]] + t
  }

  /** A value below every element of an ascending sequence can lead it. */
  lemma ConsIncreasing(a: int, t: seq<int>)
    requires Increasing(t)
    requires forall y :: y in t ==> a < y
    ensures Increasing([a] + t)
  {
    forall i, j | 0 <= i < j < |[a] + t| ensures ([a] + t)[i] < ([a] + t)[j] {
      if i == 0 {
        assert ([a] + t)[j] == t[j - 1];
        assert t[j - 1] in t;
      }
    }
  }

  /** `sorted(set(vs))`. */
  function SortedDistinct(vs: seq<int>): (r: seq<int>)
    ensures Increasing(r)
    ensures forall y :: y in r <==> y in vs
  {
    if |vs| == 0 then [] else Insert(vs[|vs| - 1], SortedDistinct(vs[..|vs| - 1]))
  }

  /** Two ascending sequences with the same elements are equal, so
      `SortedDistinct` is the only answer `sorted(set(vs))` can have. */
  lemma {:induction false} IncreasingUnique(a: seq<int>, b: seq<int>)
    requires Increasing(a) && Increasing(b)
    requires forall y :: y in a <==> y in b
    ensures a == b
    decreases |a|
  {
    if |a| == 0 || |b| == 0 {
      if |a| > 0 {
        var y := HasElement(a);
        assert false;
      }
      if |b| > 0 {
        var y := HasElement(b);
        assert false;
      }
    } else {
      FirstIsLeast(a, b[0]);
      FirstIsLeast(b, a[0]);
      forall y
        ensures y in a[1..] <==> y in b[1..]
      {
        InTail(a, y);
        InTail(b, y);
      }
      IncreasingUnique(a[1..], b[1..]);
    }
  }

  lemma HasElement(r: seq<int>) returns (y: int)
    requires |r| > 0
    ensures y in r
  {
    y := r[0];
  }

  lemma FirstIsLeast(r: seq<int>, y: int)
    requires Increasing(r) && y in r
    ensures r[0] <= y
  {
  }

  /** In an ascending sequence, the tail holds exactly the elements above the first. */
  lemma InTail(r: seq<int>, y: int)
    requires Increasing(r) && |r| > 0
    ensures y in r[1..] <==> y in r && y != r[0]
  {
    if y in r && y != r[0] {
      var i :| 0 <= i < |r| && r[i] == y;
      assert r[1..][i - 1] == y;
    }
  }

  /** `int(portid)` for every id, in order: `None` as soon as one raises. */
  function ParsePorts(ids: seq<string>): (r: Option<seq<int>>)
    ensures r.Some? <==> forall k :: 0 <= k < |ids| ==> PyInt(ids[k]).Some?
    ensures r.Some? ==> |r.value| == |ids| && forall k :: 0 <= k < |ids| ==> PyInt(ids[k]) == Some(r.value[k])
  {
    if |ids| == 0 then Some([])
    else
      var rest := ParsePorts(ids[1..]);
      if PyInt(ids[0]).None? || rest.None? then None
      else Some([PyInt(ids[0]).value] + rest.value)
  }

  /** `",".join(str(p) for p in ports)`. */
  function FormatPorts(ports: seq<int>): string {
    Join(seq(|ports|, k requires 0 <= k < |ports| => IntToString(ports[k])), ",")
  }

  /** `extract_open_ports_from_xml`: the distinct port numbers of the open
      ports, ascending and comma-separated; `""` when there are none, when a
      `portid` is not a number and when the file cannot be read. */
  function ExtractOpenPorts(doc: Option<seq<Host>>): string {
    match doc
    case None => ""
    case Some(hosts) =>
      match ParsePorts(DocumentIds(hosts))
      case None => ""
      case Some(values) => FormatPorts(SortedDistinct(values))
  }

  /** A port list written by `FormatPorts`, read back with `int()` per
      comma-separated entry; the empty string lists no ports. */
  function ReadPortList(s: string): Option<seq<int>> {
    if s == "" then Some([]) else ParsePorts(Split(s, ','))
  }

  lemma NoCommaInNumber(i: int)
    ensures ',' !in IntToString(i)
  {
    var n := NatToString(if i < 0 then -i else i);
    assert forall k :: 0 <= k < |n| ==> IsDigit(n[k]);
    if i < 0 {
      assert IntToString(i) == "-" + n;
    }
  }

  /** Reading back a formatted port list gives the ports. */
  lemma FormatPortsReadBack(ports: seq<int>)
    ensures ReadPortList(FormatPorts(ports)) == Some(ports)
    ensures FormatPorts(ports) == "" <==> ports == []
  {
    var parts := seq(|ports|, k requires 0 <= k < |ports| => IntToString(ports[k]));
    if |ports| > 0 {
      forall k | 0 <= k < |parts|
        ensures ',' !in parts[k] && PyInt(parts[k]) == Some(ports[k])
      {
        NoCommaInNumber(ports[k]);
        PyIntOfIntToString(ports[k]);
      }
      SplitOfJoin(parts, ',');
      JoinNonEmpty(parts, ",");
      assert ParsePorts(parts).value == ports;
    }
  }

  lemma {:induction false} JoinNonEmpty(parts: seq<string>, sep: string)
    requires |parts| >= 1 && |parts[0]| >= 1
    ensures Join(parts, sep) != ""
  {
    assert |Join(parts, sep)| >= |parts[0]|;
  }

  /** What the open-port string says: read back it is the ascending list
      of the distinct numbers of the reported ports, and it is empty exactly
      when there are none, a `portid` does not parse or the file is unreadable. */
  lemma OpenPortsMeaning(doc: Option<seq<Host>>)
    ensures var s := ExtractOpenPorts(doc);
      && (s == "" <==> doc.None? || ParsePorts(DocumentIds(doc.value)).None? || DocumentIds(doc.value) == [])
      && (doc.Some? && ParsePorts(DocumentIds(doc.value)).Some? ==>
            var values := ParsePorts(DocumentIds(doc.value)).value;
            && ReadPortList(s).Some?
            && Increasing(ReadPortList(s).value)
            && (forall y :: y in ReadPortList(s).value <==> y in values))
  {
    if doc.Some? && ParsePorts(DocumentIds(doc.value)).Some? {
      var values := ParsePorts(DocumentIds(doc.value)).value;
      var sorted := SortedDistinct(values);
      FormatPortsReadBack(sorted);
      if |values| > 0 {
        assert values[0] in sorted;
      }
    }
  }

  /** The open-port string of a document lists any ascending sequence of
      the reported port numbers, which is therefore unique. */
  lemma OpenPortsAreSortedSet(hosts: seq<Host>, sorted: seq<int>)
    requires ParsePorts(DocumentIds(hosts)).Some?
    requires Increasing(sorted)
    requires forall y :: y in sorted <==> y in ParsePorts(DocumentIds(hosts)).value
    ensures ReadPortList(ExtractOpenPorts(Some(hosts))) == Some(sorted)
  {
    var values := ParsePorts(DocumentIds(hosts)).value;
    IncreasingUnique(SortedDistinct(values), sorted);
    FormatPortsReadBack(sorted);
  }

  /** The number of entries in a non-empty open-port string is the number
      of distinct open ports. */
  lemma OpenPortsCount(hosts: seq<Host>)
    requires ExtractOpenPorts(Some(hosts)) != ""
    ensures |Split(ExtractOpenPorts(Some(hosts)), ',')| == |SortedDistinct(ParsePorts(DocumentIds(hosts)).value)|
  {
    var sorted := SortedDistinct(ParsePorts(DocumentIds(hosts)).value);
    FormatPortsReadBack(sorted);
  }

  // ---------------------------------------------------------------------
  // extract_ip_port_combinations_from_xml

  /** A host with a truthy ipv4 address. */
  predicate HasAddress(h: Host) {
    h.ipv4.Some? && h.ipv4.value != ""
  }

  function Pair(ip: string, portid: string): string {
    ip + ":" + portid
  }

  /** `ip` paired with each id, in order. */
  function PairsOf(ip: string, ids: seq<string>): (r: seq<string>)
    ensures |r| == |ids|
    ensures forall k :: 0 <= k < |ids| ==> r[k] == Pair(ip, ids[k])
  {
    seq(|ids|, k requires 0 <= k < |ids| => Pair(ip, ids[k]))
  }

  /** The pairs of one host, in port order. */
  function HostPairs(h: Host): seq<string>
    requires HasAddress(h)
  {
    PairsOf(h.ipv4.value, ReportedIds(h.ports))
  }

  /** The reference: every host's pairs, hosts without an address skipped,
      in document order with duplicates kept. */
  function Pairs(hosts: seq<Host>): seq<string> {
    if |hosts| == 0 then []
    else (if HasAddress(hosts[0]) then HostPairs(hosts[0]) else []) + Pairs(hosts[1..])
  }

  lemma {:induction false} PairsSnoc(hosts: seq<Host>, h: Host)
    ensures Pairs(hosts + [h]) == Pairs(hosts) + (if HasAddress(h) then HostPairs(h) else [])
    decreases |hosts|
  {
    if |hosts| == 0 {
      assert Pairs([h]) == (if HasAddress(h) then HostPairs(h) else []) + Pairs([]);
    } else {
      var head := if HasAddress(hosts[0]) then HostPairs(hosts[0]) else [];
      var tail := if HasAddress(h) then HostPairs(h) else [];
      assert Pairs(hosts + [h]) == head + Pairs(hosts[1..] + [h]) by {
        assert (hosts + [h])[0] == hosts[0];
        assert (hosts + [h])[1..] == hosts[1..] + [h];
      }
      PairsSnoc(hosts[1..], h);
      assert head + (Pairs(hosts[1..]) + tail) == (head + Pairs(hosts[1..])) + tail;
    }
  }

  lemma {:induction false} ReportedIdsSnoc(ports: seq<Port>, p: Port)
    ensures ReportedIds(ports + [p]) == ReportedIds(ports) + (if Reported(p) then [p.portid.value] else [])
    decreases |ports|
  {
    if |ports| == 0 {
      assert ReportedIds([p]) == (if Reported(p) then [p.portid.value] else []) + ReportedIds([]);
    } else {
      var head := if Reported(ports[0]) then [ports[0].portid.value] else [];
      var tail := if Reported(p) then [p.portid.value] else [];
      assert ReportedIds(ports + [p]) == head + ReportedIds(ports[1..] + [p]) by {
        assert (ports + [p])[0] == ports[0];
        assert (ports + [p])[1..] == ports[1..] + [p];
      }
      ReportedIdsSnoc(ports[1..], p);
      assert head + (ReportedIds(ports[1..]) + tail) == (head + ReportedIds(ports[1..])) + tail;
    }
  }

  /** The inner loop of `extract_ip_port_combinations_from_xml`: one
      host's open ports joined with its address. */
  method HostPairsLoop(host: Host) returns (pairs: seq<string>)
    requires HasAddress(host)
    ensures pairs == HostPairs(host)
  {
    var ip := host.ipv4.value;
    pairs := [];
    var j := 0;
    while j < |host.ports|
      invariant j <= |host.ports|
      invariant pairs == PairsOf(ip, ReportedIds(host.ports[..j]))
    {
      var port := host.ports[j];
      assert host.ports[..j + 1] == host.ports[..j] + [port];
      ReportedIdsSnoc(host.ports[..j], port);
      if Reported(port) {
        assert PairsOf(ip, ReportedIds(host.ports[..j]) + [port.portid.value])
            == PairsOf(ip, ReportedIds(host.ports[..j])) + [Pair(ip, port.portid.value)];
        pairs := pairs + [Pair(ip, port.portid.value)];
      }
      j := j + 1;
    }
    assert host.ports[..j] == host.ports;
  }

  /** The outer loop over the hosts of a parsed document. */
  method ExtractIpPortPairs(hosts: seq<Host>) returns (targets: seq<string>)
    ensures targets == Pairs(hosts)
  {
    targets := [];
    var i := 0;
    while i < |hosts|
      invariant i <= |hosts|
      invariant targets == Pairs(hosts[..i])
    {
      var host := hosts[i];
      assert hosts[..i + 1] == hosts[..i] + [host];
      PairsSnoc(hosts[..i], host);
      if HasAddress(host) {
        var pairs := HostPairsLoop(host);
        targets := targets + pairs;
      }
      i := i + 1;
    }
    assert hosts[..i] == hosts;
  }

  /** `extract_ip_port_combinations_from_xml`: `[]` when the file cannot
      be read. */
  method ExtractIpPortCombinations(doc: Option<seq<Host>>) returns (targets: seq<string>)
    ensures doc.None? ==> targets == []
    ensures doc.Some? ==> targets == Pairs(doc.value)
  {
    if doc.None? {
      return [];
    }
    targets := ExtractIpPortPairs(doc.value);
  }

  /** `s` is the pair of `h`'s address with one of its reported ports. */
  predicate PairOfHost(h: Host, s: string) {
    && HasAddress(h)
    && exists j :: 0 <= j < |ReportedIds(h.ports)| && s == Pair(h.ipv4.value, ReportedIds(h.ports)[j])
  }

  /** The pairs are exactly the address of a host with an address joined
      with one of that host's reported ports. */
  lemma {:induction false} PairsMembership(hosts: seq<Host>, s: string)
    ensures s in Pairs(hosts) <==> exists i :: 0 <= i < |hosts| && PairOfHost(hosts[i], s)
    decreases |hosts|
  {
    if |hosts| > 0 {
      var here := if HasAddress(hosts[0]) then HostPairs(hosts[0]) else [];
      assert s in Pairs(hosts) <==> s in here || s in Pairs(hosts[1..]) by {
        assert Pairs(hosts) == here + Pairs(hosts[1..]);
      }
      HostPairsMembership(hosts[0], s);
      PairsMembership(hosts[1..], s);
      ExistsInTail(hosts, s);
    }
  }

  lemma HostPairsMembership(h: Host, s: string)
    ensures s in (if HasAddress(h) then HostPairs(h) else []) <==> PairOfHost(h, s)
  {
    if HasAddress(h) {
      var ids := ReportedIds(h.ports);
      if s in HostPairs(h) {
        var j :| 0 <= j < |HostPairs(h)| && HostPairs(h)[j] == s;
        assert 0 <= j < |ids| && s == Pair(h.ipv4.value, ids[j]);
      }
      if PairOfHost(h, s) {
        var j :| 0 <= j < |ids| && s == Pair(h.ipv4.value, ids[j]);
        assert HostPairs(h)[j] == s;
      }
    }
  }

  /** A host of a non-empty list is its first or one of the rest. */
  lemma ExistsInTail(hosts: seq<Host>, s: string)
    requires |hosts| > 0
    ensures (exists i :: 0 <= i < |hosts| && PairOfHost(hosts[i], s)) <==>
      PairOfHost(hosts[0], s) || exists i :: 0 <= i < |hosts[1..]| && PairOfHost(hosts[1..][i], s)
  {
    if exists i :: 0 <= i < |hosts| && PairOfHost(hosts[i], s) {
      var i :| 0 <= i < |hosts| && PairOfHost(hosts[i], s);
      if i > 0 {
        assert hosts[1..][i - 1] == hosts[i];
      }
    }
  }

  /** One pair per reported port of every host with an address. */
  lemma {:induction false} PairsCount(hosts: seq<Host>)
    ensures |Pairs(hosts)| == CountPairs(hosts)
    decreases |hosts|
  {
    if |hosts| > 0 {
      PairsCount(hosts[1..]);
    }
  }

  function CountPairs(hosts: seq<Host>): nat {
    if |hosts| == 0 then 0
    else (if HasAddress(hosts[0]) then |ReportedIds(hosts[0].ports)| else 0) + CountPairs(hosts[1..])
  }
}

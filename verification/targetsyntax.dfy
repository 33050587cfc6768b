/** Target syntax (`is_valid_target`) and the directory name derived from a
    target (`sanitize_target_name`). */
module TargetSyntax {
  import opened Text

  // ---------------------------------------------------------------------
  // What a valid target is

  /** A dotted-quad group: 1 to 3 digits, no leading zero, at most 255. */
  predicate Octet(s: string) {
    Canonical(s) && |s| <= 3 && DecimalValue(s) <= 255
  }

  /** A CIDR prefix length: canonical digits denoting at most 32. */
  predicate PrefixLength(s: string) {
    Canonical(s) && DecimalValue(s) <= 32
  }

  /** The `.`-separated groups of the part before the first `/`. */
  function Groups(s: string): seq<string> {
    Split(Split(s, '/')[0], '.')
  }

  predicate FourOctets(groups: seq<string>) {
    |groups| == 4 && Octet(groups[0]) && Octet(groups[1]) && Octet(groups[2]) && Octet(groups[3])
  }

  /** Four dot-separated octets, optionally followed by `/` and a prefix length. */
  predicate WellFormedTarget(s: string) {
    var parts := Split(s, '/');
    && (|parts| == 1 || (|parts| == 2 && PrefixLength(parts[1])))
    && FourOctets(Groups(s))
  }

  /** The last group of a target without prefix is the bare `0`. */
  predicate EndsInZeroOctet(s: string) {
    var groups := Groups(s);
    |Split(s, '/')| == 1 && groups[|groups| - 1] == "0"
  }

  // ---------------------------------------------------------------------
  // is_valid_target as written

  /** 1 to 3 digits: `[0-9]{1,3}`. */
  predicate DigitRun(s: string) {
    1 <= |s| <= 3 && AllDigits(s)
  }

  /** `[0-9]|[1-2][0-9]|3[0-2]` matched in full. */
  predicate PrefixPattern(p: string) {
    || (|p| == 1 && IsDigit(p[0]))
    || (|p| == 2 && '1' <= p[0] <= '2' && IsDigit(p[1]))
    || (|p| == 2 && p[0] == '3' && '0' <= p[1] <= '2')
  }

  /** The regular expression without its anchors:
      `([0-9]{1,3}\.){3}[0-9]{1,3}(\/([0-9]|[1-2][0-9]|3[0-2]))?`. */
  predicate Shape(s: string) {
    var parts := Split(s, '/');
    && (|parts| == 1 || (|parts| == 2 && PrefixPattern(parts[1])))
    && FourDigitRuns(Groups(s))
  }

  predicate FourDigitRuns(groups: seq<string>) {
    |groups| == 4 && DigitRun(groups[0]) && DigitRun(groups[1]) && DigitRun(groups[2]) && DigitRun(groups[3])
  }

  /** `re.match` with the pattern anchored by `^` and `$`; without
      MULTILINE, `$` also matches just before one newline that ends the string. */
  predicate MatchesPattern(t: string) {
    Shape(t) || (|t| >= 1 && t[|t| - 1] == '\n' && Shape(t[..|t| - 1]))
  }

  /** The body of the loop over octets: non-empty, no leading zero unless
      the octet is `0`, and `int(octet)` at most 255. */
  predicate OctetPasses(o: string) {
    && |o| > 0
    && !(|o| > 1 && o[0] == '0')
    && PyInt(o).Some? && PyInt(o).value <= 255
  }

  /** `is_valid_target`: the pattern, then every `.`-separated group of the
      part before the first `/` passes the octet checks. */
  predicate IsValidTarget(t: string) {
    MatchesPattern(t) && AllPass(Groups(t))
  }

  predicate AllPass(groups: seq<string>) {
    forall k :: 0 <= k < |groups| ==> OctetPasses(groups[k])
  }

  // ---------------------------------------------------------------------
  // The two agree

  /** A canonical number of three or more digits is at least 100. */
  lemma LongCanonicalIsLarge(s: string)
    requires Canonical(s) && |s| >= 3
    ensures DecimalValue(s) >= 100
  {
    var p := s[..|s| - 2];
    LeadingDigitPositive(p);
    assert s[..|s| - 1][..|s| - 2] == p;
  }

  lemma PrefixPatternIsPrefixLength(p: string)
    ensures PrefixPattern(p) <==> PrefixLength(p)
  {
    if |p| >= 3 && Canonical(p) {
      LongCanonicalIsLarge(p);
    } else if |p| == 2 && AllDigits(p) {
      var a, b := DigitValue(p[0]), DigitValue(p[1]);
      assert p[..1][..0] == [];
      assert DecimalValue(p[..1]) == a;
      assert DecimalValue(p) == 10 * a + b;
      assert ('1' <= p[0] <= '2') <==> (1 <= a <= 2);
      assert (p[0] == '3') <==> (a == 3);
      assert (p[0] == '0') <==> (a == 0);
      assert ('0' <= p[1] <= '2') <==> (b <= 2);
    } else if |p| == 1 && AllDigits(p) {
      assert p[..0] == [];
      assert DecimalValue(p) == DigitValue(p[0]);
    }
  }

  lemma OctetPassesIsOctet(o: string)
    requires DigitRun(o)
    ensures OctetPasses(o) <==> Octet(o)
  {
    PyIntOfDigits(o);
  }

  /** On four digit runs the octet checks accept exactly four octets. */
  lemma GroupsPass(groups: seq<string>)
    requires FourDigitRuns(groups)
    ensures AllPass(groups) <==> FourOctets(groups)
  {
    AllPassOfFour(groups);
    OctetPassesIsOctet(groups[0]);
    OctetPassesIsOctet(groups[1]);
    OctetPassesIsOctet(groups[2]);
    OctetPassesIsOctet(groups[3]);
  }

  lemma AllPassOfFour(groups: seq<string>)
    requires |groups| == 4
    ensures AllPass(groups) <==>
      OctetPasses(groups[0]) && OctetPasses(groups[1]) && OctetPasses(groups[2]) && OctetPasses(groups[3])
  {
    if OctetPasses(groups[0]) && OctetPasses(groups[1]) && OctetPasses(groups[2]) && OctetPasses(groups[3]) {
      forall k | 0 <= k < 4 ensures OctetPasses(groups[k]) {
        if k == 0 {} else if k == 1 {} else if k == 2 {} else {}
      }
    }
  }

  /** The quirk: a newline after the last octet fails the leading-zero test
      exactly when that octet is `0`, and `int` ignores it otherwise. */
  lemma OctetWithNewline(o: string)
    requires DigitRun(o)
    ensures OctetPasses(o + "\n") <==> Octet(o) && o != "0"
  {
    PyIntOfDigitsNewline(o);
    assert (o + "\n")[0] == o[0];
  }

  /** The digits of a matched shape never include a newline, so a string
      ending in one is neither a shape nor well formed. */
  lemma TrailingNewlineIsNoShape(s: string)
    ensures !Shape(s + "\n") && !WellFormedTarget(s + "\n")
  {
    var t := s + "\n";
    SplitSnoc(s, '\n', '/');
    var parts, tparts := Split(s, '/'), Split(t, '/');
    var last := |tparts| - 1;
    assert tparts[last] == parts[|parts| - 1] + "\n";
    if |tparts| == 1 {
      SplitSnoc(parts[0], '\n', '.');
      var g := Split(tparts[0], '.');
      assert g[|g| - 1][|g[|g| - 1]| - 1] == '\n';
    } else {
      assert tparts[last][|tparts[last]| - 1] == '\n';
    }
  }

  /** Without a trailing newline the checks accept exactly the well-formed targets. */
  lemma ValidWithoutNewline(t: string)
    requires |t| == 0 || t[|t| - 1] != '\n'
    ensures IsValidTarget(t) <==> WellFormedTarget(t)
  {
    var parts := Split(t, '/');
    if |parts| == 2 {
      PrefixPatternIsPrefixLength(parts[1]);
    }
    if FourDigitRuns(Groups(t)) {
      GroupsPass(Groups(t));
    }
  }

  /** The groups of a target followed by a newline: without a prefix the
      newline sticks to the last group, with one they are unchanged. */
  lemma GroupsWithNewline(s: string)
    ensures var g := Groups(s);
      Groups(s + "\n") == if |Split(s, '/')| == 1 then g[..|g| - 1] + [g[|g| - 1] + "\n"] else g
  {
    var parts := Split(s, '/');
    SplitSnoc(s, '\n', '/');
    if |parts| == 1 {
      SplitSnoc(parts[0], '\n', '.');
    }
  }

  /** The octet checks on the groups of a target followed by a newline. */
  lemma GroupsPassWithNewline(s: string)
    requires FourDigitRuns(Groups(s))
    ensures AllPass(Groups(s + "\n")) <==> FourOctets(Groups(s)) && !EndsInZeroOctet(s)
  {
    var g := Groups(s);
    GroupsWithNewline(s);
    if |Split(s, '/')| == 1 {
      LastGroupWithNewline(g, Groups(s + "\n"));
    } else {
      GroupsPass(g);
    }
  }

  lemma LastGroupWithNewline(g: seq<string>, tg: seq<string>)
    requires FourDigitRuns(g) && tg == g[..3] + [g[3] + "\n"]
    ensures AllPass(tg) <==> FourOctets(g) && g[3] != "0"
  {
    GroupsPass(g);
    AllPassOfFour(g);
    AllPassOfFour(tg);
    OctetPassesIsOctet(g[3]);
    OctetWithNewline(g[3]);
    assert tg[0] == g[0] && tg[1] == g[1] && tg[2] == g[2] && tg[3] == g[3] + "\n";
  }

  /** With a trailing newline the checks accept a well-formed target in
      front of it, except one whose last octet is a bare `0`. */
  lemma ValidWithNewline(s: string)
    ensures IsValidTarget(s + "\n") <==> WellFormedTarget(s) && !EndsInZeroOctet(s)
  {
    var t := s + "\n";
    assert t[..|t| - 1] == s;
    TrailingNewlineIsNoShape(s);
    var parts := Split(s, '/');
    if |parts| == 2 {
      PrefixPatternIsPrefixLength(parts[1]);
    }
    if FourDigitRuns(Groups(s)) {
      GroupsPassWithNewline(s);
    }
  }

  /** `is_valid_target` accepts exactly the well-formed targets, and the
      well-formed targets followed by one newline unless their last octet
      is a bare `0`. */
  lemma IsValidTargetCharacterised(t: string)
    ensures IsValidTarget(t) <==>
      || WellFormedTarget(t)
      || (|t| >= 1 && t[|t| - 1] == '\n' && WellFormedTarget(t[..|t| - 1]) && !EndsInZeroOctet(t[..|t| - 1]))
  {
    if |t| >= 1 && t[|t| - 1] == '\n' {
      var s := t[..|t| - 1];
      assert t == s + "\n";
      ValidWithNewline(s);
      TrailingNewlineIsNoShape(s);
    } else {
      ValidWithoutNewline(t);
    }
  }

  // ---------------------------------------------------------------------
  // sanitize_target_name

  /** `[a-zA-Z0-9_-]`, the characters a directory name keeps. */
  predicate SafeChar(c: char) {
    ('a' <= c <= 'z') || ('A' <= c <= 'Z') || IsDigit(c) || c == '_' || c == '-'
  }

  /** `s.replace(a, b)` for single characters. */
  function ReplaceChar(s: string, a: char, b: char): (r: string)
    ensures |r| == |s|
    ensures forall i :: 0 <= i < |s| ==> r[i] == (if s[i] == a then b else s[i])
  {
    seq(|s|, i requires 0 <= i < |s| => if s[i] == a then b else s[i])
  }

  /** `re.sub(r"[^a-zA-Z0-9_-]", "_", s)`. */
  function ScrubUnsafe(s: string): (r: string)
    ensures |r| == |s|
    ensures forall i :: 0 <= i < |s| ==> r[i] == (if SafeChar(s[i]) then s[i] else '_')
  {
    seq(|s|, i requires 0 <= i < |s| => if SafeChar(s[i]) then s[i] else '_')
  }

  /** `sanitize_target_name`: dots become `_`, slashes `-`, and every other
      character outside `[a-zA-Z0-9_-]` becomes `_`. */
  function SanitizeTargetName(target: string): (r: string)
    ensures |r| == |target|
    ensures forall i :: 0 <= i < |r| ==> SafeChar(r[i])
    ensures forall i :: 0 <= i < |target| ==>
      r[i] == (if target[i] == '.' then '_' else if target[i] == '/' then '-'
               else if SafeChar(target[i]) then target[i] else '_')
  {
    ScrubUnsafe(ReplaceChar(ReplaceChar(target, '.', '_'), '/', '-'))
  }

  /** A sanitized name is left alone by a second sanitization. */
  lemma SanitizeIdempotent(target: string)
    ensures SanitizeTargetName(SanitizeTargetName(target)) == SanitizeTargetName(target)
  {
  }

  /** Characters a target can consist of: digits, dots and the slash. */
  predicate TargetChar(c: char) {
    IsDigit(c) || c == '.' || c == '/'
  }

  /** Two targets made of digits, dots and slashes share a directory only if
      they are the same target. */
  lemma SanitizeInjectiveOnTargets(t: string, u: string)
    requires forall i :: 0 <= i < |t| ==> TargetChar(t[i])
    requires forall i :: 0 <= i < |u| ==> TargetChar(u[i])
    requires SanitizeTargetName(t) == SanitizeTargetName(u)
    ensures t == u
  {
    var r := SanitizeTargetName(t);
    assert forall i :: 0 <= i < |t| ==> t[i] == u[i] by {
      forall i | 0 <= i < |t| ensures t[i] == u[i] {
        assert r[i] == SanitizeTargetName(u)[i];
      }
    }
  }
}

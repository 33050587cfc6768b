/** The parts of Python's `str` and `int` built-ins the program relies on:
    `str.split(sep)`, `str.split()`, `sep.join`, `str.strip()`, substring
    `in`, `str(n)` and `int(s)`. Each is defined once here and used by every
    module that models a call to it. */
module Text {
  import opened Wrappers

  // ---------------------------------------------------------------------
  // Characters

  predicate IsDigit(c: char) {
    '0' <= c <= '9'
  }

  /** The characters Python's `str.isspace()` accepts; `str.split()` and
      `str.strip()` without arguments split on and remove exactly these. */
  predicate IsSpace(c: char) {
    || c == ' '
    || ('\t' <= c <= '\r')
    || ('\U{1c}' <= c <= '\U{1f}')
    || c == '\U{85}' || c == '\U{a0}' || c == '\U{1680}'
    || ('\U{2000}' <= c <= '\U{200a}')
    || c == '\U{2028}' || c == '\U{2029}' || c == '\U{202f}'
    || c == '\U{205f}' || c == '\U{3000}'
  }

  predicate AllDigits(s: string) {
    forall i :: 0 <= i < |s| ==> IsDigit(s[i])
  }

  /** The canonical decimal spelling of a natural number: digits only, and no
      leading zero unless the number is zero itself. */
  predicate Canonical(s: string) {
    && |s| >= 1
    && AllDigits(s)
    && (s[0] == '0' ==> |s| == 1)
  }

  // ---------------------------------------------------------------------
  // Decimal numbers: `str(n)` and its inverse

  function DigitValue(c: char): nat
    requires IsDigit(c)
  {
    (c as int) - ('0' as int)
  }

  function DigitChar(d: nat): (c: char)
    requires d < 10
    ensures IsDigit(c) && DigitValue(c) == d
  {
    ('0' as int + d) as char
  }

  /** The number a string of decimal digits denotes. */
  function DecimalValue(s: string): nat
    requires AllDigits(s)
    decreases |s|
  {
    if |s| == 0 then 0 else 10 * DecimalValue(s[..|s| - 1]) + DigitValue(s[|s| - 1])
  }

  /** Python's `str(n)` for `n >= 0`. */
  function NatToString(n: nat): (r: string)
    ensures Canonical(r)
    ensures DecimalValue(r) == n
    decreases n
  {
    if n < 10 then [DigitChar(n)]
    else
      var prefix := NatToString(n / 10);
      var r := prefix + [DigitChar(n % 10)];
      assert r[..|r| - 1] == prefix;
      r
  }

  /** Python's `str(i)` for any integer. */
  function IntToString(i: int): (r: string)
    ensures |r| >= 1
  {
    if i < 0 then "-" + NatToString(-i) else NatToString(i)
  }

  /** Numbers below 1000 take at most three digits. */
  lemma ShortNatToString(n: nat)
    requires n < 1000
    ensures |NatToString(n)| <= 3
  {
    if n >= 10 {
      assert |NatToString(n)| == |NatToString(n / 10)| + 1;
      if n / 10 >= 10 {
        assert |NatToString(n / 10)| == |NatToString(n / 100)| + 1;
      }
    }
  }

  lemma {:induction false} LeadingDigitPositive(s: string)
    requires AllDigits(s) && |s| >= 1 && s[0] != '0'
    ensures DecimalValue(s) >= 1
    decreases |s|
  {
    if |s| > 1 {
      LeadingDigitPositive(s[..|s| - 1]);
    }
  }

  /** `str` is a left inverse of the digit-string reading on canonical spellings. */
  lemma {:induction false} CanonicalRoundTrip(s: string)
    requires Canonical(s)
    ensures NatToString(DecimalValue(s)) == s
    decreases |s|
  {
    if |s| > 1 {
      var p := s[..|s| - 1];
      LeadingDigitPositive(p);
      CanonicalRoundTrip(p);
      assert s == p + [s[|s| - 1]];
    }
  }

  /** Two canonical spellings of the same number are the same string. */
  lemma CanonicalUnique(s: string, t: string)
    requires Canonical(s) && Canonical(t) && DecimalValue(s) == DecimalValue(t)
    ensures s == t
  {
    CanonicalRoundTrip(s);
    CanonicalRoundTrip(t);
  }

  // ---------------------------------------------------------------------
  // `str.strip()`

  function LStrip(s: string): (r: string)
    ensures |r| <= |s| && r == s[|s| - |r|..]
    ensures |r| > 0 ==> !IsSpace(r[0])
    ensures forall i :: 0 <= i < |s| - |r| ==> IsSpace(s[i])
    decreases |s|
  {
    if |s| > 0 && IsSpace(s[0]) then
      var r := LStrip(s[1..]);
      assert forall i :: 1 <= i < |s| - |r| ==> s[i] == s[1..][i - 1];
      r
    else s
  }

  function RStrip(s: string): (r: string)
    ensures |r| <= |s| && r == s[..|r|]
    ensures |r| > 0 ==> !IsSpace(r[|r| - 1])
    ensures forall i :: |r| <= i < |s| ==> IsSpace(s[i])
    decreases |s|
  {
    if |s| > 0 && IsSpace(s[|s| - 1]) then
      var r := RStrip(s[..|s| - 1]);
      assert forall i :: |r| <= i < |s| - 1 ==> s[i] == s[..|s| - 1][i];
      r
    else s
  }

  /** Python's `s.strip()`: the longest infix of `s` that neither starts nor
      ends with whitespace, or "" when `s` is all whitespace. */
  function Strip(s: string): (r: string)
    ensures |r| <= |s|
    ensures |r| > 0 ==> !IsSpace(r[0]) && !IsSpace(r[|r| - 1])
  {
    RStrip(LStrip(s))
  }

  lemma StripIdentity(s: string)
    requires |s| > 0 ==> !IsSpace(s[0]) && !IsSpace(s[|s| - 1])
    ensures Strip(s) == s
  {
  }

  lemma StripIdempotent(s: string)
    ensures Strip(Strip(s)) == Strip(s)
  {
    StripIdentity(Strip(s));
  }

  // ---------------------------------------------------------------------
  // `int(s)`

  /** Digits with single underscores between them, as `int()` allows. */
  predicate DigitGroups(s: string) {
    && |s| >= 1
    && IsDigit(s[0])
    && IsDigit(s[|s| - 1])
    && forall i :: 0 <= i < |s| ==> IsDigit(s[i]) || (s[i] == '_' && i + 1 < |s| && IsDigit(s[i + 1]))
  }

  function DropUnderscores(s: string): (r: string)
    ensures AllDigits(r)
    ensures AllDigits(s) ==> r == s
    decreases |s|
  {
    if |s| == 0 then ""
    else (if IsDigit(s[0]) then [s[0]] else []) + DropUnderscores(s[1..])
  }

  /** Python's `int(s)` for an ASCII string: surrounding whitespace is
      ignored, then one optional sign, then decimal digits (single underscores
      allowed between digits); anything else raises ValueError, here `None`. */
  function PyInt(s: string): Option<int>
  {
    var t := Strip(s);
    if |t| > 0 && (t[0] == '-' || t[0] == '+') then
      var body := t[1..];
      if DigitGroups(body) then
        var v: int := DecimalValue(DropUnderscores(body));
        Some(if t[0] == '-' then -v else v)
      else None
    else if DigitGroups(t) then Some(DecimalValue(DropUnderscores(t)))
    else None
  }

  /** `int` ignores one trailing newline after a digit string. */
  lemma PyIntOfDigitsNewline(s: string)
    requires |s| >= 1 && AllDigits(s)
    ensures PyInt(s + "\n") == Some(DecimalValue(s))
  {
    assert Strip(s + "\n") == Strip(s) by {
      assert IsDigit(s[0]) && IsDigit(s[|s| - 1]);
      StripNewline(s);
      StripIdentity(s);
    }
    PyIntSeesStripped(s + "\n", s);
    PyIntOfDigits(s);
  }

  /** `int` only looks at the stripped text. */
  lemma PyIntSeesStripped(s: string, t: string)
    requires Strip(s) == Strip(t)
    ensures PyInt(s) == PyInt(t)
  {
  }

  lemma StripNewline(s: string)
    requires |s| >= 1 && !IsSpace(s[0]) && !IsSpace(s[|s| - 1])
    ensures Strip(s + "\n") == s
  {
    var t := s + "\n";
    assert LStrip(t) == t;
    assert t[..|t| - 1] == s;
    assert RStrip(t) == RStrip(s);
  }

  /** `int` reads back what `str` writes. */
  lemma PyIntOfIntToString(i: int)
    ensures PyInt(IntToString(i)) == Some(i)
  {
    var s := IntToString(i);
    var n := NatToString(if i < 0 then -i else i);
    assert !IsSpace(n[|n| - 1]) by { assert IsDigit(n[|n| - 1]); }
    assert !IsSpace(s[0]) by { assert s[0] == '-' || IsDigit(s[0]); }
    assert s[|s| - 1] == n[|n| - 1];
    StripIdentity(s);
    assert DigitGroups(n);
    if i < 0 {
      assert s[1..] == n;
    } else {
      assert s == n;
    }
  }

  /** On a non-empty digit string `int` agrees with the decimal reading. */
  lemma PyIntOfDigits(s: string)
    requires |s| >= 1 && AllDigits(s)
    ensures PyInt(s) == Some(DecimalValue(s))
  {
    assert IsDigit(s[0]) && IsDigit(s[|s| - 1]);
    StripIdentity(s);
    assert DigitGroups(s);
  }

  // ---------------------------------------------------------------------
  // `sep.join(parts)` and `s.split(sep)`

  /** Python's `sep.join(parts)`. */
  function Join(parts: seq<string>, sep: string): string
    decreases |parts|
  {
    if |parts| == 0 then ""
    else if |parts| == 1 then parts[0]
    else parts[0] + sep + Join(parts[1..], sep)
  }

  /** The position of the first `c` in `s`, or `|s|` when there is none. */
  function IndexOf(s: string, c: char): (i: nat)
    ensures i <= |s|
    ensures i < |s| ==> s[i] == c
    ensures forall j :: 0 <= j < i ==> s[j] != c
    decreases |s|
  {
    if |s| == 0 then 0 else if s[0] == c then 0 else 1 + IndexOf(s[1..], c)
  }

  /** Python's `s.split(c)` for a one-character separator: always at least
      one part, and no part contains the separator. */
  function Split(s: string, c: char): (parts: seq<string>)
    ensures |parts| >= 1
    ensures forall k :: 0 <= k < |parts| ==> c !in parts[k]
    decreases |s|
  {
    var i := IndexOf(s, c);
    if i == |s| then [s] else [s[..i]] + Split(s[i + 1..], c)
  }

  /** Splitting and re-joining on the same separator gives back the string. */
  lemma {:induction false} JoinOfSplit(s: string, c: char)
    ensures Join(Split(s, c), [c]) == s
    decreases |s|
  {
    var i := IndexOf(s, c);
    if i < |s| {
      var a, t := s[..i], s[i + 1..];
      assert s == a + [c] + t by {
        assert s == s[..i] + [s[i]] + s[i + 1..];
      }
      JoinOfSplit(t, c);
      SplitAt(s, c, i);
      JoinCons(a, Split(t, c), [c]);
    } else {
      SplitWhole(s, c);
    }
  }

  /** Joining a part in front of at least one other adds one separator. */
  lemma JoinCons(a: string, rest: seq<string>, sep: string)
    requires |rest| >= 1
    ensures Join([a] + rest, sep) == a + sep + Join(rest, sep)
  {
    assert ([a] + rest)[1..] == rest;
  }

  /** The first separator of `s + [x]` is that of `s`, or none when `s` has none. */
  lemma IndexOfSnoc(s: string, x: char, c: char)
    requires x != c
    ensures IndexOf(s + [x], c) == (if IndexOf(s, c) < |s| then IndexOf(s, c) else |s| + 1)
  {
    var i, j := IndexOf(s, c), IndexOf(s + [x], c);
    assert forall k :: 0 <= k < |s| ==> (s + [x])[k] == s[k];
  }

  /** A character other than the separator appended to a string ends up at
      the end of its last part. */
  lemma {:induction false} SplitSnoc(s: string, x: char, c: char)
    requires x != c
    ensures var p := Split(s, c); Split(s + [x], c) == p[..|p| - 1] + [p[|p| - 1] + [x]]
    decreases |s|
  {
    SplitSnocParts(s, x, c);
  }

  /** `t` is `p` with `x` appended to its last part. */
  predicate AppendedToLast(p: seq<string>, t: seq<string>, x: char) {
    |p| >= 1 && t == p[..|p| - 1] + [p[|p| - 1] + [x]]
  }

  lemma {:induction false} SplitSnocParts(s: string, x: char, c: char)
    requires x != c
    ensures AppendedToLast(Split(s, c), Split(s + [x], c), x)
    decreases |s|
  {
    var i := IndexOf(s, c);
    if i < |s| {
      SplitSnocParts(s[i + 1..], x, c);
      SplitSnocAfterSeparator(s, x, c, i);
    } else {
      IndexOfSnoc(s, x, c);
      SplitWhole(s, c);
      SplitWhole(s + [x], c);
      SnocOnlyPart(s, x, Split(s, c), Split(s + [x], c));
    }
  }

  /** With a single part, appending to the last part appends to it. */
  lemma SnocOnlyPart(s: string, x: char, p: seq<string>, t: seq<string>)
    requires p == [s] && t == [s + [x]]
    ensures AppendedToLast(p, t, x)
  {
    assert p[..|p| - 1] == [];
  }

  /** Without a separator the whole string is the only part. */
  lemma SplitWhole(s: string, c: char)
    requires IndexOf(s, c) == |s|
    ensures Split(s, c) == [s]
  {
  }

  /** The step of `SplitSnoc` past the first separator. */
  lemma SplitSnocAfterSeparator(s: string, x: char, c: char, i: nat)
    requires x != c && i == IndexOf(s, c) && i < |s|
    requires AppendedToLast(Split(s[i + 1..], c), Split(s[i + 1..] + [x], c), x)
    ensures AppendedToLast(Split(s, c), Split(s + [x], c), x)
  {
    SplitAt(s, c, i);
    SplitSnocHead(s, x, c, i);
    SnocLastPart(s[..i], Split(s[i + 1..], c), Split(s[i + 1..] + [x], c), Split(s, c), Split(s + [x], c), x);
  }

  /** Appending a non-separator leaves the first separator, and the part
      before it, where they were. */
  lemma SplitSnocHead(s: string, x: char, c: char, i: nat)
    requires x != c && i == IndexOf(s, c) && i < |s|
    ensures Split(s + [x], c) == [s[..i]] + Split(s[i + 1..] + [x], c)
  {
    var t := s + [x];
    IndexOfSnoc(s, x, c);
    SplitAt(t, c, i);
    SnocSlices(s, x, i);
  }

  lemma SnocSlices(s: string, x: char, i: nat)
    requires i < |s|
    ensures (s + [x])[..i] == s[..i] && (s + [x])[i + 1..] == s[i + 1..] + [x]
  {
  }

  /** Splitting at the first separator. */
  lemma SplitAt(s: string, c: char, i: nat)
    requires i == IndexOf(s, c) && i < |s|
    ensures Split(s, c) == [s[..i]] + Split(s[i + 1..], c)
  {
  }

  /** Appending to the last part commutes with putting a part in front:
      if `r` is `q` with `x` appended to its last part, then `[a] + r` is
      `[a] + q` with `x` appended to its last part. */
  lemma SnocLastPart(a: string, q: seq<string>, r: seq<string>, p: seq<string>, t: seq<string>, x: char)
    requires AppendedToLast(q, r, x)
    requires p == [a] + q && t == [a] + r
    ensures AppendedToLast(p, t, x)
  {
    assert p[..|p| - 1] == [a] + q[..|q| - 1];
  }

  /** Joining parts free of the separator and splitting again gives back the parts. */
  lemma {:induction false} SplitOfJoin(parts: seq<string>, c: char)
    requires |parts| >= 1
    requires forall k :: 0 <= k < |parts| ==> c !in parts[k]
    ensures Split(Join(parts, [c]), c) == parts
    decreases |parts|
  {
    var p := parts[0];
    if |parts| == 1 {
      NoSeparator(p, c);
    } else {
      var tail := Join(parts[1..], [c]);
      var s := p + [c] + tail;
      NoSeparator(p, c);
      IndexAfterPrefix(p, c, tail);
      assert s[..|p|] == p;
      assert s[|p| + 1..] == tail;
      SplitOfJoin(parts[1..], c);
    }
  }

  lemma NoSeparator(p: string, c: char)
    requires c !in p
    ensures IndexOf(p, c) == |p|
  {
    NotAtAnyIndex(p, c);
  }

  lemma NotAtAnyIndex(p: string, c: char)
    requires c !in p
    ensures forall j :: 0 <= j < |p| ==> p[j] != c
  {
  }

  lemma IndexAfterPrefix(p: string, c: char, tail: string)
    requires c !in p
    ensures IndexOf(p + [c] + tail, c) == |p|
  {
    NotAtAnyIndex(p, c);
    var s := p + [c] + tail;
    assert s[|p|] == c;
    assert forall j :: 0 <= j < |p| ==> s[j] == p[j];
  }

  /** Length of the join of separator-free parts: one separator between each pair. */
  lemma {:induction false} CountInJoin(parts: seq<string>, c: char)
    requires forall k :: 0 <= k < |parts| ==> c !in parts[k]
    ensures multiset(Join(parts, [c]))[c] == (if |parts| == 0 then 0 else |parts| - 1)
    decreases |parts|
  {
    if |parts| >= 1 {
      NotInMultiset(parts[0], c);
    }
    if |parts| >= 2 {
      CountInJoin(parts[1..], c);
      var rest := Join(parts[1..], [c]);
      assert Join(parts, [c]) == parts[0] + [c] + rest;
      assert multiset(parts[0] + [c] + rest) == multiset(parts[0]) + multiset([c]) + multiset(rest);
    }
  }

  /** A character that is neither in any part nor the separator is not in the join. */
  lemma {:induction false} JoinAvoids(parts: seq<string>, sep: char, c: char)
    requires c != sep
    requires forall k :: 0 <= k < |parts| ==> c !in parts[k]
    ensures c !in Join(parts, [sep])
    decreases |parts|
  {
    if |parts| >= 2 {
      JoinAvoids(parts[1..], sep, c);
      assert Join(parts, [sep]) == parts[0] + [sep] + Join(parts[1..], [sep]);
    }
  }

  lemma NotInMultiset(p: string, c: char)
    requires c !in p
    ensures multiset(p)[c] == 0
  {
  }

  // ---------------------------------------------------------------------
  // `s.split()` without arguments

  /** Length of the leading run of non-whitespace characters. */
  function WordLength(s: string): (n: nat)
    ensures n <= |s|
    ensures forall j :: 0 <= j < n ==> !IsSpace(s[j])
    ensures n < |s| ==> IsSpace(s[n])
    decreases |s|
  {
    if |s| == 0 || IsSpace(s[0]) then 0 else 1 + WordLength(s[1..])
  }

  /** Python's `s.split()`: the maximal runs of non-whitespace characters, in order. */
  function Words(s: string): (ws: seq<string>)
    ensures forall k :: 0 <= k < |ws| ==> |ws[k]| >= 1
    decreases |s|
  {
    if |s| == 0 then []
    else if IsSpace(s[0]) then Words(s[1..])
    else
      var n := WordLength(s);
      [s[..n]] + Words(s[n..])
  }

  /** No word holds a whitespace character. */
  lemma {:induction false} WordsHaveNoSpace(s: string)
    ensures forall k, j :: 0 <= k < |Words(s)| && 0 <= j < |Words(s)[k]| ==> !IsSpace(Words(s)[k][j])
    decreases |s|
  {
    if |s| > 0 {
      if IsSpace(s[0]) {
        WordsHaveNoSpace(s[1..]);
      } else {
        var n := WordLength(s);
        WordsHaveNoSpace(s[n..]);
        assert Words(s) == [s[..n]] + Words(s[n..]);
      }
    }
  }

  /** A non-whitespace character anywhere yields at least one word. */
  lemma {:induction false} WordsNonEmpty(s: string, k: nat)
    requires k < |s| && !IsSpace(s[k])
    ensures |Words(s)| >= 1
    decreases |s|
  {
    if IsSpace(s[0]) {
      WordsNonEmpty(s[1..], k - 1);
    }
  }

  /** A non-space, then a space, then a non-space yields at least two words. */
  lemma {:induction false} WordsAtLeastTwo(s: string, i: nat, j: nat, k: nat)
    requires i < j < k < |s|
    requires !IsSpace(s[i]) && IsSpace(s[j]) && !IsSpace(s[k])
    ensures |Words(s)| >= 2
    decreases |s|
  {
    if IsSpace(s[0]) {
      WordsAtLeastTwo(s[1..], i - 1, j - 1, k - 1);
    } else {
      var n := WordLength(s);
      assert n <= j;
      WordsNonEmpty(s[n..], k - n);
    }
  }

  // ---------------------------------------------------------------------
  // Substring test `pat in s`

  /** Python's `pat in s` for strings. */
  function Contains(s: string, pat: string): bool
    decreases |s|
  {
    if |s| < |pat| then false
    else if s[..|pat|] == pat then true
    else Contains(s[1..], pat)
  }

  /** Where a contained pattern sits. */
  lemma {:induction false} ContainsWitness(s: string, pat: string) returns (i: nat)
    requires Contains(s, pat)
    ensures i + |pat| <= |s| && s[i..i + |pat|] == pat
    decreases |s|
  {
    if s[..|pat|] == pat {
      i := 0;
    } else {
      var j := ContainsWitness(s[1..], pat);
      i := j + 1;
      assert s[i..i + |pat|] == s[1..][j..j + |pat|];
    }
  }
}

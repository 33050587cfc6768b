/** `split_into_24_subnets`: a target is read as an IPv4 network with its
    host bits cleared (`IPv4Network(target, strict=False)`), networks of
    prefix 24 or longer are kept as they are, and shorter ones are cut
    into their `/24` subnetworks in ascending order. The result is the
    networks' `str`, which always carries the prefix. */
module Subnets {
  import opened Wrappers
  import opened Text
  import opened TargetSyntax

  // ---------------------------------------------------------------------
  // Arithmetic

  /** The number of IPv4 addresses. */
  const AddressSpace: nat := 0x1_0000_0000

  function Pow2(k: nat): (r: nat)
    ensures r >= 1
  {
    if k == 0 then 1 else 2 * Pow2(k - 1)
  }

  lemma {:induction false} Pow2Add(a: nat, b: nat)
    ensures Pow2(a + b) == Pow2(a) * Pow2(b)
  {
    if a > 0 {
      Pow2Add(a - 1, b);
      assert Pow2(a + b) == 2 * Pow2(a - 1 + b);
    }
  }

  lemma Pow2Values()
    ensures Pow2(8) == 256 && Pow2(32) == AddressSpace
  {
    assert Pow2(4) == 16;
    Pow2Add(4, 4);
    Pow2Add(8, 8);
    Pow2Add(16, 16);
  }

  lemma MulMono(m: nat, x: nat, y: nat)
    requires x <= y
    ensures m * x <= m * y
  {
    assert m * y - m * x == m * (y - x);
  }

  /** Euclidean division has one quotient and one remainder. */
  lemma DivModUnique(a: nat, m: nat, q: nat, r: nat)
    requires m > 0 && r < m && a == m * q + r
    ensures a / m == q && a % m == r
  {
    var q', r' := a / m, a % m;
    assert a == m * q' + r';
    if q < q' {
      MulMono(m, q + 1, q');
      assert false;
    } else if q' < q {
      MulMono(m, q' + 1, q);
      assert false;
    }
  }

  // ---------------------------------------------------------------------
  // Networks

  /** An IPv4 network: its first address and its prefix length. */
  datatype Network = Network(address: nat, prefix: nat)

  /** How many addresses a network of this prefix length spans. */
  function Size(prefix: nat): (r: nat)
    requires prefix <= 32
    ensures r >= 1
  {
    Pow2(32 - prefix)
  }

  /** A network as `IPv4Network` holds one: an address, a prefix of at most
      32 and no host bits set. */
  predicate ValidNetwork(n: Network) {
    n.address < AddressSpace && n.prefix <= 32 && n.address % Size(n.prefix) == 0
  }

  predicate InNetwork(n: Network, a: nat)
    requires n.prefix <= 32
  {
    n.address <= a < n.address + Size(n.prefix)
  }

  /** `address & netmask` for a prefix length: the address with its
      `32 - prefix` low bits cleared, i.e. the start of its block. */
  function Mask(address: nat, prefix: nat): (r: nat)
    requires prefix <= 32
    ensures r <= address < r + Size(prefix)
    ensures r % Size(prefix) == 0
  {
    AlignDown(address, Size(prefix));
    address - address % Size(prefix)
  }

  /** Subtracting the remainder leaves a multiple. */
  lemma AlignDown(a: nat, m: nat)
    requires m > 0
    ensures a % m <= a && (a - a % m) % m == 0
  {
    var q := a / m;
    assert a == m * q + a % m;
    DivModUnique(m * q, m, q, 0);
  }

  /** A block-aligned address below 2^32 is followed by its whole block. */
  lemma BlockFits(a: nat, prefix: nat)
    requires prefix <= 32 && a < AddressSpace && a % Size(prefix) == 0
    ensures a + Size(prefix) <= AddressSpace
  {
    var m, count := Size(prefix), Pow2(prefix);
    Pow2Values();
    Pow2Add(32 - prefix, prefix);
    assert m * count == AddressSpace;
    DivisibleIsMultiple(a, m);
    AlignedBelow(a, m, count, a / m);
  }

  lemma DivisibleIsMultiple(a: nat, m: nat)
    requires m > 0 && a % m == 0
    ensures a == m * (a / m)
  {
  }

  lemma AlignedBelow(a: nat, m: nat, count: nat, q: nat)
    requires m > 0 && a == m * q && a < m * count
    ensures a + m <= m * count
  {
    if q >= count {
      MulMono(m, count, q);
    }
    MulMono(m, q + 1, count);
  }

  // ---------------------------------------------------------------------
  // Dotted quads

  function FromOctets(a: nat, b: nat, c: nat, d: nat): nat {
    ((a * 256 + b) * 256 + c) * 256 + d
  }

  /** The four octets of an address, most significant first. */
  function OctetValues(address: nat): (r: seq<nat>)
    ensures |r| == 4
    ensures address < AddressSpace ==> forall k :: 0 <= k < 4 ==> r[k] < 256
  {
    var a1 := address / 256;
    var a2 := a1 / 256;
    [a2 / 256, a2 % 256, a1 % 256, address % 256]
  }

  lemma OctetValuesRoundTrip(address: nat)
    requires address < AddressSpace
    ensures var o := OctetValues(address); FromOctets(o[0], o[1], o[2], o[3]) == address
  {
  }

  lemma OctetsDetermineAddress(a: nat, b: nat, c: nat, d: nat)
    requires a < 256 && b < 256 && c < 256 && d < 256
    ensures FromOctets(a, b, c, d) < AddressSpace
    ensures OctetValues(FromOctets(a, b, c, d)) == [a, b, c, d]
  {
    var x := FromOctets(a, b, c, d);
    DivModUnique(x, 256, (a * 256 + b) * 256 + c, d);
    DivModUnique(x / 256, 256, a * 256 + b, c);
    DivModUnique(x / 256 / 256, 256, a, b);
  }

  /** `str(IPv4Address)`: the four octets in decimal, joined by dots. */
  function DottedQuad(address: nat): string {
    var o := OctetValues(address);
    Join([NatToString(o[0]), NatToString(o[1]), NatToString(o[2]), NatToString(o[3])], ".")
  }

  /** `str(IPv4Network)`: the network address, `/`, the prefix length. */
  function NetworkString(n: Network): string {
    DottedQuad(n.address) + "/" + NatToString(n.prefix)
  }

  // ---------------------------------------------------------------------
  // Reading a target

  /** The address a well-formed target spells. */
  function TargetAddress(t: string): (a: nat)
    requires WellFormedTarget(t)
    ensures a < AddressSpace
  {
    var g := Groups(t);
    OctetsDetermineAddress(DecimalValue(g[0]), DecimalValue(g[1]), DecimalValue(g[2]), DecimalValue(g[3]));
    FromOctets(DecimalValue(g[0]), DecimalValue(g[1]), DecimalValue(g[2]), DecimalValue(g[3]))
  }

  /** The prefix length a well-formed target spells, 32 when it has none. */
  function TargetPrefix(t: string): (p: nat)
    requires WellFormedTarget(t)
    ensures p <= 32
  {
    var parts := Split(t, '/');
    if |parts| == 1 then 32 else DecimalValue(parts[1])
  }

  /** `IPv4Network(t, strict=False)` on the dotted-quad spellings: the
      target's block, or `None` where the constructor raises. */
  function ParseNetwork(t: string): (r: Option<Network>)
    ensures r.Some? <==> WellFormedTarget(t)
    ensures r.Some? ==> ValidNetwork(r.value)
  {
    if WellFormedTarget(t) then
      var p := TargetPrefix(t);
      Some(Network(Mask(TargetAddress(t), p), p))
    else None
  }

  /** The parsed network has the target's prefix length and contains the
      address the target spells. */
  lemma ParseNetworkContainsTarget(t: string)
    requires WellFormedTarget(t)
    ensures ParseNetwork(t).value.prefix == TargetPrefix(t)
    ensures InNetwork(ParseNetwork(t).value, TargetAddress(t))
  {
  }

  // ---------------------------------------------------------------------
  // Cutting into /24s

  /** `network.subnets(new_prefix=24)` for prefixes shorter than 24; the
      network itself otherwise. */
  function Split24(n: Network): (r: seq<Network>)
    requires ValidNetwork(n)
    ensures |r| == (if n.prefix >= 24 then 1 else Pow2(24 - n.prefix))
  {
    if n.prefix >= 24 then [n]
    else seq(Pow2(24 - n.prefix), k requires 0 <= k => Network(n.address + 256 * k, 24))
  }

  /** A network shorter than /24 spans a whole number of /24 blocks. */
  lemma SizeInBlocks(prefix: nat)
    requires prefix <= 24
    ensures Size(prefix) == 256 * Pow2(24 - prefix) && Size(24) == 256
  {
    Pow2Values();
    Pow2Add(8, 24 - prefix);
  }

  /** The pieces are valid networks, ascending, each inside the original,
      and no longer than /24 apart from a longer original kept whole. */
  lemma Split24Valid(n: Network)
    requires ValidNetwork(n)
    ensures var r := Split24(n);
      && (forall k :: 0 <= k < |r| ==> ValidNetwork(r[k]) && r[k].prefix == (if n.prefix >= 24 then n.prefix else 24))
      && (forall i, j :: 0 <= i < j < |r| ==> r[i].address < r[j].address)
  {
    if n.prefix < 24 {
      var r := Split24(n);
      var p := Pow2(24 - n.prefix);
      SizeInBlocks(n.prefix);
      BlockFits(n.address, n.prefix);
      var q := BlockMultiple(n.address, p);
      forall k | 0 <= k < |r|
        ensures ValidNetwork(r[k]) && r[k].prefix == 24
      {
        PieceAligned(n.address, p, q, k);
      }
    }
  }

  /** An address aligned to `256 * p` is `256 * (p * q)` for some `q`. */
  lemma BlockMultiple(a: nat, p: nat) returns (q: nat)
    requires p > 0 && a % (256 * p) == 0
    ensures a == 256 * (p * q)
  {
    q := a / (256 * p);
    DivisibleIsMultiple(a, 256 * p);
    assert (256 * p) * q == 256 * (p * q);
  }

  /** The `k`-th /24 piece of an aligned block is aligned and in range. */
  lemma PieceAligned(a: nat, p: nat, q: nat, k: nat)
    requires a == 256 * (p * q) && k < p && a + 256 * p <= AddressSpace
    ensures (a + 256 * k) % 256 == 0 && a + 256 * k < AddressSpace
  {
    DivModUnique(a + 256 * k, 256, p * q + k, 0);
  }

  /** The pieces cover the original exactly: an address is in the original
      network exactly when it is in one of the pieces, and in at most one. */
  lemma Split24Covers(n: Network, a: nat)
    requires ValidNetwork(n)
    ensures var r := Split24(n);
      && (InNetwork(n, a) <==> exists k :: 0 <= k < |r| && r[k].prefix <= 32 && InNetwork(r[k], a))
      && (forall i, j ::
            0 <= i < |r| && 0 <= j < |r| && r[i].prefix <= 32 && r[j].prefix <= 32 && InNetwork(r[i], a) && InNetwork(r[j], a)
            ==> i == j)
  {
    var r := Split24(n);
    if n.prefix < 24 {
      SizeInBlocks(n.prefix);
      var p := Pow2(24 - n.prefix);
      if InNetwork(n, a) {
        var k := (a - n.address) / 256;
        DivModUnique(a - n.address, 256, k, (a - n.address) % 256);
        assert k < p;
        assert InNetwork(r[k], a);
      }
      if exists k :: 0 <= k < |r| && r[k].prefix <= 32 && InNetwork(r[k], a) {
        var k :| 0 <= k < |r| && r[k].prefix <= 32 && InNetwork(r[k], a);
        MulMono(256, k + 1, p);
      }
    }
  }

  // ---------------------------------------------------------------------
  // split_into_24_subnets

  /** The `str` of each network, in order. */
  function Names(ns: seq<Network>): (r: seq<string>)
    ensures |r| == |ns|
    ensures forall k :: 0 <= k < |ns| ==> r[k] == NetworkString(ns[k])
  {
    seq(|ns|, k requires 0 <= k < |ns| => NetworkString(ns[k]))
  }

  /** `split_into_24_subnets(target)`: the `str` of each piece of the
      target's network, or `[]` when the target does not parse. */
  function SplitInto24Subnets(t: string): (r: seq<string>)
    ensures r == [] <==> !WellFormedTarget(t)
  {
    match ParseNetwork(t)
    case None => []
    case Some(n) => Names(Split24(n))
  }

  // ---------------------------------------------------------------------
  // Formatting and reading back

  lemma DigitsAvoid(s: string, c: char)
    requires AllDigits(s) && !IsDigit(c)
    ensures c !in s
  {
  }

  /** The decimal spelling of an octet value is an octet group. */
  lemma OctetString(v: nat)
    requires v < 256
    ensures Octet(NatToString(v)) && DecimalValue(NatToString(v)) == v
    ensures '.' !in NatToString(v) && '/' !in NatToString(v)
  {
    ShortNatToString(v);
    DigitsAvoid(NatToString(v), '.');
    DigitsAvoid(NatToString(v), '/');
  }

  /** A network's name holds only digits, dots and slashes. */
  lemma NetworkStringChars(n: Network)
    ensures forall i :: 0 <= i < |NetworkString(n)| ==> TargetChar(NetworkString(n)[i])
  {
    var name := NetworkString(n);
    forall i | 0 <= i < |name| ensures TargetChar(name[i]) {
      NetworkStringAvoids(n, name[i]);
    }
  }

  lemma NetworkStringAvoids(n: Network, c: char)
    ensures !TargetChar(c) ==> c !in NetworkString(n)
  {
    if !TargetChar(c) {
      var o := OctetValues(n.address);
      var octets := [NatToString(o[0]), NatToString(o[1]), NatToString(o[2]), NatToString(o[3])];
      forall k | 0 <= k < |octets| ensures c !in octets[k] {
        DigitsAvoid(octets[k], c);
      }
      JoinAvoids(octets, '.', c);
      DigitsAvoid(NatToString(n.prefix), c);
      assert NetworkString(n) == DottedQuad(n.address) + ("/" + NatToString(n.prefix));
    }
  }

  /** How a network's string splits: at the slash into the dotted quad and
      the prefix, and the dotted quad at the dots into the octets. */
  lemma NetworkStringSplits(n: Network)
    requires n.address < AddressSpace && n.prefix <= 32
    ensures var o := OctetValues(n.address);
      && Split(NetworkString(n), '/') == [DottedQuad(n.address), NatToString(n.prefix)]
      && Groups(NetworkString(n)) == [NatToString(o[0]), NatToString(o[1]), NatToString(o[2]), NatToString(o[3])]
  {
    var o := OctetValues(n.address);
    var octets := [NatToString(o[0]), NatToString(o[1]), NatToString(o[2]), NatToString(o[3])];
    OctetString(o[0]);
    OctetString(o[1]);
    OctetString(o[2]);
    OctetString(o[3]);
    JoinAvoids(octets, '.', '/');
    DigitsAvoid(NatToString(n.prefix), '/');
    var parts := [DottedQuad(n.address), NatToString(n.prefix)];
    assert Join(parts, "/") == NetworkString(n);
    SplitOfJoin(parts, '/');
    SplitOfJoin(octets, '.');
  }

  /** `str` of a network reads back as the same network: the string is a
      well-formed target that `IPv4Network` parses to the network itself. */
  lemma FormatParseRoundTrip(n: Network)
    requires ValidNetwork(n)
    ensures WellFormedTarget(NetworkString(n))
    ensures ParseNetwork(NetworkString(n)) == Some(n)
  {
    var t := NetworkString(n);
    var o := OctetValues(n.address);
    NetworkStringSplits(n);
    OctetString(o[0]);
    OctetString(o[1]);
    OctetString(o[2]);
    OctetString(o[3]);
    assert WellFormedTarget(t);
    OctetValuesRoundTrip(n.address);
    assert TargetAddress(t) == n.address;
    assert TargetPrefix(t) == n.prefix;
    assert Mask(n.address, n.prefix) == n.address;
  }

  /** A network's string passes `is_valid_target`. */
  lemma NetworkStringIsValidTarget(n: Network)
    requires ValidNetwork(n)
    ensures IsValidTarget(NetworkString(n))
  {
    FormatParseRoundTrip(n);
    var t := NetworkString(n);
    var p := NatToString(n.prefix);
    assert t[|t| - 1] == p[|p| - 1];
    ValidWithoutNewline(t);
  }

  /** The names of valid networks are valid targets that read back as
      the networks they name. */
  lemma NamesReadBack(ns: seq<Network>)
    requires forall k :: 0 <= k < |ns| ==> ValidNetwork(ns[k])
    ensures forall k :: 0 <= k < |ns| ==> IsValidTarget(Names(ns)[k]) && ParseNetwork(Names(ns)[k]) == Some(ns[k])
  {
    forall k | 0 <= k < |ns|
      ensures IsValidTarget(Names(ns)[k]) && ParseNetwork(Names(ns)[k]) == Some(ns[k])
    {
      FormatParseRoundTrip(ns[k]);
      NetworkStringIsValidTarget(ns[k]);
    }
  }

  /** The pieces of a target's network, and that they are valid networks. */
  lemma TargetPieces(t: string) returns (n: Network, pieces: seq<Network>)
    requires WellFormedTarget(t)
    ensures ParseNetwork(t) == Some(n) && pieces == Split24(n)
    ensures SplitInto24Subnets(t) == Names(pieces)
    ensures forall k :: 0 <= k < |pieces| ==> ValidNetwork(pieces[k]) && pieces[k].prefix >= 24
  {
    n := ParseNetwork(t).value;
    pieces := Split24(n);
    Split24Valid(n);
  }

  /** Every string `split_into_24_subnets` returns is a valid target
      naming a network of prefix 24 or longer. */
  lemma SplitOutputsAreTargets(t: string)
    ensures var r := SplitInto24Subnets(t);
      forall k :: 0 <= k < |r| ==>
        && IsValidTarget(r[k])
        && ParseNetwork(r[k]).Some? && ParseNetwork(r[k]).value.prefix >= 24
  {
    if WellFormedTarget(t) {
      var n, pieces := TargetPieces(t);
      NamesReadBack(pieces);
    }
  }

  /** Splitting an output of the split again returns it unchanged. */
  lemma SplitIdempotent(t: string)
    ensures var r := SplitInto24Subnets(t);
      forall k :: 0 <= k < |r| ==> SplitInto24Subnets(r[k]) == [r[k]]
  {
    if WellFormedTarget(t) {
      var n, pieces := TargetPieces(t);
      NamesReadBack(pieces);
      var r := Names(pieces);
      forall k | 0 <= k < |r|
        ensures SplitInto24Subnets(r[k]) == [r[k]]
      {
        assert ParseNetwork(r[k]) == Some(pieces[k]);
        assert Split24(pieces[k]) == [pieces[k]];
      }
    }
  }

  /** A target whose network is /24 or longer yields that one network; a
      shorter one yields one `/24` per 256 addresses it spans. */
  lemma SplitCount(t: string)
    requires WellFormedTarget(t)
    ensures var p := ParseNetwork(t).value.prefix;
      |SplitInto24Subnets(t)| == if p >= 24 then 1 else Pow2(24 - p)
  {
    var n := ParseNetwork(t).value;
    assert |SplitInto24Subnets(t)| == |Split24(n)|;
  }

  /** The networks the output strings name cover the target's network
      exactly, each address once. */
  lemma SplitCoversTarget(t: string, a: nat)
    requires WellFormedTarget(t)
    ensures var r := SplitInto24Subnets(t);
      && (forall k :: 0 <= k < |r| ==> ParseNetwork(r[k]).Some?)
      && (InNetwork(ParseNetwork(t).value, a) <==> exists k :: 0 <= k < |r| && InNetwork(ParseNetwork(r[k]).value, a))
      && (forall i, j ::
            0 <= i < |r| && 0 <= j < |r| && InNetwork(ParseNetwork(r[i]).value, a) && InNetwork(ParseNetwork(r[j]).value, a)
            ==> i == j)
  {
    var n := ParseNetwork(t).value;
    assert SplitInto24Subnets(t) == Names(Split24(n));
    NamesCover(n, a);
  }

  /** The names of a network's pieces cover it as the pieces do. */
  lemma NamesCover(n: Network, a: nat)
    requires ValidNetwork(n)
    ensures var r := Names(Split24(n));
      && (forall k :: 0 <= k < |r| ==> ParseNetwork(r[k]).Some?)
      && (InNetwork(n, a) <==> exists k :: 0 <= k < |r| && InNetwork(ParseNetwork(r[k]).value, a))
      && (forall i, j ::
            0 <= i < |r| && 0 <= j < |r| && InNetwork(ParseNetwork(r[i]).value, a) && InNetwork(ParseNetwork(r[j]).value, a)
            ==> i == j)
  {
    var pieces := Split24(n);
    var r := Names(pieces);
    assert |r| == |pieces| && forall k :: 0 <= k < |r| ==> ParseNetwork(r[k]) == Some(pieces[k]) by {
      Split24Valid(n);
      NamesReadBack(pieces);
    }
    CoverByNames(r, n, a);
  }

  /** Coverage of a network by its pieces carries over to names that
      parse back to those pieces. */
  lemma CoverByNames(r: seq<string>, n: Network, a: nat)
    requires ValidNetwork(n) && |r| == |Split24(n)|
    requires forall k :: 0 <= k < |r| ==> ParseNetwork(r[k]) == Some(Split24(n)[k])
    ensures forall k :: 0 <= k < |r| ==> ParseNetwork(r[k]).Some?
    ensures InNetwork(n, a) <==> exists k :: 0 <= k < |r| && InNetwork(ParseNetwork(r[k]).value, a)
    ensures forall i, j ::
      0 <= i < |r| && 0 <= j < |r| && InNetwork(ParseNetwork(r[i]).value, a) && InNetwork(ParseNetwork(r[j]).value, a)
      ==> i == j
  {
    var pieces := Split24(n);
    Split24Covers(n, a);
    if InNetwork(n, a) {
      var k :| 0 <= k < |pieces| && pieces[k].prefix <= 32 && InNetwork(pieces[k], a);
      assert ParseNetwork(r[k]).value == pieces[k];
    }
  }

}

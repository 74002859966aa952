/**
 * A model of the IPv4 half of Python's `ipaddress.ip_network(text)` with its
 * default `strict=True`: the text is an address, optionally followed by "/" and
 * a prefix length, a netmask or a hostmask; a network whose address has bits set
 * beyond the prefix is rejected, not masked. The accepted network is rendered as
 * `str()` renders it: four decimal octets, "/", the decimal prefix length.
 */
module IpNetwork {
  import opened Wrappers
  import opened PyText

  datatype Network = Network(octets: seq<nat>, prefixLen: nat)

  // ---------- decimal digits ----------

  predicate IsDigit(c: char) { '0' <= c <= '9' }

  predicate AllDigits(s: string) {
    forall k :: 0 <= k < |s| ==> IsDigit(s[k])
  }

  /** `int(s, 10)` for a string of ASCII digits. */
  function DigitsValue(s: string): nat
    requires AllDigits(s)
  {
    if s == [] then 0 else 10 * DigitsValue(s[..|s| - 1]) + (s[|s| - 1] - '0') as nat
  }

  /** `str(n)` for a natural number: no leading zero except in "0" itself. */
  function NatToString(n: nat): (s: string)
    ensures s != [] && AllDigits(s)
    ensures s[0] == '0' ==> s == "0"
    ensures n < 10 ==> |s| == 1
    ensures n < 100 ==> |s| <= 2
    ensures n < 1000 ==> |s| <= 3
    decreases n
  {
    if n < 10 then [('0' as int + n) as char]
    else NatToString(n / 10) + [('0' as int + n % 10) as char]
  }

  lemma {:induction false} DigitsValueOfNatToString(n: nat)
    ensures DigitsValue(NatToString(n)) == n
    decreases n
  {
    if n >= 10 {
      var s := NatToString(n);
      assert s[..|s| - 1] == NatToString(n / 10);
      DigitsValueOfNatToString(n / 10);
    }
  }

  // ---------- str.split and str.join on one separator character ----------

  /** `s.split(sep)`: always at least one part; no part contains `sep`. */
  function Split(s: string, sep: char): (parts: seq<string>)
    ensures |parts| >= 1
    ensures forall k :: 0 <= k < |parts| ==> sep !in parts[k]
    decreases |s|
  {
    if sep !in s then [s]
    else
      var i := IndexOf(s, sep);
      [s[..i]] + Split(s[i + 1..], sep)
  }

  function IndexOf(s: string, c: char): (i: nat)
    requires c in s
    ensures i < |s| && s[i] == c && c !in s[..i]
  {
    if s[0] == c then 0 else 1 + IndexOf(s[1..], c)
  }

  /** Splitting on the separator undoes joining parts that do not contain it. */
  lemma {:induction false} SplitJoin(parts: seq<string>, sep: char)
    requires |parts| >= 1
    requires forall k :: 0 <= k < |parts| ==> sep !in parts[k]
    ensures Split(Join(parts, sep), sep) == parts
    decreases |parts|
  {
    var s := Join(parts, sep);
    if |parts| > 1 {
      var t := Join(parts[1..], sep);
      assert s == parts[0] + ([sep] + t);
      IndexOfAfter(parts[0], sep, t);
      assert s[..|parts[0]|] == parts[0];
      assert s[|parts[0]| + 1..] == t;
      SplitJoin(parts[1..], sep);
    }
  }

  lemma {:induction false} IndexOfAfter(a: string, c: char, t: string)
    requires c !in a
    ensures c in a + [c] + t && IndexOf(a + [c] + t, c) == |a|
    decreases |a|
  {
    if a != [] {
      assert (a + [c] + t)[1..] == a[1..] + [c] + t;
      IndexOfAfter(a[1..], c, t);
    }
  }

  // ---------- addresses ----------

  /** `IPv4Address._parse_octet`: 1 to 3 digits, no leading zero, at most 255. */
  function ParseOctet(s: string): (r: Option<nat>)
    ensures r.Some? ==> r.value <= 255
  {
    if s == [] || !AllDigits(s) || |s| > 3 || (s != "0" && s[0] == '0') then None
    else if DigitsValue(s) > 255 then None
    else Some(DigitsValue(s))
  }

  function ParseOctets(parts: seq<string>): (r: Option<seq<nat>>)
    ensures r.Some? ==> |r.value| == |parts| && forall k :: 0 <= k < |r.value| ==> r.value[k] <= 255
  {
    if parts == [] then Some([])
    else
      match (ParseOctet(parts[0]), ParseOctets(parts[1..]))
      case (Some(o), Some(rest)) => Some([o] + rest)
      case _ => None
  }

  /** `IPv4Address._ip_int_from_string`: exactly four dot-separated octets. */
  function ParseAddress(s: string): (r: Option<seq<nat>>)
    ensures r.Some? ==> IsAddress(r.value)
  {
    if s == [] then None
    else
      var parts := Split(s, '.');
      if |parts| != 4 then None else ParseOctets(parts)
  }

  predicate IsAddress(octets: seq<nat>) {
    |octets| == 4 && forall k :: 0 <= k < 4 ==> octets[k] <= 255
  }

  /** The 32-bit value of four octets, most significant first. */
  function AddressValue(octets: seq<nat>): nat
    requires |octets| == 4
  {
    ((octets[0] * 256 + octets[1]) * 256 + octets[2]) * 256 + octets[3]
  }

  function Pow2(n: nat): (r: nat)
    ensures r >= 1
  {
    if n == 0 then 1 else 2 * Pow2(n - 1)
  }

  // ---------- prefix length, netmask, hostmask ----------

  /** The netmask with `p` leading one bits. */
  function NetmaskValue(p: nat): int
    requires p <= 32
  {
    Pow2(32) - Pow2(32 - p)
  }

  /** The least `p` in [from, 32] for which `v` is the netmask (or, with `host`, the hostmask) of `p`. */
  function MaskPrefixFrom(v: nat, host: bool, from: nat): (r: Option<nat>)
    requires from <= 33
    ensures r.Some? ==> from <= r.value <= 32
    ensures r.Some? ==> v == (if host then Pow2(32 - r.value) - 1 else NetmaskValue(r.value))
    decreases 33 - from
  {
    if from == 33 then None
    else if v == (if host then Pow2(32 - from) - 1 else NetmaskValue(from)) then Some(from)
    else MaskPrefixFrom(v, host, from + 1)
  }

  /** `_prefix_from_ip_string`: a dotted netmask, failing that a dotted hostmask. */
  function MaskPrefix(s: string): (r: Option<nat>)
    ensures r.Some? ==> r.value <= 32
  {
    match ParseAddress(s)
    case None => None
    case Some(octets) =>
      var v := AddressValue(octets);
      match MaskPrefixFrom(v, false, 0)
      case Some(p) => Some(p)
      case None => MaskPrefixFrom(v, true, 0)
  }

  /**
   * `_make_netmask` on the text after "/": a decimal prefix length from 0 to 32,
   * and otherwise whatever `MaskPrefix` makes of it.
   */
  function ParsePrefix(s: string): (r: Option<nat>)
    ensures r.Some? ==> r.value <= 32
  {
    if s != [] && AllDigits(s) && DigitsValue(s) <= 32 then Some(DigitsValue(s))
    else MaskPrefix(s)
  }

  // ---------- the network ----------

  predicate HostBitsClear(octets: seq<nat>, prefixLen: nat)
    requires |octets| == 4 && prefixLen <= 32
  {
    AddressValue(octets) % Pow2(32 - prefixLen) == 0
  }

  /** What `str(net)` can be given back as: a well-formed network without host bits. */
  predicate IsStrictNetwork(net: Network) {
    IsAddress(net.octets) && net.prefixLen <= 32 && HostBitsClear(net.octets, net.prefixLen)
  }

  /**
   * `ipaddress.ip_network(s)` restricted to IPv4: at most one "/", then the
   * address, then the prefix (32 when there is no "/"), then the strict check.
   */
  function Parse(s: string): (r: Option<Network>)
    ensures r.Some? ==> IsStrictNetwork(r.value)
  {
    var parts := Split(s, '/');
    if |parts| > 2 then None
    else
      var prefix := if |parts| == 1 then Some(32) else ParsePrefix(parts[1]);
      match (ParseAddress(parts[0]), prefix)
      case (Some(octets), Some(p)) =>
        if HostBitsClear(octets, p) then Some(Network(octets, p)) else None
      case _ => None
  }

  function OctetStrings(octets: seq<nat>): (r: seq<string>)
    ensures |r| == |octets|
    ensures forall k :: 0 <= k < |r| ==> r[k] == NatToString(octets[k])
  {
    seq(|octets|, k requires 0 <= k < |octets| => NatToString(octets[k]))
  }

  /**
   * `str(net)`: the dotted address and the decimal prefix length, with exactly
   * one "/" between them.
   */
  function Format(net: Network): (r: string)
    requires |net.octets| == 4
    ensures Split(r, '/') == [Join(OctetStrings(net.octets), '.'), NatToString(net.prefixLen)]
  {
    var a := Join(OctetStrings(net.octets), '.');
    var p := NatToString(net.prefixLen);
    AddressTextAvoidsSlash(net.octets);
    NoSeparatorInDigits(p);
    SplitJoin([a, p], '/');
    a + "/" + p
  }

  /**
   * The validator the handler applies to each trimmed line: `str(ip_network(s))`,
   * or None on ValueError. What it returns parses back to the same network.
   */
  function Canon(s: string): (r: Option<string>)
    ensures r.Some? <==> Parse(s).Some?
    ensures r.Some? ==> Parse(r.value) == Parse(s)
  {
    match Parse(s)
    case Some(net) => ParseFormat(net); Some(Format(net))
    case None => None
  }

  // ---------- properties ----------

  lemma ParseOctetOfNatToString(o: nat)
    requires o <= 255
    ensures ParseOctet(NatToString(o)) == Some(o)
  {
    DigitsValueOfNatToString(o);
  }

  lemma {:induction false} ParseOctetsOfStrings(octets: seq<nat>)
    requires forall k :: 0 <= k < |octets| ==> octets[k] <= 255
    ensures ParseOctets(OctetStrings(octets)) == Some(octets)
    decreases |octets|
  {
    if octets != [] {
      ParseOctetOfNatToString(octets[0]);
      ParseOctetsOfStrings(octets[1..]);
      var strs := OctetStrings(octets);
      assert strs[1..] == OctetStrings(octets[1..]);
      assert ParseOctet(strs[0]) == Some(octets[0]);
      assert [octets[0]] + octets[1..] == octets;
    }
  }

  /** The rendered address part: four digit strings joined by dots, with no "/" in it. */
  lemma AddressTextRoundTrip(octets: seq<nat>)
    requires IsAddress(octets)
    ensures var a := Join(OctetStrings(octets), '.');
      '/' !in a && ParseAddress(a) == Some(octets)
  {
    var parts := OctetStrings(octets);
    forall k | 0 <= k < 4 ensures '.' !in parts[k] && '/' !in parts[k] {
      NoSeparatorInDigits(parts[k]);
    }
    JoinAvoids(parts, '.', '/');
    SplitJoin(parts, '.');
    var a := Join(parts, '.');
    assert a == parts[0] + ['.'] + Join(parts[1..], '.');
    ParseOctetsOfStrings(octets);
  }

  /** Dotted decimal octets contain no "/". */
  lemma AddressTextAvoidsSlash(octets: seq<nat>)
    requires |octets| == 4
    ensures '/' !in Join(OctetStrings(octets), '.')
  {
    var parts := OctetStrings(octets);
    forall k | 0 <= k < 4 ensures '/' !in parts[k] {
      NoSeparatorInDigits(parts[k]);
    }
    JoinAvoids(parts, '.', '/');
  }

  lemma NoSeparatorInDigits(s: string)
    requires AllDigits(s)
    ensures '.' !in s && '/' !in s
  {
  }

  lemma {:induction false} JoinAvoids(parts: seq<string>, sep: char, c: char)
    requires |parts| >= 1 && sep != c
    requires forall k :: 0 <= k < |parts| ==> c !in parts[k]
    ensures c !in Join(parts, sep)
    decreases |parts|
  {
    if |parts| > 1 {
      JoinAvoids(parts[1..], sep, c);
    }
  }

  /**
   * Round trip: parsing the canonical text of a strict network gives back that
   * network, so `ip_network(str(net)) == net`.
   */
  lemma ParseFormat(net: Network)
    requires IsStrictNetwork(net)
    ensures Parse(Format(net)) == Some(net)
  {
    var a := Join(OctetStrings(net.octets), '.');
    var p := NatToString(net.prefixLen);
    AddressTextRoundTrip(net.octets);
    NoSeparatorInDigits(p);
    assert Format(net) == Join([a, p], '/');
    SplitJoin([a, p], '/');
    DigitsValueOfNatToString(net.prefixLen);
  }

  /** Every canonical string is accepted again and renders to itself. */
  /**
   * Every spelling of one network gets one text: `10.0.0.0/8`, `10.0.0.0/08`
   * and `10.0.0.0/255.0.0.0` all come out as `10.0.0.0/8`.
   */
  lemma SameNetworkSameText(s: string, t: string)
    requires Parse(s).Some? && Parse(s) == Parse(t)
    ensures Canon(s) == Canon(t)
  {
  }

  lemma CanonIsFixedPoint(s: string)
    ensures Canon(s).Some? ==> Canon(Canon(s).value) == Canon(s)
  {
    if Parse(s).Some? {
      ParseFormat(Parse(s).value);
    }
  }

  /**
   * Strict mode: an address followed by a prefix length that leaves host bits
   * set is rejected rather than masked down to its network.
   */
  lemma RejectsHostBits(net: Network)
    requires IsAddress(net.octets) && net.prefixLen <= 32
    requires !HostBitsClear(net.octets, net.prefixLen)
    ensures Canon(Format(net)) == None
  {
    var a := Join(OctetStrings(net.octets), '.');
    var p := NatToString(net.prefixLen);
    AddressTextRoundTrip(net.octets);
    NoSeparatorInDigits(p);
    assert Format(net) == Join([a, p], '/');
    SplitJoin([a, p], '/');
    DigitsValueOfNatToString(net.prefixLen);
  }

  /**
   * No masking, whatever the spelling of the prefix: an accepted network has
   * exactly the address written before "/" and the prefix written after it
   * (32 when there is none), so a text whose address has host bits set under
   * its prefix, decimal or dotted, is never accepted.
   */
  lemma ParseKeepsAddress(s: string, net: Network)
    requires Parse(s) == Some(net)
    ensures ParseAddress(Split(s, '/')[0]) == Some(net.octets)
    ensures net.prefixLen == if |Split(s, '/')| == 1 then 32 else ParsePrefix(Split(s, '/')[1]).value
    ensures HostBitsClear(net.octets, net.prefixLen)
  {
  }

  /** A bare address is the host network "/32". */
  lemma BareAddressIsHostRoute(octets: seq<nat>)
    requires IsAddress(octets)
    ensures Canon(Join(OctetStrings(octets), '.')) == Some(Format(Network(octets, 32)))
  {
    AddressTextRoundTrip(octets);
    var a := Join(OctetStrings(octets), '.');
    assert Split(a, '/') == [a];
  }

  /** The empty line is not a network. */
  lemma RejectsEmpty()
    ensures Canon("") == None
  {
    assert Split("", '/') == [""];
  }
}

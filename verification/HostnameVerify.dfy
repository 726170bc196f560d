/** Hostname verification for OpenSSL versions without their own (`connector.rs`, module `verify`),
  * following section 6.4.3 of RFC 6125. */
module HostnameVerify {
  import opened Wrappers

  // ---------------------------------------------------------------- strings

  /** The first `c` at or after `from`. */
  function FindFrom(s: string, c: char, from: nat): (r: Option<nat>)
    requires from <= |s|
    ensures r.Some? ==> from <= r.value < |s| && s[r.value] == c && forall k :: from <= k < r.value ==> s[k] != c
    ensures r.None? ==> forall k :: from <= k < |s| ==> s[k] != c
    decreases |s| - from
  {
    if from == |s| then None
    else if s[from] == c then Some(from)
    else FindFrom(s, c, from + 1)
  }

  predicate StartsWith(s: string, prefix: string) {
    |prefix| <= |s| && s[..|prefix|] == prefix
  }

  predicate EndsWith(s: string, suffix: string) {
    |suffix| <= |s| && s[|s| - |suffix|..] == suffix
  }

  // ---------------------------------------------------------------- the code

  function StripDot(s: string): string {
    if s != [] && s[|s| - 1] == '.' then s[..|s| - 1] else s
  }

  /** `None`: wildcard matching does not apply. */
  function MatchesWildcard(pattern: string, hostname: string, isIp: bool): Option<bool> {
    if isIp || StartsWith(pattern, "xn--") then None
    else
      match FindFrom(pattern, '*', 0)
      case None => None
      case Some(wildcard) =>
        match FindFrom(pattern, '.', 0)
        case None => None
        case Some(wildcardEnd) =>
          if FindFrom(pattern, '.', wildcardEnd + 1).None? then None
          else if wildcard > wildcardEnd then None
          else
            match FindFrom(hostname, '.', 0)
            case None => None
            case Some(labelEnd) =>
              if pattern[wildcardEnd..] != hostname[labelEnd..] then Some(false)
              else
                var prefix := pattern[..wildcard];
                var suffix := pattern[wildcard + 1..wildcardEnd];
                var first := hostname[..labelEnd];
                if !StartsWith(first, prefix) then Some(false)
                else if !EndsWith(first[|prefix|..], suffix) then Some(false)
                else Some(true)
  }

  function MatchesDns(pattern: string, hostname: string, isIp: bool): bool {
    var p, h := StripDot(pattern), StripDot(hostname);
    match MatchesWildcard(p, h, isIp)
    case Some(b) => b
    case None => p == h
  }

  // ---------------------------------------------------------------- what it means

  /** A pattern whose first label is `pre*suf`, followed by at least two more dots' worth of labels. */
  datatype Wildcard = Wildcard(pre: string, suf: string, rest: string) {
    predicate Of(pattern: string) {
      && pattern == pre + ['*'] + suf + rest
      && '*' !in pre && '.' !in pre && '.' !in suf
      && rest != [] && rest[0] == '.' && '.' in rest[1..]
    }

    /** The hostname is the pattern with the star replaced by text inside the first label. */
    ghost predicate Covers(hostname: string) {
      exists mid :: '.' !in mid && hostname == pre + mid + suf + rest
    }
  }

  ghost predicate WildcardApplies(pattern: string, hostname: string, isIp: bool) {
    && !isIp && !("xn--" <= pattern) && '.' in hostname
    && exists w: Wildcard :: w.Of(pattern)
  }

  /** The decomposition the code computes from its three searches. */
  function Parse(pattern: string): Option<Wildcard> {
    match FindFrom(pattern, '*', 0)
    case None => None
    case Some(star) =>
      match FindFrom(pattern, '.', 0)
      case None => None
      case Some(dot) =>
        if FindFrom(pattern, '.', dot + 1).None? || star > dot then None
        else Some(Wildcard(pattern[..star], pattern[star + 1..dot], pattern[dot..]))
  }

  lemma FoundAt(s: string, before: string, c: char, after: string)
    requires s == before + [c] + after && c !in before
    ensures FindFrom(s, c, 0) == Some(|before|)
  {
    assert forall k :: 0 <= k < |before| ==> s[k] == before[k];
    assert s[|before|] == c;
  }

  lemma SearchesInWildcard(pattern: string, w: Wildcard)
    requires w.Of(pattern)
    ensures FindFrom(pattern, '*', 0) == Some(|w.pre|)
    ensures FindFrom(pattern, '.', 0) == Some(|w.pre| + 1 + |w.suf|)
    ensures FindFrom(pattern, '.', |w.pre| + 1 + |w.suf| + 1).Some?
  {
    var dot := |w.pre| + 1 + |w.suf|;
    assert pattern == w.pre + ['*'] + (w.suf + w.rest);
    FoundAt(pattern, w.pre, '*', w.suf + w.rest);
    forall k | 0 <= k < dot
      ensures pattern[k] != '.'
    {
      assert k < |w.pre| ==> pattern[k] == w.pre[k];
      assert k > |w.pre| ==> pattern[k] == w.suf[k - |w.pre| - 1];
    }
    assert pattern[dot] == w.rest[0];
    var k :| 0 <= k < |w.rest[1..]| && w.rest[1..][k] == '.';
    assert pattern[dot + 1 + k] == w.rest[1 + k];
  }

  lemma ParseFindsWildcard(pattern: string, w: Wildcard)
    requires w.Of(pattern)
    ensures Parse(pattern) == Some(w)
  {
    SearchesInWildcard(pattern, w);
    assert pattern[..|w.pre|] == w.pre;
    assert pattern[|w.pre| + 1..|w.pre| + 1 + |w.suf|] == w.suf;
    assert pattern[|w.pre| + 1 + |w.suf|..] == w.rest;
  }

  lemma ParsedIsWildcard(pattern: string)
    requires Parse(pattern).Some?
    ensures Parse(pattern).value.Of(pattern)
  {
    var w := Parse(pattern).value;
    var dot := FindFrom(pattern, '.', 0).value;
    var second := FindFrom(pattern, '.', dot + 1).value;
    assert w.rest[1..][second - dot - 1] == '.';
  }

  lemma CoveredPassesTheCheck(w: Wildcard, hostname: string, mid: string)
    requires '.' !in w.pre && '.' !in w.suf && '.' !in mid && w.rest != [] && w.rest[0] == '.'
    requires hostname == w.pre + mid + w.suf + w.rest
    ensures var end := |w.pre + mid + w.suf|;
            && FindFrom(hostname, '.', 0) == Some(end)
            && w.rest == hostname[end..]
            && StartsWith(hostname[..end], w.pre)
            && EndsWith(hostname[..end][|w.pre|..], w.suf)
  {
    var first := w.pre + mid + w.suf;
    assert hostname == first + ['.'] + w.rest[1..];
    FoundAt(hostname, first, '.', w.rest[1..]);
    assert hostname[..|first|] == first;
    assert first[|w.pre|..] == mid + w.suf;
  }

  lemma PassingTheCheckIsCovered(w: Wildcard, hostname: string, end: nat)
    requires FindFrom(hostname, '.', 0) == Some(end)
    requires w.rest == hostname[end..]
    requires StartsWith(hostname[..end], w.pre)
    requires EndsWith(hostname[..end][|w.pre|..], w.suf)
    ensures w.Covers(hostname)
  {
    var a, b := |w.pre|, end - |w.suf|;
    var mid := hostname[a..b];
    assert hostname[..end][a..] == hostname[a..end];
    assert hostname[..a] == w.pre;
    assert hostname[b..end] == w.suf;
    assert hostname == hostname[..a] + hostname[a..b] + hostname[b..end] + hostname[end..];
    assert forall k :: 0 <= k < |mid| ==> mid[k] == hostname[a + k];
    assert '.' !in mid;
  }

  lemma AppliesMeansParsed(pattern: string, hostname: string, isIp: bool)
    ensures WildcardApplies(pattern, hostname, isIp)
            <==> && !isIp && !("xn--" <= pattern) && '.' in hostname && Parse(pattern).Some?
  {
    if w: Wildcard :| w.Of(pattern) {
      ParseFindsWildcard(pattern, w);
    }
    if Parse(pattern).Some? {
      ParsedIsWildcard(pattern);
    }
  }

  /** The code's three searches and its three checks say what `WildcardApplies` and `Covers` say. */
  lemma WildcardMeaning(pattern: string, hostname: string, isIp: bool)
    ensures var r := MatchesWildcard(pattern, hostname, isIp);
            && (r.Some? <==> WildcardApplies(pattern, hostname, isIp))
            && (r.Some? ==> Parse(pattern).Some? && (r.value <==> Parse(pattern).value.Covers(hostname)))
  {
    AppliesMeansParsed(pattern, hostname, isIp);
    if MatchesWildcard(pattern, hostname, isIp).Some? {
      WildcardResult(pattern, hostname, isIp);
    }
  }

  lemma WildcardResult(pattern: string, hostname: string, isIp: bool)
    requires MatchesWildcard(pattern, hostname, isIp).Some?
    ensures Parse(pattern).Some?
    ensures MatchesWildcard(pattern, hostname, isIp).value <==> Parse(pattern).value.Covers(hostname)
  {
    var w := Parse(pattern).value;
    ParsedIsWildcard(pattern);
    if mid :| '.' !in mid && hostname == w.pre + mid + w.suf + w.rest {
      CoveredPassesTheCheck(w, hostname, mid);
    }
    if MatchesWildcard(pattern, hostname, isIp).value {
      PassingTheCheckIsCovered(w, hostname, FindFrom(hostname, '.', 0).value);
    }
  }

  /** The exact meaning of a DNS match, for all strings. */
  lemma DnsMatchMeaning(pattern: string, hostname: string, isIp: bool)
    ensures var p, h := StripDot(pattern), StripDot(hostname);
            MatchesDns(pattern, hostname, isIp)
            <==> if WildcardApplies(p, h, isIp) then exists w: Wildcard :: w.Of(p) && w.Covers(h) else p == h
  {
    var p, h := StripDot(pattern), StripDot(hostname);
    WildcardMeaning(p, h, isIp);
    if Parse(p).Some? {
      ParsedIsWildcard(p);
    }
    forall w: Wildcard | w.Of(p)
      ensures Parse(p) == Some(w)
    {
      ParseFindsWildcard(p, w);
    }
  }

  /** `t` is `s` without one final dot, if it ends in one. */
  predicate IsStripped(s: string, t: string) {
    s == t + "." || (s == t && (s == "" || s[|s| - 1] != '.'))
  }

  lemma StripDotMeaning(s: string, t: string)
    ensures IsStripped(s, t) <==> t == StripDot(s)
  {
    if s == t + "." {
      assert s[..|s| - 1] == t;
    }
    if s != "" && s[|s| - 1] == '.' {
      assert s == s[..|s| - 1] + ".";
    }
  }

  /** A name in a certificate stands for a host: after stripping one final dot from each, the wildcard rule
    * if it applies and equality if not. */
  ghost predicate StandsFor(name: string, host: string) {
    exists p, h ::
      && IsStripped(name, p) && IsStripped(host, h)
      && if WildcardApplies(p, h, false) then exists w: Wildcard :: w.Of(p) && w.Covers(h) else p == h
  }

  lemma StandsForIsMatching(name: string, host: string)
    ensures MatchesDns(name, host, false) <==> StandsFor(name, host)
  {
    var p, h := StripDot(name), StripDot(host);
    DnsMatchMeaning(name, host, false);
    StripDotMeaning(name, p);
    StripDotMeaning(host, h);
    forall q, g | IsStripped(name, q) && IsStripped(host, g)
      ensures q == p && g == h
    {
      StripDotMeaning(name, q);
      StripDotMeaning(host, g);
    }
  }

  function Dots(s: string): nat {
    if s == [] then 0 else (if s[0] == '.' then 1 else 0) + Dots(s[1..])
  }

  lemma {:induction false} DotsAdd(a: string, b: string)
    ensures Dots(a + b) == Dots(a) + Dots(b)
    ensures '.' !in a ==> Dots(a) == 0
  {
    if a == [] {
      assert a + b == b;
    } else {
      assert (a + b)[1..] == a[1..] + b;
      DotsAdd(a[1..], b);
    }
  }

  lemma CoveringKeepsDots(w: Wildcard, pattern: string, hostname: string, mid: string)
    requires w.Of(pattern) && '.' !in mid && hostname == w.pre + mid + w.suf + w.rest
    ensures Dots(pattern) == Dots(hostname)
  {
    var inPattern, inHostname := w.pre + ['*'] + w.suf, w.pre + mid + w.suf;
    assert '.' !in inPattern && '.' !in inHostname;
    DotsAdd(inPattern, w.rest);
    DotsAdd(inHostname, w.rest);
  }

  /** A match never adds or removes labels. */
  lemma MatchKeepsLabelCount(pattern: string, hostname: string, isIp: bool)
    requires MatchesDns(pattern, hostname, isIp)
    ensures Dots(StripDot(pattern)) == Dots(StripDot(hostname))
  {
    var p, h := StripDot(pattern), StripDot(hostname);
    DnsMatchMeaning(pattern, hostname, isIp);
    if WildcardApplies(p, h, isIp) {
      var w: Wildcard :| w.Of(p) && w.Covers(h);
      var mid :| '.' !in mid && h == w.pre + mid + w.suf + w.rest;
      CoveringKeepsDots(w, p, h, mid);
    }
  }

  // ---------------------------------------------------------------- IP addresses and names

  type byte = n: nat | n < 0x100
  type u16 = n: nat | n < 0x1_0000

  type Bytes = seq<byte>

  /** `octets` of a v4 address, 16-bit `segments` of a v6 one. */
  datatype IpAddr = V4(octets: Bytes) | V6(segments: seq<u16>) {
    predicate Valid() {
      match this
      case V4(o) => |o| == 4
      case V6(s) => |s| == 8
    }

    /** The address in network byte order, as a certificate carries it. */
    function NetworkBytes(): Bytes
      requires Valid()
    {
      match this
      case V4(o) => o
      case V6(s) => seq(16, i requires 0 <= i < 16 => Half(s[i / 2], i % 2 == 0))
    }
  }

  function Half(segment: u16, high: bool): byte {
    if high then segment / 0x100 else segment % 0x100
  }

  /** `((high as u16) << 8) | low as u16`: the shifted byte and the other one share no bits. */
  function Segment(high: byte, low: byte): u16 {
    0x100 * high + low
  }

  lemma SegmentHalves(high: byte, low: byte, segment: u16)
    ensures Segment(high, low) == segment <==> high == Half(segment, true) && low == Half(segment, false)
  {
  }

  function ReadSegments(actual: Bytes): seq<u16>
    requires |actual| == 16
  {
    seq(8, i requires 0 <= i < 8 => Segment(actual[2 * i], actual[2 * i + 1]))
  }

  function MatchesIp(expected: IpAddr, actual: Bytes): bool {
    match expected
    case V4(octets) => |actual| == 4 && actual == octets
    case V6(segments) => |actual| == 16 && ReadSegments(actual) == segments
  }

  lemma WireBytes(expected: IpAddr, i: nat)
    requires expected.V6? && expected.Valid() && i < 8
    ensures expected.NetworkBytes()[2 * i] == Half(expected.segments[i], true)
    ensures expected.NetworkBytes()[2 * i + 1] == Half(expected.segments[i], false)
  {
    assert 2 * i / 2 == i && 2 * i % 2 == 0;
    assert (2 * i + 1) / 2 == i && (2 * i + 1) % 2 == 1;
  }

  /** Each segment goes over the wire with its high byte first. */
  lemma NetworkOrder(ip: IpAddr)
    requires ip.Valid()
    ensures ip.V4? ==> ip.NetworkBytes() == ip.octets
    ensures ip.V6? ==> |ip.NetworkBytes()| == 16
    ensures ip.V6? ==> forall i :: 0 <= i < 8 ==>
              ip.segments[i] == 0x100 * (ip.NetworkBytes()[2 * i] as int) + ip.NetworkBytes()[2 * i + 1] as int
  {
    if ip.V6? {
      forall i | 0 <= i < 8
        ensures ip.segments[i] == 0x100 * (ip.NetworkBytes()[2 * i] as int) + ip.NetworkBytes()[2 * i + 1] as int
      {
        WireBytes(ip, i);
      }
    }
  }

  /** One segment matches when its two bytes do. */
  lemma SegmentMatch(expected: IpAddr, actual: Bytes, i: nat)
    requires expected.V6? && expected.Valid() && |actual| == 16 && i < 8
    ensures ReadSegments(actual)[i] == expected.segments[i]
            <==> && actual[2 * i] == expected.NetworkBytes()[2 * i]
                 && actual[2 * i + 1] == expected.NetworkBytes()[2 * i + 1]
  {
    WireBytes(expected, i);
    SegmentHalves(actual[2 * i], actual[2 * i + 1], expected.segments[i]);
    assert ReadSegments(actual)[i] == Segment(actual[2 * i], actual[2 * i + 1]);
  }

  lemma IpMatchMeaning(expected: IpAddr, actual: Bytes)
    requires expected.Valid()
    ensures MatchesIp(expected, actual) <==> actual == expected.NetworkBytes()
  {
    if expected.V6? && |actual| == 16 {
      var read, wire := ReadSegments(actual), expected.NetworkBytes();
      if actual == wire {
        forall i | 0 <= i < 8
          ensures read[i] == expected.segments[i]
        {
          SegmentMatch(expected, actual, i);
        }
      }
      if read == expected.segments {
        forall k | 0 <= k < 16
          ensures actual[k] == wire[k]
        {
          SegmentMatch(expected, actual, k / 2);
          assert k == 2 * (k / 2) || k == 2 * (k / 2) + 1;
        }
      }
    }
  }

  datatype GeneralName = DnsName(name: string) | IpAddress(bytes: Bytes) | OtherName

  /** One turn of the loop over the names. `ip` is the domain parsed as an address, if it is one. */
  predicate NameMatches(domain: string, ip: Option<IpAddr>, name: GeneralName) {
    match ip
    case Some(addr) => name.IpAddress? && MatchesIp(addr, name.bytes)
    case None => name.DnsName? && MatchesDns(name.name, domain, false)
  }

  function VerifySubjectAltNames(domain: string, ip: Option<IpAddr>, names: seq<GeneralName>): bool {
    names != [] && (NameMatches(domain, ip, names[0]) || VerifySubjectAltNames(domain, ip, names[1..]))
  }

  function VerifySubjectName(domain: string, ip: Option<IpAddr>, commonName: Option<string>): bool {
    commonName.Some? && MatchesDns(commonName.value, domain, ip.Some?)
  }

  function VerifyHostname(domain: string, ip: Option<IpAddr>, altNames: Option<seq<GeneralName>>,
                          commonName: Option<string>): bool {
    match altNames
    case Some(names) => VerifySubjectAltNames(domain, ip, names)
    case None => VerifySubjectName(domain, ip, commonName)
  }

  lemma {:induction false} AltNamesSearch(domain: string, ip: Option<IpAddr>, names: seq<GeneralName>)
    ensures VerifySubjectAltNames(domain, ip, names) <==> exists n :: n in names && NameMatches(domain, ip, n)
  {
    if names != [] {
      AltNamesSearch(domain, ip, names[1..]);
      assert forall n :: n in names <==> n == names[0] || n in names[1..];
    }
  }

  /** An address is never matched by a wildcard: only by the same bytes, or, for a certificate
    * without alternative names, by the same text up to a trailing dot. */
  lemma AddressesMatchExactly(domain: string, ip: IpAddr, altNames: Option<seq<GeneralName>>,
                              commonName: Option<string>)
    requires ip.Valid()
    ensures VerifyHostname(domain, Some(ip), altNames, commonName)
            <==> match altNames
                 case Some(names) => IpAddress(ip.NetworkBytes()) in names
                 case None => commonName.Some? && StripDot(commonName.value) == StripDot(domain)
  {
    if altNames.Some? {
      AltNamesSearch(domain, Some(ip), altNames.value);
      forall n | n in altNames.value
        ensures NameMatches(domain, Some(ip), n) <==> n == IpAddress(ip.NetworkBytes())
      {
        if n.IpAddress? {
          IpMatchMeaning(ip, n.bytes);
        }
      }
    }
  }

  /** A domain name is accepted exactly if one of the certificate's DNS names stands for it, or, for a
    * certificate without alternative names, its common name does. */
  lemma NamesMatchExactly(domain: string, altNames: Option<seq<GeneralName>>, commonName: Option<string>)
    ensures VerifyHostname(domain, None, altNames, commonName)
            <==> match altNames
                 case Some(names) => exists n :: DnsName(n) in names && StandsFor(n, domain)
                 case None => commonName.Some? && StandsFor(commonName.value, domain)
  {
    match altNames {
      case Some(names) =>
        AltNamesSearch(domain, None, names);
        forall n
          ensures NameMatches(domain, None, DnsName(n)) <==> StandsFor(n, domain)
        {
          StandsForIsMatching(n, domain);
        }
        if name :| name in names && NameMatches(domain, None, name) {
          assert DnsName(name.name) in names;
        }
      case None =>
        if commonName.Some? {
          StandsForIsMatching(commonName.value, domain);
        }
    }
  }
}

/** What is known about a connection, and when a rule applies to it. */
module RuleMatcher {
  import opened Common
  import opened Words
  import opened Addresses
  import T = SuccinctTrie
  import S = SuffixSet

  datatype Host = HostIp(ip: Ip) | HostName(name: Bytes)

  datatype Target = Target(host: Host, port: nat)

  datatype Process = Process(nameLower: string, pathLower: string)

  /** What rules look at, apart from the process. */
  datatype Facts = Facts(
    inbound: Option<string>, destination: Option<Target>, domain: Option<Bytes>,
    protocol: Option<string>, queryType: Option<nat>, resolvedIp: Option<Ip>)
  {
    function DestIp(): Option<Ip> {
      if destination.Some? && destination.value.host.HostIp? then Some(destination.value.host.ip) else resolvedIp
    }
  }

  /** An address that is the destination counts before one that was resolved. */
  lemma DestIs(f: Facts, ip: Ip, name: Bytes, port: nat)
    ensures f.(destination := Some(Target(HostIp(ip), port))).DestIp() == Some(ip)
    ensures f.(destination := Some(Target(HostName(name), port))).DestIp() == f.resolvedIp
    ensures f.(destination := None).DestIp() == f.resolvedIp
  {}

  /** A connection.  The process behind it is looked up when a rule first asks; `None` means
      nobody has. */
  class Meta {
    const source: Option<Ip>
    var facts: Facts
    var process: Option<Option<Process>>

    constructor (source: Option<Ip>, facts: Facts)
      ensures this.source == source && this.facts == facts && process == None
    {
      this.source, this.facts, process := source, facts, None;
    }

    /** The process a rule gets to see; `answer` is what the system's tables would say. */
    ghost function Known(answer: Option<Process>): Option<Process>
      reads this
    {
      if process.Some? then process.value else if source.Some? then answer else None
    }

    method FindProcess(answer: Option<Process>) returns (r: Option<Process>)
      modifies this`process
      ensures r == old(Known(answer)) == Known(answer) && process == Some(r)
      ensures old(process).Some? ==> process == old(process)
      ensures old(process).None? ==> r == if source.Some? then answer else None
    {
      if process.None? {
        process := Some(if source.Some? then answer else None);
      }
      r := process.value;
    }
  }

  // ----- addresses that stay outside the tunnel

  function Byte0(addr: nat): nat {
    addr / 0x100_0000
  }

  /** `is_private`: by ranges. */
  predicate IsPrivate(ip: Ip) {
    if ip.v4 then
      || Byte0(ip.addr) == 10 || Byte0(ip.addr) == 127
      || ip.addr / 0x10_0000 == 0xAC1 || ip.addr / 0x1_0000 == 0xC0A8 || ip.addr / 0x1_0000 == 0xA9FE
      || ip.addr == 0xFFFF_FFFF || Byte0(ip.addr) / 16 == 14 || ip.addr == 0
      || ip.addr / 0x40_0000 == 0x191 || ip.addr / 0x2_0000 == 0x6309
    else
      var segment := ip.addr / 0x1_0000_0000_0000_0000_0000_0000_0000;
      ip.addr == 0 || ip.addr == 1 || segment / 256 == 0xFF || segment / 512 == 0x7E || segment / 64 == 0x3FA
  }

  ghost predicate Within(addr: nat, first: nat, last: nat) {
    first <= addr <= last
  }

  /** The blocks: 10/8, 127/8, 172.16/12, 192.168/16, 169.254/16, 224/4, 100.64/10, 198.18/15 and
      the addresses of all zeros and all ones; ff00::/8, fc00::/7, fe80::/10, `::` and `::1`. */
  lemma PrivateIs(ip: Ip)
    requires InFamily(ip.v4, ip.addr)
    ensures ip.v4 ==> (IsPrivate(ip) <==>
      || Within(ip.addr, 0x0A00_0000, 0x0AFF_FFFF) || Within(ip.addr, 0x7F00_0000, 0x7FFF_FFFF)
      || Within(ip.addr, 0xAC10_0000, 0xAC1F_FFFF) || Within(ip.addr, 0xC0A8_0000, 0xC0A8_FFFF)
      || Within(ip.addr, 0xA9FE_0000, 0xA9FE_FFFF) || Within(ip.addr, 0xE000_0000, 0xEFFF_FFFF)
      || Within(ip.addr, 0x6440_0000, 0x647F_FFFF) || Within(ip.addr, 0xC612_0000, 0xC613_FFFF)
      || ip.addr == 0 || ip.addr == 0xFFFF_FFFF)
    ensures !ip.v4 ==> (IsPrivate(ip) <==>
      || Within(ip.addr / 0x1_0000_0000_0000_0000_0000_0000_0000, 0xFF00, 0xFFFF)
      || Within(ip.addr / 0x1_0000_0000_0000_0000_0000_0000_0000, 0xFC00, 0xFDFF)
      || Within(ip.addr / 0x1_0000_0000_0000_0000_0000_0000_0000, 0xFE80, 0xFEBF)
      || ip.addr == 0 || ip.addr == 1)
  {
    if !ip.v4 {
      SegmentFits(ip.addr);
    }
  }

  lemma SegmentFits(addr: nat)
    requires InFamily(false, addr)
    ensures addr / 0x1_0000_0000_0000_0000_0000_0000_0000 < 0x1_0000
  {
    Pow2Words();
    Pow2Add(64, 64);
  }

  // ----- rule sets

  function HasWord(d: Bytes, k: Bytes): bool {
    |k| <= |d| && (d[..|k|] == k || (d != [] && HasWord(d[1..], k)))
  }

  /** The word stands somewhere in the name. */
  lemma {:induction false} WordOccurs(d: Bytes, k: Bytes)
    ensures HasWord(d, k) <==> exists i: nat :: Has(d, i, k)
  {
    WordInFront(d, k);
    if |k| <= |d| && d[..|k|] == k {
      assert Has(d, 0, k);
    } else if d != [] {
      WordOccurs(d[1..], k);
      forall i: nat
        ensures Has(d[1..], i, k) <==> Has(d, i + 1, k)
      {
        OneBehind(d, i, k);
      }
      if i: nat :| Has(d, i, k) {
        assert Has(d[1..], i - 1, k) <==> Has(d, (i - 1) + 1, k);
      }
    }
  }

  lemma WordInFront(d: Bytes, k: Bytes)
    ensures Has(d, 0, k) <==> |k| <= |d| && d[..|k|] == k
  {
    if Has(d, 0, k) {
      assert forall j :: 0 <= j < |k| ==> d[0 + j] == k[j];
    }
  }

  lemma OneBehind(d: Bytes, i: nat, k: Bytes)
    requires d != []
    ensures Has(d[1..], i, k) <==> Has(d, i + 1, k)
  {
    if Has(d, i + 1, k) {
      forall j | 0 <= j < |k|
        ensures d[1..][i + j] == k[j]
      {
        assert d[i + 1 + j] == k[j];
      }
    }
  }

  predicate HasAnyWord(d: Bytes, words: seq<Bytes>) {
    exists i :: 0 <= i < |words| && HasWord(d, words[i])
  }

  method ContainsAny(d: Bytes, words: seq<Bytes>) returns (hit: bool)
    ensures hit == HasAnyWord(d, words)
  {
    for i := 0 to |words|
      invariant forall j :: 0 <= j < i ==> !HasWord(d, words[j])
    {
      if HasWord(d, words[i]) {
        return true;
      }
    }
    return false;
  }

  /** A regular expression, as the names it accepts. */
  type Regex = Bytes -> bool

  predicate SomeAccepts(d: Bytes, regexes: seq<Regex>) {
    exists i :: 0 <= i < |regexes| && regexes[i](d)
  }

  method AnyAccepts(d: Bytes, regexes: seq<Regex>) returns (hit: bool)
    ensures hit == SomeAccepts(d, regexes)
  {
    for i := 0 to |regexes|
      invariant forall j :: 0 <= j < i ==> !regexes[j](d)
    {
      if regexes[i](d) {
        return true;
      }
    }
    return false;
  }

  /** One rule of an `.srs` file. */
  datatype HeadlessRule = HeadlessRule(
    domains: Option<T.DomainSet>, keywords: seq<Bytes>, regexes: seq<Regex>, ips: Option<IpSet>,
    invert: bool, unsupported: bool)
  {
    ghost predicate Valid() {
      (domains.Some? ==> domains.value.Accepted()) && (ips.Some? ==> ips.value.Valid())
    }

    ghost predicate Named(d: Bytes)
      requires Valid()
    {
      (domains.Some? && domains.value.Answer(d)) || HasAnyWord(d, keywords) || SomeAccepts(d, regexes)
    }

    /** The name is in the tree, holds one of the words or is accepted by an expression, or the
        address is in one of the ranges. */
    ghost predicate Fits(domain: Option<Bytes>, ip: Option<Ip>)
      requires Valid()
    {
      || (domain.Some? && domains.Some? && domains.value.Answer(domain.value))
      || (domain.Some? && exists i, k: nat :: 0 <= i < |keywords| && Has(domain.value, k, keywords[i]))
      || (domain.Some? && exists r :: r in regexes && r(domain.value))
      || (ip.Some? && ips.Some? && Found(ips.value.Ranges(ip.value.v4), ip.value.addr))
    }

    ghost predicate Applies(domain: Option<Bytes>, ip: Option<Ip>)
      requires Valid()
    {
      && !unsupported
      && invert != (
        || (domain.Some? && Named(domain.value))
        || (ips.Some? && ip.Some? && Found(ips.value.Ranges(ip.value.v4), ip.value.addr)))
    }

    lemma FitsIs(domain: Option<Bytes>, ip: Option<Ip>)
      requires Valid()
      ensures Applies(domain, ip) <==> !unsupported && invert != Fits(domain, ip)
    {
      if domain.Some? {
        forall i | 0 <= i < |keywords|
          ensures HasWord(domain.value, keywords[i]) <==> exists k: nat :: Has(domain.value, k, keywords[i])
        {
          WordOccurs(domain.value, keywords[i]);
        }
        assert SomeAccepts(domain.value, regexes) <==> exists r :: r in regexes && r(domain.value);
      }
    }

    method Matches(domain: Option<Bytes>, ip: Option<Ip>) returns (hit: bool)
      requires Valid()
      ensures hit == Applies(domain, ip)
      ensures unsupported ==> !hit
      ensures !unsupported && !invert ==> (hit <==> Fits(domain, ip))
      ensures !unsupported && invert ==> (hit <==> !Fits(domain, ip))
    {
      FitsIs(domain, ip);
      if unsupported {
        return false;
      }
      var hasDomainItems := domains.Some? || |keywords| > 0 || |regexes| > 0;
      hit := false;
      if domain.Some? {
        if domains.Some? {
          hit := domains.value.Matches(domain.value);
        }
        if !hit {
          hit := ContainsAny(domain.value, keywords);
        }
        if !hit {
          hit := AnyAccepts(domain.value, regexes);
        }
      }
      if !hit && ips.Some? && ip.Some? {
        hit := ips.value.Contains(ip.value);
      }
      if !hasDomainItems && ips.None? {
        hit := false;
      }
      hit := hit != invert;
    }
  }

  datatype RuleSet = RuleSet(rules: seq<HeadlessRule>)
  {
    ghost predicate Valid() {
      forall i :: 0 <= i < |rules| ==> rules[i].Valid()
    }

    ghost predicate Applies(domain: Option<Bytes>, ip: Option<Ip>)
      requires Valid()
    {
      exists i :: 0 <= i < |rules| && rules[i].Applies(domain, ip)
    }

    method Matches(domain: Option<Bytes>, ip: Option<Ip>) returns (hit: bool)
      requires Valid()
      ensures hit == Applies(domain, ip)
    {
      for i := 0 to |rules|
        invariant forall j :: 0 <= j < i ==> !rules[j].Applies(domain, ip)
      {
        var one := rules[i].Matches(domain, ip);
        if one {
          return true;
        }
      }
      return false;
    }
  }

  // ----- one rule of the router

  datatype Matcher = Matcher(
    processName: set<string>, processPath: set<string>, domain: set<Bytes>, suffix: S.SuffixSet,
    keyword: seq<Bytes>, cidr: seq<Cidr>, ruleSets: seq<RuleSet>, ipIsPrivate: bool,
    protocols: seq<string>, queryTypes: seq<nat>, inbounds: set<string>, clashMode: Option<Bytes>, broken: bool)
  {
    ghost predicate Valid() {
      forall i :: 0 <= i < |ruleSets| ==> ruleSets[i].Valid()
    }

    predicate HasAddressItems() {
      domain != {} || suffix.names != {} || keyword != [] || cidr != [] || |ruleSets| > 0 || ipIsPrivate
    }

    predicate HasProcessItems() {
      processName != {} || processPath != {}
    }

    ghost predicate NameHit(d: Bytes) {
      d in domain || S.Covered(suffix.names, d) || HasAnyWord(d, keyword)
    }

    ghost predicate IpHit(ip: Ip) {
      (exists i :: 0 <= i < |cidr| && cidr[i].Contains(ip)) || (ipIsPrivate && IsPrivate(ip))
    }

    ghost predicate SetHit(domain: Option<Bytes>, ip: Option<Ip>)
      requires Valid()
    {
      exists i :: 0 <= i < |ruleSets| && ruleSets[i].Applies(domain, ip)
    }

    ghost predicate AddressHit(domain: Option<Bytes>, ip: Option<Ip>)
      requires Valid()
    {
      || (domain.Some? && NameHit(domain.value))
      || (ip.Some? && IpHit(ip.value))
      || SetHit(domain, ip)
    }

    /** The conditions that need no process: all kinds are required, and within the addresses
        any one will do.  A rule that names a missing set meets none. */
    ghost predicate Applies(f: Facts, mode: Bytes)
      requires Valid()
    {
      && !broken
      && (clashMode.Some? ==> LowerAll(clashMode.value) == LowerAll(mode))
      && (protocols != [] ==> f.protocol.Some? && f.protocol.value in protocols)
      && (queryTypes != [] ==> f.queryType.Some? && f.queryType.value in queryTypes)
      && (inbounds != {} ==> f.inbound.Some? && f.inbound.value in inbounds)
      && (HasAddressItems() ==> AddressHit(f.domain, f.DestIp()))
    }

    predicate RightProcess(p: Option<Process>) {
      HasProcessItems() ==> p.Some? && (p.value.nameLower in processName || p.value.pathLower in processPath)
    }

    ghost predicate Fires(f: Facts, mode: Bytes, p: Option<Process>)
      requires Valid()
    {
      Applies(f, mode) && RightProcess(p)
    }

    method AnyCidr(ip: Ip) returns (hit: bool)
      ensures hit <==> exists i :: 0 <= i < |cidr| && cidr[i].Contains(ip)
    {
      for i := 0 to |cidr|
        invariant forall j :: 0 <= j < i ==> !cidr[j].Contains(ip)
      {
        if cidr[i].Contains(ip) {
          return true;
        }
      }
      return false;
    }

    method AnySet(domain: Option<Bytes>, ip: Option<Ip>) returns (hit: bool)
      requires Valid()
      ensures hit == SetHit(domain, ip)
    {
      for i := 0 to |ruleSets|
        invariant forall j :: 0 <= j < i ==> !ruleSets[j].Applies(domain, ip)
      {
        var one := ruleSets[i].Matches(domain, ip);
        if one {
          return true;
        }
      }
      return false;
    }

    method AnyAddress(name: Option<Bytes>, ip: Option<Ip>) returns (hit: bool)
      requires Valid()
      ensures hit == AddressHit(name, ip)
    {
      hit := false;
      if name.Some? {
        hit := name.value in domain;
        if !hit {
          hit := suffix.Matches(name.value);
        }
        if !hit {
          hit := ContainsAny(name.value, keyword);
        }
      }
      if !hit && ip.Some? {
        hit := AnyCidr(ip.value);
        hit := hit || (ipIsPrivate && IsPrivate(ip.value));
      }
      if !hit {
        hit := AnySet(name, ip);
      }
    }

    /** The process is looked up only if everything else fits, and at most once. */
    method Matches(meta: Meta, mode: Bytes, answer: Option<Process>) returns (hit: bool)
      requires Valid()
      modifies meta`process
      ensures hit == Fires(meta.facts, mode, old(meta.Known(answer)))
      ensures meta.Known(answer) == old(meta.Known(answer))
      ensures meta.process != old(meta.process) ==>
        old(meta.process).None? && HasProcessItems() && Applies(meta.facts, mode)
    {
      if broken {
        return false;
      }
      if clashMode.Some? && LowerAll(clashMode.value) != LowerAll(mode) {
        return false;
      }
      var f := meta.facts;
      if protocols != [] && !(f.protocol.Some? && f.protocol.value in protocols) {
        return false;
      }
      if queryTypes != [] && !(f.queryType.Some? && f.queryType.value in queryTypes) {
        return false;
      }
      if inbounds != {} && !(f.inbound.Some? && f.inbound.value in inbounds) {
        return false;
      }
      if HasAddressItems() {
        var any := AnyAddress(f.domain, f.DestIp());
        if !any {
          return false;
        }
      }
      if HasProcessItems() {
        var p := meta.FindProcess(answer);
        return p.Some? && (p.value.nameLower in processName || p.value.pathLower in processPath);
      }
      return true;
    }
  }
}

/** From the rules of the configuration to the rules of the router. */
module RuleConfig {
  import opened Common
  import opened Addresses
  import opened RuleMatcher
  import opened Router
  import S = SuffixSet
  import D = DomainEntries

  /** The protocol of a rule, as JSON has it: a text, a list of which the texts count, or
      something else. */
  datatype Protocol = Single(name: string) | Several(names: seq<Option<string>>) | Other

  /** A rule as written.  `ipCidr` holds the prefixes as their text reads; `None` is a text that
      is not a prefix. */
  datatype RuleOpts = RuleOpts(
    action: string, outbound: string, protocol: Protocol, clashMode: Bytes, ipIsPrivate: bool,
    processName: seq<string>, processPath: seq<string>, domain: seq<Bytes>, domainSuffix: seq<Bytes>,
    domainKeyword: seq<Bytes>, ipCidr: seq<Option<(Ip, Option<nat>)>>, ruleSet: seq<string>,
    queryType: seq<string>, inbound: seq<string>)

  /** The rule sets that could be loaded, by tag. */
  type Sets = map<string, RuleSet>

  ghost predicate AllValid(sets: Sets) {
    forall tag :: tag in sets ==> sets[tag].Valid()
  }

  // ----- text

  function LowerText(s: string): (r: string)
    ensures |r| == |s|
  {
    seq(|s|, i requires 0 <= i < |s| => if 'A' <= s[i] <= 'Z' then s[i] + 32 as char else s[i])
  }

  function UpperText(s: string): (r: string)
    ensures |r| == |s|
  {
    seq(|s|, i requires 0 <= i < |s| => if 'a' <= s[i] <= 'z' then s[i] - 32 as char else s[i])
  }

  function DigitsFrom(s: string, v: nat): Option<nat>
    decreases |s|
  {
    if s == "" then Some(v)
    else if !('0' <= s[0] <= '9') || 10 * v + (s[0] - '0') as nat >= 0x1_0000 then None
    else DigitsFrom(s[1..], 10 * v + (s[0] - '0') as nat)
  }

  /** A query type by name or number. */
  function QueryType(name: string): Option<nat> {
    var upper := UpperText(name);
    if upper == "A" then Some(QTYPE_A)
    else if upper == "AAAA" then Some(QTYPE_AAAA)
    else if upper == "CNAME" then Some(5)
    else if upper == "MX" then Some(15)
    else if upper == "TXT" then Some(16)
    else if upper == "HTTPS" then Some(65)
    else if upper == "SVCB" then Some(64)
    else
      var digits := if upper != "" && upper[0] == '+' then upper[1..] else upper;
      if digits == "" then None else DigitsFrom(digits, 0)
  }

  /** The word in any letter case. */
  ghost predicate Spells(name: string, word: string) {
    |name| == |word| && forall i :: 0 <= i < |word| ==>
      name[i] == word[i] || ('A' <= word[i] <= 'Z' && name[i] as int - 'a' as int == word[i] as int - 'A' as int)
  }

  lemma UpperSpells(name: string, word: string)
    requires forall i :: 0 <= i < |word| ==> 'A' <= word[i] <= 'Z'
    ensures UpperText(name) == word <==> Spells(name, word)
  {
    if UpperText(name) == word {
      forall i | 0 <= i < |word|
        ensures name[i] == word[i] || name[i] as int - 'a' as int == word[i] as int - 'A' as int
      {
        assert UpperText(name)[i] == word[i];
      }
    }
  }

  lemma LowerSpells(name: string, i: nat)
    requires i < |name|
    ensures 'A' <= name[i] <= 'Z' ==> LowerText(name)[i] as int == 'a' as int + (name[i] as int - 'A' as int)
    ensures name[i] < 'A' || 'Z' < name[i] ==> LowerText(name)[i] == name[i]
  {}

  ghost predicate Digits(s: string) {
    forall c :: c in s ==> '0' <= c <= '9'
  }

  /** What a row of digits stands for. */
  function ValueOf(digits: string): int {
    if digits == "" then 0 else 10 * ValueOf(digits[..|digits| - 1]) + (digits[|digits| - 1] as int - '0' as int)
  }

  lemma {:induction false} OneMoreDigit(s: string, v: nat, c: char)
    ensures DigitsFrom(s + [c], v) ==
      var w := DigitsFrom(s, v);
      if w.None? then None else DigitsFrom([c], w.value)
    decreases |s|
  {
    if s == "" {
      assert s + [c] == [c];
    } else {
      assert (s + [c])[1..] == s[1..] + [c];
      if '0' <= s[0] <= '9' && 10 * v + (s[0] - '0') as nat < 0x1_0000 {
        OneMoreDigit(s[1..], 10 * v + (s[0] - '0') as nat, c);
      }
    }
  }

  lemma OneDigit(c: char, v: nat)
    ensures DigitsFrom([c], v) ==
      if '0' <= c <= '9' && 10 * v + (c - '0') as nat < 0x1_0000 then Some(10 * v + (c - '0') as nat) else None
  {
    assert [c][1..] == "";
  }

  lemma {:induction false} DigitsRead(s: string)
    ensures Digits(s) ==> ValueOf(s) >= 0
    ensures DigitsFrom(s, 0) == if Digits(s) && ValueOf(s) < 0x1_0000 then Some(ValueOf(s)) else None
  {
    if s != "" {
      var n := |s| - 1;
      var front, c := s[..n], s[n];
      assert s == front + [c];
      DigitsRead(front);
      OneMoreDigit(front, 0, c);
      assert forall b :: b in front ==> b in s;
      assert c in s && forall b :: b in s ==> b in front || b == c;
      if DigitsFrom(front, 0).Some? {
        OneDigit(c, DigitsFrom(front, 0).value);
      }
    }
  }

  /** A number is a plus sign if any and digits, at least one, of a value below 2^16. */
  ghost predicate IsNumber(s: string, v: nat) {
    v < 0x1_0000 && exists digits :: digits != "" && Digits(digits) && ValueOf(digits) == v && IsSigned(s, digits)
  }

  ghost predicate IsSigned(s: string, digits: string) {
    s == digits || s == "+" + digits
  }

  /** The query types: some by their names, in any letter case, and all by their numbers. */
  lemma QueryTypeIs(name: string, v: nat)
    ensures QueryType(name) == Some(v) <==>
      || (Spells(name, "A") && v == 1) || (Spells(name, "AAAA") && v == 28) || (Spells(name, "CNAME") && v == 5)
      || (Spells(name, "MX") && v == 15) || (Spells(name, "TXT") && v == 16) || (Spells(name, "HTTPS") && v == 65)
      || (Spells(name, "SVCB") && v == 64) || IsNumber(name, v)
  {
    UpperSpells(name, "A");
    UpperSpells(name, "AAAA");
    UpperSpells(name, "CNAME");
    UpperSpells(name, "MX");
    UpperSpells(name, "TXT");
    UpperSpells(name, "HTTPS");
    UpperSpells(name, "SVCB");
    var upper := UpperText(name);
    var digits := if upper != "" && upper[0] == '+' then upper[1..] else upper;
    DigitsRead(digits);
    NumberIs(name, digits, v);
  }

  lemma NumberIs(name: string, digits: string, v: nat)
    requires
      var upper := UpperText(name);
      digits == if upper != "" && upper[0] == '+' then upper[1..] else upper
    ensures IsNumber(name, v) <==> v < 0x1_0000 && digits != "" && Digits(digits) && ValueOf(digits) == v
    ensures IsNumber(name, v) ==> name != "" && ('0' <= name[0] <= '9' || name[0] == '+')
  {
    if Digits(digits) {
      DigitsStay(name, digits);
      assert IsSigned(name, digits);
    }
    if d :| d != "" && Digits(d) && ValueOf(d) == v && IsSigned(name, d) {
      assert d[0] in d;
      DigitsStay(name, d);
      assert name == "+" + d ==> UpperText(name)[1..] == d;
    }
  }

  lemma DigitsStay(name: string, digits: string)
    requires Digits(digits) && (IsSigned(name, digits) || IsSigned(UpperText(name), digits))
    ensures UpperText(name) == name
  {
    forall i | 0 <= i < |name|
      ensures UpperText(name)[i] == name[i]
    {
      if |name| == |digits| {
        assert digits[i] in digits;
      } else if i > 0 {
        assert digits[i - 1] in digits;
      }
    }
  }

  // ----- lists

  function Mapped<A, B>(f: A -> B, s: seq<A>): (r: seq<B>)
    ensures |r| == |s| && forall i :: 0 <= i < |s| ==> r[i] == f(s[i])
  {
    seq(|s|, i requires 0 <= i < |s| => f(s[i]))
  }

  function Members<A(==, !new)>(s: seq<A>): (r: set<A>)
    ensures forall x :: x in r <==> x in s
  {
    set x | x in s
  }

  /** `filter_map`: what is found, in order. */
  function Present<A, B>(f: A -> Option<B>, s: seq<A>): (r: seq<B>)
    ensures |r| <= |s|
  {
    if s == [] then []
    else (if f(s[0]).Some? then [f(s[0]).value] else []) + Present(f, s[1..])
  }

  lemma {:induction false} PresentHas<A, B>(f: A -> Option<B>, s: seq<A>, x: B)
    ensures x in Present(f, s) <==> exists a :: a in s && f(a) == Some(x)
  {
    if s != [] {
      PresentHas(f, s[1..], x);
      assert s == [s[0]] + s[1..];
    }
  }

  lemma {:induction false} AllPresent<A, B>(f: A -> Option<B>, s: seq<A>)
    requires forall i :: 0 <= i < |s| ==> f(s[i]).Some?
    ensures |Present(f, s)| == |s| && forall i :: 0 <= i < |s| ==> f(s[i]) == Some(Present(f, s)[i])
  {
    if s != [] {
      AllPresent(f, s[1..]);
    }
  }

  // ----- sets by tag

  function Lookup(sets: Sets): string -> Option<RuleSet> {
    tag => if tag in sets then Some(sets[tag]) else None
  }

  /** Some tag has no set. */
  predicate Missing(tags: seq<string>, sets: Sets) {
    exists i :: 0 <= i < |tags| && tags[i] !in sets
  }

  /** The sets that are there, in the order of their tags; `broken` if one is not. */
  method FindSets(tags: seq<string>, sets: Sets) returns (found: seq<RuleSet>, broken: bool)
    ensures broken <==> exists tag :: tag in tags && tag !in sets
    ensures found == Present(Lookup(sets), tags)
    ensures !broken ==> |found| == |tags| && forall i :: 0 <= i < |tags| ==> found[i] == sets[tags[i]]
  {
    found, broken := [], false;
    for n := 0 to |tags|
      invariant found + Present(Lookup(sets), tags[n..]) == Present(Lookup(sets), tags)
      invariant broken <==> exists i :: 0 <= i < n && tags[i] !in sets
    {
      assert tags[n..][0] == tags[n] && tags[n..][1..] == tags[n + 1..];
      if tags[n] in sets {
        found := found + [sets[tags[n]]];
      }
      broken := broken || tags[n] !in sets;
    }
    if !broken {
      AllPresent(Lookup(sets), tags);
    }
  }

  // ----- one rule

  function ProtocolsOf(p: Protocol): seq<string> {
    match p
    case Single(name) => [name]
    case Several(names) => Present((n: Option<string>) => n, names)
    case Other => []
  }

  function CidrOf(prefix: Option<(Ip, Option<nat>)>): Option<Cidr> {
    if prefix.Some? then Some(MakeCidr(prefix.value.0, prefix.value.1)) else None
  }

  /** `Matcher::new`. */
  function MatcherOf(o: RuleOpts, sets: Sets): Matcher {
    Matcher(
      Members(Mapped(LowerText, o.processName)), Members(Mapped(LowerText, o.processPath)),
      Members(Mapped(LowerAll, o.domain)), S.SuffixSet(Members(S.NormalisedAll(o.domainSuffix))),
      Mapped(LowerAll, o.domainKeyword), Present(CidrOf, o.ipCidr), Present(Lookup(sets), o.ruleSet),
      o.ipIsPrivate, ProtocolsOf(o.protocol), Present(QueryType, o.queryType), Members(o.inbound),
      if o.clashMode == [] then None else Some(o.clashMode), Missing(o.ruleSet, sets))
  }

  method NewMatcher(o: RuleOpts, sets: Sets) returns (m: Matcher)
    ensures m == MatcherOf(o, sets)
  {
    var found, broken := FindSets(o.ruleSet, sets);
    var suffix := S.NewSuffixSet(o.domainSuffix);
    assert suffix.names == Members(S.NormalisedAll(o.domainSuffix));
    m := Matcher(
      Members(Mapped(LowerText, o.processName)), Members(Mapped(LowerText, o.processPath)),
      Members(Mapped(LowerAll, o.domain)), suffix, Mapped(LowerAll, o.domainKeyword),
      Present(CidrOf, o.ipCidr), found, o.ipIsPrivate, ProtocolsOf(o.protocol),
      Present(QueryType, o.queryType), Members(o.inbound),
      if o.clashMode == [] then None else Some(o.clashMode), broken);
  }

  lemma MatcherValid(o: RuleOpts, sets: Sets)
    requires AllValid(sets)
    ensures MatcherOf(o, sets).Valid()
  {
    var m := MatcherOf(o, sets);
    forall i | 0 <= i < |m.ruleSets|
      ensures m.ruleSets[i].Valid()
    {
      PresentHas(Lookup(sets), o.ruleSet, m.ruleSets[i]);
    }
  }

  // ----- what a rule as written says

  ghost predicate NameWritten(o: RuleOpts, d: Bytes) {
    || (exists i :: 0 <= i < |o.domain| && LowerAll(o.domain[i]) == d)
    || (exists i :: 0 <= i < |o.domainSuffix| && D.Under(d, S.Normalised(o.domainSuffix[i])))
    || (exists i, k: nat :: 0 <= i < |o.domainKeyword| && Has(d, k, LowerAll(o.domainKeyword[i])))
  }

  ghost predicate ProtocolWritten(p: Protocol, name: string) {
    p == Single(name) || (p.Several? && Some(name) in p.names)
  }

  ghost predicate IpWritten(o: RuleOpts, ip: Ip) {
    || (exists prefix :: Some(prefix) in o.ipCidr && MakeCidr(prefix.0, prefix.1).Contains(ip))
    || (o.ipIsPrivate && IsPrivate(ip))
  }

  ghost predicate SetWritten(o: RuleOpts, sets: Sets, domain: Option<Bytes>, ip: Option<Ip>)
    requires AllValid(sets)
  {
    exists tag :: tag in o.ruleSet && tag in sets && sets[tag].Applies(domain, ip)
  }

  /** The rule asks about addresses in a way that can be read. */
  ghost predicate AddressesWritten(o: RuleOpts) {
    || o.domain != [] || o.domainSuffix != [] || o.domainKeyword != [] || o.ruleSet != [] || o.ipIsPrivate
    || (exists prefix :: Some(prefix) in o.ipCidr)
  }

  ghost predicate AddressWritten(o: RuleOpts, sets: Sets, domain: Option<Bytes>, ip: Option<Ip>)
    requires AllValid(sets)
  {
    || (domain.Some? && NameWritten(o, domain.value))
    || (ip.Some? && IpWritten(o, ip.value))
    || SetWritten(o, sets, domain, ip)
  }

  ghost predicate ProcessWritten(o: RuleOpts, p: Process) {
    || (exists i :: 0 <= i < |o.processName| && LowerText(o.processName[i]) == p.nameLower)
    || (exists i :: 0 <= i < |o.processPath| && LowerText(o.processPath[i]) == p.pathLower)
  }

  /** Every kind of condition that is written and can be read holds. */
  ghost predicate Written(o: RuleOpts, sets: Sets, f: Facts, mode: Bytes, p: Option<Process>)
    requires AllValid(sets)
  {
    && (o.clashMode != [] ==> LowerAll(o.clashMode) == LowerAll(mode))
    && ((exists name :: ProtocolWritten(o.protocol, name)) ==>
      f.protocol.Some? && ProtocolWritten(o.protocol, f.protocol.value))
    && ((exists q :: q in o.queryType && QueryType(q).Some?) ==>
      f.queryType.Some? && exists q :: q in o.queryType && QueryType(q) == f.queryType)
    && (o.inbound != [] ==> f.inbound.Some? && f.inbound.value in o.inbound)
    && (AddressesWritten(o) ==> AddressWritten(o, sets, f.domain, f.DestIp()))
    && (o.processName != [] || o.processPath != [] ==> p.Some? && ProcessWritten(o, p.value))
  }

  lemma MappedMember<A, B(!new)>(f: A -> B, s: seq<A>, x: B)
    ensures x in Members(Mapped(f, s)) <==> exists i :: 0 <= i < |s| && f(s[i]) == x
  {
    if i :| 0 <= i < |s| && f(s[i]) == x {
      assert Mapped(f, s)[i] == x;
    }
  }

  lemma MembersNone<A(!new)>(s: seq<A>)
    ensures Members(s) == {} <==> s == []
  {
    if s != [] {
      assert s[0] in Members(s);
    }
  }

  lemma PresentNone<A, B>(f: A -> Option<B>, s: seq<A>)
    ensures Present(f, s) == [] <==> forall a :: a in s ==> f(a).None?
  {
    if Present(f, s) != [] {
      PresentHas(f, s, Present(f, s)[0]);
    }
    if a :| a in s && f(a).Some? {
      PresentHas(f, s, f(a).value);
    }
  }

  lemma NameAsWritten(o: RuleOpts, sets: Sets, d: Bytes)
    ensures MatcherOf(o, sets).NameHit(d) <==> NameWritten(o, d)
  {
    var m := MatcherOf(o, sets);
    MappedMember(LowerAll, o.domain, d);
    S.CoveredByIndex(o.domainSuffix, m.suffix.names, d);
    forall i | 0 <= i < |o.domainKeyword|
      ensures HasWord(d, m.keyword[i]) <==> exists k: nat :: Has(d, k, LowerAll(o.domainKeyword[i]))
    {
      WordOccurs(d, m.keyword[i]);
    }
  }

  lemma IpAsWritten(o: RuleOpts, sets: Sets, ip: Ip)
    ensures MatcherOf(o, sets).IpHit(ip) <==> IpWritten(o, ip)
  {
    var cidr := MatcherOf(o, sets).cidr;
    if i :| 0 <= i < |cidr| && cidr[i].Contains(ip) {
      PresentHas(CidrOf, o.ipCidr, cidr[i]);
      var written :| written in o.ipCidr && CidrOf(written) == Some(cidr[i]);
      assert Some(written.value) in o.ipCidr;
    }
    if prefix :| Some(prefix) in o.ipCidr && MakeCidr(prefix.0, prefix.1).Contains(ip) {
      PresentHas(CidrOf, o.ipCidr, MakeCidr(prefix.0, prefix.1));
      assert CidrOf(Some(prefix)) == Some(MakeCidr(prefix.0, prefix.1));
    }
  }

  lemma SetsAsWritten(o: RuleOpts, sets: Sets, domain: Option<Bytes>, ip: Option<Ip>)
    requires AllValid(sets)
    ensures MatcherOf(o, sets).Valid()
    ensures MatcherOf(o, sets).SetHit(domain, ip) <==> SetWritten(o, sets, domain, ip)
  {
    MatcherValid(o, sets);
    var found := MatcherOf(o, sets).ruleSets;
    if i :| 0 <= i < |found| && found[i].Applies(domain, ip) {
      PresentHas(Lookup(sets), o.ruleSet, found[i]);
    }
    if tag :| tag in o.ruleSet && tag in sets && sets[tag].Applies(domain, ip) {
      PresentHas(Lookup(sets), o.ruleSet, sets[tag]);
      assert Lookup(sets)(tag) == Some(sets[tag]);
    }
  }

  /** Which kinds of conditions a rule has, once its sets are there. */
  lemma KindsAsWritten(o: RuleOpts, sets: Sets)
    requires !Missing(o.ruleSet, sets)
    ensures MatcherOf(o, sets).HasAddressItems() <==> AddressesWritten(o)
    ensures MatcherOf(o, sets).HasProcessItems() <==> o.processName != [] || o.processPath != []
  {
    MembersNone(Mapped(LowerAll, o.domain));
    MembersNone(S.NormalisedAll(o.domainSuffix));
    MembersNone(Mapped(LowerText, o.processName));
    MembersNone(Mapped(LowerText, o.processPath));
    AllPresent(Lookup(sets), o.ruleSet);
    PresentNone(CidrOf, o.ipCidr);
    assert forall c :: c in o.ipCidr && c.Some? ==> Some(c.value) in o.ipCidr;
  }

  lemma QueriesAsWritten(o: RuleOpts, sets: Sets, q: Option<nat>)
    ensures MatcherOf(o, sets).queryTypes != [] <==> exists t :: t in o.queryType && QueryType(t).Some?
    ensures q.Some? && q.value in MatcherOf(o, sets).queryTypes
      <==> (q.Some? && exists t :: t in o.queryType && QueryType(t) == q)
  {
    PresentNone(QueryType, o.queryType);
    if q.Some? {
      PresentHas(QueryType, o.queryType, q.value);
    }
  }

  lemma ProtocolsAsWritten(p: Protocol, name: string)
    ensures name in ProtocolsOf(p) <==> ProtocolWritten(p, name)
  {
    if p.Several? {
      PresentHas((n: Option<string>) => n, p.names, name);
    }
  }

  lemma SomeProtocol(p: Protocol)
    ensures ProtocolsOf(p) != [] <==> exists name :: ProtocolWritten(p, name)
  {
    if ProtocolsOf(p) != [] {
      ProtocolsAsWritten(p, ProtocolsOf(p)[0]);
    }
    if name :| ProtocolWritten(p, name) {
      ProtocolsAsWritten(p, name);
    }
  }

  lemma ProcessAsWritten(o: RuleOpts, sets: Sets, p: Process)
    ensures p.nameLower in MatcherOf(o, sets).processName || p.pathLower in MatcherOf(o, sets).processPath
      <==> ProcessWritten(o, p)
  {
    MappedMember(LowerText, o.processName, p.nameLower);
    MappedMember(LowerText, o.processPath, p.pathLower);
  }

  /** A rule fires exactly when no set it names is missing and all it says holds. */
  lemma FiresAsWritten(o: RuleOpts, sets: Sets, f: Facts, mode: Bytes, p: Option<Process>)
    requires AllValid(sets)
    ensures MatcherOf(o, sets).Valid()
    ensures MatcherOf(o, sets).Fires(f, mode, p) <==> !Missing(o.ruleSet, sets) && Written(o, sets, f, mode, p)
  {
    MatcherValid(o, sets);
    if !Missing(o.ruleSet, sets) {
      KindsAsWritten(o, sets);
      QueriesAsWritten(o, sets, f.queryType);
      MembersNone(o.inbound);
      SomeProtocol(o.protocol);
      if f.protocol.Some? {
        ProtocolsAsWritten(o.protocol, f.protocol.value);
      }
      AddressAsWritten(o, sets, f.domain, f.DestIp());
      if p.Some? {
        ProcessAsWritten(o, sets, p.value);
      }
    }
  }

  lemma AddressAsWritten(o: RuleOpts, sets: Sets, domain: Option<Bytes>, ip: Option<Ip>)
    requires AllValid(sets)
    ensures MatcherOf(o, sets).Valid()
    ensures MatcherOf(o, sets).AddressHit(domain, ip) <==> AddressWritten(o, sets, domain, ip)
  {
    SetsAsWritten(o, sets, domain, ip);
    if domain.Some? {
      NameAsWritten(o, sets, domain.value);
    }
    if ip.Some? {
      IpAsWritten(o, sets, ip.value);
    }
  }

  // ----- all rules

  function ActionOf(o: RuleOpts): Action {
    if o.action == "sniff" then Sniff
    else if o.action == "resolve" then Resolve
    else if o.action == "hijack-dns" then HijackDns
    else if o.action == "reject" then Reject
    else Route(o.outbound)
  }

  /** What the actions are called; anything else is a route. */
  lemma ActionIs(o: RuleOpts)
    ensures ActionOf(o) == Sniff <==> o.action == "sniff"
    ensures ActionOf(o) == Resolve <==> o.action == "resolve"
    ensures ActionOf(o) == HijackDns <==> o.action == "hijack-dns"
    ensures ActionOf(o) == Reject <==> o.action == "reject"
    ensures ActionOf(o).Route? ==> ActionOf(o) == Route(o.outbound)
  {}

  function RuleOf(o: RuleOpts, sets: Sets): Rule {
    Rule(MatcherOf(o, sets), ActionOf(o))
  }

  /** The rules of the router are those of the configuration. */
  ghost predicate Built(rules: seq<Rule>, route: seq<RuleOpts>, sets: Sets) {
    |rules| == |route| && forall i :: 0 <= i < |rules| ==> rules[i] == RuleOf(route[i], sets)
  }

  method NewRules(route: seq<RuleOpts>, sets: Sets) returns (rules: seq<Rule>)
    requires AllValid(sets)
    ensures Built(rules, route, sets) && ValidRules(rules)
  {
    rules := [];
    for n := 0 to |route|
      invariant |rules| == n && forall i :: 0 <= i < n ==> rules[i] == RuleOf(route[i], sets)
      invariant ValidRules(rules)
    {
      var m := NewMatcher(route[n], sets);
      MatcherValid(route[n], sets);
      rules := rules + [Rule(m, ActionOf(route[n]))];
    }
  }

  /** A rule that names a set which is not there never decides and never enriches: whatever it
      says and whatever it would do, every run ends with the same verdict. */
  lemma MissingSetNeverActs(route: seq<RuleOpts>, route': seq<RuleOpts>, sets: Sets, rules: seq<Rule>,
      rules': seq<Rule>, final: string, s: State, w: World, p: Option<Process>, modes: nat -> Bytes)
    requires Built(rules, route, sets) && Built(rules', route', sets) && ValidRules(rules) && ValidRules(rules')
    requires |route| == |route'|
    requires forall i :: 0 <= i < |route| ==>
      route[i] == route'[i] || (Missing(route[i].ruleSet, sets) && Missing(route'[i].ruleSet, sets))
    ensures Pass(rules, final, 0, s, w, p, modes, 0) == Pass(rules', final, 0, s, w, p, modes, 0)
  {
    assert SameWhereWhole(rules, rules');
    BrokenNeverActs(rules, rules', final, 0, s, w, p, modes, 0);
  }

  /** What cannot be read is no condition: a rule whose prefixes and query types all cannot be
      read, and which says nothing else, fires on everything. */
  lemma UnreadableFitsAll(o: RuleOpts, sets: Sets, f: Facts, mode: Bytes, p: Option<Process>)
    requires AllValid(sets)
    requires o.clashMode == [] && o.inbound == [] && !o.ipIsPrivate
    requires forall name :: !ProtocolWritten(o.protocol, name)
    requires o.processName == [] && o.processPath == [] && o.ruleSet == []
    requires o.domain == [] && o.domainSuffix == [] && o.domainKeyword == []
    requires (forall c :: c in o.ipCidr ==> c.None?) && (forall q :: q in o.queryType ==> QueryType(q).None?)
    ensures MatcherOf(o, sets).Valid() && MatcherOf(o, sets).Fires(f, mode, p)
  {
    FiresAsWritten(o, sets, f, mode, p);
  }
}

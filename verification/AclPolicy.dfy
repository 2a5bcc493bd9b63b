/** Decisions made with the rules: matching, the check before and after name resolution,
    and the merge of the global, group and user layers. */
module AclPolicies {
  import opened Text
  import opened Acl

  // ---------------------------------------------------------------------------
  // Matching one rule

  predicate PortMatches(p: PortMatch, port: u16) {
    match p
    case Any => true
    case Exact(n) => n == port
    case Range(lo, hi) => lo <= port <= hi
  }

  predicate StartsWith(s: string, prefix: string) { |prefix| <= |s| && s[..|prefix|] == prefix }

  /** The matcher as the engine runs it: positions counted from the end of the host. */
  predicate HostnameMatches(host: string, pattern: string) {
    if pattern == "*" then true
    else if StartsWith(pattern, "*.") then
      var suffix := pattern[2..];
      EqIgnoreCase(host, suffix) || DotThenSuffix(host, suffix)
    else EqIgnoreCase(host, pattern)
  }

  /** `host` is some non-empty name, a dot, and `domain`, whatever the case. */
  ghost predicate IsSubdomain(host: string, domain: string) {
    exists name: string :: name != "" && Lower(host) == name + "." + Lower(domain)
  }

  /** A wildcard stands for the domain itself and all its subdomains, ignoring ASCII case. */
  lemma HostnameMatchesMeaning(host: string, pattern: string)
    ensures HostnameMatches(host, pattern) <==>
      || pattern == "*"
      || (StartsWith(pattern, "*.") && (Lower(host) == Lower(pattern[2..]) || IsSubdomain(host, pattern[2..])))
      || (!StartsWith(pattern, "*.") && Lower(host) == Lower(pattern))
  {
    if pattern != "*" && StartsWith(pattern, "*.") { SubdomainByPosition(host, pattern[2..]); }
  }

  predicate DotThenSuffix(host: string, suffix: string) {
    && |host| > |suffix| + 1
    && host[|host| - |suffix| - 1] == '.'
    && EqIgnoreCase(host[|host| - |suffix|..], suffix)
  }

  lemma SubdomainByPosition(host: string, suffix: string)
    ensures IsSubdomain(host, suffix) <==> DotThenSuffix(host, suffix)
  {
    if IsSubdomain(host, suffix) {
      var name: string :| name != "" && Lower(host) == name + "." + Lower(suffix);
      NamedSubdomain(host, suffix, name);
    }
    if DotThenSuffix(host, suffix) { PositionedSubdomain(host, suffix); }
  }

  lemma PositionedSubdomain(host: string, suffix: string)
    requires DotThenSuffix(host, suffix)
    ensures IsSubdomain(host, suffix)
  {
    hide Lower;
    var low, cut := Lower(host), |host| - |suffix|;
    LowerSuffix(host, cut);
    JoinTail(low, cut);
    var name := low[..cut - 1];
    assert name != "" && low == name + "." + Lower(suffix);
  }

  lemma NamedSubdomain(host: string, suffix: string, name: string)
    requires name != "" && Lower(host) == name + "." + Lower(suffix)
    ensures DotThenSuffix(host, suffix)
  {
    hide Lower;
    SplitTail(Lower(host), name, Lower(suffix));
    LowerSuffix(host, |host| - |suffix|);
  }

  lemma SplitTail(s: string, name: string, tail: string)
    requires s == name + "." + tail
    ensures |s| > |tail| && s[|s| - |tail| - 1] == '.' && s[|s| - |tail|..] == tail
  {
  }

  lemma JoinTail(s: string, cut: nat)
    requires 1 < cut <= |s| && s[cut - 1] == '.'
    ensures s[..cut - 1] != "" && s == s[..cut - 1] + "." + s[cut..]
  {
  }

  predicate Matches(lib: IpLib, r: AclRule, host: string, port: u16, ip: Option<IpAddr>) {
    && PortMatches(r.port, port)
    && match r
       case Cidr(network, _) =>
         if ip.Some? then Contains(network, ip.value)
         else lib.parseIp(host).Some? && Contains(network, lib.parseIp(host).value)
       case HostPattern(pattern, _) => HostnameMatches(host, pattern)
  }

  // ---------------------------------------------------------------------------
  // Checking a rule set

  datatype Policy = Allow | Deny

  datatype PreCheck = PreAllow | PreDeny | Defer

  datatype ParsedAcl = ParsedAcl(default: Policy, allow: seq<AclRule>, deny: seq<AclRule>)

  datatype Target = Target(host: string, port: u16)

  predicate SomeMatches(lib: IpLib, rules: seq<AclRule>, t: Target, ip: Option<IpAddr>) {
    exists r :: r in rules && Matches(lib, r, t.host, t.port, ip)
  }

  /** Deny rules win, then allow rules, then the default. */
  function Decide(lib: IpLib, acl: ParsedAcl, t: Target, ip: Option<IpAddr>): Policy {
    if SomeMatches(lib, acl.deny, t, ip) then Deny
    else if SomeMatches(lib, acl.allow, t, ip) then Allow
    else acl.default
  }

  /** What the hostname pre-check may use: patterns always, networks only for literal addresses. */
  predicate PreMatches(lib: IpLib, r: AclRule, t: Target) {
    if r.HostPattern? then Matches(lib, r, t.host, t.port, None)
    else lib.parseIp(t.host).Some? && Matches(lib, r, t.host, t.port, lib.parseIp(t.host))
  }

  predicate SomePreMatches(lib: IpLib, rules: seq<AclRule>, t: Target) {
    exists r :: r in rules && PreMatches(lib, r, t)
  }

  function PreDecide(lib: IpLib, acl: ParsedAcl, t: Target): PreCheck {
    if SomePreMatches(lib, acl.deny, t) then PreDeny
    else if SomePreMatches(lib, acl.allow, t) then PreAllow
    else Defer
  }

  /** The first matching rule decides what is reported. */
  predicate IsFirstMatch(lib: IpLib, rules: seq<AclRule>, t: Target, ip: Option<IpAddr>, i: nat) {
    && i < |rules| && Matches(lib, rules[i], t.host, t.port, ip)
    && forall j :: 0 <= j < i ==> !Matches(lib, rules[j], t.host, t.port, ip)
  }

  method CheckVerbose(lib: IpLib, acl: ParsedAcl, t: Target, ip: Option<IpAddr>)
    returns (policy: Policy, matched: Option<string>)
    ensures policy == Decide(lib, acl, t, ip)
    ensures matched.None? <==> !SomeMatches(lib, acl.deny, t, ip) && !SomeMatches(lib, acl.allow, t, ip)
    ensures matched.Some? ==> exists i: nat ::
      if policy == Deny then IsFirstMatch(lib, acl.deny, t, ip, i) && matched.value == "deny:" + ShowRule(lib, acl.deny[i])
      else IsFirstMatch(lib, acl.allow, t, ip, i) && matched.value == "allow:" + ShowRule(lib, acl.allow[i])
  {
    for i := 0 to |acl.deny|
      invariant forall j :: 0 <= j < i ==> !Matches(lib, acl.deny[j], t.host, t.port, ip)
    {
      if Matches(lib, acl.deny[i], t.host, t.port, ip) {
        assert IsFirstMatch(lib, acl.deny, t, ip, i);
        return Deny, Some("deny:" + ShowRule(lib, acl.deny[i]));
      }
    }
    for i := 0 to |acl.allow|
      invariant forall j :: 0 <= j < i ==> !Matches(lib, acl.allow[j], t.host, t.port, ip)
    {
      if Matches(lib, acl.allow[i], t.host, t.port, ip) {
        assert IsFirstMatch(lib, acl.allow, t, ip, i);
        return Allow, Some("allow:" + ShowRule(lib, acl.allow[i]));
      }
    }
    return acl.default, None;
  }

  predicate IsFirstPreMatch(lib: IpLib, rules: seq<AclRule>, t: Target, i: nat) {
    i < |rules| && PreMatches(lib, rules[i], t) && forall j :: 0 <= j < i ==> !PreMatches(lib, rules[j], t)
  }

  method CheckHostnameVerbose(lib: IpLib, acl: ParsedAcl, t: Target) returns (result: PreCheck, matched: Option<string>)
    ensures result == PreDecide(lib, acl, t)
    ensures matched.None? <==> result == Defer
    ensures matched.Some? ==> exists i: nat ::
      if result == PreDeny then IsFirstPreMatch(lib, acl.deny, t, i) && matched.value == "deny:" + ShowRule(lib, acl.deny[i])
      else IsFirstPreMatch(lib, acl.allow, t, i) && matched.value == "allow:" + ShowRule(lib, acl.allow[i])
  {
    var literal := lib.parseIp(t.host);
    for i := 0 to |acl.deny|
      invariant forall j :: 0 <= j < i ==> !PreMatches(lib, acl.deny[j], t)
    {
      var r := acl.deny[i];
      if (r.HostPattern? && Matches(lib, r, t.host, t.port, None))
         || (r.Cidr? && literal.Some? && Matches(lib, r, t.host, t.port, literal)) {
        assert IsFirstPreMatch(lib, acl.deny, t, i);
        return PreDeny, Some("deny:" + ShowRule(lib, r));
      }
    }
    for i := 0 to |acl.allow|
      invariant forall j :: 0 <= j < i ==> !PreMatches(lib, acl.allow[j], t)
    {
      var r := acl.allow[i];
      if (r.HostPattern? && Matches(lib, r, t.host, t.port, None))
         || (r.Cidr? && literal.Some? && Matches(lib, r, t.host, t.port, literal)) {
        assert IsFirstPreMatch(lib, acl.allow, t, i);
        return PreAllow, Some("allow:" + ShowRule(lib, r));
      }
    }
    return Defer, None;
  }

  // ---------------------------------------------------------------------------
  // From the text of a rule to the decision

  /** What one deny rule does on its own, and one allow rule. */
  predicate DenyAlone(lib: IpLib, r: AclRule, t: Target, ip: Option<IpAddr>) {
    Decide(lib, ParsedAcl(Allow, [], [r]), t, ip) == Deny
  }

  predicate AllowAlone(lib: IpLib, r: AclRule, t: Target, ip: Option<IpAddr>) {
    Decide(lib, ParsedAcl(Deny, [r], []), t, ip) == Allow
  }

  lemma OneRule(lib: IpLib, r: AclRule, t: Target, ip: Option<IpAddr>)
    ensures DenyAlone(lib, r, t, ip) <==> Matches(lib, r, t.host, t.port, ip)
    ensures AllowAlone(lib, r, t, ip) <==> Matches(lib, r, t.host, t.port, ip)
  {
    hide Matches;
    assert r in [r];
  }

  /** A rule for every host denies, or allows, exactly the ports its text says: a range with both its
      ends, one port, or all of them. */
  lemma StarRuleDecides(lib: IpLib, lo: u16, hi: u16, t: Target, ip: Option<IpAddr>)
    requires Lawful(lib) && lo <= hi
    ensures var range, one, all := ParseRule(lib, "*:" + ShowNat(lo) + "-" + ShowNat(hi)),
                                   ParseRule(lib, "*:" + ShowNat(lo)), ParseRule(lib, "*:*");
      && range.Ok? && one.Ok? && all.Ok?
      && (DenyAlone(lib, range.value, t, ip) <==> lo <= t.port <= hi)
      && (AllowAlone(lib, range.value, t, ip) <==> lo <= t.port <= hi)
      && (DenyAlone(lib, one.value, t, ip) <==> t.port == lo)
      && (AllowAlone(lib, one.value, t, ip) <==> t.port == lo)
      && DenyAlone(lib, all.value, t, ip) && AllowAlone(lib, all.value, t, ip)
  {
    hide ParseRule, DenyAlone, AllowAlone;
    var range, one, all := HostPattern("*", Range(lo, hi)), HostPattern("*", Exact(lo)), HostPattern("*", Any);
    StarParses(lib, Range(lo, hi));
    StarParses(lib, Exact(lo));
    StarParses(lib, Any);
    assert "*:" + (ShowNat(lo) + "-" + ShowNat(hi)) == "*:" + ShowNat(lo) + "-" + ShowNat(hi);
    assert "*:" + "*" == "*:*";
    OneRule(lib, range, t, ip);
    OneRule(lib, one, t, ip);
    OneRule(lib, all, t, ip);
  }

  lemma StarParses(lib: IpLib, p: PortMatch)
    requires Lawful(lib) && ValidPort(p)
    ensures ParseRule(lib, "*:" + ShowPort(p)) == Ok(HostPattern("*", p))
  {
    hide ParseRule, ShowPort;
    var star: string := "*";
    assert Lower(star) == star;
    RuleRoundTrip(lib, HostPattern("*", p));
    assert "*" + ":" + ShowPort(p) == "*:" + ShowPort(p);
  }

  /** A network rule does so exactly for the addresses of its block; before the address is known,
      exactly for a host that is such an address. */
  lemma NetRuleDecides(lib: IpLib, n: IpNet, lo: u16, hi: u16, t: Target, ip: Option<IpAddr>)
    requires Lawful(lib) && ValidNet(n) && lo <= hi
    ensures var range, one, all := ParseRule(lib, lib.showNet(n) + ":" + (ShowNat(lo) + "-" + ShowNat(hi))),
                                   ParseRule(lib, lib.showNet(n) + ":" + ShowNat(lo)),
                                   ParseRule(lib, lib.showNet(n) + ":" + "*");
      var a := if ip.Some? then ip else lib.parseIp(t.host);
      var inside := a.Some? && Contains(n, a.value);
      && range.Ok? && one.Ok? && all.Ok?
      && (DenyAlone(lib, range.value, t, ip) <==> inside && lo <= t.port <= hi)
      && (DenyAlone(lib, one.value, t, ip) <==> inside && t.port == lo)
      && (DenyAlone(lib, all.value, t, ip) <==> inside)
  {
    hide ParseRule, DenyAlone, AllowAlone, Contains, ValidNet;
    RuleRoundTrip(lib, Cidr(n, Range(lo, hi)));
    RuleRoundTrip(lib, Cidr(n, Exact(lo)));
    RuleRoundTrip(lib, Cidr(n, Any));
    OneRule(lib, Cidr(n, Range(lo, hi)), t, ip);
    OneRule(lib, Cidr(n, Exact(lo)), t, ip);
    OneRule(lib, Cidr(n, Any), t, ip);
  }

  /** A host rule does so exactly for its domain, whatever the address. */
  lemma HostRuleDecides(lib: IpLib, pattern: string, port: u16, t: Target, ip: Option<IpAddr>)
    requires Lawful(lib) && Printable(lib, HostPattern(pattern, Exact(port)))
    ensures var r := ParseRule(lib, pattern + ":" + ShowNat(port));
      && r.Ok?
      && (DenyAlone(lib, r.value, t, ip) <==> HostnameMatches(t.host, pattern) && t.port == port)
  {
    hide ParseRule, DenyAlone, AllowAlone, HostnameMatches, Printable;
    RuleRoundTrip(lib, HostPattern(pattern, Exact(port)));
    OneRule(lib, HostPattern(pattern, Exact(port)), t, ip);
  }

  /** A rule that is one address does so exactly for that address. */
  lemma AddressRuleDecides(lib: IpLib, h: string, port: u16, t: Target, ip: IpAddr)
    requires ':' !in h && (h == "" || h[0] != '[') && lib.parseNet(h).None? && lib.parseIp(h).Some?
    ensures var r := ParseRule(lib, h + ":" + ShowNat(port));
      && r.Ok?
      && (DenyAlone(lib, r.value, t, Some(ip)) <==> ip == lib.parseIp(h).value && t.port == port)
  {
    hide ShowPort, SplitHostPort, DenyAlone, AllowAlone, Contains;
    ParseShowPort(Exact(port));
    ShowPortPlain(Exact(port));
    ShownPort(port);
    SplitShown(h, ShowNat(port));
    OneRule(lib, Cidr(HostNet(lib.parseIp(h).value), Exact(port)), t, Some(ip));
    HostNetIsOne(lib.parseIp(h).value, ip);
  }

  lemma ShownPort(n: u16)
    ensures ShowPort(Exact(n)) == ShowNat(n)
  {
  }

  /** The pre-check of a name that is no address: decided by the host patterns alone, deny first. */
  lemma PreCheckOfName(lib: IpLib, acl: ParsedAcl, t: Target)
    requires lib.parseIp(t.host).None?
    ensures PreDecide(lib, acl, t)
         == if PatternIn(acl.deny, t) then PreDeny else if PatternIn(acl.allow, t) then PreAllow else Defer
  {
    PatternsOnly(lib, acl.deny, t);
    PatternsOnly(lib, acl.allow, t);
  }

  predicate PatternIn(rules: seq<AclRule>, t: Target) {
    exists i :: 0 <= i < |rules| && rules[i].HostPattern? && PortMatches(rules[i].port, t.port)
                && HostnameMatches(t.host, rules[i].pattern)
  }

  lemma PatternsOnly(lib: IpLib, rules: seq<AclRule>, t: Target)
    requires lib.parseIp(t.host).None?
    ensures SomePreMatches(lib, rules, t) <==> PatternIn(rules, t)
  {
    hide HostnameMatches, PortMatches;
    if SomePreMatches(lib, rules, t) {
      var i :| 0 <= i < |rules| && PreMatches(lib, rules[i], t);
      assert rules[i].HostPattern?;
    }
    if PatternIn(rules, t) {
      var i :| 0 <= i < |rules| && rules[i].HostPattern? && PortMatches(rules[i].port, t.port)
               && HostnameMatches(t.host, rules[i].pattern);
      assert rules[i] in rules && PreMatches(lib, rules[i], t);
    }
  }

  // ---------------------------------------------------------------------------
  // Two phases decide like one

  /** A literal address resolves to itself. */
  predicate Resolves(lib: IpLib, t: Target, ip: IpAddr) {
    lib.parseIp(t.host).Some? ==> lib.parseIp(t.host).value == ip
  }

  lemma PreMatchAgrees(lib: IpLib, r: AclRule, t: Target, ip: IpAddr)
    requires Resolves(lib, t, ip)
    ensures PreMatches(lib, r, t) ==> Matches(lib, r, t.host, t.port, Some(ip))
    ensures lib.parseIp(t.host).Some? ==> (PreMatches(lib, r, t) <==> Matches(lib, r, t.host, t.port, Some(ip)))
  {
  }

  /** On the direct path, passing the hostname pre-check and the check of the resolved address is
      the same as passing one check with the address; and for a literal address the pre-check
      already decides, up to the default policy. */
  lemma TwoPhaseIsOnePhase(lib: IpLib, acl: ParsedAcl, t: Target, ip: IpAddr)
    requires Resolves(lib, t, ip)
    ensures var pre, post := PreDecide(lib, acl, t), Decide(lib, acl, t, Some(ip));
      && (pre == PreDeny ==> post == Deny)
      && (pre != PreDeny && post == Allow <==> post == Allow)
      && (lib.parseIp(t.host).Some? ==>
            post == match pre case PreDeny => Deny case PreAllow => Allow case Defer => acl.default)
  {
    PreMatchesAgree(lib, acl.deny, t, ip);
    PreMatchesAgree(lib, acl.allow, t, ip);
  }

  lemma PreMatchesAgree(lib: IpLib, rules: seq<AclRule>, t: Target, ip: IpAddr)
    requires Resolves(lib, t, ip)
    ensures SomePreMatches(lib, rules, t) ==> SomeMatches(lib, rules, t, Some(ip))
    ensures lib.parseIp(t.host).Some? ==> (SomePreMatches(lib, rules, t) <==> SomeMatches(lib, rules, t, Some(ip)))
  {
    forall r | r in rules
      ensures PreMatches(lib, r, t) ==> Matches(lib, r, t.host, t.port, Some(ip))
      ensures lib.parseIp(t.host).Some? ==> (PreMatches(lib, r, t) <==> Matches(lib, r, t.host, t.port, Some(ip)))
    {
      PreMatchAgrees(lib, r, t, ip);
    }
  }

  /** The access decision of a direct connection: pre-check, resolve, post-check. */
  method DirectPathAllowed(lib: IpLib, acl: ParsedAcl, t: Target, ip: IpAddr) returns (allowed: bool)
    requires Resolves(lib, t, ip)
    ensures allowed <==> Decide(lib, acl, t, Some(ip)) == Allow
  {
    var pre, _ := CheckHostnameVerbose(lib, acl, t);
    TwoPhaseIsOnePhase(lib, acl, t, ip);
    if pre == PreDeny {
      return false;
    }
    var policy, _ := CheckVerbose(lib, acl, t, Some(ip));
    allowed := policy == Allow;
  }

  // ---------------------------------------------------------------------------
  // Layers

  datatype Layer = Layer(default: Option<Policy>, allow: seq<string>, deny: seq<string>, inherit: bool)

  datatype GlobalLayer = GlobalLayer(default: Policy, allow: seq<string>, deny: seq<string>)

  function ParseRules(lib: IpLib, rules: seq<string>): (r: Result<seq<AclRule>, AclError>)
    ensures r.Ok? <==> AllParse(lib, rules)
    ensures r.Ok? ==> |r.value| == |rules| && forall i :: 0 <= i < |rules| ==> ParseRule(lib, rules[i]) == Ok(r.value[i])
  {
    if rules == [] then Ok([])
    else
      var first := ParseRule(lib, rules[0]);
      if first.Err? then Err(first.error)
      else
        var rest := ParseRules(lib, rules[1..]);
        assert forall s :: s in rules <==> s == rules[0] || s in rules[1..];
        if rest.Err? then Err(rest.error) else Ok([first.value] + rest.value)
  }

  predicate AllParse(lib: IpLib, rules: seq<string>) {
    forall s :: s in rules ==> ParseRule(lib, s).Ok?
  }

  /** Some rule text of the list parses to a rule that matches. */
  predicate TextMatches(lib: IpLib, rules: seq<string>, t: Target, ip: Option<IpAddr>) {
    exists s :: s in rules && ParseRule(lib, s).Ok? && Matches(lib, ParseRule(lib, s).value, t.host, t.port, ip)
  }

  lemma ParsedMatchesText(lib: IpLib, rules: seq<string>, t: Target, ip: Option<IpAddr>)
    requires ParseRules(lib, rules).Ok?
    ensures SomeMatches(lib, ParseRules(lib, rules).value, t, ip) <==> TextMatches(lib, rules, t, ip)
  {
    var parsed := ParseRules(lib, rules).value;
    if SomeMatches(lib, parsed, t, ip) {
      var i :| 0 <= i < |parsed| && Matches(lib, parsed[i], t.host, t.port, ip);
      assert rules[i] in rules;
    }
    if TextMatches(lib, rules, t, ip) {
      var i :| 0 <= i < |rules| && ParseRule(lib, rules[i]).Ok?
               && Matches(lib, ParseRule(lib, rules[i]).value, t.host, t.port, ip);
      assert parsed[i] in parsed;
    }
  }

  function GroupAllow(group: Option<Layer>): seq<string> { if group.Some? then group.value.allow else [] }

  function GroupDeny(group: Option<Layer>): seq<string> { if group.Some? then group.value.deny else [] }

  /** What the three layers mean together. */
  function LayeredDecision(lib: IpLib, global: GlobalLayer, group: Option<Layer>, user: Layer,
                           t: Target, ip: Option<IpAddr>): Policy
  {
    if !user.inherit then
      if TextMatches(lib, user.deny, t, ip) then Deny
      else if TextMatches(lib, user.allow, t, ip) then Allow
      else if user.default.Some? then user.default.value
      else Allow
    else if TextMatches(lib, global.deny, t, ip) || TextMatches(lib, GroupDeny(group), t, ip)
            || TextMatches(lib, user.deny, t, ip) then Deny
    else if TextMatches(lib, global.allow, t, ip) || TextMatches(lib, GroupAllow(group), t, ip)
            || TextMatches(lib, user.allow, t, ip) then Allow
    else if user.default.Some? then user.default.value
    else if group.Some? && group.value.default.Some? then group.value.default.value
    else global.default
  }

  /** Case by case: a user that does not inherit sees its own rules only, and allows by default; else a
      deny rule of any layer denies, then an allow rule of any layer allows, and where no rule matches
      the default of the user counts before that of the group, and that before the global one. */
  lemma LayersMean(lib: IpLib, global: GlobalLayer, group: Option<Layer>, user: Layer, t: Target, ip: Option<IpAddr>)
    ensures var d := LayeredDecision(lib, global, group, user, t, ip);
      var deny, allow := TextMatches(lib, user.deny, t, ip), TextMatches(lib, user.allow, t, ip);
      var gDeny, gAllow := TextMatches(lib, global.deny, t, ip), TextMatches(lib, global.allow, t, ip);
      var rDeny := group.Some? && TextMatches(lib, group.value.deny, t, ip);
      var rAllow := group.Some? && TextMatches(lib, group.value.allow, t, ip);
      && (!user.inherit ==> (d == Deny <==> deny || (!allow && user.default == Some(Deny))))
      && (user.inherit && (deny || gDeny || rDeny) ==> d == Deny)
      && (user.inherit && !deny && !gDeny && !rDeny && (allow || gAllow || rAllow) ==> d == Allow)
      && (user.inherit && !deny && !gDeny && !rDeny && !allow && !gAllow && !rAllow ==>
            && (user.default.Some? ==> d == user.default.value)
            && (user.default.None? && group.Some? && group.value.default.Some? ==> d == group.value.default.value)
            && (user.default.None? && (group.None? || group.value.default.None?) ==> d == global.default))
  {
    NoRules(lib);
    hide TextMatches;
  }

  predicate LayersParse(lib: IpLib, global: GlobalLayer, group: Option<Layer>, user: Layer) {
    && AllParse(lib, user.allow) && AllParse(lib, user.deny)
    && (user.inherit ==>
          && AllParse(lib, global.allow) && AllParse(lib, global.deny)
          && AllParse(lib, GroupAllow(group)) && AllParse(lib, GroupDeny(group)))
  }

  lemma ConcatMatches(lib: IpLib, a: seq<AclRule>, b: seq<AclRule>, t: Target, ip: Option<IpAddr>)
    ensures SomeMatches(lib, a + b, t, ip) <==> SomeMatches(lib, a, t, ip) || SomeMatches(lib, b, t, ip)
  {
  }

  /** Appends the parsed rules, or reports the first rule that does not parse. */
  method Extend(lib: IpLib, rules: seq<AclRule>, texts: seq<string>) returns (r: Result<seq<AclRule>, AclError>)
    ensures r.Ok? <==> AllParse(lib, texts)
    ensures r.Ok? ==> forall t, ip ::
      SomeMatches(lib, r.value, t, ip) <==> SomeMatches(lib, rules, t, ip) || TextMatches(lib, texts, t, ip)
  {
    var parsed := ParseRules(lib, texts);
    if parsed.Err? {
      return Err(parsed.error);
    }
    r := Ok(rules + parsed.value);
    forall t, ip
      ensures SomeMatches(lib, r.value, t, ip) <==> SomeMatches(lib, rules, t, ip) || TextMatches(lib, texts, t, ip)
    {
      ConcatMatches(lib, rules, parsed.value, t, ip);
      ParsedMatchesText(lib, texts, t, ip);
    }
  }

  method MergeLayers(lib: IpLib, global: GlobalLayer, group: Option<Layer>, user: Layer)
    returns (r: Result<ParsedAcl, AclError>)
    ensures r.Ok? <==> LayersParse(lib, global, group, user)
    ensures r.Ok? ==> forall t, ip :: Decide(lib, r.value, t, ip) == LayeredDecision(lib, global, group, user, t, ip)
  {
    hide Matches, TextMatches, SomeMatches, AllParse;
    NoRules(lib);
    if !user.inherit {
      var allow :- Extend(lib, [], user.allow);
      var deny :- Extend(lib, [], user.deny);
      return Ok(ParsedAcl(if user.default.Some? then user.default.value else Allow, allow, deny));
    }
    var policy :=
      if user.default.Some? then user.default.value
      else if group.Some? && group.value.default.Some? then group.value.default.value
      else global.default;
    var deny :- Extend(lib, [], global.deny);
    if group.Some? {
      deny :- Extend(lib, deny, group.value.deny);
    }
    deny :- Extend(lib, deny, user.deny);
    var allow :- Extend(lib, [], global.allow);
    if group.Some? {
      allow :- Extend(lib, allow, group.value.allow);
    }
    allow :- Extend(lib, allow, user.allow);
    r := Ok(ParsedAcl(policy, allow, deny));
  }

  lemma NoRules(lib: IpLib)
    ensures AllParse(lib, [])
    ensures forall t, ip :: !SomeMatches(lib, [], t, ip) && !TextMatches(lib, [], t, ip)
  {
  }

  /** Only which rules are present matters, not their order or multiplicity; and more deny rules
      can only turn Allow into Deny. */
  lemma OrderAndMonotonicity(lib: IpLib, a: ParsedAcl, b: ParsedAcl, t: Target, ip: Option<IpAddr>)
    requires a.default == b.default && forall r :: r in a.allow <==> r in b.allow
    requires forall r :: r in a.deny ==> r in b.deny
    ensures Decide(lib, a, t, ip) == Deny ==> Decide(lib, b, t, ip) == Deny
    ensures (forall r :: r in a.deny <==> r in b.deny) ==> Decide(lib, a, t, ip) == Decide(lib, b, t, ip)
  {
    if SomeMatches(lib, a.deny, t, ip) {
      var r :| r in a.deny && Matches(lib, r, t.host, t.port, ip);
      assert r in b.deny;
    }
  }
}

/** Access-control rules and their text form. */
module Acl {
  import opened Text

  // ---------------------------------------------------------------------------
  // Addresses

  datatype IpAddr = V4(bits: nat) | V6(bits: nat)

  function Width(ip: IpAddr): nat { if ip.V4? then 32 else 128 }

  datatype IpNet = IpNet(addr: IpAddr, prefix: nat)

  function Pow2(n: nat): (p: nat)
    ensures p > 0
  {
    if n == 0 then 1 else 2 * Pow2(n - 1)
  }

  predicate ValidNet(n: IpNet) { n.prefix <= Width(n.addr) && n.addr.bits < Pow2(Width(n.addr)) }

  /** The network of one address. */
  function HostNet(ip: IpAddr): IpNet { IpNet(ip, Width(ip)) }

  /** Same family, same leading bits. */
  predicate Contains(n: IpNet, ip: IpAddr) {
    && n.addr.V4? == ip.V4? && n.prefix <= Width(ip)
    && n.addr.bits / Pow2(Width(ip) - n.prefix) == ip.bits / Pow2(Width(ip) - n.prefix)
  }

  /** A network is the block of addresses that starts at its first address, 2 to the number of free
      bits long; no other family's address is in it. */
  lemma ContainsIff(n: IpNet, ip: IpAddr)
    requires n.prefix <= Width(n.addr)
    ensures var size := Pow2(Width(n.addr) - n.prefix);
      var first := n.addr.bits / size * size;
      Contains(n, ip) <==> n.addr.V4? == ip.V4? && first <= ip.bits < first + size
  {
    var size := Pow2(Width(n.addr) - n.prefix);
    SameBlock(n.addr.bits, ip.bits, size);
  }

  lemma SameBlock(a: nat, b: nat, size: nat)
    requires size > 0
    ensures a / size == b / size <==> a / size * size <= b < a / size * size + size
  {
    var p, q := a / size, b / size;
    assert b == q * size + b % size;
    if p < q { AtLeastOne(q - p, size); assert (q - p) * size == q * size - p * size; }
    if q < p { AtLeastOne(p - q, size); assert (p - q) * size == p * size - q * size; }
  }

  lemma AtLeastOne(d: nat, size: nat)
    requires d > 0
    ensures d * size >= size
  {
  }

  /** The network of one address holds that address only. */
  lemma HostNetIsOne(a: IpAddr, ip: IpAddr)
    ensures Contains(HostNet(a), ip) <==> ip == a
  {
  }

  /** The address library's text forms. */
  datatype IpLib = IpLib(parseIp: string -> Option<IpAddr>, parseNet: string -> Option<IpNet>, showNet: IpNet -> string)

  /** A network prints as address, slash, prefix length, and parses back; a star is no address. */
  ghost predicate Lawful(lib: IpLib) {
    && (forall n :: ValidNet(n) ==>
          && lib.parseNet(lib.showNet(n)) == Some(n)
          && '/' in lib.showNet(n)
          && lib.showNet(n)[0] != '[')
    && lib.parseNet("*").None? && lib.parseIp("*").None?
  }

  // ---------------------------------------------------------------------------
  // Rules and their text form

  datatype PortMatch = Any | Exact(port: u16) | Range(lo: u16, hi: u16)

  datatype AclRule = Cidr(network: IpNet, port: PortMatch) | HostPattern(pattern: string, port: PortMatch)

  datatype AclError =
    | UnclosedBracket(text: string) | BadPortRange(text: string) | EmptyPortRange(text: string) | BadPort(text: string)

  function ShowPort(p: PortMatch): string {
    match p
    case Any => "*"
    case Exact(n) => ShowNat(n)
    case Range(lo, hi) => ShowNat(lo) + "-" + ShowNat(hi)
  }

  function ShowRule(lib: IpLib, r: AclRule): string {
    (match r case Cidr(n, _) => lib.showNet(n) case HostPattern(p, _) => p) + ":" + ShowPort(r.port)
  }

  /** Host and port text of a rule; a missing port is "*". */
  function SplitHostPort(rule: string): Result<(string, string), AclError> {
    if rule != "" && rule[0] == '[' then
      var end := Find(rule, ']');
      if end < 0 then Err(UnclosedBracket(rule))
      else if end + 1 < |rule| && rule[end + 1] == ':' then Ok((rule[1..end], rule[end + 2..]))
      else Ok((rule[1..end], "*"))
    else
      var pos := RFind(rule, ':');
      if pos < 0 then Ok((rule, "*"))
      else
        var host := rule[..pos];
        if ':' in host && '/' !in host then Ok((rule, "*"))
        else Ok((host, rule[pos + 1..]))
  }

  function ParsePort(s: string): Result<PortMatch, AclError> {
    if s == "*" then Ok(Any)
    else
      var dash := Find(s, '-');
      if dash >= 0 then
        var lo, hi := ParseU16(s[..dash]), ParseU16(s[dash + 1..]);
        if lo.None? || hi.None? then Err(BadPortRange(s))
        else if lo.value > hi.value then Err(EmptyPortRange(s))
        else Ok(Range(lo.value, hi.value))
      else
        var port := ParseU16(s);
        if port.None? then Err(BadPort(s)) else Ok(Exact(port.value))
  }

  /** Network first, then single address, else a lower-cased host pattern. */
  function ClassifyHost(lib: IpLib, host: string, port: PortMatch): AclRule {
    if lib.parseNet(host).Some? then Cidr(lib.parseNet(host).value, port)
    else if lib.parseIp(host).Some? then Cidr(HostNet(lib.parseIp(host).value), port)
    else HostPattern(Lower(host), port)
  }

  function ParseRule(lib: IpLib, rule: string): Result<AclRule, AclError> {
    var split := SplitHostPort(rule);
    if split.Err? then Err(split.error)
    else
      var port := ParsePort(split.value.1);
      if port.Err? then Err(port.error) else Ok(ClassifyHost(lib, split.value.0, port.value))
  }

  // ---------------------------------------------------------------------------
  // Printing and parsing

  predicate ValidPort(p: PortMatch) { p.Range? ==> p.lo <= p.hi }

  lemma ParseShowRange(lo: u16, hi: u16)
    ensures ParsePort(ShowPort(Range(lo, hi)))
         == if lo <= hi then Ok(Range(lo, hi)) else Err(EmptyPortRange(ShowPort(Range(lo, hi))))
  {
    hide ParseU16;
    var a, b := ShowNat(lo), ShowNat(hi);
    ParseShowU16(lo);
    ParseShowU16(hi);
    DigitsLack(a, '-');
    FindAt(a, '-', b);
    var s := a + "-" + b;
    assert s == a + ['-'] + b;
    assert s[..|a|] == a && s[|a| + 1..] == b;
    assert s[0] == a[0];
  }

  lemma ParseShowPort(p: PortMatch)
    ensures ParsePort(ShowPort(p)) == if ValidPort(p) then Ok(p) else Err(EmptyPortRange(ShowPort(p)))
  {
    hide ParseU16, ShowNat;
    match p {
      case Any =>
      case Exact(n) => ParseShowExact(n);
      case Range(lo, hi) => ParseShowRange(lo, hi);
    }
  }

  lemma ParseShowExact(n: u16)
    ensures ParsePort(ShowPort(Exact(n))) == Ok(Exact(n))
  {
    hide ParseU16, ShowNat, Find;
    var s := ShowNat(n);
    ParseShowU16(n);
    DigitsLack(s, '-');
    assert IsDigit(s[0]);
  }

  /** A printed port holds no character that splits a rule. */
  lemma ShowPortPlain(p: PortMatch)
    ensures ':' !in ShowPort(p) && ']' !in ShowPort(p)
  {
    hide ShowNat, Find;
    match p {
      case Any =>
      case Exact(n) =>
        DigitsLack(ShowNat(n), ':');
        DigitsLack(ShowNat(n), ']');
      case Range(lo, hi) =>
        DigitsLack(ShowNat(lo), ':');
        DigitsLack(ShowNat(hi), ':');
        DigitsLack(ShowNat(lo), ']');
        DigitsLack(ShowNat(hi), ']');
    }
  }

  /** Splitting a printed rule gives back its two parts, unless the host part looks bracketed or
      like a bare IPv6 address. */
  lemma SplitShown(host: string, port: string)
    requires ':' !in port
    requires host == "" || host[0] != '['
    ensures SplitHostPort(host + ":" + port)
         == if ':' in host && '/' !in host then Ok((host + ":" + port, "*")) else Ok((host, port))
  {
    var s := host + ":" + port;
    RFindAt(host, ':', port);
    assert s == host + [':'] + port;
    assert s[..|host|] == host && s[|host| + 1..] == port;
  }

  /** The rules that survive printing and parsing. */
  predicate Printable(lib: IpLib, r: AclRule) {
    && ValidPort(r.port)
    && (r.HostPattern? ==>
          && (r.pattern == "" || r.pattern[0] != '[')
          && (':' in r.pattern ==> '/' in r.pattern)
          && lib.parseNet(r.pattern).None? && lib.parseIp(r.pattern).None?
          && Lower(r.pattern) == r.pattern)
  }

  lemma BracketedNeverRoundTrips(lib: IpLib, p: string, port: PortMatch)
    requires p != "" && p[0] == '['
    ensures ParseRule(lib, ShowRule(lib, HostPattern(p, port))) != Ok(HostPattern(p, port))
  {
    hide ParsePort, ShowPort, Find, Lower;
    var s := p + ":" + ShowPort(port);
    ShowPortPlain(port);
    var end := Find(s, ']');
    if end >= 0 {
      assert s[end] == ']';
      assert end < |p|;
      assert |s[1..end]| < |p|;
    }
  }

  /** parse(display(r)) == r exactly for the printable rules. */
  lemma RuleRoundTrip(lib: IpLib, r: AclRule)
    requires Lawful(lib) && (r.Cidr? ==> ValidNet(r.network))
    ensures ParseRule(lib, ShowRule(lib, r)) == Ok(r) <==> Printable(lib, r)
  {
    hide SplitHostPort, ParsePort, ShowPort, Lower;
    ParseShowPort(r.port);
    ShowPortPlain(r.port);
    match r {
      case Cidr(n, port) =>
        SplitShown(lib.showNet(n), ShowPort(port));
      case HostPattern(p, port) =>
        if p != "" && p[0] == '[' {
          BracketedNeverRoundTrips(lib, p, port);
        } else {
          SplitShown(p, ShowPort(port));
          assert |p + ":" + ShowPort(port)| > |p|;
        }
    }
  }

  /** A family of rules that parse and do not survive: a bracketed host with a colon and no slash
      is accepted as a pattern, but printed without its brackets it swallows the port. */
  lemma ColonPatternSwallowsPort(lib: IpLib, p: string)
    requires ':' in p && '/' !in p && ']' !in p && p[0] != '[' && Lower(p) == p
    requires lib.parseNet(p) == None && lib.parseIp(p) == None
    ensures ParseRule(lib, "[" + p + "]") == Ok(HostPattern(p, Any))
    ensures ParseRule(lib, ShowRule(lib, HostPattern(p, Any))) == Ok(ClassifyHost(lib, p + ":*", Any))
  {
    hide SplitHostPort, Lower;
    SplitBracketed(p);
    SplitShown(p, "*");
    assert p + ":" + "*" == p + ":*";
  }

  /** The other forms a rule is written in: a bracketed host with or without a port, a host without a
      port, a bare IPv6 address, and a bracket that is never closed. */
  lemma RuleForms(lib: IpLib, h: string, p: PortMatch)
    requires ValidPort(p)
    ensures ']' !in h ==> ParseRule(lib, "[" + h + "]:" + ShowPort(p)) == Ok(ClassifyHost(lib, h, p))
    ensures ']' !in h ==> ParseRule(lib, "[" + h + "]") == Ok(ClassifyHost(lib, h, Any))
    ensures ']' !in h ==> ParseRule(lib, "[" + h) == Err(UnclosedBracket("[" + h))
    ensures ':' !in h && (h == "" || h[0] != '[') ==> ParseRule(lib, h) == Ok(ClassifyHost(lib, h, Any))
  {
    hide ParsePort, ShowPort, Lower, ClassifyHost;
    ParseShowPort(p);
    StarIsAny();
    if ']' !in h {
      SplitBracketed(h);
      SplitBracketedPort(h, ShowPort(p));
      assert ("[" + h)[0] == '[' && ']' !in "[" + h;
      NotFound("[" + h, ']');
    }
    if ':' !in h { NotFoundLast(h, ':'); }
  }

  lemma StarIsAny()
    ensures ParsePort("*") == Ok(Any)
  {
  }

  lemma NotFound(s: string, c: char)
    requires c !in s
    ensures Find(s, c) < 0
  {
  }

  lemma NotFoundLast(s: string, c: char)
    requires c !in s
    ensures RFind(s, c) < 0
  {
  }

  lemma BareV6(lib: IpLib, a: string, b: string)
    requires ':' in a && '/' !in a && ':' !in b && a[0] != '['
    ensures ParseRule(lib, a + ":" + b) == Ok(ClassifyHost(lib, a + ":" + b, Any))
  {
    hide ParsePort, ClassifyHost, SplitHostPort;
    SplitShown(a, b);
    StarIsAny();
  }

  /** A network text is a network, an address text the network of that address, any other a pattern. */
  lemma ClassifiedAs(lib: IpLib, h: string, p: PortMatch)
    ensures lib.parseNet(h).Some? ==> ClassifyHost(lib, h, p) == Cidr(lib.parseNet(h).value, p)
    ensures lib.parseNet(h).None? && lib.parseIp(h).Some? ==>
              ClassifyHost(lib, h, p) == Cidr(HostNet(lib.parseIp(h).value), p)
    ensures lib.parseNet(h).None? && lib.parseIp(h).None? ==> ClassifyHost(lib, h, p) == HostPattern(Lower(h), p)
  {
  }

  lemma SplitBracketedPort(h: string, port: string)
    requires ']' !in h
    ensures SplitHostPort("[" + h + "]:" + port) == Ok((h, port))
  {
    var s := "[" + h + "]:" + port;
    FindAt("[" + h, ']', ":" + port);
    assert s == ("[" + h) + [']'] + (":" + port);
    assert s[0] == '[' && s[|h| + 2] == ':';
    assert s[1..|h| + 1] == h && s[|h| + 3..] == port;
  }

  lemma SplitBracketed(p: string)
    requires ']' !in p
    ensures SplitHostPort("[" + p + "]") == Ok((p, "*"))
  {
    var s := "[" + p + "]";
    FindAt("[" + p, ']', "");
    assert s == ("[" + p) + [']'] + "";
    assert s[1..|s| - 1] == p;
  }
}

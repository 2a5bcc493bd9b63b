/** The SOCKS5 handshake, both ends: the server's readers and the client that connects through an
    upstream proxy. */
module Handshake {
  import opened Text
  import opened Utf8
  import opened Splitting
  import opened Socks

  // ---------------------------------------------------------------------------
  // Domain names the server accepts

  const DOT: byte := 46
  const HYPHEN: byte := 45

  predicate IsDigitByte(b: byte) { 48 <= b <= 57 }

  predicate IsAlphanumeric(b: byte) { IsDigitByte(b) || 65 <= b <= 90 || 97 <= b <= 122 }

  predicate IsNameByte(b: byte) { IsAlphanumeric(b) || b == HYPHEN }

  predicate LabelOk(l: seq<byte>) {
    && 0 < |l| <= MAX_LABEL_LENGTH
    && l[0] != HYPHEN && l[|l| - 1] != HYPHEN
    && forall i :: 0 <= i < |l| ==> IsNameByte(l[i])
  }

  predicate Numeric(l: seq<byte>) { l != [] && forall i :: 0 <= i < |l| ==> IsDigitByte(l[i]) }

  function WithoutFinalDot(d: seq<byte>): seq<byte> {
    if d != [] && d[|d| - 1] == DOT then d[..|d| - 1] else d
  }

  /** All-digit names must be addresses (`isIp`); any other name needs well-formed labels. */
  predicate ValidDomain(d: seq<byte>, isIp: seq<byte> -> bool) {
    && 0 < |d| <= MAX_DOMAIN_LENGTH
    && WithoutFinalDot(d) != []
    && var labels := Split(WithoutFinalDot(d), DOT);
       if forall i :: 0 <= i < |labels| ==> Numeric(labels[i]) then isIp(d)
       else forall i :: 0 <= i < |labels| ==> LabelOk(labels[i])
  }

  method ValidateLabel(part: seq<byte>) returns (ok: bool)
    ensures ok == LabelOk(part)
  {
    if part == [] || |part| > MAX_LABEL_LENGTH { return false; }
    if part[0] == HYPHEN || part[|part| - 1] == HYPHEN { return false; }
    for i := 0 to |part|
      invariant forall k :: 0 <= k < i ==> IsNameByte(part[k])
    {
      if !IsAlphanumeric(part[i]) && part[i] != HYPHEN { return false; }
    }
    return true;
  }

  method ValidateDomain(d: seq<byte>, isIp: seq<byte> -> bool) returns (ok: bool)
    ensures ok == ValidDomain(d, isIp)
  {
    hide LabelOk, Numeric, Split;
    if d == [] || |d| > MAX_DOMAIN_LENGTH { return false; }
    var normalized := WithoutFinalDot(d);
    if normalized == [] { return false; }
    var labels := Split(normalized, DOT);
    if forall i :: 0 <= i < |labels| ==> Numeric(labels[i]) { return isIp(d); }
    for i := 0 to |labels|
      invariant forall k :: 0 <= k < i ==> LabelOk(labels[k])
    {
      var labelOk := ValidateLabel(labels[i]);
      if !labelOk { return false; }
    }
    return true;
  }

  lemma LabelsPlain(labels: seq<seq<byte>>)
    requires
      || (forall i :: 0 <= i < |labels| ==> Numeric(labels[i]))
      || (forall i :: 0 <= i < |labels| ==> LabelOk(labels[i]))
    ensures AllIn(labels, IsNameByte)
  {
    forall k, i | 0 <= k < |labels| && 0 <= i < |labels[k]| ensures IsNameByte(labels[k][i]) {
      assert Numeric(labels[k]) || LabelOk(labels[k]);
    }
  }

  lemma LabelsOf(d: seq<byte>, isIp: seq<byte> -> bool)
    requires ValidDomain(d, isIp)
    ensures AllIn(Split(WithoutFinalDot(d), DOT), IsNameByte)
  {
    hide Split, LabelOk, Numeric, AllIn;
    LabelsPlain(Split(WithoutFinalDot(d), DOT));
  }

  /** An accepted name is plain ASCII: letters, digits, hyphens and dots only. */
  lemma ValidDomainPlain(d: seq<byte>, isIp: seq<byte> -> bool)
    requires ValidDomain(d, isIp)
    ensures forall i :: 0 <= i < |d| ==> IsNameByte(d[i]) || d[i] == DOT
    ensures ValidUtf8(d)
  {
    hide ValidDomain, Split, ValidUtf8, AllIn;
    var n := WithoutFinalDot(d);
    LabelsOf(d, isIp);
    SplitCovers(n, DOT, IsNameByte);
    assert forall i :: 0 <= i < |n| ==> d[i] == n[i];
    AsciiIsValid(d);
  }

  // ---------------------------------------------------------------------------
  // What the server reads, as functions of the bytes that arrive

  /** A value and the bytes behind it, or a failure with the reply sent before closing. */
  datatype Read<T> = Got(value: T, rest: seq<byte>) | Failed(reply: seq<byte>)

  datatype Credentials = Credentials(username: seq<byte>, password: seq<byte>)

  const NO_ADDR: TargetAddr := Ipv4([0, 0, 0, 0], 0)

  function Reply(code: byte, bind: TargetAddr): seq<byte>
    requires Encodable(bind)
  {
    [SOCKS_VERSION, code, 0x00] + AddrBytes(bind)
  }

  function DecodeGreeting(s: seq<byte>): Read<seq<byte>> {
    if |s| < 2 || s[0] != SOCKS_VERSION || s[1] == 0 || |s| < 2 + s[1] as int then Failed([])
    else Got(s[2..2 + s[1] as int], s[2 + s[1] as int..])
  }

  /** A field of 1 to 255 bytes behind its length. */
  function DecodeField(s: seq<byte>): Read<seq<byte>> {
    if s == [] || s[0] == 0 || |s| < 1 + s[0] as int then Failed([])
    else Got(s[1..1 + s[0] as int], s[1 + s[0] as int..])
  }

  function DecodeCredentials(s: seq<byte>): Read<Credentials> {
    if s == [] || s[0] != SUBNEG_VERSION then Failed([])
    else
      var user := DecodeField(s[1..]);
      if user.Failed? then Failed([])
      else
        var pass := DecodeField(user.rest);
        if pass.Failed? || !ValidUtf8(user.value) || !ValidUtf8(pass.value) then Failed([])
        else Got(Credentials(user.value, pass.value), pass.rest)
  }

  /** The port that follows an address. */
  function DecodePort(s: seq<byte>): Read<u16> {
    if |s| < 2 then Failed([]) else Got(PortOf(s[0], s[1]), s[2..])
  }

  function DecodeName(s: seq<byte>, isIp: seq<byte> -> bool): Read<TargetAddr> {
    var name := DecodeField(s);
    if s != [] && s[0] as int > MAX_DOMAIN_LENGTH then Failed([])
    else if name.Failed? || !ValidUtf8(name.value) then Failed([])
    else if !ValidDomain(name.value, isIp) then Failed(Reply(REPLY_HOST_UNREACHABLE, NO_ADDR))
    else
      var port := DecodePort(name.rest);
      if port.Failed? then Failed([]) else Got(Domain(name.value, port.value), port.rest)
  }

  function DecodeConnect(s: seq<byte>, isIp: seq<byte> -> bool): Read<TargetAddr> {
    if |s| < 2 || s[0] != SOCKS_VERSION then Failed([])
    else if s[1] != CMD_CONNECT then Failed(Reply(REPLY_COMMAND_NOT_SUPPORTED, NO_ADDR))
    else if |s| < 4 then Failed([])
    else if s[3] == ATYP_DOMAIN then DecodeName(s[4..], isIp)
    else if s[3] == ATYP_IPV4 || s[3] == ATYP_IPV6 then
      if StartsWithAddr(s[3..]) then Got(AddrOf(s[3..]), s[3 + AddrLength(s[3..])..]) else Failed([])
    else Failed(Reply(REPLY_ADDRESS_TYPE_NOT_SUPPORTED, NO_ADDR))
  }

  // ---------------------------------------------------------------------------
  // What the client sends

  function Greeting(hasAuth: bool): seq<byte> {
    if hasAuth then [SOCKS_VERSION, 2, AUTH_NONE, AUTH_PASSWORD] else [SOCKS_VERSION, 1, AUTH_NONE]
  }

  /** Lengths are cut to one byte, as the conversion in the program does. */
  function AuthRequest(c: Credentials): seq<byte> {
    [SUBNEG_VERSION, |c.username| % 256] + c.username + [|c.password| % 256] + c.password
  }

  function ConnectRequest(host: seq<byte>, port: u16): seq<byte> {
    [SOCKS_VERSION, CMD_CONNECT, 0x00, ATYP_DOMAIN, |host| % 256] + host + PortBytes(port)
  }

  // ---------------------------------------------------------------------------
  // Each message is understood exactly when its lengths fit

  lemma GreetingUnderstood(hasAuth: bool, rest: seq<byte>)
    ensures DecodeGreeting(Greeting(hasAuth) + rest)
         == Got(if hasAuth then [AUTH_NONE, AUTH_PASSWORD] else [AUTH_NONE], rest)
  {
    var s := Greeting(hasAuth) + rest;
    assert s[2..2 + s[1] as int] == Greeting(hasAuth)[2..];
    assert s[2 + s[1] as int..] == rest;
  }

  lemma FieldUnderstood(f: seq<byte>, rest: seq<byte>)
    ensures DecodeField([|f| % 256] + f + rest) == Got(f, rest) <==> 1 <= |f| <= 255
  {
    var s := [|f| % 256] + f + rest;
    if 1 <= |f| <= 255 {
      assert s[1..1 + |f|] == f && s[1 + |f|..] == rest;
    } else {
      assert DecodeField(s).Got? ==> |DecodeField(s).value| == |f| % 256;
    }
  }

  /** The server reads back the credentials if and only if both fit in one length byte and neither
      is empty. */
  lemma CredentialsUnderstood(c: Credentials, rest: seq<byte>)
    requires ValidUtf8(c.username) && ValidUtf8(c.password)
    ensures DecodeCredentials(AuthRequest(c) + rest) == Got(c, rest)
            <==> 1 <= |c.username| <= 255 && 1 <= |c.password| <= 255
    ensures |c.username| <= 255 && |c.password| <= 255 && (c.username == [] || c.password == [])
            ==> DecodeCredentials(AuthRequest(c) + rest).Failed?
  {
    hide ValidUtf8, DecodeField;
    var s, tail := AuthRequest(c) + rest, [|c.password| % 256] + c.password + rest;
    assert s[1..] == [|c.username| % 256] + c.username + tail;
    FieldUnderstood(c.username, tail);
    FieldUnderstood(c.password, rest);
    var user := DecodeField(s[1..]);
    if !(1 <= |c.username| <= 255) {
      FieldLength(s[1..]);
    } else if !(1 <= |c.password| <= 255) {
      FieldLength(tail);
    }
  }

  lemma FieldLength(s: seq<byte>)
    ensures DecodeField(s).Got? ==> s != [] && |DecodeField(s).value| == s[0] as int > 0
  {
  }

  /** A domain request is decided by its name field alone. */
  lemma RequestName(host: seq<byte>, port: u16, rest: seq<byte>, isIp: seq<byte> -> bool)
    ensures DecodeConnect(ConnectRequest(host, port) + rest, isIp)
         == DecodeName([|host| % 256] + host + (PortBytes(port) + rest), isIp)
  {
    hide DecodeName;
    var s := ConnectRequest(host, port) + rest;
    assert s[4..] == [|host| % 256] + host + (PortBytes(port) + rest);
  }

  /** The server reads back the target if and only if it accepts the name. */
  lemma ConnectUnderstood(host: seq<byte>, port: u16, rest: seq<byte>, isIp: seq<byte> -> bool)
    ensures DecodeConnect(ConnectRequest(host, port) + rest, isIp) == Got(Domain(host, port), rest)
            <==> ValidDomain(host, isIp)
  {
    hide ValidUtf8, ValidDomain, DecodeField, DecodeConnect, ConnectRequest;
    RequestName(host, port, rest, isIp);
    var tail := PortBytes(port) + rest;
    FieldUnderstood(host, tail);
    FieldLength([|host| % 256] + host + tail);
    PortRoundTrip(port);
    assert tail[2..] == rest;
    if ValidDomain(host, isIp) {
      DomainLength(host, isIp);
      ValidDomainPlain(host, isIp);
    }
  }

  /** A name whose length fits but which the server does not accept never reaches a target. */
  lemma ConnectRejected(host: seq<byte>, port: u16, rest: seq<byte>, isIp: seq<byte> -> bool)
    requires ValidUtf8(host) && |host| <= 255 && !ValidDomain(host, isIp)
    ensures DecodeConnect(ConnectRequest(host, port) + rest, isIp)
         == Failed(if 0 < |host| <= MAX_DOMAIN_LENGTH then Reply(REPLY_HOST_UNREACHABLE, NO_ADDR) else [])
  {
    hide ValidUtf8, ValidDomain, DecodeField, DecodeConnect, ConnectRequest;
    RequestName(host, port, rest, isIp);
    var tail := PortBytes(port) + rest;
    FieldUnderstood(host, tail);
    FieldLength([|host| % 256] + host + tail);
  }

  lemma DomainLength(d: seq<byte>, isIp: seq<byte> -> bool)
    requires ValidDomain(d, isIp)
    ensures 0 < |d| <= MAX_DOMAIN_LENGTH
  {
  }

  // ---------------------------------------------------------------------------
  // What the server makes of every request

  /** The name the server reads: as much of the host as the length byte says. */
  function NameRead(host: seq<byte>): seq<byte> { host[..|host| % 256] }

  /** What follows the name on the wire; the server takes its first two bytes for the port. */
  function Behind(host: seq<byte>, port: u16): (s: seq<byte>)
    ensures |s| >= 2
  {
    host[|host| % 256..] + PortBytes(port)
  }

  /** The target the server reads, if it accepts the name. */
  function TargetRead(host: seq<byte>, port: u16, isIp: seq<byte> -> bool): Option<TargetAddr> {
    var b := Behind(host, port);
    if ValidDomain(NameRead(host), isIp) then Some(Domain(NameRead(host), PortOf(b[0], b[1]))) else None
  }

  /** What is left of the request behind the target read. */
  function Left(host: seq<byte>, port: u16): seq<byte> { Behind(host, port)[2..] }

  /** For every host, of any length: the target read and the bytes left behind it, or a refusal. */
  lemma ConnectRead(host: seq<byte>, port: u16, rest: seq<byte>, isIp: seq<byte> -> bool)
    ensures var d, t := DecodeConnect(ConnectRequest(host, port) + rest, isIp), TargetRead(host, port, isIp);
      if t.Some? then d == Got(t.value, Left(host, port) + rest)
      else d.Failed? && d.reply in {[], Reply(REPLY_HOST_UNREACHABLE, NO_ADDR)}
  {
    hide ValidUtf8, ValidDomain, DecodeField, DecodeConnect, ConnectRequest;
    RequestName(host, port, rest, isIp);
    var name, b := NameRead(host), Behind(host, port) + rest;
    assert [|host| % 256] + host + (PortBytes(port) + rest) == [|name| % 256] + name + b;
    FieldUnderstood(name, b);
    FieldLength([|name| % 256] + name + b);
    assert b[2..] == Left(host, port) + rest;
    if ValidDomain(name, isIp) {
      DomainLength(name, isIp);
      ValidDomainPlain(name, isIp);
    }
  }

  /** The server reads the client's own target exactly when it accepts the host, and never another
      one exactly when the length fits or the cut name is not accepted. */
  lemma TargetReadIff(host: seq<byte>, port: u16, isIp: seq<byte> -> bool)
    ensures TargetRead(host, port, isIp) == Some(Domain(host, port)) <==> ValidDomain(host, isIp)
    ensures TargetRead(host, port, isIp) in {None, Some(Domain(host, port))}
            <==> |host| <= 255 || !ValidDomain(host[..|host| % 256], isIp)
    ensures |host| <= 255 ==> Left(host, port) == []
  {
    hide ValidDomain;
    PortRoundTrip(port);
    if |host| <= 255 {
      assert NameRead(host) == host && Behind(host, port) == PortBytes(port);
    } else {
      assert |NameRead(host)| < |host|;
      if ValidDomain(host, isIp) { DomainLength(host, isIp); }
    }
  }

  // ---------------------------------------------------------------------------
  // More bytes do not change what was read

  lemma FieldMore(s: seq<byte>, more: seq<byte>)
    requires DecodeField(s).Got?
    ensures DecodeField(s + more) == Got(DecodeField(s).value, DecodeField(s).rest + more)
  {
    var n := s[0] as int;
    assert (s + more)[1..1 + n] == s[1..1 + n];
    assert (s + more)[1 + n..] == s[1 + n..] + more;
  }

  lemma CredentialsMore(s: seq<byte>, more: seq<byte>)
    requires DecodeCredentials(s).Got?
    ensures DecodeCredentials(s + more) == Got(DecodeCredentials(s).value, DecodeCredentials(s).rest + more)
  {
    hide ValidUtf8, DecodeField;
    var user := DecodeField(s[1..]);
    assert (s + more)[1..] == s[1..] + more;
    FieldMore(s[1..], more);
    FieldMore(user.rest, more);
  }

  /** A refused request is answered with nothing or with a failure. */
  lemma RefusalIsFailure(s: seq<byte>, isIp: seq<byte> -> bool)
    requires DecodeConnect(s, isIp).Failed?
    ensures DecodeConnect(s, isIp).reply
         in {[], Reply(REPLY_HOST_UNREACHABLE, NO_ADDR), Reply(REPLY_COMMAND_NOT_SUPPORTED, NO_ADDR),
             Reply(REPLY_ADDRESS_TYPE_NOT_SUPPORTED, NO_ADDR)}
  {
    hide ValidUtf8, ValidDomain, Reply;
  }

  // ---------------------------------------------------------------------------
  // The exact form of each message

  function GreetingBytes(methods: seq<byte>): seq<byte>
    requires |methods| <= 255
  {
    [5, |methods|] + methods
  }

  function FieldBytes(f: seq<byte>): seq<byte>
    requires |f| <= 255
  {
    [|f|] + f
  }

  function CredentialsBytes(c: Credentials): seq<byte>
    requires |c.username| <= 255 && |c.password| <= 255
  {
    [1] + (FieldBytes(c.username) + FieldBytes(c.password))
  }

  function RequestBytes(reserved: byte, t: TargetAddr): seq<byte>
    requires Encodable(t)
  {
    [5, 1, reserved] + AddrBytes(t)
  }

  /** A greeting is version 5 and 1 to 255 methods behind their number, and nothing else is. */
  lemma GreetingIff(s: seq<byte>, methods: seq<byte>, rest: seq<byte>)
    ensures DecodeGreeting(s) == Got(methods, rest)
            <==> 1 <= |methods| <= 255 && s == GreetingBytes(methods) + rest
  {
    if DecodeGreeting(s) == Got(methods, rest) {
      var n := s[1] as int;
      assert s == [s[0], s[1]] + s[2..2 + n] + s[2 + n..];
    }
    if 1 <= |methods| <= 255 && s == GreetingBytes(methods) + rest {
      assert s[2..2 + |methods|] == methods && s[2 + |methods|..] == rest;
    }
  }

  lemma FieldIff(s: seq<byte>, f: seq<byte>, rest: seq<byte>)
    ensures DecodeField(s) == Got(f, rest) <==> 1 <= |f| <= 255 && s == FieldBytes(f) + rest
  {
    if DecodeField(s) == Got(f, rest) {
      var n := s[0] as int;
      assert s == [s[0]] + s[1..1 + n] + s[1 + n..];
    }
    if 1 <= |f| <= 255 && s == FieldBytes(f) + rest {
      assert s[1..1 + |f|] == f && s[1 + |f|..] == rest;
    }
  }

  predicate FieldFits(f: seq<byte>) { 1 <= |f| <= 255 && ValidUtf8(f) }

  /** Credentials are version 1 and two fields of 1 to 255 bytes of text, and nothing else is. */
  lemma CredentialsIff(s: seq<byte>, c: Credentials, rest: seq<byte>)
    ensures DecodeCredentials(s) == Got(c, rest)
            <==> FieldFits(c.username) && FieldFits(c.password) && s == CredentialsBytes(c) + rest
  {
    hide ValidUtf8, DecodeField, FieldBytes;
    if DecodeCredentials(s) == Got(c, rest) {
      var user := DecodeField(s[1..]);
      FieldIff(s[1..], c.username, user.rest);
      FieldIff(user.rest, c.password, rest);
      assert s == [1] + s[1..];
      assert s == CredentialsBytes(c) + rest;
    }
    if FieldFits(c.username) && FieldFits(c.password) && s == CredentialsBytes(c) + rest {
      var tail := FieldBytes(c.password) + rest;
      assert s[1..] == FieldBytes(c.username) + tail;
      FieldIff(s[1..], c.username, tail);
      FieldIff(tail, c.password, rest);
    }
  }

  predicate Acceptable(t: TargetAddr, isIp: seq<byte> -> bool) {
    Encodable(t) && (t.Domain? ==> ValidDomain(t.name, isIp))
  }

  /** A request is version 5, command 1, any reserved byte and an address, a name being an acceptable
      one; and nothing else is. */
  lemma RequestRead(reserved: byte, t: TargetAddr, rest: seq<byte>, isIp: seq<byte> -> bool)
    requires Acceptable(t, isIp)
    ensures DecodeConnect(RequestBytes(reserved, t) + rest, isIp) == Got(t, rest)
  {
    hide ValidUtf8, ValidDomain, DecodeName, AddrBytes, AddrOf, AddrLength, StartsWithAddr, Reply;
    var s, a := RequestBytes(reserved, t) + rest, AddrBytes(t) + rest;
    assert s[3..] == a;
    AddrRoundTrip(t, rest);
    AddrKind(t);
    assert s[3] == a[0];
    if t.Domain? {
      NameBytes(t, rest);
      assert s[4..] == a[1..] == FieldBytes(t.name) + (PortBytes(t.port) + rest);
      NameDecodes(t, rest, isIp);
    } else {
      assert s[3 + |AddrBytes(t)|..] == rest;
    }
  }

  lemma AddrKind(t: TargetAddr)
    requires Encodable(t)
    ensures |AddrBytes(t)| > 0
    ensures AddrBytes(t)[0] == if t.Ipv4? then ATYP_IPV4 else if t.Ipv6? then ATYP_IPV6 else ATYP_DOMAIN
  {
    hide ValidUtf8;
  }

  lemma NameDecodes(t: TargetAddr, rest: seq<byte>, isIp: seq<byte> -> bool)
    requires t.Domain? && Acceptable(t, isIp)
    ensures DecodeName(FieldBytes(t.name) + (PortBytes(t.port) + rest), isIp) == Got(t, rest)
  {
    hide ValidUtf8, ValidDomain, DecodeField, PortOf, FieldBytes, Reply;
    DomainLength(t.name, isIp);
    PortRoundTrip(t.port);
    var tail := PortBytes(t.port) + rest;
    var s := FieldBytes(t.name) + tail;
    FieldIff(s, t.name, tail);
    FieldLength(s);
    assert tail[2..] == rest;
  }

  lemma RequestOnly(s: seq<byte>, isIp: seq<byte> -> bool)
    requires DecodeConnect(s, isIp).Got?
    ensures var d := DecodeConnect(s, isIp);
      && |s| >= 3 && Acceptable(d.value, isIp)
      && s == RequestBytes(s[2], d.value) + d.rest
  {
    hide ValidUtf8, ValidDomain, DecodeName, AddrBytes, AddrOf, AddrLength, StartsWithAddr;
    var d := DecodeConnect(s, isIp);
    var a := s[3..];
    if s[3] == ATYP_DOMAIN {
      NameOnly(s[4..], isIp);
      assert a == [ATYP_DOMAIN] + s[4..];
      NameBytes(d.value, d.rest);
    } else {
      AddressOnly(a);
      assert s[3 + AddrLength(a)..] == a[AddrLength(a)..];
    }
    assert a == AddrBytes(d.value) + d.rest;
    FrontBytes(s, d.value, d.rest);
  }

  lemma FrontBytes(s: seq<byte>, t: TargetAddr, rest: seq<byte>)
    requires |s| >= 3 && s[0] == 5 && s[1] == 1 && Encodable(t) && s[3..] == AddrBytes(t) + rest
    ensures s == RequestBytes(s[2], t) + rest
  {
    hide AddrBytes, Encodable;
    assert s == [s[0], s[1], s[2]] + s[3..];
  }

  lemma NameBytes(t: TargetAddr, rest: seq<byte>)
    requires t.Domain? && Encodable(t)
    ensures [ATYP_DOMAIN] + (FieldBytes(t.name) + (PortBytes(t.port) + rest)) == AddrBytes(t) + rest
  {
    hide ValidUtf8, PortBytes;
  }

  lemma AddressOnly(a: seq<byte>)
    requires a != [] && a[0] != ATYP_DOMAIN && StartsWithAddr(a)
    ensures !AddrOf(a).Domain? && AddrLength(a) <= |a| && a == AddrBytes(AddrOf(a)) + a[AddrLength(a)..]
  {
    hide AddrBytes;
    AddrReencodes(a);
    assert a == a[..AddrLength(a)] + a[AddrLength(a)..];
  }

  lemma NameOnly(s: seq<byte>, isIp: seq<byte> -> bool)
    requires DecodeName(s, isIp).Got?
    ensures var d := DecodeName(s, isIp);
      && d.value.Domain? && Acceptable(d.value, isIp)
      && s == FieldBytes(d.value.name) + (PortBytes(d.value.port) + d.rest)
  {
    hide ValidUtf8, ValidDomain, DecodeField, FieldBytes;
    var name := DecodeField(s);
    FieldIff(s, name.value, name.rest);
    DomainLength(name.value, isIp);
    PortReencodes(name.rest[0], name.rest[1]);
    assert name.rest == [name.rest[0], name.rest[1]] + name.rest[2..];
  }

  lemma RequestIff(s: seq<byte>, t: TargetAddr, rest: seq<byte>, isIp: seq<byte> -> bool)
    ensures DecodeConnect(s, isIp) == Got(t, rest)
            <==> Acceptable(t, isIp) && |s| >= 3 && s == RequestBytes(s[2], t) + rest
  {
    hide DecodeConnect, RequestBytes, ValidDomain, Encodable;
    if DecodeConnect(s, isIp) == Got(t, rest) { RequestOnly(s, isIp); }
    if Acceptable(t, isIp) && |s| >= 3 && s == RequestBytes(s[2], t) + rest { RequestRead(s[2], t, rest, isIp); }
  }

  /** A refusal in bytes. */
  lemma RefusalBytes(code: byte)
    ensures Reply(code, NO_ADDR) == [5, code, 0, 1, 0, 0, 0, 0, 0, 0]
  {
  }

  /** The three failures that are answered, in bytes: another command, another address type, a name
      that is not acceptable. */
  lemma AnsweredFailures(s: seq<byte>, isIp: seq<byte> -> bool, name: seq<byte>)
    requires |s| >= 2 && s[0] == 5
    ensures s[1] != 1 ==> DecodeConnect(s, isIp) == Failed([5, 7, 0, 1, 0, 0, 0, 0, 0, 0])
    ensures s[1] == 1 && |s| >= 4 && s[3] !in {1, 3, 4} ==> DecodeConnect(s, isIp) == Failed([5, 8, 0, 1, 0, 0, 0, 0, 0, 0])
    ensures s[1] == 1 && |s| >= 4 && s[3] == 3 && 1 <= |name| <= 253 && FieldBytes(name) <= s[4..]
            && ValidUtf8(name) && !ValidDomain(name, isIp)
            ==> DecodeConnect(s, isIp) == Failed([5, 4, 0, 1, 0, 0, 0, 0, 0, 0])
  {
    hide ValidUtf8, ValidDomain, DecodeName, Reply, AddrOf, AddrLength, StartsWithAddr;
    RefusalBytes(7);
    RefusalBytes(8);
    RefusalBytes(4);
    if |s| >= 4 && 1 <= |name| <= 253 && FieldBytes(name) <= s[4..] && ValidUtf8(name) && !ValidDomain(name, isIp) {
      BadName(s[4..], isIp, name);
    }
  }

  lemma BadName(s: seq<byte>, isIp: seq<byte> -> bool, name: seq<byte>)
    requires 1 <= |name| <= 253 && FieldBytes(name) <= s && ValidUtf8(name) && !ValidDomain(name, isIp)
    ensures DecodeName(s, isIp) == Failed(Reply(REPLY_HOST_UNREACHABLE, NO_ADDR))
  {
    hide ValidUtf8, ValidDomain, DecodeField, Reply, FieldBytes;
    var rest := s[|FieldBytes(name)|..];
    assert s == FieldBytes(name) + rest;
    FieldIff(s, name, rest);
    FieldLength(s);
  }

  // ---------------------------------------------------------------------------
  // The grammar of domain names

  /** 1 to 63 letters, digits and hyphens, no hyphen at either end. */
  predicate GoodLabel(l: seq<byte>) {
    && 1 <= |l| <= 63 && l[0] != 45 && l[|l| - 1] != 45
    && forall i :: 0 <= i < |l| ==> 48 <= l[i] <= 57 || 65 <= l[i] <= 90 || 97 <= l[i] <= 122 || l[i] == 45
  }

  predicate AllDigit(l: seq<byte>) { l != [] && forall i :: 0 <= i < |l| ==> 48 <= l[i] <= 57 }

  /** Labels joined by dots, with or without a final dot: acceptable exactly if at most 253 bytes long
      and of good labels, or, where all labels are numbers, an address. */
  lemma DomainGrammar(labels: seq<seq<byte>>, dot: bool, isIp: seq<byte> -> bool)
    requires labels != [] && labels[|labels| - 1] != []
    requires forall i :: 0 <= i < |labels| ==> 46 !in labels[i]
    ensures var d := Join(labels, 46) + if dot then [46] else [];
      ValidDomain(d, isIp) <==>
        && |d| <= 253
        && if forall i :: 0 <= i < |labels| ==> AllDigit(labels[i]) then isIp(d)
           else forall i :: 0 <= i < |labels| ==> GoodLabel(labels[i])
  {
    hide Split, Join, Numeric, LabelOk;
    var n: seq<byte> := Join(labels, 46);
    var d := n + if dot then [46] else [];
    SplitJoin(labels, DOT);
    JoinLast(labels);
    assert WithoutFinalDot(d) == n by { if dot { assert d[..|d| - 1] == n; } else { assert d == n; } }
    forall i | 0 <= i < |labels|
      ensures Numeric(labels[i]) == AllDigit(labels[i]) && LabelOk(labels[i]) == GoodLabel(labels[i])
    {
      SameLabels(labels[i]);
    }
  }

  lemma SameLabels(l: seq<byte>)
    ensures Numeric(l) == AllDigit(l) && LabelOk(l) == GoodLabel(l)
  {
  }

  /** Joined labels end in the last byte of the last label. */
  lemma {:induction false} JoinLast(labels: seq<seq<byte>>)
    requires labels != [] && labels[|labels| - 1] != []
    requires forall i :: 0 <= i < |labels| ==> DOT !in labels[i]
    ensures var n := Join(labels, DOT); n != [] && n[|n| - 1] != DOT
    decreases |labels|
  {
    var last := labels[|labels| - 1];
    if |labels| == 1 {
      assert last[|last| - 1] in last;
    } else {
      JoinLast(labels[1..]);
    }
  }

  /** Nothing else is acceptable: not the empty name, not a dot alone, not a name that ends in two. */
  lemma OtherNames(d: seq<byte>, isIp: seq<byte> -> bool)
    requires d == [] || d == [46] || (|d| >= 2 && d[|d| - 2..] == [46, 46])
    ensures !ValidDomain(d, isIp)
  {
    hide Split;
    if |d| >= 2 {
      var n := d[..|d| - 1];
      assert d[|d| - 1] == d[|d| - 2..][1] && n[|n| - 1] == d[|d| - 2..][0];
      var front := n[..|n| - 1];
      assert n == front + [DOT] + [];
      SplitConcat(front, DOT, []);
      SplitPlain([], DOT);
      var labels := Split(n, DOT);
      assert labels[|labels| - 1] == [];
    }
  }
}

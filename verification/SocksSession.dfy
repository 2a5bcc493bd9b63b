/** A whole SOCKS5 session: the server's handshake and the client that opens a tunnel through an
    upstream proxy, as functions of the bytes each receives. */
module Session {
  import opened Text
  import opened Utf8
  import opened Splitting
  import opened Socks
  import opened Handshake

  // ---------------------------------------------------------------------------
  // The server

  const REPLY_GENERAL_FAILURE: byte := 0x01
  const REPLY_NOT_ALLOWED: byte := 0x02
  const REPLY_CONNECTION_REFUSED: byte := 0x05

  type SocketAddr = t: TargetAddr | WellTyped(t) && !t.Domain? witness NO_ADDR

  datatype IoKind = RefusedByPeer | PermissionDenied | OtherIo

  datatype ConnectError = AclDenied | ConnectionLimit | Io(kind: IoKind) | OtherError

  datatype Outcome = Connected(bind: SocketAddr) | NotConnected(error: ConnectError)

  function ErrorReply(e: ConnectError): byte {
    match e
    case AclDenied => REPLY_NOT_ALLOWED
    case ConnectionLimit => REPLY_NOT_ALLOWED
    case Io(RefusedByPeer) => REPLY_CONNECTION_REFUSED
    case Io(PermissionDenied) => REPLY_NOT_ALLOWED
    case Io(OtherIo) => REPLY_HOST_UNREACHABLE
    case OtherError => REPLY_GENERAL_FAILURE
  }

  /** Whether the peer's address may talk to the server at all. */
  datatype Gate = Open | Banned | Limited

  /** What the rest of the server decides: may this peer talk at all, are the credentials right, may
      this user connect now, and what comes of connecting to a target. */
  datatype Policy = Policy(
    gate: Gate,
    accepts: Credentials -> bool,
    admits: Credentials -> bool,
    connect: (Credentials, TargetAddr) -> Outcome,
    isIp: seq<byte> -> bool)

  datatype Relay = Relay(creds: Credentials, target: TargetAddr)

  /** Everything sent, the relay that starts if any, and the bytes left for it. */
  datatype Served = Served(sent: seq<byte>, relay: Option<Relay>, rest: seq<byte>)

  function After(first: seq<byte>, s: Served): Served { s.(sent := first + s.sent) }

  function Closed(sent: seq<byte>): Served { Served(sent, None, []) }

  function Serve(p: Policy, input: seq<byte>): Served {
    match p.gate
    case Banned => Closed([SOCKS_VERSION, AUTH_NO_ACCEPTABLE])
    case Limited => Closed([])
    case Open => ServeGreeting(p, input)
  }

  function ServeGreeting(p: Policy, input: seq<byte>): Served {
    match DecodeGreeting(input)
    case Failed(_) => Closed([])
    case Got(methods, rest) =>
      if AUTH_PASSWORD !in methods then Closed([SOCKS_VERSION, AUTH_NO_ACCEPTABLE])
      else After([SOCKS_VERSION, AUTH_PASSWORD], ServeAuth(p, rest))
  }

  function ServeAuth(p: Policy, input: seq<byte>): Served {
    match DecodeCredentials(input)
    case Failed(_) => Closed([])
    case Got(creds, rest) =>
      if !p.accepts(creds) then Closed([SUBNEG_VERSION, AUTH_FAILURE])
      else After([SUBNEG_VERSION, AUTH_SUCCESS], ServeConnect(p, creds, rest))
  }

  function ServeConnect(p: Policy, creds: Credentials, input: seq<byte>): Served {
    if !p.admits(creds) then Closed([])
    else
      match DecodeConnect(input, p.isIp)
      case Failed(reply) => Closed(reply)
      case Got(target, rest) =>
        match p.connect(creds, target)
        case Connected(bind) => Served(Reply(REPLY_SUCCESS, bind), Some(Relay(creds, target)), rest)
        case NotConnected(e) => Closed(Reply(ErrorReply(e), NO_ADDR))
  }

  // ---------------------------------------------------------------------------
  // The client

  datatype Upstream = Upstream(username: Option<seq<byte>>, password: Option<seq<byte>>)

  /** Everything sent, whether the tunnel is open, and the bytes left for it. */
  datatype Tunnel = Tunnel(sent: seq<byte>, open: bool, rest: seq<byte>)

  function Before(first: seq<byte>, t: Tunnel): Tunnel { t.(sent := first + t.sent) }

  function Abandoned(sent: seq<byte>): Tunnel { Tunnel(sent, false, []) }

  /** A missing password is sent as an empty one. */
  function CredentialsOf(u: Upstream): Credentials
    requires u.username.Some?
  {
    Credentials(u.username.value, if u.password.Some? then u.password.value else [])
  }

  function Dial(u: Upstream, host: seq<byte>, port: u16, input: seq<byte>): (t: Tunnel)
    ensures |t.rest| <= |input|
  {
    var hello := Greeting(u.username.Some?);
    if |input| < 2 || input[0] != SOCKS_VERSION then Abandoned(hello)
    else if input[1] == AUTH_PASSWORD && u.username.Some? then
      Before(hello, DialAuth(CredentialsOf(u), host, port, input[2..]))
    else if input[1] == AUTH_NONE then Before(hello, DialConnect(host, port, input[2..]))
    else Abandoned(hello)
  }

  function DialAuth(c: Credentials, host: seq<byte>, port: u16, input: seq<byte>): (t: Tunnel)
    ensures |t.rest| <= |input|
  {
    if |input| < 2 || input[1] != 0x00 then Abandoned(AuthRequest(c))
    else Before(AuthRequest(c), DialConnect(host, port, input[2..]))
  }

  function DialConnect(host: seq<byte>, port: u16, input: seq<byte>): (t: Tunnel)
    ensures |t.rest| <= |input|
  {
    var request := ConnectRequest(host, port);
    if |input| < 4 || input[0] != SOCKS_VERSION || input[1] != REPLY_SUCCESS then Abandoned(request)
    else
      var n := AddrLength(input[3..]);
      if 0 < n <= |input| - 3 then Tunnel(request, true, input[3 + n..]) else Abandoned(request)
  }

  // ---------------------------------------------------------------------------
  // The client's buffered reader

  const BUFFER_SIZE: nat := 8192

  /** What successive reads of the socket return. */
  predicate Arrivals(chunks: seq<seq<byte>>) { forall i :: 0 <= i < |chunks| ==> 0 < |chunks[i]| <= BUFFER_SIZE }

  /** Bytes read from the socket and not taken yet, and the reads to come. */
  datatype Reader = Reader(buffer: seq<byte>, chunks: seq<seq<byte>>)

  /** The reader after `m` bytes were taken; the buffer is refilled only when it is empty. */
  function Reached(chunks: seq<seq<byte>>, m: nat): Reader
    decreases |chunks|
  {
    if m == 0 || chunks == [] then Reader([], chunks)
    else if m < |chunks[0]| then Reader(chunks[0][m..], chunks[1..])
    else Reached(chunks[1..], m - |chunks[0]|)
  }

  /** Some chunk ends after `m` bytes. */
  predicate Boundary(chunks: seq<seq<byte>>, m: nat) {
    m == 0 || (chunks != [] && m >= |chunks[0]| && Boundary(chunks[1..], m - |chunks[0]|))
  }

  lemma {:induction false} ReachedPending(chunks: seq<seq<byte>>, m: nat)
    requires m <= |Concat(chunks)|
    ensures var r := Reached(chunks, m); r.buffer + Concat(r.chunks) == Concat(chunks)[m..]
    decreases |chunks|
  {
    if m > 0 && chunks != [] && m >= |chunks[0]| {
      ReachedPending(chunks[1..], m - |chunks[0]|);
      assert Concat(chunks)[m..] == Concat(chunks[1..])[m - |chunks[0]|..];
    }
  }

  lemma {:induction false} BufferIffInside(chunks: seq<seq<byte>>, m: nat)
    requires Arrivals(chunks) && m <= |Concat(chunks)|
    ensures Reached(chunks, m).buffer == [] <==> Boundary(chunks, m)
    decreases |chunks|
  {
    if m > 0 && chunks != [] && m >= |chunks[0]| {
      assert Arrivals(chunks[1..]);
      BufferIffInside(chunks[1..], m - |chunks[0]|);
    }
  }

  /** What is left on the socket is everything behind the first `m` bytes exactly at the end of a
      chunk. */
  lemma RestIffBoundary(chunks: seq<seq<byte>>, m: nat)
    requires Arrivals(chunks) && m <= |Concat(chunks)|
    ensures Concat(Reached(chunks, m).chunks) == Concat(chunks)[m..] <==> Boundary(chunks, m)
  {
    hide Reached, Boundary, Concat;
    ReachedPending(chunks, m);
    BufferIffInside(chunks, m);
    var r := Reached(chunks, m);
    assert |r.buffer + Concat(r.chunks)| == |r.buffer| + |Concat(r.chunks)|;
    if r.buffer == [] { assert r.buffer + Concat(r.chunks) == Concat(r.chunks); }
  }

  /** The client on a buffered reader: the handshake sees every byte, but the buffer is dropped when
      the tunnel is handed over, so the tunnel starts with what is still on the socket. */
  function DialBuffered(u: Upstream, host: seq<byte>, port: u16, chunks: seq<seq<byte>>): Tunnel {
    var t := Dial(u, host, port, Concat(chunks));
    if t.open then t.(rest := Concat(Reached(chunks, |Concat(chunks)| - |t.rest|).chunks)) else t
  }

  // ---------------------------------------------------------------------------
  // The server against any client

  /** The input of a client that is let through: greeting, credentials and request, one behind the
      other, and what follows them. */
  function WholeInput(methods: seq<byte>, c: Credentials, reserved: byte, t: TargetAddr, rest: seq<byte>): seq<byte>
    requires |methods| <= 255 && |c.username| <= 255 && |c.password| <= 255 && Encodable(t)
  {
    GreetingBytes(methods) + (CredentialsBytes(c) + (RequestBytes(reserved, t) + rest))
  }

  /** Whatever the client, the server relays to `t` for `c` if the input is such a one, with the
      password method among those offered, and every decision is in its favour. */
  lemma RelaysIf(p: Policy, methods: seq<byte>, c: Credentials, reserved: byte, t: TargetAddr, rest: seq<byte>)
    requires 1 <= |methods| <= 255 && FieldFits(c.username) && FieldFits(c.password) && Acceptable(t, p.isIp)
    requires p.gate.Open? && 2 in methods && p.accepts(c) && p.admits(c) && p.connect(c, t).Connected?
    ensures Serve(p, WholeInput(methods, c, reserved, t, rest))
         == Served([5, 2] + ([1, 0] + ([5, 0, 0] + AddrBytes(p.connect(c, t).bind))), Some(Relay(c, t)), rest)
  {
    hide DecodeGreeting, DecodeCredentials, DecodeConnect, GreetingBytes, CredentialsBytes, RequestBytes;
    hide ValidUtf8, ValidDomain, AddrBytes;
    var s2 := RequestBytes(reserved, t) + rest;
    var s1 := CredentialsBytes(c) + s2;
    GreetingIff(GreetingBytes(methods) + s1, methods, s1);
    CredentialsIff(s1, c, s2);
    RequestRead(reserved, t, rest, p.isIp);
  }

  /** And only then. */
  lemma RelaysOnlyIf(p: Policy, input: seq<byte>)
    requires Serve(p, input).relay.Some?
    ensures var s := Serve(p, input);
      var c, t := s.relay.value.creds, s.relay.value.target;
      && p.gate.Open? && p.accepts(c) && p.admits(c) && p.connect(c, t).Connected?
      && FieldFits(c.username) && FieldFits(c.password) && Acceptable(t, p.isIp)
      && exists methods: seq<byte>, reserved: byte ::
           1 <= |methods| <= 255 && 2 in methods && input == WholeInput(methods, c, reserved, t, s.rest)
  {
    hide DecodeGreeting, DecodeCredentials, DecodeConnect, GreetingBytes, CredentialsBytes, RequestBytes;
    hide ValidUtf8, ValidDomain, Reply;
    var g := DecodeGreeting(input);
    GreetingIff(input, g.value, g.rest);
    var a := DecodeCredentials(g.rest);
    CredentialsIff(g.rest, a.value, a.rest);
    var q := DecodeConnect(a.rest, p.isIp);
    RequestOnly(a.rest, p.isIp);
    assert input == WholeInput(g.value, a.value, a.rest[2], q.value, q.rest);
  }

  /** What the server answers, in bytes, wherever it stops. */
  lemma RefusesWith(p: Policy, methods: seq<byte>, c: Credentials, rest: seq<byte>)
    requires 1 <= |methods| <= 255 && FieldFits(c.username) && FieldFits(c.password)
    ensures p.gate.Banned? ==> forall input :: Serve(p, input) == Served([5, 255], None, [])
    ensures p.gate.Limited? ==> forall input :: Serve(p, input) == Served([], None, [])
    ensures p.gate.Open? && 2 !in methods ==>
      Serve(p, GreetingBytes(methods) + rest) == Served([5, 255], None, [])
    ensures p.gate.Open? && 2 in methods && !p.accepts(c) ==>
      Serve(p, GreetingBytes(methods) + (CredentialsBytes(c) + rest)) == Served([5, 2] + [1, 1], None, [])
    ensures p.gate.Open? && 2 in methods && p.accepts(c) && !p.admits(c) ==>
      Serve(p, GreetingBytes(methods) + (CredentialsBytes(c) + rest)) == Served([5, 2] + ([1, 0] + []), None, [])
  {
    hide DecodeGreeting, DecodeCredentials, DecodeConnect, GreetingBytes, CredentialsBytes, ValidUtf8, Reply;
    var s1 := CredentialsBytes(c) + rest;
    GreetingIff(GreetingBytes(methods) + s1, methods, s1);
    GreetingIff(GreetingBytes(methods) + rest, methods, rest);
    CredentialsIff(s1, c, rest);
  }

  /** A connection that fails is answered with the code for its reason: 2 for access rules, limits and
      permissions, 5 for a refusal by the target, 4 for other network errors, 1 for anything else. */
  lemma FailedConnect(p: Policy, methods: seq<byte>, c: Credentials, reserved: byte, t: TargetAddr, rest: seq<byte>)
    requires 1 <= |methods| <= 255 && FieldFits(c.username) && FieldFits(c.password) && Acceptable(t, p.isIp)
    requires p.gate.Open? && 2 in methods && p.accepts(c) && p.admits(c) && p.connect(c, t).NotConnected?
    ensures
      var code: byte :=
        match p.connect(c, t).error
        case AclDenied => 2
        case ConnectionLimit => 2
        case Io(kind) => (match kind case RefusedByPeer => 5 case PermissionDenied => 2 case OtherIo => 4)
        case OtherError => 1;
      Serve(p, WholeInput(methods, c, reserved, t, rest))
      == Served([5, 2] + ([1, 0] + [5, code, 0, 1, 0, 0, 0, 0, 0, 0]), None, [])
  {
    hide DecodeGreeting, DecodeCredentials, DecodeConnect, GreetingBytes, CredentialsBytes, RequestBytes;
    hide ValidUtf8, ValidDomain, AddrBytes, Reply;
    var s2 := RequestBytes(reserved, t) + rest;
    var s1 := CredentialsBytes(c) + s2;
    GreetingIff(GreetingBytes(methods) + s1, methods, s1);
    CredentialsIff(s1, c, s2);
    RequestRead(reserved, t, rest, p.isIp);
    RefusalBytes(ErrorReply(p.connect(c, t).error));
  }

  // ---------------------------------------------------------------------------
  // The client against any proxy

  /** A proxy that asks for no authentication, whether or not a user name is configured: the request
      follows the greeting at once, and a successful reply of any kind opens the tunnel behind it. */
  lemma DialsWithoutAuth(u: Upstream, host: seq<byte>, port: u16, bind: TargetAddr, down: seq<byte>)
    requires Encodable(bind)
    ensures Dial(u, host, port, [5, 0] + ([5, 0, 0] + AddrBytes(bind) + down))
         == Tunnel(Greeting(u.username.Some?) + ConnectRequest(host, port), true, down)
  {
    hide DialConnect, ConnectRequest, Greeting, AddrBytes, ValidUtf8;
    var reply := [5, 0, 0] + AddrBytes(bind) + down;
    assert ([5, 0] + reply)[2..] == reply;
    BindSkipped(host, port, bind, down);
  }

  /** A proxy that asks for a password: the credentials follow, then the request once they are
      accepted; the version byte of the answer is not looked at. */
  lemma DialsWithPassword(u: Upstream, host: seq<byte>, port: u16, version: byte, bind: TargetAddr, down: seq<byte>)
    requires Encodable(bind) && u.username.Some?
    ensures Dial(u, host, port, [5, 2] + ([version, 0] + ([5, 0, 0] + AddrBytes(bind) + down)))
         == Tunnel(Greeting(true) + (AuthRequest(CredentialsOf(u)) + ConnectRequest(host, port)), true, down)
    ensures forall status: byte :: status != 0 ==>
      Dial(u, host, port, [5, 2] + [version, status]) == Abandoned(Greeting(true) + AuthRequest(CredentialsOf(u)))
  {
    hide DialConnect, ConnectRequest, AuthRequest, Greeting, AddrBytes, ValidUtf8;
    var reply := [5, 0, 0] + AddrBytes(bind) + down;
    var answer := [version, 0] + reply;
    assert ([5, 2] + answer)[2..] == answer && answer[2..] == reply;
    BindSkipped(host, port, bind, down);
    forall status: byte | status != 0
      ensures Dial(u, host, port, [5, 2] + [version, status]) == Abandoned(Greeting(true) + AuthRequest(CredentialsOf(u)))
    {
      assert ([5, 2] + [version, status])[2..] == [version, status];
    }
  }

  /** The credentials as they are sent: a user name without a password goes with an empty one. */
  lemma CredentialsSent(user: seq<byte>, pass: seq<byte>)
    ensures AuthRequest(CredentialsOf(Upstream(Some(user), Some(pass)))) == [1, |user| % 256] + user + [|pass| % 256] + pass
    ensures AuthRequest(CredentialsOf(Upstream(Some(user), None))) == [1, |user| % 256] + user + [0]
  {
  }

  /** Any other reply code leaves no tunnel, with the request sent; any other method, a password asked
      for without a user name, another version or no answer, and nothing is sent behind the greeting. */
  lemma DialsNoFurther(u: Upstream, host: seq<byte>, port: u16, selected: byte, code: byte, rest: seq<byte>)
    ensures code != 0 ==>
      Dial(u, host, port, [5, 0] + ([5, code] + rest)) == Abandoned(Greeting(u.username.Some?) + ConnectRequest(host, port))
    ensures selected != 0 && (selected != 2 || u.username.None?) ==>
      Dial(u, host, port, [5, selected] + rest) == Abandoned(Greeting(u.username.Some?))
    ensures selected != 5 ==> Dial(u, host, port, [selected] + rest) == Abandoned(Greeting(u.username.Some?))
    ensures Dial(u, host, port, []) == Abandoned(Greeting(u.username.Some?))
  {
    hide ConnectRequest, AuthRequest, Greeting, AddrLength;
    var reply := [5, code] + rest;
    assert ([5, 0] + reply)[2..] == reply;
    assert |reply| >= 4 ==> reply[1] == code;
  }

  // ---------------------------------------------------------------------------
  // Both ends together

  /** Each side has sent exactly what it sends on receiving what the other has sent. */
  predicate InStep(p: Policy, u: Upstream, host: seq<byte>, port: u16, fromClient: seq<byte>, fromServer: seq<byte>) {
    Dial(u, host, port, fromServer).sent == fromClient && Serve(p, fromClient).sent == fromServer
  }

  /** The credentials are text and their lengths fit in the one byte each has. */
  predicate CredentialsFit(c: Credentials) {
    && ValidUtf8(c.username) && |c.username| <= 255
    && ValidUtf8(c.password) && |c.password| <= 255
  }

  predicate Fits(u: Upstream) { u.username.Some? ==> CredentialsFit(CredentialsOf(u)) }

  predicate Welcome(p: Policy, c: Credentials) {
    c.username != [] && c.password != [] && p.accepts(c)
  }

  /** The server reads a target and connects to it. */
  predicate Reaches(p: Policy, c: Credentials, host: seq<byte>, port: u16) {
    var t := TargetRead(host, port, p.isIp);
    p.admits(c) && t.Some? && p.connect(c, t.value).Connected?
  }

  /** Everything both sides need for the tunnel. */
  predicate Opens(p: Policy, u: Upstream, host: seq<byte>, port: u16) {
    p.gate.Open? && u.username.Some? && Welcome(p, CredentialsOf(u)) && Reaches(p, CredentialsOf(u), host, port)
  }

  /** In every completed exchange, for every host, the client has a tunnel exactly when the server
      relays; the server relays to the target it reads, under the client's own credentials, and
      what is left of the request goes into the relay. */
  lemma TunnelIffRelay(p: Policy, u: Upstream, host: seq<byte>, port: u16,
                       fromClient: seq<byte>, fromServer: seq<byte>)
    requires Fits(u)
    requires InStep(p, u, host, port, fromClient, fromServer)
    ensures Dial(u, host, port, fromServer).open <==> Opens(p, u, host, port)
    ensures Serve(p, fromClient).relay
         == if Opens(p, u, host, port) then Some(Relay(CredentialsOf(u), TargetRead(host, port, p.isIp).value)) else None
    ensures Opens(p, u, host, port) ==>
              Dial(u, host, port, fromServer).rest == [] && Serve(p, fromClient).rest == Left(host, port)
  {
    hide ValidUtf8, Welcome, Reaches, ServeAuth, DialAuth, DialConnect, DecodeGreeting, AuthRequest, TargetRead, Left;
    var d := Dial(u, host, port, fromServer);
    var hello := Greeting(u.username.Some?);
    var later := fromClient[|hello|..];
    assert fromClient == hello + later;
    GreetingUnderstood(u.username.Some?, later);
    if p.gate.Open? && u.username.Some? {
      assert Serve(p, fromClient) == After([SOCKS_VERSION, AUTH_PASSWORD], ServeAuth(p, later));
      var replies := ServeAuth(p, later).sent;
      assert fromServer[2..] == replies;
      assert d == Before(hello, DialAuth(CredentialsOf(u), host, port, replies));
      AuthInStep(p, CredentialsOf(u), host, port, later, replies);
    }
  }

  lemma AuthInStep(p: Policy, c: Credentials, host: seq<byte>, port: u16, fromClient: seq<byte>, fromServer: seq<byte>)
    requires CredentialsFit(c)
    requires DialAuth(c, host, port, fromServer).sent == fromClient && ServeAuth(p, fromClient).sent == fromServer
    ensures DialAuth(c, host, port, fromServer).open <==> Welcome(p, c) && Reaches(p, c, host, port)
    ensures ServeAuth(p, fromClient).relay
         == if Welcome(p, c) && Reaches(p, c, host, port) then Some(Relay(c, TargetRead(host, port, p.isIp).value)) else None
    ensures DialAuth(c, host, port, fromServer).open ==>
              DialAuth(c, host, port, fromServer).rest == [] && ServeAuth(p, fromClient).rest == Left(host, port)
  {
    hide ValidUtf8, Reaches, ServeConnect, DialConnect, DecodeCredentials, AuthRequest, TargetRead, Left;
    var request := AuthRequest(c);
    var later := fromClient[|request|..];
    assert fromClient == request + later;
    CredentialsUnderstood(c, later);
    if Welcome(p, c) {
      var replies := ServeConnect(p, c, later).sent;
      assert fromServer[2..] == replies;
      ConnectInStep(p, c, host, port, later, replies);
    }
  }

  lemma ConnectInStep(p: Policy, c: Credentials, host: seq<byte>, port: u16, fromClient: seq<byte>, fromServer: seq<byte>)
    requires DialConnect(host, port, fromServer).sent == fromClient && ServeConnect(p, c, fromClient).sent == fromServer
    ensures DialConnect(host, port, fromServer).open <==> Reaches(p, c, host, port)
    ensures ServeConnect(p, c, fromClient).relay
         == if Reaches(p, c, host, port) then Some(Relay(c, TargetRead(host, port, p.isIp).value)) else None
    ensures DialConnect(host, port, fromServer).open ==>
              DialConnect(host, port, fromServer).rest == [] && ServeConnect(p, c, fromClient).rest == Left(host, port)
  {
    hide DecodeConnect, ConnectRequest, DialConnect, TargetRead, Left;
    SendsRequest(host, port, fromServer);
    assert fromClient + [] == fromClient && Left(host, port) + [] == Left(host, port);
    ConnectRead(host, port, [], p.isIp);
    ServerDecides(p, c, host, port, fromClient, []);
    assert fromServer + [] == fromServer;
  }

  lemma SendsRequest(host: seq<byte>, port: u16, input: seq<byte>)
    ensures DialConnect(host, port, input).sent == ConnectRequest(host, port)
  {
  }

  /** Whatever bytes the server takes for a request, its answer opens the client's tunnel exactly
      when it relays. */
  lemma ServerDecides(p: Policy, c: Credentials, host: seq<byte>, port: u16, input: seq<byte>, down: seq<byte>)
    ensures var s, d := ServeConnect(p, c, input), DecodeConnect(input, p.isIp);
      && (s.relay.Some? <==> p.admits(c) && d.Got? && p.connect(c, d.value).Connected?)
      && (s.relay.Some? ==>
            s.relay == Some(Relay(c, d.value)) && s.rest == d.rest
            && DialConnect(host, port, s.sent + down) == Tunnel(ConnectRequest(host, port), true, down))
      && (s.relay.None? ==> !DialConnect(host, port, s.sent).open)
  {
    hide DecodeConnect, ConnectRequest, DialConnect, Reply;
    var s, d := ServeConnect(p, c, input), DecodeConnect(input, p.isIp);
    if s.relay.Some? {
      BindSkipped(host, port, p.connect(c, d.value).bind, down);
    } else {
      if d.Failed? { RefusalIsFailure(input, p.isIp); }
      FailuresStayShut(host, port);
    }
  }

  /** No failure reply opens a tunnel. */
  lemma FailuresStayShut(host: seq<byte>, port: u16)
    ensures !DialConnect(host, port, []).open
    ensures forall code: byte {:trigger Reply(code, NO_ADDR)} :: code != REPLY_SUCCESS ==>
              !DialConnect(host, port, Reply(code, NO_ADDR)).open
  {
    hide ConnectRequest, AddrBytes;
  }

  /** The client skips the bind address exactly, of whichever kind. */
  lemma BindSkipped(host: seq<byte>, port: u16, bind: TargetAddr, down: seq<byte>)
    requires Encodable(bind)
    ensures DialConnect(host, port, Reply(REPLY_SUCCESS, bind) + down)
         == Tunnel(ConnectRequest(host, port), true, down)
  {
    hide ValidUtf8, ConnectRequest;
    var input := Reply(REPLY_SUCCESS, bind) + down;
    assert input[3..] == AddrBytes(bind) + down;
    AddrRoundTrip(bind, down);
    assert input[3 + |AddrBytes(bind)|..] == down;
  }

  /** What the client sends for a tunnel. */
  function ClientBytes(c: Credentials, host: seq<byte>, port: u16): seq<byte> {
    Greeting(true) + (AuthRequest(c) + ConnectRequest(host, port))
  }

  /** What the server answers when it relays. */
  function ServerBytes(bind: SocketAddr): seq<byte> {
    [SOCKS_VERSION, AUTH_PASSWORD] + ([SUBNEG_VERSION, AUTH_SUCCESS] + Reply(REPLY_SUCCESS, bind))
  }

  /** When a tunnel opens, the server's relay starts with what is left of the request, nothing if the
      host fits, and every byte the client sends next.  The client's tunnel starts with every
      byte the server sends next exactly when the last chunk it read in the handshake ends where
      the reply ends; a chunk that goes on takes the start of the tunnel with it. */
  lemma TunnelStartsCleanIff(p: Policy, u: Upstream, host: seq<byte>, port: u16, up: seq<byte>,
                             chunks: seq<seq<byte>>, down: seq<byte>)
    requires Fits(u) && Opens(p, u, host, port) && Arrivals(chunks)
    requires Concat(chunks) == ServerBytes(BindOf(p, u, host, port)) + down
    ensures
      var c := CredentialsOf(u);
      var fromClient, fromServer := ClientBytes(c, host, port), ServerBytes(BindOf(p, u, host, port));
      var tunnel := DialBuffered(u, host, port, chunks);
      && Serve(p, fromClient + up)
         == Served(fromServer, Some(Relay(c, TargetRead(host, port, p.isIp).value)), Left(host, port) + up)
      && tunnel.sent == fromClient && tunnel.open
      && (tunnel.rest == down <==> Boundary(chunks, |fromServer|))
  {
    hide Serve, Dial, ServerBytes, ClientBytes, Reached, Concat, TargetRead, Left;
    var bind := BindOf(p, u, host, port);
    var fromServer := ServerBytes(bind);
    ServerEnds(p, CredentialsOf(u), host, port, up);
    ClientEnds(u, host, port, bind, down);
    assert (fromServer + down)[|fromServer|..] == down;
    RestIffBoundary(chunks, |fromServer|);
  }

  /** The address the server connected from, when it relays. */
  function BindOf(p: Policy, u: Upstream, host: seq<byte>, port: u16): SocketAddr
    requires Opens(p, u, host, port)
  {
    p.connect(CredentialsOf(u), TargetRead(host, port, p.isIp).value).bind
  }

  /** The reply and the first bytes of the tunnel in one chunk: those bytes are lost. */
  lemma CoalescedBytesLost(u: Upstream, host: seq<byte>, port: u16, bind: SocketAddr, down: seq<byte>)
    requires u.username.Some? && 0 < |down| <= BUFFER_SIZE - 22
    ensures
      var chunks := [[SOCKS_VERSION, AUTH_PASSWORD], [SUBNEG_VERSION, AUTH_SUCCESS], Reply(REPLY_SUCCESS, bind) + down];
      && Arrivals(chunks) && Concat(chunks) == ServerBytes(bind) + down
      && DialBuffered(u, host, port, chunks)
         == Tunnel(ClientBytes(CredentialsOf(u), host, port), true, [])
  {
    hide Dial, ClientBytes, Reply, Reached, Concat;
    var a, b, r := [SOCKS_VERSION, AUTH_PASSWORD], [SUBNEG_VERSION, AUTH_SUCCESS], Reply(REPLY_SUCCESS, bind);
    ReplyLength(REPLY_SUCCESS, bind);
    ThreeChunks(a, b, r + down, |r|);
    assert a + (b + (r + down)) == ServerBytes(bind) + down;
    ClientEnds(u, host, port, bind, down);
  }

  lemma ReplyLength(code: byte, bind: SocketAddr)
    ensures 0 < |Reply(code, bind)| <= 22
  {
  }

  lemma ThreeChunks(a: seq<byte>, b: seq<byte>, c: seq<byte>, j: nat)
    requires a != [] && b != [] && 0 < j < |c|
    ensures Concat([a, b, c]) == a + (b + c)
    ensures Concat(Reached([a, b, c], |a| + |b| + j).chunks) == []
  {
    assert [a, b, c][1..] == [b, c] && [b, c][1..] == [c] && [c][1..] == [];
    assert Concat([c]) == c + Concat([c][1..]) == c;
    assert Concat([b, c]) == b + Concat([b, c][1..]) == b + c;
    assert Reached([c], j) == Reader(c[j..], []);
    assert Reached([b, c], |b| + j) == Reached([c], j);
  }

  lemma ServerEnds(p: Policy, c: Credentials, host: seq<byte>, port: u16, up: seq<byte>)
    requires CredentialsFit(c)
    requires p.gate.Open? && Welcome(p, c) && Reaches(p, c, host, port)
    ensures var t := TargetRead(host, port, p.isIp).value;
      Serve(p, ClientBytes(c, host, port) + up)
      == Served(ServerBytes(p.connect(c, t).bind), Some(Relay(c, t)), Left(host, port) + up)
  {
    hide ValidUtf8, DecodeGreeting, DecodeCredentials, DecodeConnect, AuthRequest, ConnectRequest;
    hide Reply, Greeting, TargetRead, Left;
    var auth, request := AuthRequest(c), ConnectRequest(host, port);
    assert ClientBytes(c, host, port) + up == Greeting(true) + (auth + (request + up));
    GreetingUnderstood(true, auth + (request + up));
    CredentialsUnderstood(c, request + up);
    ConnectRead(host, port, up, p.isIp);
  }

  lemma ClientEnds(u: Upstream, host: seq<byte>, port: u16, bind: SocketAddr, down: seq<byte>)
    requires u.username.Some?
    ensures Dial(u, host, port, ServerBytes(bind) + down)
         == Tunnel(ClientBytes(CredentialsOf(u), host, port), true, down)
  {
    hide AuthRequest, ConnectRequest, DialConnect, Reply, Greeting;
    var reply := Reply(REPLY_SUCCESS, bind) + down;
    var input := ServerBytes(bind) + down;
    assert input == [SOCKS_VERSION, AUTH_PASSWORD, SUBNEG_VERSION, AUTH_SUCCESS] + reply;
    assert input[2..] == [SUBNEG_VERSION, AUTH_SUCCESS] + reply && input[2..][2..] == reply;
    BindSkipped(host, port, bind, down);
  }

  // ---------------------------------------------------------------------------
  // Round by round, for every host and all credentials

  datatype Talk = Talk(client: seq<byte>, server: seq<byte>)

  /** What both sides have sent after `k` rounds, each answering what the other had sent before. */
  function Round(p: Policy, u: Upstream, host: seq<byte>, port: u16, k: nat): Talk {
    var client := Dial(u, host, port, if k == 0 then [] else Round(p, u, host, port, k - 1).server).sent;
    Talk(client, Serve(p, client).sent)
  }

  /** Who the server takes the client for, and what it leaves unread. */
  function Identity(u: Upstream): Read<Credentials>
    requires u.username.Some?
  {
    DecodeCredentials(AuthRequest(CredentialsOf(u)))
  }

  /** The relay the client's messages ask for, as the server reads them. */
  function Asked(u: Upstream, host: seq<byte>, port: u16, isIp: seq<byte> -> bool): Option<Relay> {
    if u.username.None? then None
    else
      match Identity(u)
      case Failed(_) => None
      case Got(c, left) =>
        match DecodeConnect(left + ConnectRequest(host, port), isIp)
        case Failed(_) => None
        case Got(t, _) => Some(Relay(c, t))
  }

  /** The relay that starts in the end. */
  function Started(p: Policy, u: Upstream, host: seq<byte>, port: u16): Option<Relay> {
    var r := Asked(u, host, port, p.isIp);
    if p.gate.Open? && r.Some? && p.accepts(r.value.creds) && p.admits(r.value.creds)
       && p.connect(r.value.creds, r.value.target).Connected?
    then r else None
  }

  /** The client gets to send its request. */
  predicate LetIn(p: Policy, u: Upstream) {
    p.gate.Open? && u.username.Some? && Identity(u).Got? && p.accepts(Identity(u).value)
  }

  /** All the client sends. */
  function Said(p: Policy, u: Upstream, host: seq<byte>, port: u16): seq<byte> {
    if !p.gate.Open? || u.username.None? then Greeting(u.username.Some?)
    else Greeting(true) + (AuthRequest(CredentialsOf(u)) + if LetIn(p, u) then ConnectRequest(host, port) else [])
  }

  lemma ShutOut(p: Policy, u: Upstream, host: seq<byte>, port: u16)
    requires !p.gate.Open? || u.username.None?
    ensures var s := Serve(p, Greeting(u.username.Some?));
      s.relay == None && Dial(u, host, port, s.sent) == Abandoned(Greeting(u.username.Some?))
  {
    hide DecodeGreeting, Greeting, DialAuth, DialConnect;
    assert Greeting(u.username.Some?) + [] == Greeting(u.username.Some?);
    GreetingUnderstood(u.username.Some?, []);
  }

  /** The server behind the greeting, and the client behind the method selection. */
  lemma PastGreeting(p: Policy, u: Upstream, host: seq<byte>, port: u16, later: seq<byte>)
    requires p.gate.Open? && u.username.Some?
    ensures Serve(p, Greeting(true) + later) == After([SOCKS_VERSION, AUTH_PASSWORD], ServeAuth(p, later))
    ensures var s := ServeAuth(p, later).sent;
      Dial(u, host, port, [SOCKS_VERSION, AUTH_PASSWORD] + s)
      == Before(Greeting(true), DialAuth(CredentialsOf(u), host, port, s))
  {
    hide DecodeGreeting, Greeting, ServeAuth, DialAuth, DialConnect;
    GreetingUnderstood(true, later);
    var input := [SOCKS_VERSION, AUTH_PASSWORD] + ServeAuth(p, later).sent;
    assert input[2..] == ServeAuth(p, later).sent;
  }

  /** The authentication alone, and with the request behind it. */
  lemma PastAuth(p: Policy, u: Upstream, host: seq<byte>, port: u16)
    requires p.gate.Open? && u.username.Some?
    ensures var c, a, q := CredentialsOf(u), AuthRequest(CredentialsOf(u)), ConnectRequest(host, port);
      && DialAuth(c, host, port, []).sent == a
      && DialAuth(c, host, port, ServeAuth(p, a).sent).sent == (a + if LetIn(p, u) then q else [])
      && (!LetIn(p, u) ==> ServeAuth(p, a).relay == None && !DialAuth(c, host, port, ServeAuth(p, a).sent).open)
  {
    hide DecodeCredentials, AuthRequest, ServeConnect, DialConnect, ConnectRequest;
    var a, d := AuthRequest(CredentialsOf(u)), Identity(u);
    assert a + [] == a;
    if LetIn(p, u) {
      var s := ServeConnect(p, d.value, d.rest).sent;
      assert ([SUBNEG_VERSION, AUTH_SUCCESS] + s)[2..] == s;
      SendsRequest(host, port, s);
    }
  }

  /** Once let in: the request is read behind what the authentication left. */
  lemma PastRequest(p: Policy, u: Upstream, host: seq<byte>, port: u16)
    requires LetIn(p, u)
    ensures var c, q, d := CredentialsOf(u), ConnectRequest(host, port), Identity(u);
      var s := ServeAuth(p, AuthRequest(c) + q);
      && s == After([SUBNEG_VERSION, AUTH_SUCCESS], ServeConnect(p, d.value, d.rest + q))
      && DialAuth(c, host, port, s.sent)
         == Before(AuthRequest(c), DialConnect(host, port, ServeConnect(p, d.value, d.rest + q).sent))
  {
    hide DecodeCredentials, AuthRequest, ServeConnect, DialConnect, ConnectRequest;
    var c, q, d := CredentialsOf(u), ConnectRequest(host, port), Identity(u);
    CredentialsMore(AuthRequest(c), q);
    var s := ServeConnect(p, d.value, d.rest + q).sent;
    assert ([SUBNEG_VERSION, AUTH_SUCCESS] + s)[2..] == s;
  }

  /** The end of the talk: nothing more is sent, and the outcome on both sides. */
  lemma Ends(p: Policy, u: Upstream, host: seq<byte>, port: u16)
    ensures var s := Serve(p, Said(p, u, host, port));
      var d := Dial(u, host, port, s.sent);
      && d.sent == Said(p, u, host, port)
      && s.relay == Started(p, u, host, port) && (d.open <==> s.relay.Some?)
  {
    hide DecodeCredentials, DecodeConnect, AuthRequest, Greeting, Serve, Dial, ServeAuth, DialAuth, ServeConnect, DialConnect, ConnectRequest;
    if !p.gate.Open? || u.username.None? {
      ShutOut(p, u, host, port);
    } else {
      var a, q := AuthRequest(CredentialsOf(u)), ConnectRequest(host, port);
      PastAuth(p, u, host, port);
      if LetIn(p, u) {
        var d := Identity(u);
        PastGreeting(p, u, host, port, a + q);
        PastRequest(p, u, host, port);
        ServerDecides(p, d.value, host, port, d.rest + q, []);
        var s := ServeConnect(p, d.value, d.rest + q).sent;
        assert s + [] == s;
        SendsRequest(host, port, s);
      } else {
        assert a + [] == a;
        PastGreeting(p, u, host, port, a);
      }
    }
  }

  lemma {:induction false} Settles(p: Policy, u: Upstream, host: seq<byte>, port: u16, k: nat)
    requires k >= 2
    ensures Round(p, u, host, port, k).client == Said(p, u, host, port)
  {
    hide Serve, Dial, ServeAuth, DialAuth, Said;
    if k > 2 {
      Settles(p, u, host, port, k - 1);
      Ends(p, u, host, port);
    } else {
      FirstRounds(p, u, host, port);
    }
  }

  lemma FirstRounds(p: Policy, u: Upstream, host: seq<byte>, port: u16)
    ensures Round(p, u, host, port, 2).client == Said(p, u, host, port)
  {
    hide Serve, Dial, ServeAuth, DialAuth, LetIn, Greeting;
    var r0, r1 := Round(p, u, host, port, 0), Round(p, u, host, port, 1);
    Hello(u, host, port);
    if !p.gate.Open? || u.username.None? {
      ShutOut(p, u, host, port);
    } else {
      var a := AuthRequest(CredentialsOf(u));
      PastGreeting(p, u, host, port, []);
      assert Greeting(true) + [] == Greeting(true);
      NoAuthYet(p);
      PastAuth(p, u, host, port);
      assert r1.client == Greeting(true) + a;
      PastGreeting(p, u, host, port, a);
    }
  }

  lemma Hello(u: Upstream, host: seq<byte>, port: u16)
    ensures Dial(u, host, port, []).sent == Greeting(u.username.Some?)
  {
  }

  lemma NoAuthYet(p: Policy)
    ensures ServeAuth(p, []).sent == []
  {
  }

  /** For every host and all credentials, whatever their lengths: after two rounds nothing more is
      sent, the server relays exactly what it reads in the client's messages, and the client has a
      tunnel exactly when it does. */
  lemma TalkDecides(p: Policy, u: Upstream, host: seq<byte>, port: u16, k: nat)
    requires k >= 2
    ensures var t := Round(p, u, host, port, k);
      && InStep(p, u, host, port, t.client, t.server)
      && Serve(p, t.client).relay == Started(p, u, host, port)
      && (Dial(u, host, port, t.server).open <==> Started(p, u, host, port).Some?)
  {
    hide Serve, Dial, Said, Started;
    Settles(p, u, host, port, k);
    Ends(p, u, host, port);
  }

  // ---------------------------------------------------------------------------
  // When another relay than the client's own can start

  function Own(u: Upstream, host: seq<byte>, port: u16): Relay
    requires u.username.Some?
  {
    Relay(CredentialsOf(u), Domain(host, port))
  }

  /** No server that tells addresses by `isIp` ever relays anything but the client's own request. */
  ghost predicate NeverMisrelays(u: Upstream, host: seq<byte>, port: u16, isIp: seq<byte> -> bool)
    requires u.username.Some?
  {
    forall p: Policy :: p.isIp == isIp ==> Started(p, u, host, port) in {None, Some(Own(u, host, port))}
  }

  /** That is so exactly when the messages, as read, ask for nothing else. */
  lemma NeverMisrelaysIff(u: Upstream, host: seq<byte>, port: u16, isIp: seq<byte> -> bool)
    requires u.username.Some?
    ensures NeverMisrelays(u, host, port, isIp)
            <==> Asked(u, host, port, isIp) in {None, Some(Own(u, host, port))}
  {
    hide Asked;
    var anyone := Policy(Open, _ => true, _ => true, (_, _) => Connected(NO_ADDR), isIp);
    assert Started(anyone, u, host, port) == Asked(u, host, port, isIp);
  }

  lemma AskedFits(u: Upstream, host: seq<byte>, port: u16, isIp: seq<byte> -> bool)
    requires u.username.Some? && CredentialsFit(CredentialsOf(u))
    ensures var c, t := CredentialsOf(u), TargetRead(host, port, isIp);
      Asked(u, host, port, isIp)
      == if c.username != [] && c.password != [] && t.Some? then Some(Relay(c, t.value)) else None
  {
    hide ValidUtf8, DecodeCredentials, DecodeConnect, AuthRequest, ConnectRequest, TargetRead;
    var c, q := CredentialsOf(u), ConnectRequest(host, port);
    assert AuthRequest(c) + [] == AuthRequest(c) && [] + q == q == q + [];
    CredentialsUnderstood(c, []);
    ConnectRead(host, port, [], isIp);
  }

  /** With credentials whose lengths fit: exactly when the host's length fits too, or what is left
      of it after the cut is not a name the server accepts. */
  lemma NeverMisrelaysFitIff(u: Upstream, host: seq<byte>, port: u16, isIp: seq<byte> -> bool)
    requires u.username.Some? && CredentialsFit(CredentialsOf(u))
    requires CredentialsOf(u).username != [] && CredentialsOf(u).password != []
    ensures NeverMisrelays(u, host, port, isIp)
            <==> |host| <= 255 || !ValidDomain(host[..|host| % 256], isIp)
  {
    hide ValidUtf8, ValidDomain, NeverMisrelays, Asked, TargetRead;
    NeverMisrelaysIff(u, host, port, isIp);
    AskedFits(u, host, port, isIp);
    TargetReadIff(host, port, isIp);
  }

  /** Such a host: the client has its tunnel, and the server relays to a shorter name on a port made
      of the host's next two bytes; the rest of the host goes into the relay. */
  lemma CutHostRelayed(p: Policy, u: Upstream, host: seq<byte>, port: u16)
    requires Fits(u) && Opens(p, u, host, port) && |host| > 255
    ensures var t, n := Round(p, u, host, port, 2), |host| % 256;
      var target := Domain(host[..n], PortOf(host[n], host[n + 1]));
      && target != Domain(host, port)
      && InStep(p, u, host, port, t.client, t.server)
      && Dial(u, host, port, t.server).open
      && Serve(p, t.client).relay == Some(Relay(CredentialsOf(u), target))
      && Serve(p, t.client).rest == host[n + 2..] + PortBytes(port)
  {
    hide Serve, Dial, Round, Asked, Started, ValidUtf8;
    var t, n := Round(p, u, host, port, 2), |host| % 256;
    TalkDecides(p, u, host, port, 2);
    TunnelIffRelay(p, u, host, port, t.client, t.server);
    CutParts(host, port, p.isIp);
  }

  lemma CutParts(host: seq<byte>, port: u16, isIp: seq<byte> -> bool)
    requires |host| > 255 && TargetRead(host, port, isIp).Some?
    ensures var n := |host| % 256;
      && n + 2 <= |host|
      && TargetRead(host, port, isIp).value == Domain(host[..n], PortOf(host[n], host[n + 1]))
      && Left(host, port) == host[n + 2..] + PortBytes(port)
  {
    hide ValidDomain;
    DomainLength(NameRead(host), isIp);
    var n := |host| % 256;
    assert |host[..n]| == n;
    assert host[n..] + PortBytes(port) == [host[n], host[n + 1]] + (host[n + 2..] + PortBytes(port));
  }

  /** Over-long credentials are read as others, but as long as they hold no byte 5 what they leave
      unread is no request: no relay ever starts. */
  lemma OverlongNeverRelays(p: Policy, u: Upstream, host: seq<byte>, port: u16)
    requires u.username.Some?
    requires var c := CredentialsOf(u);
      && ValidUtf8(c.username) && ValidUtf8(c.password)
      && SOCKS_VERSION !in c.username && SOCKS_VERSION !in c.password
      && (|c.username| > 255 || |c.password| > 255)
    ensures Started(p, u, host, port) == None
  {
    hide ValidUtf8, DecodeCredentials, AuthRequest, ConnectRequest, DecodeConnect;
    var d := Identity(u);
    LeftIsNoRequest(CredentialsOf(u));
    if d.Got? { NoRequest(d.rest + ConnectRequest(host, port), p.isIp); }
  }

  lemma NoRequest(s: seq<byte>, isIp: seq<byte> -> bool)
    requires s != [] && s[0] != SOCKS_VERSION
    ensures DecodeConnect(s, isIp).Failed?
  {
  }

  /** A cut field: its start, and the rest of it unread. */
  lemma CutField(f: seq<byte>, rest: seq<byte>)
    requires |f| > 255
    ensures var n := |f| % 256;
      DecodeField([n] + f + rest) == if n == 0 then Failed([]) else Got(f[..n], f[n..] + rest)
  {
    var n := |f| % 256;
    var s := [n] + f + rest;
    if n > 0 {
      assert s[1..1 + n] == f[..n] && s[1 + n..] == f[n..] + rest;
    }
  }

  lemma LeftIsNoRequest(c: Credentials)
    requires ValidUtf8(c.username) && ValidUtf8(c.password)
    requires SOCKS_VERSION !in c.username && SOCKS_VERSION !in c.password
    requires |c.username| > 255 || |c.password| > 255
    ensures var d := DecodeCredentials(AuthRequest(c));
      d.Got? ==> d.rest != [] && d.rest[0] != SOCKS_VERSION
  {
    hide ValidUtf8, DecodeField;
    var a, tail := AuthRequest(c), [|c.password| % 256] + c.password;
    assert a[1..] == [|c.username| % 256] + c.username + tail;
    if |c.username| > 255 {
      CutField(c.username, tail);
      TextBounded(c.username);
      var n := |c.username| % 256;
      if n > 0 { InsideName(c.username, n, tail); }
    } else {
      FieldUnderstood(c.username, tail);
      FieldLength(a[1..]);
      assert tail + [] == tail;
      CutField(c.password, []);
      var n := |c.password| % 256;
      assert n < |c.password| && (c.password[n..] + [])[0] == c.password[n];
    }
  }

  /** The password read lies within the rest of the user name, and more of it follows. */
  lemma InsideName(name: seq<byte>, n: nat, tail: seq<byte>)
    requires |name| >= n + 256 && SOCKS_VERSION !in name && forall i :: 0 <= i < |name| ==> name[i] <= 0xF4
    ensures var d := DecodeField(name[n..] + tail);
      d.Got? ==> d.rest != [] && d.rest[0] != SOCKS_VERSION
  {
    var s, k: nat := name[n..] + tail, name[n];
    assert s[0] == name[n] && s[1 + k] == name[n + 1 + k];
  }

  // ---------------------------------------------------------------------------
  // The program: reads and writes on a stream

  class Stream {
    var input: seq<byte>
    var output: seq<byte>

    constructor (bytes: seq<byte>)
      ensures input == bytes && output == []
    {
      input, output := bytes, [];
    }

    /** Reads `n` bytes, or fails at the end of the stream. */
    method ReadExact(n: nat) returns (r: Option<seq<byte>>)
      modifies `input
      ensures if n <= |old(input)| then r == Some(old(input)[..n]) && input == old(input)[n..] else r.None?
    {
      if n > |input| { return None; }
      r, input := Some(input[..n]), input[n..];
    }

    method ReadByte() returns (r: Option<byte>)
      modifies `input
      ensures if old(input) != [] then r == Some(old(input)[0]) && input == old(input)[1..] else r.None?
    {
      if input == [] { return None; }
      r, input := Some(input[0]), input[1..];
    }

    method WriteAll(bytes: seq<byte>)
      modifies `output
      ensures output == old(output) + bytes
    {
      output := output + bytes;
    }
  }

  /** What a reader leaves behind: the value read and the bytes behind it, or the reply sent. */
  predicate Reads<T(==)>(expected: Read<T>, r: Option<T>, input: seq<byte>, before: seq<byte>, output: seq<byte>) {
    match expected
    case Got(value, rest) => r == Some(value) && input == rest && output == before
    case Failed(reply) => r.None? && output == before + reply
  }

  method ReadGreeting(stream: Stream) returns (r: Option<seq<byte>>)
    modifies stream
    ensures Reads(DecodeGreeting(old(stream.input)), r, stream.input, old(stream.output), stream.output)
  {
    var ver := stream.ReadByte();
    if ver != Some(SOCKS_VERSION) { return None; }
    var n := stream.ReadByte();
    if n.None? || n == Some(0) { return None; }
    assert stream.input == old(stream.input)[2..];
    r := stream.ReadExact(n.value);
    assert r.Some? ==> r.value == old(stream.input)[2..2 + n.value as int];
  }

  method ReadField(stream: Stream) returns (r: Option<seq<byte>>)
    modifies stream
    ensures Reads(DecodeField(old(stream.input)), r, stream.input, old(stream.output), stream.output)
  {
    var n := stream.ReadByte();
    if n.None? || n == Some(0) { return None; }
    r := stream.ReadExact(n.value);
    assert r.Some? ==> r.value == old(stream.input)[1..1 + n.value as int];
  }

  method ReadCredentials(stream: Stream) returns (r: Option<Credentials>)
    modifies stream
    ensures Reads(DecodeCredentials(old(stream.input)), r, stream.input, old(stream.output), stream.output)
  {
    hide ValidUtf8, DecodeField;
    var ver := stream.ReadByte();
    if ver != Some(SUBNEG_VERSION) { return None; }
    FieldReply(stream.input);
    var user := ReadField(stream);
    if user.None? { return None; }
    FieldReply(stream.input);
    var pass := ReadField(stream);
    if pass.None? || !ValidUtf8(user.value) || !ValidUtf8(pass.value) { return None; }
    r := Some(Credentials(user.value, pass.value));
  }

  lemma FieldReply(s: seq<byte>)
    ensures DecodeField(s).Failed? ==> DecodeField(s).reply == []
  {
  }

  method ReadAddress(stream: Stream, atyp: byte) returns (r: Option<TargetAddr>)
    requires atyp == ATYP_IPV4 || atyp == ATYP_IPV6
    modifies stream
    ensures
      var s := [atyp] + old(stream.input);
      Reads(if StartsWithAddr(s) then Got(AddrOf(s), s[AddrLength(s)..]) else Failed([]),
            r, stream.input, old(stream.output), stream.output)
  {
    ghost var s := [atyp] + stream.input;
    var n := if atyp == ATYP_IPV4 then 4 else 16;
    var ip := stream.ReadExact(n);
    if ip.None? { return None; }
    assert ip.value == s[1..n + 1];
    var port := stream.ReadExact(2);
    if port.None? { return None; }
    assert stream.input == s[AddrLength(s)..];
    assert port.value == [s[n + 1], s[n + 2]];
    var p := PortOf(port.value[0], port.value[1]);
    r := Some(if atyp == ATYP_IPV4 then Ipv4(ip.value, p) else Ipv6(ip.value, p));
  }

  method ReadName(stream: Stream, isIp: seq<byte> -> bool) returns (r: Option<TargetAddr>)
    modifies stream
    ensures Reads(DecodeName(old(stream.input), isIp), r, stream.input, old(stream.output), stream.output)
  {
    hide ValidUtf8, ValidDomain;
    var len := stream.ReadByte();
    if len.None? || len == Some(0) || len.value > MAX_DOMAIN_LENGTH { return None; }
    var name := stream.ReadExact(len.value);
    assert name.Some? ==> name.value == old(stream.input)[1..1 + len.value as int];
    if name.None? || !ValidUtf8(name.value) { return None; }
    var valid := ValidateDomain(name.value, isIp);
    if !valid {
      stream.WriteAll(Reply(REPLY_HOST_UNREACHABLE, NO_ADDR));
      return None;
    }
    var port := stream.ReadExact(2);
    if port.None? { return None; }
    r := Some(Domain(name.value, PortOf(port.value[0], port.value[1])));
  }

  method ReadConnectRequest(stream: Stream, isIp: seq<byte> -> bool) returns (r: Option<TargetAddr>)
    modifies stream
    ensures Reads(DecodeConnect(old(stream.input), isIp), r, stream.input, old(stream.output), stream.output)
  {
    hide ValidUtf8, DecodeName;
    ghost var s := stream.input;
    var ver := stream.ReadByte();
    if ver != Some(SOCKS_VERSION) { return None; }
    var cmd := stream.ReadByte();
    if cmd.None? { return None; }
    if cmd.value != CMD_CONNECT {
      stream.WriteAll(Reply(REPLY_COMMAND_NOT_SUPPORTED, NO_ADDR));
      return None;
    }
    var rsv := stream.ReadByte();
    if rsv.None? { return None; }
    var atyp := stream.ReadByte();
    if atyp.None? { return None; }
    assert stream.input == s[4..];
    if atyp.value == ATYP_DOMAIN {
      r := ReadName(stream, isIp);
    } else if atyp.value == ATYP_IPV4 || atyp.value == ATYP_IPV6 {
      assert [atyp.value] + stream.input == s[3..];
      r := ReadAddress(stream, atyp.value);
    } else {
      stream.WriteAll(Reply(REPLY_ADDRESS_TYPE_NOT_SUPPORTED, NO_ADDR));
      return None;
    }
  }

  /** The server's side of the handshake. */
  method Socks5Handshake(stream: Stream, p: Policy) returns (r: Option<Relay>)
    modifies stream
    ensures
      var s := Serve(p, old(stream.input));
      && r == s.relay
      && stream.output == old(stream.output) + s.sent
      && (r.Some? ==> stream.input == s.rest)
  {
    hide DecodeGreeting, DecodeCredentials, DecodeConnect, Reply;
    if p.gate.Banned? {
      NoReply(stream.input);
      var _ := ReadGreeting(stream);
      stream.WriteAll([SOCKS_VERSION, AUTH_NO_ACCEPTABLE]);
      return None;
    }
    if p.gate.Limited? { return None; }
    NoReply(stream.input);
    var methods := ReadGreeting(stream);
    if methods.None? { return None; }
    if AUTH_PASSWORD !in methods.value {
      stream.WriteAll([SOCKS_VERSION, AUTH_NO_ACCEPTABLE]);
      return None;
    }
    stream.WriteAll([SOCKS_VERSION, AUTH_PASSWORD]);
    NoReply(stream.input);
    var creds := ReadCredentials(stream);
    if creds.None? { return None; }
    if !p.accepts(creds.value) {
      stream.WriteAll([SUBNEG_VERSION, AUTH_FAILURE]);
      return None;
    }
    stream.WriteAll([SUBNEG_VERSION, AUTH_SUCCESS]);
    if !p.admits(creds.value) { return None; }
    var target := ReadConnectRequest(stream, p.isIp);
    if target.None? { return None; }
    match p.connect(creds.value, target.value) {
      case Connected(bind) =>
        stream.WriteAll(Reply(REPLY_SUCCESS, bind));
        r := Some(Relay(creds.value, target.value));
      case NotConnected(e) =>
        stream.WriteAll(Reply(ErrorReply(e), NO_ADDR));
        r := None;
    }
  }

  lemma NoReply(s: seq<byte>)
    ensures DecodeGreeting(s).Failed? ==> DecodeGreeting(s).reply == []
    ensures DecodeCredentials(s).Failed? ==> DecodeCredentials(s).reply == []
  {
  }

  /** A stream read through a buffer: `arrived` is what the reads of the socket return, `read` how
      many bytes were taken so far. */
  class BufferedStream {
    ghost const arrived: seq<seq<byte>>
    ghost var read: nat
    var buffer: seq<byte>
    var chunks: seq<seq<byte>>
    var output: seq<byte>

    ghost predicate Valid()
      reads this
    {
      Arrivals(arrived) && read <= |Concat(arrived)| && Reader(buffer, chunks) == Reached(arrived, read)
    }

    constructor (chunks: seq<seq<byte>>)
      requires Arrivals(chunks)
      ensures Valid() && arrived == chunks && read == 0 && output == []
    {
      arrived, read := chunks, 0;
      buffer, this.chunks, output := [], chunks, [];
    }

    /** Takes `n` bytes, refilling the buffer whenever it runs empty. */
    method ReadExact(n: nat) returns (r: Option<seq<byte>>)
      requires Valid()
      modifies `read, `buffer, `chunks
      ensures Valid()
      ensures if old(read) + n <= |Concat(arrived)|
              then read == old(read) + n && r == Some(Concat(arrived)[old(read)..read])
              else r.None?
    {
      hide Reached, Concat;
      var got := [];
      while |got| < n
        invariant Valid() && read == old(read) + |got| && |got| <= n
        invariant got == Concat(arrived)[old(read)..read]
        decreases n - |got|
      {
        ReachedPending(arrived, read);
        if buffer == [] {
          if chunks == [] {
            NothingLeft();
            return None;
          }
          NextChunk(arrived, read);
          buffer, chunks := chunks[0], chunks[1..];
        }
        var k := if n - |got| < |buffer| then n - |got| else |buffer|;
        Taken(arrived, read, k, buffer, chunks);
        got := got + buffer[..k];
        buffer, read := buffer[k..], read + k;
      }
      r := Some(got);
    }

    method WriteAll(bytes: seq<byte>)
      modifies `output
      ensures output == old(output) + bytes
    {
      output := output + bytes;
    }
  }

  lemma NothingLeft()
    ensures Concat<byte>([]) == []
  {
  }

  /** `buffer` holds the bytes behind the first `m`, refilled if it was empty. */
  predicate Ahead(arrived: seq<seq<byte>>, m: nat, buffer: seq<byte>, chunks: seq<seq<byte>>) {
    buffer != [] && (Reached(arrived, m) == Reader(buffer, chunks) || Reached(arrived, m) == Reader([], [buffer] + chunks))
  }

  lemma {:induction false} NextChunk(arrived: seq<seq<byte>>, m: nat)
    requires Arrivals(arrived) && Reached(arrived, m).buffer == [] && Reached(arrived, m).chunks != []
    ensures var next := Reached(arrived, m).chunks; Ahead(arrived, m, next[0], next[1..])
    decreases |arrived|
  {
    var next := Reached(arrived, m).chunks;
    assert [next[0]] + next[1..] == next;
    if m > 0 && arrived != [] && m >= |arrived[0]| { NextChunk(arrived[1..], m - |arrived[0]|); }
  }

  lemma {:induction false} ReachedMore(arrived: seq<seq<byte>>, m: nat, k: nat, buffer: seq<byte>, chunks: seq<seq<byte>>)
    requires Ahead(arrived, m, buffer, chunks) && 0 < k <= |buffer|
    ensures Reached(arrived, m + k) == Reader(buffer[k..], chunks)
    decreases |arrived|
  {
    if arrived != [] {
      var c := arrived[0];
      if m > 0 && m >= |c| {
        ReachedMore(arrived[1..], m - |c|, k, buffer, chunks);
      } else {
        assert m == 0 ==> buffer == c && chunks == arrived[1..];
        assert c[m..][k..] == c[m + k..];
        assert m + k == |c| ==> Reached(arrived, m + k) == Reached(arrived[1..], 0);
      }
    }
  }

  lemma Taken(arrived: seq<seq<byte>>, m: nat, k: nat, buffer: seq<byte>, chunks: seq<seq<byte>>)
    requires m <= |Concat(arrived)| && Ahead(arrived, m, buffer, chunks) && 0 < k <= |buffer|
    ensures m + k <= |Concat(arrived)| && Concat(arrived)[m..m + k] == buffer[..k]
    ensures Reached(arrived, m + k) == Reader(buffer[k..], chunks)
  {
    hide Reached;
    ReachedMore(arrived, m, k, buffer, chunks);
    ReachedPending(arrived, m);
    var all, rest := Concat(arrived), buffer + Concat(chunks);
    assert ([buffer] + chunks)[1..] == chunks;
    assert all[m..] == rest;
    assert all[m..m + k] == all[m..][..k] == rest[..k];
  }

  /** The client's side: opens a tunnel through the upstream proxy and hands over the socket, without
      what is still in the buffer. */
  method ConnectViaSocks5(stream: BufferedStream, u: Upstream, host: seq<byte>, port: u16)
    returns (tunnel: Option<seq<seq<byte>>>)
    requires stream.Valid() && stream.read == 0
    modifies stream
    ensures
      var t := DialBuffered(u, host, port, stream.arrived);
      && (tunnel.Some? <==> t.open)
      && stream.output == old(stream.output) + t.sent
      && (tunnel.Some? ==> Concat(tunnel.value) == t.rest)
  {
    hide AuthRequest, ConnectRequest, Concat, Reached, DialConnect;
    ghost var all := Concat(stream.arrived);
    assert all[0..] == all;
    stream.WriteAll(Greeting(u.username.Some?));
    var selection := stream.ReadExact(2);
    if selection.None? || selection.value[0] != SOCKS_VERSION { return None; }
    assert selection.value == all[..2];
    var selected := selection.value[1];
    if selected == AUTH_NO_ACCEPTABLE { return None; }
    if selected == AUTH_PASSWORD {
      if u.username.None? { return None; }
      stream.WriteAll(AuthRequest(CredentialsOf(u)));
      var status := stream.ReadExact(2);
      assert |all| >= 4 ==> all[2..][2..] == all[4..];
      if status.None? || status.value[1] != 0x00 { return None; }
      assert status.value == all[2..4];
    } else if selected != AUTH_NONE {
      return None;
    }
    var open := RequestConnect(stream, host, port);
    tunnel := if open then Some(stream.chunks) else None;
  }

  /** The request and its reply; on success exactly the reply has been taken. */
  method RequestConnect(stream: BufferedStream, host: seq<byte>, port: u16) returns (open: bool)
    requires stream.Valid()
    modifies stream
    ensures stream.Valid()
    ensures
      var t := DialConnect(host, port, Concat(stream.arrived)[old(stream.read)..]);
      && open == t.open
      && stream.output == old(stream.output) + t.sent
      && (open ==> Concat(stream.arrived)[stream.read..] == t.rest)
  {
    hide ConnectRequest, Concat, Reached;
    ghost var all, m := Concat(stream.arrived), stream.read;
    ghost var s := all[m..];
    stream.WriteAll(ConnectRequest(host, port));
    var header := stream.ReadExact(4);
    if header.None? { return false; }
    assert header.value == s[..4];
    if header.value[0] != SOCKS_VERSION || header.value[1] != REPLY_SUCCESS { return false; }
    assert s[3..][0] == header.value[3];
    var bind: Option<seq<byte>>;
    if header.value[3] == ATYP_IPV4 {
      bind := stream.ReadExact(6);
    } else if header.value[3] == ATYP_IPV6 {
      bind := stream.ReadExact(18);
    } else if header.value[3] == ATYP_DOMAIN {
      var len := stream.ReadExact(1);
      if len.None? { return false; }
      assert len.value[0] == all[m + 4] == s[3..][1];
      var n: nat := len.value[0];
      bind := stream.ReadExact(n + 2);
    } else {
      return false;
    }
    open := bind.Some?;
    if open { assert all[stream.read..] == s[stream.read - m..]; }
  }
}

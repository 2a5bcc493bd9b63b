/** The auto-ban manager, against a log that never forgets a failure. */
module Bans {
  import opened Acl
  import opened Tally

  const MAX_TRACKED: nat := 100_000

  /** Times and durations in the clock's own unit. */
  datatype Config = Config(enabled: bool, threshold: nat, window: nat, duration: nat, whitelist: seq<IpNet>)

  predicate Whitelisted(cfg: Config, ip: IpAddr) {
    exists n :: n in cfg.whitelist && Contains(n, ip)
  }

  predicate Watched(cfg: Config, ip: IpAddr) { cfg.enabled && !Whitelisted(cfg, ip) }

  type Failures = map<IpAddr, seq<nat>>
  type BanTable = map<IpAddr, nat>

  datatype State = State(cfg: Config, failures: Failures, bans: BanTable)

  function FailuresOf(f: Failures, ip: IpAddr): seq<nat> { if ip in f then f[ip] else [] }

  predicate Fresh(now: nat, t: nat, window: nat) { (if now >= t then now - t else 0) < window }

  /** The failures younger than the window. */
  function Recent(ts: seq<nat>, now: nat, window: nat): seq<nat> {
    if ts == [] then []
    else
      Recent(ts[..|ts| - 1], now, window) +
      if Fresh(now, ts[|ts| - 1], window) then [ts[|ts| - 1]] else []
  }

  function LiveBans(bans: BanTable, now: nat): BanTable { map ip | ip in bans && now < bans[ip] :: bans[ip] }

  // ---------------------------------------------------------------------------
  // Operations of the manager, without the cap on the length of a failure list

  function RecordFailure(s: State, ip: IpAddr, now: nat): State {
    if !Watched(s.cfg, ip) || (ip !in s.failures && |s.failures| >= MAX_TRACKED) then s
    else
      var f := Recent(FailuresOf(s.failures, ip), now, s.cfg.window) + [now];
      if |f| >= s.cfg.threshold
      then State(s.cfg, s.failures[ip := []], s.bans[ip := now + s.cfg.duration])
      else s.(failures := s.failures[ip := f])
  }

  function IsBanned(s: State, ip: IpAddr, now: nat): (State, bool) {
    if !Watched(s.cfg, ip) then (s, false)
    else if ip in s.bans && now >= s.bans[ip] then (s.(bans := s.bans - {ip}), false)
    else (s, ip in s.bans)
  }

  function CleanupStale(s: State, now: nat): State {
    State(s.cfg,
          map ip | ip in s.failures && Recent(s.failures[ip], now, s.cfg.window) != [] ::
            Recent(s.failures[ip], now, s.cfg.window),
          LiveBans(s.bans, now))
  }

  datatype Op =
    | Failure(ip: IpAddr, now: nat)
    | Query(ip: IpAddr, now: nat)
    | List(now: nat)
    | ManualBan(ip: IpAddr, length: nat, now: nat)
    | Unban(ip: IpAddr, now: nat)
    | Cleanup(now: nat)
    | Reconfigure(cfg: Config, now: nat)

  /** What the operations answer; `unban` tells whether it removed an entry. */
  datatype Answer = Silent | Banned(yes: bool) | Listed(bans: BanTable) | Removed(yes: bool)

  function Do(s: State, op: Op): (State, Answer) {
    match op
    case Failure(ip, now) => (RecordFailure(s, ip, now), Silent)
    case Query(ip, now) => var r := IsBanned(s, ip, now); (r.0, Banned(r.1))
    case List(now) => (s, Listed(LiveBans(s.bans, now)))
    case ManualBan(ip, length, now) => (s.(bans := s.bans[ip := now + length]), Silent)
    case Unban(ip, _) => (s.(bans := s.bans - {ip}), Removed(ip in s.bans))
    case Cleanup(now) => (CleanupStale(s, now), Silent)
    case Reconfigure(cfg, _) => (s.(cfg := cfg), Silent)
  }

  // ---------------------------------------------------------------------------
  // The log specification

  /** Every failure of an address since its last automatic ban, and every ban ever made. */
  datatype Log = Log(cfg: Config, since: Failures, bans: BanTable)

  function LogFailure(l: Log, ip: IpAddr, now: nat): Log {
    if !Watched(l.cfg, ip) then l
    else if |Recent(FailuresOf(l.since, ip), now, l.cfg.window)| + 1 >= l.cfg.threshold
    then Log(l.cfg, l.since[ip := []], l.bans[ip := now + l.cfg.duration])
    else l.(since := l.since[ip := FailuresOf(l.since, ip) + [now]])
  }

  function LogDo(l: Log, op: Op): (Log, Answer) {
    match op
    case Failure(ip, now) => (LogFailure(l, ip, now), Silent)
    case Query(ip, now) => (l, Banned(Watched(l.cfg, ip) && ip in LiveBans(l.bans, now)))
    case List(now) => (l, Listed(LiveBans(l.bans, now)))
    case ManualBan(ip, length, now) => (l.(bans := l.bans[ip := now + length]), Silent)
    case Unban(ip, now) => (l.(bans := l.bans - {ip}), Removed(ip in LiveBans(l.bans, now)))
    case Cleanup(_) => (l, Silent)
    case Reconfigure(cfg, _) => (l.(cfg := cfg), Silent)
  }

  // ---------------------------------------------------------------------------
  // Lists of times

  lemma RecentAppend(ts: seq<nat>, t: nat, now: nat, window: nat)
    ensures Recent(ts + [t], now, window) == Recent(ts, now, window) + if Fresh(now, t, window) then [t] else []
  {
    assert (ts + [t])[..|ts|] == ts;
  }

  /** Pruning early, with a window at least as wide, loses nothing. */
  lemma {:induction false} RecentOfRecent(ts: seq<nat>, early: nat, wide: nat, now: nat, window: nat)
    requires early <= now && window <= wide
    ensures Recent(Recent(ts, early, wide), now, window) == Recent(ts, now, window)
    decreases |ts|
  {
    if ts != [] {
      var rest, t := ts[..|ts| - 1], ts[|ts| - 1];
      RecentOfRecent(rest, early, wide, now, window);
      RecentAppend(Recent(rest, early, wide), t, now, window);
      assert Fresh(now, t, window) ==> Fresh(early, t, wide);
      if !Fresh(early, t, wide) { assert Recent(ts, early, wide) == Recent(rest, early, wide); }
      if !Fresh(now, t, window) { assert Recent(ts, now, window) == Recent(rest, now, window); }
    }
  }

  // ---------------------------------------------------------------------------
  // The manager answers like the log

  /** Same failures within the window and same unexpired bans, now and at every later time. */
  ghost predicate SameFailures(a: seq<nat>, b: seq<nat>, clock: nat, window: nat) {
    forall now: nat :: now >= clock ==> Recent(a, now, window) == Recent(b, now, window)
  }

  /** When the ban of `ip` ends, or 0 if it has none that outlasts `clock`. */
  function BannedUntil(bans: BanTable, ip: IpAddr, clock: nat): nat {
    if ip in bans && clock < bans[ip] then bans[ip] else 0
  }

  ghost predicate SameBans(a: BanTable, b: BanTable, clock: nat) {
    forall ip :: BannedUntil(a, ip, clock) == BannedUntil(b, ip, clock)
  }

  ghost predicate Agrees(s: State, l: Log, clock: nat) {
    && s.cfg == l.cfg
    && (forall ip :: SameFailures(FailuresOf(s.failures, ip), FailuresOf(l.since, ip), clock, s.cfg.window))
    && SameBans(s.bans, l.bans, clock)
  }

  lemma SameFailuresLater(a: seq<nat>, b: seq<nat>, clock: nat, window: nat, clock': nat, window': nat)
    requires SameFailures(a, b, clock, window) && clock <= clock' && window' <= window
    ensures SameFailures(a, b, clock', window')
  {
    forall now: nat | now >= clock' ensures Recent(a, now, window') == Recent(b, now, window') {
      RecentOfRecent(a, now, window, now, window');
      RecentOfRecent(b, now, window, now, window');
    }
  }

  lemma AgreesLater(s: State, l: Log, clock: nat, now: nat)
    requires Agrees(s, l, clock) && clock <= now
    ensures Agrees(s, l, now)
  {
    forall ip ensures SameFailures(FailuresOf(s.failures, ip), FailuresOf(l.since, ip), now, s.cfg.window) {
      SameFailuresLater(FailuresOf(s.failures, ip), FailuresOf(l.since, ip), clock, s.cfg.window, now, s.cfg.window);
    }
    forall ip ensures BannedUntil(s.bans, ip, now) == BannedUntil(l.bans, ip, now) {
      assert BannedUntil(s.bans, ip, clock) == BannedUntil(l.bans, ip, clock);
    }
  }

  lemma SameAfterPush(a: seq<nat>, b: seq<nat>, now: nat, window: nat)
    requires SameFailures(a, b, now, window)
    ensures SameFailures(Recent(a, now, window) + [now], b + [now], now, window)
  {
    forall m: nat | m >= now
      ensures Recent(Recent(a, now, window) + [now], m, window) == Recent(b + [now], m, window)
    {
      RecentAppend(Recent(a, now, window), now, m, window);
      RecentAppend(b, now, m, window);
      RecentOfRecent(a, now, window, m, window);
    }
  }

  /** The manager is willing to track the address of a failure. */
  predicate RoomFor(s: State, op: Op) {
    op.Failure? && Watched(s.cfg, op.ip) ==> op.ip in s.failures || |s.failures| < MAX_TRACKED
  }

  lemma FailureAgrees(s: State, l: Log, ip: IpAddr, now: nat)
    requires Agrees(s, l, now) && RoomFor(s, Failure(ip, now))
    ensures Agrees(RecordFailure(s, ip, now), LogFailure(l, ip, now), now)
  {
    hide Recent, Watched;
    if Watched(s.cfg, ip) {
      var w, a, b := s.cfg.window, FailuresOf(s.failures, ip), FailuresOf(l.since, ip);
      assert SameFailures(a, b, now, w);
      assert Recent(a, now, w) == Recent(b, now, w);
      SameAfterPush(a, b, now, w);
      var s', l' := RecordFailure(s, ip, now), LogFailure(l, ip, now);
      forall i ensures SameFailures(FailuresOf(s'.failures, i), FailuresOf(l'.since, i), now, w) {
        assert SameFailures(FailuresOf(s.failures, i), FailuresOf(l.since, i), now, w);
      }
      BanAgrees(s.bans, l.bans, ip, now + s.cfg.duration, now);
    }
  }

  lemma BanAgrees(a: BanTable, b: BanTable, ip: IpAddr, until: nat, now: nat)
    requires SameBans(a, b, now)
    ensures SameBans(a[ip := until], b[ip := until], now)
    ensures SameBans(a - {ip}, b - {ip}, now)
  {
    var a', b' := a[ip := until], b[ip := until];
    forall i
      ensures BannedUntil(a', i, now) == BannedUntil(b', i, now)
      ensures BannedUntil(a - {ip}, i, now) == BannedUntil(b - {ip}, i, now)
    {
      assert BannedUntil(a, i, now) == BannedUntil(b, i, now);
    }
  }

  /** Forgetting expired bans changes nothing that is still in force. */
  lemma ExpiredForgotten(a: BanTable, b: BanTable, ip: IpAddr, now: nat)
    requires SameBans(a, b, now)
    ensures SameBans(LiveBans(a, now), b, now)
    ensures ip in a && now >= a[ip] ==> SameBans(a - {ip}, b, now)
  {
    forall i
      ensures BannedUntil(LiveBans(a, now), i, now) == BannedUntil(b, i, now)
      ensures ip in a && now >= a[ip] ==> BannedUntil(a - {ip}, i, now) == BannedUntil(b, i, now)
    {
      assert BannedUntil(a, i, now) == BannedUntil(b, i, now);
    }
  }

  lemma CleanupAgrees(s: State, l: Log, now: nat)
    requires Agrees(s, l, now)
    ensures Agrees(CleanupStale(s, now), l, now)
  {
    var c, w := CleanupStale(s, now), s.cfg.window;
    forall ip ensures SameFailures(FailuresOf(c.failures, ip), FailuresOf(l.since, ip), now, w) {
      var f := FailuresOf(s.failures, ip);
      assert FailuresOf(c.failures, ip) == Recent(f, now, w);
      assert SameFailures(f, FailuresOf(l.since, ip), now, w);
      forall m: nat | m >= now ensures Recent(Recent(f, now, w), m, w) == Recent(FailuresOf(l.since, ip), m, w) {
        RecentOfRecent(f, now, w, m, w);
      }
    }
    ExpiredForgotten(s.bans, l.bans, V4(0), now);
  }

  lemma ReconfigureAgrees(s: State, l: Log, cfg: Config, now: nat)
    requires Agrees(s, l, now) && cfg.window <= s.cfg.window
    ensures Agrees(s.(cfg := cfg), l.(cfg := cfg), now)
  {
    forall ip ensures SameFailures(FailuresOf(s.failures, ip), FailuresOf(l.since, ip), now, cfg.window) {
      SameFailuresLater(FailuresOf(s.failures, ip), FailuresOf(l.since, ip), now, s.cfg.window, now, cfg.window);
    }
  }

  lemma SameLists(a: BanTable, b: BanTable, now: nat)
    requires SameBans(a, b, now)
    ensures LiveBans(a, now) == LiveBans(b, now)
  {
    forall ip
      ensures ip in LiveBans(a, now) <==> ip in LiveBans(b, now)
      ensures ip in LiveBans(a, now) ==> LiveBans(a, now)[ip] == LiveBans(b, now)[ip]
    {
      assert BannedUntil(a, ip, now) == BannedUntil(b, ip, now);
    }
  }

  /** An `unban` that meets an entry which has expired and is still there. */
  predicate StaleUnban(s: State, op: Op) { op.Unban? && op.ip in s.bans && s.bans[op.ip] <= op.now }

  lemma DoAgrees(s: State, l: Log, op: Op, clock: nat)
    requires Agrees(s, l, clock) && clock <= op.now && RoomFor(s, op)
    requires op.Reconfigure? ==> op.cfg.window <= s.cfg.window
    ensures Agrees(Do(s, op).0, LogDo(l, op).0, op.now)
    ensures Do(s, op).1 == LogDo(l, op).1 <==> !StaleUnban(s, op)
  {
    AgreesLater(s, l, clock, op.now);
    match op {
      case Failure(ip, now) => FailureAgrees(s, l, ip, now);
      case Query(ip, now) =>
        assert BannedUntil(s.bans, ip, now) == BannedUntil(l.bans, ip, now);
        ExpiredForgotten(s.bans, l.bans, ip, now);
      case List(now) => SameLists(s.bans, l.bans, now);
      case ManualBan(ip, length, now) => BanAgrees(s.bans, l.bans, ip, now + length, now);
      case Unban(ip, now) =>
        BanAgrees(s.bans, l.bans, ip, 0, now);
        assert BannedUntil(s.bans, ip, now) == BannedUntil(l.bans, ip, now);
      case Cleanup(now) => CleanupAgrees(s, l, now);
      case Reconfigure(cfg, now) => ReconfigureAgrees(s, l, cfg, now);
    }
  }

  // ---------------------------------------------------------------------------
  // Whole runs

  function Init(cfg: Config): State { State(cfg, map[], map[]) }

  function LogInit(cfg: Config): Log { Log(cfg, map[], map[]) }

  function After(cfg: Config, ops: seq<Op>): State {
    if ops == [] then Init(cfg) else Do(After(cfg, ops[..|ops| - 1]), ops[|ops| - 1]).0
  }

  function LogAfter(cfg: Config, ops: seq<Op>): Log {
    if ops == [] then LogInit(cfg) else LogDo(LogAfter(cfg, ops[..|ops| - 1]), ops[|ops| - 1]).0
  }

  /** What the manager answers to `op` after the run. */
  function AnswerAfter(cfg: Config, ops: seq<Op>, op: Op): Answer { Do(After(cfg, ops), op).1 }

  function ConfigAfter(cfg: Config, ops: seq<Op>): Config {
    if ops == [] then cfg
    else
      var op := ops[|ops| - 1];
      if op.Reconfigure? then op.cfg else ConfigAfter(cfg, ops[..|ops| - 1])
  }

  /** The clock does not go back. */
  predicate Ordered(ops: seq<Op>, end: nat) {
    ops == [] || (ops[|ops| - 1].now <= end && Ordered(ops[..|ops| - 1], ops[|ops| - 1].now))
  }

  /** No reconfiguration widens the failure window. */
  predicate NeverWidens(cfg: Config, ops: seq<Op>) {
    ops == [] ||
    (var rest, op := ops[..|ops| - 1], ops[|ops| - 1];
     NeverWidens(cfg, rest) && (op.Reconfigure? ==> op.cfg.window <= ConfigAfter(cfg, rest).window))
  }

  /** Whenever a watched address fails, the manager tracks it or has room for it. */
  predicate HasRoom(cfg: Config, ops: seq<Op>) {
    ops == [] ||
    (var rest := ops[..|ops| - 1];
     HasRoom(cfg, rest) && RoomFor(After(cfg, rest), ops[|ops| - 1]))
  }

  lemma {:induction false} ConfigIs(cfg: Config, ops: seq<Op>)
    ensures After(cfg, ops).cfg == ConfigAfter(cfg, ops)
  {
    if ops != [] { ConfigIs(cfg, ops[..|ops| - 1]); }
  }

  lemma {:induction false} RunAgrees(cfg: Config, ops: seq<Op>, end: nat)
    requires Ordered(ops, end) && NeverWidens(cfg, ops) && HasRoom(cfg, ops)
    ensures Agrees(After(cfg, ops), LogAfter(cfg, ops), end)
  {
    hide Do, LogDo, Agrees, RoomFor;
    if ops == [] {
      InitAgrees(cfg, end);
    } else {
      var rest, op := ops[..|ops| - 1], ops[|ops| - 1];
      RunAgrees(cfg, rest, op.now);
      ConfigIs(cfg, rest);
      DoAgrees(After(cfg, rest), LogAfter(cfg, rest), op, op.now);
      AgreesLater(After(cfg, ops), LogAfter(cfg, ops), op.now, end);
    }
  }

  lemma InitAgrees(cfg: Config, end: nat)
    ensures Agrees(Init(cfg), LogInit(cfg), end)
  {
  }

  /** After every run, every operation answers as if no failure were ever forgotten, but for an
      `unban` that meets an expired entry. */
  lemma AnswersMatchLog(cfg: Config, ops: seq<Op>, op: Op)
    requires Ordered(ops, op.now) && NeverWidens(cfg, ops) && HasRoom(cfg, ops)
    ensures AnswerAfter(cfg, ops, op) == LogDo(LogAfter(cfg, ops), op).1 <==> !StaleUnban(After(cfg, ops), op)
  {
    hide Agrees, Do, LogDo, StaleUnban;
    RunAgrees(cfg, ops, op.now);
    if op.Failure? || op.Reconfigure? {
      SilentOps(After(cfg, ops), LogAfter(cfg, ops), op);
    } else {
      DoAgrees(After(cfg, ops), LogAfter(cfg, ops), op, op.now);
    }
  }

  lemma SilentOps(s: State, l: Log, op: Op)
    requires op.Failure? || op.Reconfigure?
    ensures Do(s, op).1 == LogDo(l, op).1 && !StaleUnban(s, op)
  {
  }

  /** A failure bans the address exactly when it and the earlier failures since the last automatic
      ban that are younger than the window reach the threshold. */
  lemma BansExactlyAtThreshold(cfg: Config, ops: seq<Op>, ip: IpAddr, now: nat)
    requires Ordered(ops, now) && NeverWidens(cfg, ops) && HasRoom(cfg, ops)
    requires RoomFor(After(cfg, ops), Failure(ip, now))
    ensures var s, l := After(cfg, ops), LogAfter(cfg, ops);
      RecordFailure(s, ip, now).bans
      == if Watched(s.cfg, ip) && |Recent(FailuresOf(l.since, ip), now, s.cfg.window)| + 1 >= s.cfg.threshold
         then s.bans[ip := now + s.cfg.duration] else s.bans
  {
    hide Do, LogDo, Agrees, RecordFailure, Watched, Recent;
    RunAgrees(cfg, ops, now);
    FailureDecision(After(cfg, ops), LogAfter(cfg, ops), ip, now);
  }

  lemma FailureDecision(s: State, l: Log, ip: IpAddr, now: nat)
    requires Agrees(s, l, now) && RoomFor(s, Failure(ip, now))
    ensures RecordFailure(s, ip, now).bans
         == if Watched(s.cfg, ip) && |Recent(FailuresOf(l.since, ip), now, s.cfg.window)| + 1 >= s.cfg.threshold
            then s.bans[ip := now + s.cfg.duration] else s.bans
  {
    assert SameFailures(FailuresOf(s.failures, ip), FailuresOf(l.since, ip), now, s.cfg.window);
  }

  // ---------------------------------------------------------------------------
  // Who is banned, from the failures alone

  /** With the manager off, or for an address in a listed network, nothing is recorded and nobody is
      banned. */
  lemma ExemptNeverBanned(s: State, ip: IpAddr, now: nat)
    requires !s.cfg.enabled || exists i :: 0 <= i < |s.cfg.whitelist| && Contains(s.cfg.whitelist[i], ip)
    ensures RecordFailure(s, ip, now) == s && Do(s, Query(ip, now)) == (s, Banned(false))
  {
  }

  predicate Monotone(times: seq<nat>) { forall i, j :: 0 <= i < j < |times| ==> times[i] <= times[j] }

  /** The manager is on and `ip` is in no listed network. */
  predicate Plain(cfg: Config, ip: IpAddr) {
    cfg.enabled && forall i :: 0 <= i < |cfg.whitelist| ==> !Contains(cfg.whitelist[i], ip)
  }

  lemma PlainWatched(cfg: Config, ip: IpAddr)
    requires Plain(cfg, ip)
    ensures Watched(cfg, ip)
  {
  }

  lemma {:induction false} RecentAll(ts: seq<nat>, now: nat, window: nat)
    requires forall i :: 0 <= i < |ts| ==> ts[i] <= now < ts[i] + window
    ensures Recent(ts, now, window) == ts
  {
    if ts != [] {
      RecentAll(ts[..|ts| - 1], now, window);
      assert ts == ts[..|ts| - 1] + [ts[|ts| - 1]];
    }
  }

  lemma {:induction false} RecentNone(ts: seq<nat>, now: nat, window: nat)
    requires forall i :: 0 <= i < |ts| ==> ts[i] + window <= now
    ensures Recent(ts, now, window) == []
  {
    if ts != [] { RecentNone(ts[..|ts| - 1], now, window); }
  }

  lemma Failures1Snoc(ip: IpAddr, times: seq<nat>)
    requires times != []
    ensures var n := |times| - 1;
      Failures1(ip, times)[..n] == Failures1(ip, times[..n]) && Failures1(ip, times)[n] == Failure(ip, times[n])
  {
  }

  /** One more failure of the only address tracked so far. */
  lemma OnlyOne(s: State, ip: IpAddr, now: nat)
    requires Plain(s.cfg, ip) && s.failures.Keys <= {ip}
    ensures var f := Recent(FailuresOf(s.failures, ip), now, s.cfg.window) + [now];
      RecordFailure(s, ip, now)
      == if |f| >= s.cfg.threshold then State(s.cfg, s.failures[ip := []], s.bans[ip := now + s.cfg.duration])
         else s.(failures := s.failures[ip := f])
  {
    hide Recent, Watched, Plain;
    PlainWatched(s.cfg, ip);
    SubsetSize(s.failures.Keys, {ip});
    assert |s.failures| == |s.failures.Keys|;
  }

  /** A burst of failures within one window leaves no ban below the threshold. */
  lemma {:induction false} BurstBelow(cfg: Config, ip: IpAddr, times: seq<nat>)
    requires Plain(cfg, ip) && Monotone(times) && |times| < cfg.threshold
    requires times != [] ==> times[|times| - 1] < times[0] + cfg.window
    ensures var s := DoAll(Init(cfg), Failures1(ip, times));
      && s.cfg == cfg && s.bans == map[] && FailuresOf(s.failures, ip) == times && s.failures.Keys <= {ip}
  {
    hide Recent, RecordFailure, Plain;
    if times == [] {
      assert Failures1(ip, times) == [];
    } else {
      var n := |times| - 1;
      BurstBelow(cfg, ip, times[..n]);
      Failures1Snoc(ip, times);
      RecentAll(times[..n], times[n], cfg.window);
      OnlyOne(DoAll(Init(cfg), Failures1(ip, times[..n])), ip, times[n]);
      assert times[..n] + [times[n]] == times;
    }
  }

  /** As many failures within one window as the threshold says ban the address, from the last of them
      for as long as configured; fewer do not. */
  lemma BurstBans(cfg: Config, ip: IpAddr, times: seq<nat>, t: nat)
    requires Plain(cfg, ip) && Monotone(times) && 0 < |times| <= cfg.threshold
    requires times[|times| - 1] < times[0] + cfg.window
    ensures Do(DoAll(Init(cfg), Failures1(ip, times)), Query(ip, t)).1
         == Banned(|times| == cfg.threshold && t < times[|times| - 1] + cfg.duration)
  {
    hide Recent, RecordFailure, Plain, Watched;
    PlainWatched(cfg, ip);
    if |times| < cfg.threshold {
      BurstBelow(cfg, ip, times);
    } else {
      var n := |times| - 1;
      BurstBelow(cfg, ip, times[..n]);
      Failures1Snoc(ip, times);
      RecentAll(times[..n], times[n], cfg.window);
      OnlyOne(DoAll(Init(cfg), Failures1(ip, times[..n])), ip, times[n]);
    }
  }

  /** Failures a window or more apart never add up: with a threshold above one nobody is banned. */
  lemma {:induction false} SpreadNeverBans(cfg: Config, ip: IpAddr, times: seq<nat>)
    requires Plain(cfg, ip) && cfg.threshold > 1
    requires forall i :: 0 < i < |times| ==> times[i - 1] + cfg.window <= times[i]
    ensures var s := DoAll(Init(cfg), Failures1(ip, times));
      && s.cfg == cfg && s.bans == map[] && s.failures.Keys <= {ip}
      && FailuresOf(s.failures, ip) == if times == [] then [] else [times[|times| - 1]]
  {
    hide Recent, RecordFailure, Plain;
    if times == [] {
      assert Failures1(ip, times) == [];
    } else {
      var n := |times| - 1;
      SpreadNeverBans(cfg, ip, times[..n]);
      Failures1Snoc(ip, times);
      var s := DoAll(Init(cfg), Failures1(ip, times[..n]));
      RecentNone(FailuresOf(s.failures, ip), times[n], cfg.window);
      OnlyOne(s, ip, times[n]);
      assert [] + [times[n]] == [times[n]];
    }
  }

  lemma {:induction false} RecentCount(ts: seq<nat>, now: nat, window: nat, t: nat)
    ensures multiset(Recent(ts, now, window))[t]
         == if (if now >= t then now - t else 0) < window then multiset(ts)[t] else 0
  {
    if ts != [] {
      RecentCount(ts[..|ts| - 1], now, window, t);
      assert ts == ts[..|ts| - 1] + [ts[|ts| - 1]];
    }
  }

  /** After a cleanup only failures younger than the window are left, all of them, no address without
      any, and of the bans exactly those still running. */
  lemma CleanupLeavesLive(s: State, now: nat, ip: IpAddr, t: nat)
    ensures var c := CleanupStale(s, now);
      && c.cfg == s.cfg
      && multiset(FailuresOf(c.failures, ip))[t]
         == (if (if now >= t then now - t else 0) < s.cfg.window then multiset(FailuresOf(s.failures, ip))[t] else 0)
      && (ip in c.failures ==> c.failures[ip] != [])
      && (ip in c.bans <==> ip in s.bans && now < s.bans[ip])
      && (ip in c.bans ==> c.bans[ip] == s.bans[ip])
  {
    RecentCount(FailuresOf(s.failures, ip), now, s.cfg.window, t);
  }

  // ---------------------------------------------------------------------------
  // A full table

  /** Failures of one address at the given times. */
  function Failures1(ip: IpAddr, times: seq<nat>): seq<Op> { seq(|times|, i requires 0 <= i < |times| => Failure(ip, times[i])) }

  function DoAll(s: State, ops: seq<Op>): State {
    if ops == [] then s else Do(DoAll(s, ops[..|ops| - 1]), ops[|ops| - 1]).0
  }

  /** When the table is full, a new watched address changes nothing however often it fails: it is
      banned afterwards exactly if it was before. */
  lemma {:induction false} FullNeverBans(s: State, ip: IpAddr, times: seq<nat>)
    requires Watched(s.cfg, ip) && ip !in s.failures && |s.failures| >= MAX_TRACKED
    ensures DoAll(s, Failures1(ip, times)) == s
  {
    if times != [] {
      var n := |times| - 1;
      FullNeverBans(s, ip, times[..n]);
      assert Failures1(ip, times)[..n] == Failures1(ip, times[..n]);
    }
  }

  /** One failure each of `n` addresses. */
  function Fill(n: nat): seq<Op> { seq(n, i requires 0 <= i < n => Failure(V4(i), 0)) }

  function Addresses(n: nat): set<IpAddr> { set i | 0 <= i < n :: V4(i) }

  lemma {:induction false} AddressesCount(n: nat)
    ensures |Addresses(n)| == n
  {
    if n > 0 {
      AddressesCount(n - 1);
      assert Addresses(n) == Addresses(n - 1) + {V4(n - 1)};
    }
  }

  /** A run that fills the table: as many addresses as it holds fail once each. */
  lemma {:induction false} Filled(cfg: Config, n: nat)
    requires cfg.enabled && cfg.whitelist == [] && cfg.threshold > 1 && n <= MAX_TRACKED
    ensures After(cfg, Fill(n)).failures.Keys == Addresses(n) && After(cfg, Fill(n)).cfg == cfg
    ensures After(cfg, Fill(n)).bans == map[] && HasRoom(cfg, Fill(n))
  {
    hide After, HasRoom, RecordFailure, Recent, Watched, Addresses;
    if n == 0 {
      NothingFilled(cfg);
    } else {
      Filled(cfg, n - 1);
      AddressesCount(n - 1);
      NotAmong(n - 1);
      var s, ip := After(cfg, Fill(n - 1)), V4(n - 1);
      assert Fill(n) == Fill(n - 1) + [Failure(ip, 0)];
      Snoc(cfg, Fill(n - 1), Failure(ip, 0), 0);
      assert |s.failures| == |s.failures.Keys|;
      Unlisted(cfg, ip);
      FirstFailure(s, ip);
      AddressesSnoc(n);
    }
  }

  lemma NothingFilled(cfg: Config)
    ensures After(cfg, Fill(0)) == Init(cfg) && HasRoom(cfg, Fill(0)) && Addresses(0) == {}
  {
    assert Fill(0) == [];
  }

  lemma AddressesSnoc(n: nat)
    requires n > 0
    ensures Addresses(n) == Addresses(n - 1) + {V4(n - 1)}
  {
  }

  lemma Unlisted(cfg: Config, ip: IpAddr)
    requires cfg.enabled && cfg.whitelist == []
    ensures Watched(cfg, ip)
  {
  }

  lemma FirstFailure(s: State, ip: IpAddr)
    requires Watched(s.cfg, ip) && ip !in s.failures && |s.failures| < MAX_TRACKED && s.cfg.threshold > 1
    ensures RecordFailure(s, ip, 0) == s.(failures := s.failures[ip := [0]])
  {
    var none: seq<nat> := [];
    assert none + [0] == [0];
  }

  /** So there are runs after which an address is not banned whatever it does, although the log
      calls for a ban at the threshold. */
  lemma FullTableReached(cfg: Config, times: seq<nat>, now: nat)
    requires cfg.enabled && cfg.whitelist == [] && cfg.threshold > 1
    ensures var ip, s := V4(MAX_TRACKED), After(cfg, Fill(MAX_TRACKED));
      && !RoomFor(s, Failure(ip, now))
      && DoAll(s, Failures1(ip, times)) == s
      && Do(s, Query(ip, now)).1 == Banned(false)
  {
    hide After, Fill, Addresses, Watched, RecordFailure;
    var ip, s := V4(MAX_TRACKED), After(cfg, Fill(MAX_TRACKED));
    Filled(cfg, MAX_TRACKED);
    AddressesCount(MAX_TRACKED);
    NotAmong(MAX_TRACKED);
    assert |s.failures| == |s.failures.Keys|;
    Unlisted(cfg, ip);
    FullNeverBans(s, ip, times);
  }

  lemma NotAmong(n: nat)
    ensures V4(n) !in Addresses(n)
  {
  }

  // ---------------------------------------------------------------------------
  // Cleanup

  /** The runs without and with the cleanup keep the same addresses or fewer. */
  ghost predicate Tighter(plain: State, cleaned: State) {
    && cleaned.cfg == plain.cfg
    && cleaned.failures.Keys <= plain.failures.Keys
    && |plain.failures| <= MAX_TRACKED
  }

  lemma RoomCarries(plain: State, cleaned: State, op: Op)
    requires Tighter(plain, cleaned) && RoomFor(plain, op)
    ensures RoomFor(cleaned, op)
  {
    if op.Failure? && Watched(plain.cfg, op.ip) && op.ip !in cleaned.failures {
      if op.ip in plain.failures {
        SubsetSize(cleaned.failures.Keys + {op.ip}, plain.failures.Keys);
      } else {
        SubsetSize(cleaned.failures.Keys, plain.failures.Keys);
      }
    }
  }

  lemma FailureKeys(s: State, ip: IpAddr, now: nat)
    requires |s.failures| <= MAX_TRACKED && RoomFor(s, Failure(ip, now))
    ensures var r := RecordFailure(s, ip, now);
      && r.cfg == s.cfg && |r.failures| <= MAX_TRACKED
      && r.failures.Keys == if Watched(s.cfg, ip) then s.failures.Keys + {ip} else s.failures.Keys
  {
    hide Recent, Watched;
    if Watched(s.cfg, ip) {
      var f := RecordFailure(s, ip, now).failures;
      assert f == s.failures[ip := f[ip]];
      InsertSize(s.failures, ip, f[ip]);
    }
  }

  lemma InsertSize<K, V>(m: map<K, V>, k: K, v: V)
    ensures var m' := m[k := v];
      m'.Keys == m.Keys + {k} && |m'| == |m| + if k in m then 0 else 1
  {
    var m' := m[k := v];
    assert m'.Keys == m.Keys + {k};
    assert |m'| == |m'.Keys| && |m| == |m.Keys|;
    if k in m { assert m.Keys + {k} == m.Keys; }
  }

  /** One more operation on both runs. */
  lemma StaysTighter(plain: State, cleaned: State, l: Log, op: Op)
    requires Tighter(plain, cleaned) && RoomFor(plain, op)
    requires Agrees(plain, l, op.now) && Agrees(cleaned, l, op.now)
    ensures Tighter(Do(plain, op).0, Do(cleaned, op).0)
  {
    hide Agrees, RecordFailure, CleanupStale, Watched;
    RoomCarries(plain, cleaned, op);
    match op {
      case Failure(ip, now) =>
        FailureKeys(plain, ip, now);
        SubsetSize(cleaned.failures.Keys, plain.failures.Keys);
        assert |cleaned.failures| == |cleaned.failures.Keys| && |plain.failures| == |plain.failures.Keys|;
        FailureKeys(cleaned, ip, now);
      case Cleanup(now) => CleanupTighter(plain, cleaned, l, now);
      case _ =>
    }
  }

  lemma CleanupTighter(plain: State, cleaned: State, l: Log, now: nat)
    requires Tighter(plain, cleaned) && Agrees(plain, l, now) && Agrees(cleaned, l, now)
    ensures Tighter(CleanupStale(plain, now), CleanupStale(cleaned, now))
  {
    hide Recent;
    var w, p, c := plain.cfg.window, CleanupStale(plain, now), CleanupStale(cleaned, now);
    forall ip | ip in c.failures ensures ip in p.failures {
      assert SameFailures(FailuresOf(plain.failures, ip), FailuresOf(l.since, ip), now, w);
      assert SameFailures(FailuresOf(cleaned.failures, ip), FailuresOf(l.since, ip), now, w);
    }
    assert p.failures.Keys <= plain.failures.Keys;
    SubsetSize(p.failures.Keys, plain.failures.Keys);
    assert |p.failures| == |p.failures.Keys| && |plain.failures| == |plain.failures.Keys|;
  }

  lemma {:induction false} TrackedAtMost(cfg: Config, ops: seq<Op>)
    requires HasRoom(cfg, ops)
    ensures |After(cfg, ops).failures| <= MAX_TRACKED
  {
    hide Do, RoomFor;
    if ops != [] {
      TrackedAtMost(cfg, ops[..|ops| - 1]);
      DoAtMost(After(cfg, ops[..|ops| - 1]), ops[|ops| - 1]);
    }
  }

  lemma DoAtMost(s: State, op: Op)
    requires |s.failures| <= MAX_TRACKED && RoomFor(s, op)
    ensures |Do(s, op).0.failures| <= MAX_TRACKED
  {
    hide Recent;
    match op {
      case Failure(ip, now) => FailureKeys(s, ip, now);
      case Cleanup(now) =>
        var c := CleanupStale(s, now);
        SubsetSize(c.failures.Keys, s.failures.Keys);
        assert |c.failures| == |c.failures.Keys| && |s.failures| == |s.failures.Keys|;
      case _ =>
    }
  }

  function Cleaned(a: seq<Op>, now: nat, b: seq<Op>): seq<Op> { a + [Cleanup(now)] + b }

  lemma CleanedSnoc(a: seq<Op>, now: nat, b: seq<Op>)
    requires b != []
    ensures var n := |b| - 1;
      && Cleaned(a, now, b)[..|Cleaned(a, now, b)| - 1] == Cleaned(a, now, b[..n])
      && Cleaned(a, now, b)[|Cleaned(a, now, b)| - 1] == b[n]
      && (a + b)[..|a + b| - 1] == a + b[..n] && (a + b)[|a + b| - 1] == b[n]
  {
    var n := |b| - 1;
    assert Cleaned(a, now, b) == Cleaned(a, now, b[..n]) + [b[n]];
    assert a + b == a + b[..n] + [b[n]];
  }

  /** A cleanup put into a run is a run too, with the same log. */
  lemma {:induction false} CleanedRun(cfg: Config, a: seq<Op>, now: nat, b: seq<Op>, end: nat)
    requires Ordered(Cleaned(a, now, b), end) && NeverWidens(cfg, a + b) && HasRoom(cfg, a + b)
    ensures Ordered(a + b, end)
    ensures NeverWidens(cfg, Cleaned(a, now, b)) && HasRoom(cfg, Cleaned(a, now, b))
    ensures ConfigAfter(cfg, Cleaned(a, now, b)) == ConfigAfter(cfg, a + b)
    ensures LogAfter(cfg, Cleaned(a, now, b)) == LogAfter(cfg, a + b)
    ensures Tighter(After(cfg, a + b), After(cfg, Cleaned(a, now, b)))
    decreases |b|
  {
    hide Do, LogDo, RoomFor, Tighter, Agrees;
    if b == [] {
      assert a + b == a;
      CleanedEnd(cfg, a, now, end);
    } else {
      var rest, op := b[..|b| - 1], b[|b| - 1];
      CleanedSnoc(a, now, b);
      CleanedRun(cfg, a, now, rest, op.now);
      var plain, cleaned := After(cfg, a + rest), After(cfg, Cleaned(a, now, rest));
      RoomCarries(plain, cleaned, op);
      RunAgrees(cfg, a + rest, op.now);
      RunAgrees(cfg, Cleaned(a, now, rest), op.now);
      StaysTighter(plain, cleaned, LogAfter(cfg, a + rest), op);
    }
  }

  lemma CleanedEnd(cfg: Config, a: seq<Op>, now: nat, end: nat)
    requires Ordered(Cleaned(a, now, []), end) && NeverWidens(cfg, a) && HasRoom(cfg, a)
    ensures var c := Cleaned(a, now, []);
      && a + [] == a && Ordered(a, end)
      && NeverWidens(cfg, c) && HasRoom(cfg, c)
      && ConfigAfter(cfg, c) == ConfigAfter(cfg, a) && LogAfter(cfg, c) == LogAfter(cfg, a)
      && Tighter(After(cfg, a), After(cfg, c))
  {
    hide Recent;
    var c, s := Cleaned(a, now, []), After(cfg, a);
    assert c == a + [Cleanup(now)] && c[..|c| - 1] == a;
    OrderedLater(a, now, end);
    TrackedAtMost(cfg, a);
    assert CleanupStale(s, now).failures.Keys <= s.failures.Keys;
  }

  lemma OrderedLater(ops: seq<Op>, end: nat, later: nat)
    requires Ordered(ops, end) && end <= later
    ensures Ordered(ops, later)
  {
  }

  /** A cleanup anywhere in a run changes no later answer; only `unban` can tell, and exactly when
      an expired entry it would have met is gone. */
  lemma CleanupInvisible(cfg: Config, a: seq<Op>, now: nat, b: seq<Op>, op: Op)
    requires Ordered(Cleaned(a, now, b), op.now) && NeverWidens(cfg, a + b) && HasRoom(cfg, a + b)
    ensures var plain, cleaned := After(cfg, a + b), After(cfg, Cleaned(a, now, b));
      AnswerAfter(cfg, Cleaned(a, now, b), op) == AnswerAfter(cfg, a + b, op)
      <==> (StaleUnban(cleaned, op) <==> StaleUnban(plain, op))
  {
    hide Do, LogDo, StaleUnban, Tighter, After, LogAfter;
    CleanedRun(cfg, a, now, b, op.now);
    AnswersMatchLog(cfg, a + b, op);
    AnswersMatchLog(cfg, Cleaned(a, now, b), op);
    UnbanAnswers(After(cfg, a + b), LogAfter(cfg, a + b), op);
    UnbanAnswers(After(cfg, Cleaned(a, now, b)), LogAfter(cfg, a + b), op);
  }

  lemma UnbanAnswers(s: State, l: Log, op: Op)
    ensures StaleUnban(s, op) ==> Do(s, op).1 == Removed(true)
    ensures op.Unban? ==> Do(s, op).1.Removed? && LogDo(l, op).1.Removed?
    ensures StaleUnban(s, op) ==> op.Unban?
  {
  }

  /** In every state: a cleanup just before an `unban` changes its answer exactly when the address
      has an entry that has expired. */
  lemma UnbanSeesCleanupIff(s: State, ip: IpAddr, now: nat)
    ensures Do(CleanupStale(s, now), Unban(ip, now)).1 != Do(s, Unban(ip, now)).1
            <==> ip in s.bans && s.bans[ip] <= now
  {
  }

  // ---------------------------------------------------------------------------
  // Reconfiguration

  predicate Fixed(ops: seq<Op>) { forall i :: 0 <= i < |ops| ==> !ops[i].Reconfigure? }

  /** A run with one reconfiguration, and the same with a cleanup just before it. */
  function Changed(a: seq<Op>, cfg': Config, t: nat, b: seq<Op>): seq<Op> { a + ([Reconfigure(cfg', t)] + b) }

  function ChangedCleaned(a: seq<Op>, now: nat, cfg': Config, t: nat, b: seq<Op>): seq<Op> {
    Cleaned(a, now, [Reconfigure(cfg', t)] + b)
  }

  /** No cleanup before a change of the window from `w` to `w'` is ever seen in a later answer. */
  ghost predicate CleanupUnseen(w: nat, w': nat) {
    forall cfg: Config, a: seq<Op>, now: nat, cfg': Config, t: nat, b: seq<Op>, op: Op
      {:trigger ChangedCleaned(a, now, cfg', t, b), AnswerAfter(cfg, Changed(a, cfg', t, b), op)} ::
      cfg.window == w && cfg'.window == w' && Fixed(a) && Fixed(b) && !op.Unban?
      && Ordered(ChangedCleaned(a, now, cfg', t, b), op.now) && HasRoom(cfg, Changed(a, cfg', t, b))
      ==> AnswerAfter(cfg, ChangedCleaned(a, now, cfg', t, b), op) == AnswerAfter(cfg, Changed(a, cfg', t, b), op)
  }

  lemma {:induction false} FixedRun(cfg: Config, ops: seq<Op>)
    requires Fixed(ops)
    ensures ConfigAfter(cfg, ops) == cfg && NeverWidens(cfg, ops)
  {
    if ops != [] { FixedRun(cfg, ops[..|ops| - 1]); }
  }

  lemma {:induction false} NarrowingRun(cfg: Config, a: seq<Op>, cfg': Config, t: nat, b: seq<Op>)
    requires Fixed(a) && Fixed(b) && cfg'.window <= cfg.window
    ensures NeverWidens(cfg, Changed(a, cfg', t, b)) && ConfigAfter(cfg, Changed(a, cfg', t, b)) == cfg'
    decreases |b|
  {
    var ops, r := Changed(a, cfg', t, b), Reconfigure(cfg', t);
    if b == [] {
      FixedRun(cfg, a);
      assert ops == a + [r] && ops[..|ops| - 1] == a;
    } else {
      var n := |b| - 1;
      NarrowingRun(cfg, a, cfg', t, b[..n]);
      assert ops == Changed(a, cfg', t, b[..n]) + [b[n]];
      assert ops[..|ops| - 1] == Changed(a, cfg', t, b[..n]);
    }
  }

  lemma Snoc(cfg: Config, ops: seq<Op>, op: Op, end: nat)
    ensures After(cfg, ops + [op]) == Do(After(cfg, ops), op).0
    ensures HasRoom(cfg, ops + [op]) <==> HasRoom(cfg, ops) && RoomFor(After(cfg, ops), op)
    ensures Ordered(ops + [op], end) <==> Ordered(ops, op.now) && op.now <= end
  {
    hide Do, RoomFor;
    assert (ops + [op])[..|ops|] == ops;
  }

  /** Two failures a window apart, with the threshold at two. */
  lemma TwoFailures(ip: IpAddr, w: nat, w': nat)
    requires w < w'
    ensures var cfg, cfg' := Config(true, 2, w, 1, []), Config(true, 2, w', 1, []);
      var one := State(cfg, map[ip := [0]], map[]);
      && RecordFailure(Init(cfg), ip, 0) == one
      && IsBanned(RecordFailure(one.(cfg := cfg'), ip, w), ip, w).1
      && CleanupStale(one, w) == Init(cfg)
      && !IsBanned(RecordFailure(Init(cfg'), ip, w), ip, w).1
  {
    var none: seq<nat> := [];
    RecentAppend(none, 0, w, w);
    RecentAppend(none, 0, w, w');
    assert none + [0] == [0] && none + [w] == [w];
  }

  /** A failure, a cleanup one window later, a wider window, a second failure: banned only without
      the cleanup. */
  lemma WideningSeen(ip: IpAddr, w: nat, w': nat)
    requires w < w'
    ensures !CleanupUnseen(w, w')
  {
    hide CleanupStale, RecordFailure, IsBanned;
    var cfg, cfg' := Config(true, 2, w, 1, []), Config(true, 2, w', 1, []);
    var f0, clean, r, f1 := Failure(ip, 0), Cleanup(w), Reconfigure(cfg', w), Failure(ip, w);
    var a, b, op := [f0], [f1], Query(ip, w);
    TwoFailures(ip, w, w');
    Snoc(cfg, [], f0, w);
    Snoc(cfg, [] + [f0], r, w);
    Snoc(cfg, [] + [f0] + [r], f1, w);
    Snoc(cfg, [] + [f0], clean, w);
    Snoc(cfg, [] + [f0] + [clean], r, w);
    Snoc(cfg, [] + [f0] + [clean] + [r], f1, w);
    assert Changed(a, cfg', w, b) == [] + [f0] + [r] + [f1];
    assert ChangedCleaned(a, w, cfg', w, b) == [] + [f0] + [clean] + [r] + [f1];
    assert AnswerAfter(cfg, Changed(a, cfg', w, b), op) == Banned(true);
    assert AnswerAfter(cfg, ChangedCleaned(a, w, cfg', w, b), op) == Banned(false);
  }

  /** The cleanup is never seen if and only if the window does not widen. */
  lemma CleanupUnseenIff(w: nat, w': nat)
    ensures CleanupUnseen(w, w') <==> w' <= w
  {
    if w' <= w {
      forall cfg: Config, a: seq<Op>, now: nat, cfg': Config, t: nat, b: seq<Op>, op: Op
        | cfg.window == w && cfg'.window == w' && Fixed(a) && Fixed(b) && !op.Unban?
          && Ordered(ChangedCleaned(a, now, cfg', t, b), op.now) && HasRoom(cfg, Changed(a, cfg', t, b))
        ensures AnswerAfter(cfg, ChangedCleaned(a, now, cfg', t, b), op) == AnswerAfter(cfg, Changed(a, cfg', t, b), op)
      {
        NarrowingRun(cfg, a, cfg', t, b);
        CleanupInvisible(cfg, a, now, [Reconfigure(cfg', t)] + b, op);
      }
    } else {
      WideningSeen(V4(0), w, w');
    }
  }

  // ---------------------------------------------------------------------------
  // Manual bans

  /** A manual ban lasts exactly as long as asked, for watched addresses, and `unban` ends it. */
  lemma ManualBanLasts(s: State, ip: IpAddr, length: nat, now: nat, t: nat, other: IpAddr)
    requires other != ip
    ensures var banned := Do(s, ManualBan(ip, length, now)).0;
      && Do(banned, Query(ip, t)).1 == Banned(Watched(s.cfg, ip) && t < now + length)
      && Do(banned, Query(other, t)).1 == Do(s, Query(other, t)).1
      && Do(Do(banned, Unban(ip, t)).0, Query(ip, t)).1 == Banned(false)
      && Do(banned, Unban(ip, t)).1 == Removed(true)
  {
  }

  // ---------------------------------------------------------------------------
  // The manager, updated in place

  class BanManager {
    var failures: Failures
    var bans: BanTable
    var cfg: Config

    ghost function View(): State
      reads this
    {
      State(cfg, failures, bans)
    }

    constructor (cfg: Config)
      ensures View() == Init(cfg)
    {
      this.cfg, failures, bans := cfg, map[], map[];
    }

    method Update(cfg: Config)
      modifies this`cfg
      ensures View() == old(View()).(cfg := cfg)
    {
      this.cfg := cfg;
    }

    /** Keeps at most max(2 * threshold, 10) failures per address, and still behaves as if it kept
        them all: whenever the cap drops something, the threshold is already reached. */
    method Record(ip: IpAddr, now: nat)
      modifies this`failures, this`bans
      ensures View() == RecordFailure(old(View()), ip, now)
    {
      if !Watched(cfg, ip) {
        return;
      }
      if ip !in failures && |failures| >= MAX_TRACKED {
        return;
      }
      var list := Recent(FailuresOf(failures, ip), now, cfg.window);
      var maxEntries := if 2 * cfg.threshold > 10 then 2 * cfg.threshold else 10;
      if |list| >= maxEntries {
        list := list[|list| - maxEntries + 1..];
      }
      list := list + [now];
      if |list| >= cfg.threshold {
        bans := bans[ip := now + cfg.duration];
        list := [];
      }
      failures := failures[ip := list];
    }

    method CheckBanned(ip: IpAddr, now: nat) returns (banned: bool)
      modifies this`bans
      ensures (View(), banned) == IsBanned(old(View()), ip, now)
      ensures banned <==> Watched(cfg, ip) && ip in LiveBans(old(bans), now)
    {
      if !Watched(cfg, ip) {
        return false;
      }
      if ip in bans && now >= bans[ip] {
        bans := bans - {ip};
        return false;
      }
      return ip in bans;
    }

    method Ban(ip: IpAddr, length: nat, now: nat)
      modifies this`bans
      ensures (View(), Silent) == Do(old(View()), ManualBan(ip, length, now))
    {
      bans := bans[ip := now + length];
    }

    method Lift(ip: IpAddr, now: nat) returns (removed: bool)
      modifies this`bans
      ensures (View(), Removed(removed)) == Do(old(View()), Unban(ip, now))
    {
      removed := ip in bans;
      bans := bans - {ip};
    }

    method BannedIps(now: nat) returns (list: BanTable)
      ensures list == LiveBans(bans, now)
    {
      list := map ip | ip in bans && now < bans[ip] :: bans[ip];
    }

    method Clean(now: nat)
      modifies this`failures, this`bans
      ensures View() == CleanupStale(old(View()), now)
    {
      var window := cfg.window;
      var kept := map ip | ip in failures :: Recent(failures[ip], now, window);
      failures := map ip | ip in kept && kept[ip] != [] :: kept[ip];
      bans := map ip | ip in bans && now < bans[ip] :: bans[ip];
    }
  }
}

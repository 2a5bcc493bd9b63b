/** Connection-rate admission: handlers first check the rate and only later record the
    connection, so several of them can pass the check before any is counted. */
module Admission {
  import opened Text
  import opened RollingWindows
  import opened Quotas

  /** `inFlight` holds the users of the handlers that passed the check and have not recorded yet. */
  datatype State = State(log: seq<Entry>, inFlight: multiset<string>, clock: nat)

  datatype Config = Config(server: ServerLimits, rates: string -> RateLimits)

  datatype Step =
    | Check(user: string, hourSum: nat, now: nat)   // the rate check passes
    | Count(user: string, now: nat)                 // the connection is recorded
    | Refuse(user: string, now: nat)                // a calendar quota refuses the recording

  function RateCheck(cfg: Config, s: State, u: string, hourSum: nat, now: nat): Verdict {
    RateVerdict(s.log, u, cfg.server.perSecond > 0, cfg.server.perMinute > 0, cfg.server, cfg.rates(u), hourSum, now)
  }

  predicate Enabled(cfg: Config, s: State, step: Step) {
    && s.clock <= step.now
    && match step
       case Check(u, hourSum, now) => RateCheck(cfg, s, u, hourSum, now).Allowed?
       case Count(u, _) => u in s.inFlight
       case Refuse(u, _) => u in s.inFlight
  }

  function Apply(s: State, step: Step): State {
    match step
    case Check(u, _, now) => State(s.log, s.inFlight + multiset{u}, now)
    case Count(u, now) => State(s.log + [Conn(u, now)], s.inFlight - multiset{u}, now)
    case Refuse(u, now) => State(s.log, s.inFlight - multiset{u}, now)
  }

  function After(start: nat, steps: seq<Step>): State {
    if steps == [] then State([], multiset{}, start)
    else Apply(After(start, steps[..|steps| - 1]), steps[|steps| - 1])
  }

  /** Handlers in flight of one user, or of the whole server. */
  function InFlight(s: State, who: Option<string>): nat {
    match who case None => |s.inFlight| case Some(u) => s.inFlight[u]
  }

  /** A run in which never more than `c` handlers of `who` are between check and record. */
  predicate Runs(cfg: Config, start: nat, steps: seq<Step>, who: Option<string>, c: nat) {
    steps == [] ||
    (var rest := steps[..|steps| - 1];
     && Runs(cfg, start, rest, who, c)
     && Enabled(cfg, After(start, rest), steps[|steps| - 1])
     && InFlight(After(start, steps), who) <= c)
  }

  /** The configured limit for `who` over a window of `secs` seconds. */
  predicate LimitIs(cfg: Config, who: Option<string>, secs: nat, limit: nat) {
    && limit > 0
    && match who
       case None => (secs == 1 && limit == cfg.server.perSecond) || (secs == 60 && limit == cfg.server.perMinute)
       case Some(u) =>
         (secs == 1 && limit == cfg.rates(u).perSecond) || (secs == 60 && limit == cfg.rates(u).perMinute)
  }

  ghost predicate Inv(s: State, who: Option<string>, secs: nat, bound: nat) {
    var conns := ConnLog(s.log, who);
    && (forall e :: e in conns ==> e.time <= s.clock)
    && Trailing(conns, secs, s.clock) + InFlight(s, who) <= bound
    && (forall at: int :: Trailing(conns, secs, at) <= bound)
  }

  /** After the last event, a later window only sees less. */
  lemma WindowFades(conns: seq<Event>, secs: nat, clock: int, at: int)
    requires clock <= at && forall e :: e in conns ==> e.time <= clock
    ensures Trailing(conns, secs, at) <= Trailing(conns, secs, clock)
  {
    TotalNone(conns, clock, at);
    if at - secs <= clock {
      TotalSplit(conns, at - secs, clock, at);
      TotalMonotone(conns, at - secs, clock, clock - secs, clock);
    } else {
      TotalNone(conns, at - secs, at);
    }
  }

  lemma CheckKeepsInv(cfg: Config, s: State, step: Step, who: Option<string>, secs: nat, limit: nat, c: nat)
    requires step.Check? && Enabled(cfg, s, step) && LimitIs(cfg, who, secs, limit)
    requires Inv(s, who, secs, limit - 1 + c) && InFlight(Apply(s, step), who) <= c
    ensures Inv(Apply(s, step), who, secs, limit - 1 + c)
  {
    var conns := ConnLog(s.log, who);
    WindowFades(conns, secs, s.clock, step.now);
    if who == None || who == Some(step.user) {
      assert Trailing(conns, secs, step.now) < limit;
    }
  }

  lemma CountKeepsInv(s: State, u: string, now: nat, who: Option<string>, secs: nat, bound: nat)
    requires u in s.inFlight && s.clock <= now && secs > 0
    requires Inv(s, who, secs, bound)
    ensures Inv(Apply(s, Count(u, now)), who, secs, bound)
  {
    var s' := Apply(s, Count(u, now));
    var conns, conns' := ConnLog(s.log, who), ConnLog(s'.log, who);
    AppendEntry(s.log, Conn(u, now), u, who);
    WindowFades(conns, secs, s.clock, now);
    if conns' != conns {
      var e := Event(now, 1);
      assert conns' == conns + [e];
      TotalAppend(conns, e, now - secs, now);
      forall at: int ensures Trailing(conns', secs, at) <= bound {
        TotalAppend(conns, e, at - secs, at);
        assert Trailing(conns, secs, at) <= bound;
        if at >= now { WindowFades(conns', secs, now, at); }
      }
    }
  }

  lemma RefuseKeepsInv(s: State, u: string, now: nat, who: Option<string>, secs: nat, bound: nat)
    requires u in s.inFlight && s.clock <= now && Inv(s, who, secs, bound)
    ensures Inv(Apply(s, Refuse(u, now)), who, secs, bound)
  {
    WindowFades(ConnLog(s.log, who), secs, s.clock, now);
  }

  lemma {:induction false} InvRuns(cfg: Config, start: nat, steps: seq<Step>, who: Option<string>,
                                   secs: nat, limit: nat, c: nat)
    requires Runs(cfg, start, steps, who, c) && LimitIs(cfg, who, secs, limit)
    ensures Inv(After(start, steps), who, secs, limit - 1 + c)
    decreases |steps|
  {
    if steps != [] {
      var n := |steps| - 1;
      InvRuns(cfg, start, steps[..n], who, secs, limit, c);
      var s := After(start, steps[..n]);
      match steps[n]
      case Check(_, _, _) => CheckKeepsInv(cfg, s, steps[n], who, secs, limit, c);
      case Count(u, now) => CountKeepsInv(s, u, now, who, secs, limit - 1 + c);
      case Refuse(u, now) => RefuseKeepsInv(s, u, now, who, secs, limit - 1 + c);
    }
  }

  /** The rate limit over whole runs, per user or server-wide, per second or per minute: in every
      sliding window at most limit - 1 + c connections are recorded, even counting the handlers
      that already passed the check. */
  lemma RateLimitHolds(cfg: Config, start: nat, steps: seq<Step>, who: Option<string>,
                       secs: nat, limit: nat, c: nat)
    requires Runs(cfg, start, steps, who, c) && LimitIs(cfg, who, secs, limit)
    ensures var s := After(start, steps);
      && Trailing(ConnLog(s.log, who), secs, s.clock) + InFlight(s, who) <= limit - 1 + c
      && (forall at: int :: Trailing(ConnLog(s.log, who), secs, at) <= limit - 1 + c)
  {
    InvRuns(cfg, start, steps, who, secs, limit, c);
  }

  lemma OneMore(cfg: Config, start: nat, steps: seq<Step>, step: Step, who: Option<string>, c: nat)
    requires Runs(cfg, start, steps, who, c) && Enabled(cfg, After(start, steps), step)
    requires InFlight(Apply(After(start, steps), step), who) <= c
    ensures After(start, steps + [step]) == Apply(After(start, steps), step)
    ensures Runs(cfg, start, steps + [step], who, c)
  {
    assert (steps + [step])[..|steps|] == steps;
  }

  // ---------------------------------------------------------------------------
  // The bound is reached

  /** The limit of `who` is the only one that concerns user `u`. */
  predicate OnlyLimit(cfg: Config, who: Option<string>, u: string, secs: nat, limit: nat) {
    && limit > 0 && (secs == 1 || secs == 60)
    && (who == None || who == Some(u))
    && cfg.server == (if who.Some? then ServerLimits(0, 0) else if secs == 1 then ServerLimits(limit, 0) else ServerLimits(0, limit))
    && cfg.rates(u) == (if who.None? then RateLimits(0, 0, 0) else if secs == 1 then RateLimits(limit, 0, 0) else RateLimits(0, limit, 0))
  }

  function Conns(u: string, k: nat): seq<Entry> { seq(k, _ => Conn(u, 0)) }

  function Ones(k: nat): seq<Event> { seq(k, _ => Event(0, 1)) }

  lemma {:induction false} ConnsLog(u: string, k: nat, who: Option<string>)
    requires who == None || who == Some(u)
    ensures ConnLog(Conns(u, k), who) == Ones(k)
  {
    if k > 0 {
      ConnsLog(u, k - 1, who);
      assert Conns(u, k)[..k - 1] == Conns(u, k - 1);
    }
  }

  lemma {:induction false} OnesTotal(k: nat, secs: nat)
    requires secs > 0
    ensures Trailing(Ones(k), secs, 0) == k
  {
    if k > 0 {
      OnesTotal(k - 1, secs);
      assert Ones(k)[..k - 1] == Ones(k - 1);
    }
  }

  /** `k` connections recorded at time 0 and `m` handlers in flight, all of user `u`. */
  function At(u: string, k: nat, m: nat): State { State(Conns(u, k), multiset{}[u := m], 0) }

  /** A run that has come that far. */
  predicate Reaches(cfg: Config, steps: seq<Step>, who: Option<string>, c: nat, u: string, k: nat, m: nat) {
    Runs(cfg, 0, steps, who, c) && After(0, steps) == At(u, k, m)
  }

  /** With fewer connections recorded than the limit the check passes. */
  lemma CheckPasses(cfg: Config, who: Option<string>, u: string, k: nat, m: nat, secs: nat, limit: nat)
    requires OnlyLimit(cfg, who, u, secs, limit) && k < limit
    ensures RateCheck(cfg, At(u, k, m), u, 0, 0).Allowed?
  {
    hide ConnLog, Trailing, Conns, Ones;
    ConnsLog(u, k, None);
    ConnsLog(u, k, Some(u));
    OnesTotal(k, secs);
  }

  lemma InFlightAt(u: string, k: nat, m: nat, who: Option<string>)
    requires who == None || who == Some(u)
    ensures InFlight(At(u, k, m), who) == m
    ensures Apply(At(u, k, m), Check(u, 0, 0)) == At(u, k, m + 1)
    ensures m > 0 ==> u in At(u, k, m).inFlight && Apply(At(u, k, m), Count(u, 0)) == At(u, k + 1, m - 1)
  {
    assert At(u, k, m).inFlight + multiset{u} == At(u, k, m + 1).inFlight;
    assert Conns(u, k) + [Conn(u, 0)] == Conns(u, k + 1);
    if m > 0 { assert At(u, k, m).inFlight - multiset{u} == At(u, k, m - 1).inFlight; }
  }

  lemma OneMoreCheck(cfg: Config, steps: seq<Step>, who: Option<string>, c: nat, u: string, k: nat, m: nat,
                     secs: nat, limit: nat)
    requires OnlyLimit(cfg, who, u, secs, limit) && Reaches(cfg, steps, who, c, u, k, m) && k < limit && m < c
    ensures Reaches(cfg, steps + [Check(u, 0, 0)], who, c, u, k, m + 1)
  {
    hide OnlyLimit, RateCheck, Apply, InFlight, Runs, After;
    WhoIs(cfg, who, u, secs, limit);
    CheckPasses(cfg, who, u, k, m, secs, limit);
    InFlightAt(u, k, m, who);
    InFlightAt(u, k, m + 1, who);
    OneMore(cfg, 0, steps, Check(u, 0, 0), who, c);
  }

  lemma OneMoreCount(cfg: Config, steps: seq<Step>, who: Option<string>, c: nat, u: string, k: nat, m: nat)
    requires who == None || who == Some(u)
    requires Reaches(cfg, steps, who, c, u, k, m) && 0 < m <= c
    ensures Reaches(cfg, steps + [Count(u, 0)], who, c, u, k + 1, m - 1)
  {
    hide RateCheck, Apply, InFlight, Runs, After;
    InFlightAt(u, k, m, who);
    InFlightAt(u, k + 1, m - 1, who);
    OneMore(cfg, 0, steps, Count(u, 0), who, c);
  }

  /** For every limit and every number of handlers the bound is reached: the limit all but used up
      one by one, then `c` checks before any of them records. */
  lemma OvershootReached(cfg: Config, who: Option<string>, u: string, secs: nat, limit: nat, c: nat)
    returns (steps: seq<Step>)
    requires OnlyLimit(cfg, who, u, secs, limit) && c > 0
    ensures Runs(cfg, 0, steps, who, c)
    ensures Trailing(ConnLog(After(0, steps).log, who), secs, 0) == limit - 1 + c
  {
    hide Reaches, OnlyLimit;
    WhoIs(cfg, who, u, secs, limit);
    steps := [];
    Nowhere(cfg, who, c, u);
    for k := 0 to limit - 1
      invariant Reaches(cfg, steps, who, c, u, k, 0)
    {
      OneMoreCheck(cfg, steps, who, c, u, k, 0, secs, limit);
      steps := steps + [Check(u, 0, 0)];
      OneMoreCount(cfg, steps, who, c, u, k, 1);
      steps := steps + [Count(u, 0)];
    }
    for m := 0 to c
      invariant Reaches(cfg, steps, who, c, u, limit - 1, m)
    {
      OneMoreCheck(cfg, steps, who, c, u, limit - 1, m, secs, limit);
      steps := steps + [Check(u, 0, 0)];
    }
    for m := 0 to c
      invariant Reaches(cfg, steps, who, c, u, limit - 1 + m, c - m)
    {
      OneMoreCount(cfg, steps, who, c, u, limit - 1 + m, c - m);
      steps := steps + [Count(u, 0)];
    }
    ReachedTotal(cfg, steps, who, c, u, limit - 1 + c, secs);
  }

  lemma ReachedTotal(cfg: Config, steps: seq<Step>, who: Option<string>, c: nat, u: string, k: nat, secs: nat)
    requires Reaches(cfg, steps, who, c, u, k, 0) && secs > 0 && (who == None || who == Some(u))
    ensures Runs(cfg, 0, steps, who, c) && Trailing(ConnLog(After(0, steps).log, who), secs, 0) == k
  {
    ConnsLog(u, k, who);
    OnesTotal(k, secs);
  }

  lemma Nowhere(cfg: Config, who: Option<string>, c: nat, u: string)
    ensures Reaches(cfg, [], who, c, u, 0, 0)
  {
    assert Conns(u, 0) == [] && multiset{}[u := 0] == multiset{};
  }

  lemma WhoIs(cfg: Config, who: Option<string>, u: string, secs: nat, limit: nat)
    requires OnlyLimit(cfg, who, u, secs, limit)
    ensures limit > 0 && secs > 0 && (who == None || who == Some(u)) && LimitIs(cfg, who, secs, limit)
  {
  }

  /** No window of any run with at most `c` handlers in flight holds more than the limit. */
  ghost predicate NeverExceeds(cfg: Config, who: Option<string>, secs: nat, limit: nat, c: nat) {
    forall start: nat, steps: seq<Step>, at: int :: Runs(cfg, start, steps, who, c) ==>
      Trailing(ConnLog(After(start, steps).log, who), secs, at) <= limit
  }

  /** Per user and server-wide, per second and per minute: the limit is kept in every run if and only
      if handlers do not overlap between check and record. */
  lemma NeverExceedsIff(cfg: Config, who: Option<string>, u: string, secs: nat, limit: nat, c: nat)
    requires OnlyLimit(cfg, who, u, secs, limit)
    ensures NeverExceeds(cfg, who, secs, limit, c) <==> c <= 1
  {
    hide Runs, OnlyLimit;
    WhoIs(cfg, who, u, secs, limit);
    if c <= 1 {
      forall start: nat, steps: seq<Step>, at: int | Runs(cfg, start, steps, who, c)
        ensures Trailing(ConnLog(After(start, steps).log, who), secs, at) <= limit
      {
        RateLimitHolds(cfg, start, steps, who, secs, limit, c);
      }
    } else {
      var steps := OvershootReached(cfg, who, u, secs, limit, c);
    }
  }
}

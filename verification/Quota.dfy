/** The quota tracker: what it answers is specified by the log of everything recorded. */
module Quotas {
  import opened Text
  import opened RollingWindows
  import opened LazyCounters
  import opened Calendar

  /** 0 means unlimited; a server-wide limit of 0 has no limiter at all. */
  datatype RateLimits = RateLimits(perSecond: nat, perMinute: nat, perHour: nat)
  datatype ServerLimits = ServerLimits(perSecond: nat, perMinute: nat)
  datatype QuotaConfig = QuotaConfig(
    totalBytes: nat, dailyBytes: nat, monthlyBytes: nat, hourlyBytes: nat,
    dailyConns: nat, monthlyConns: nat)

  datatype Reason =
    | ServerPerSecond | ServerPerMinute | UserPerSecond | UserPerMinute | UserPerHour
    | DailyConns | MonthlyConns | TotalBytes | DailyBytes | MonthlyBytes | HourlyBytes

  datatype Verdict = Allowed | Exceeded(reason: Reason)

  /** Where the counters reset: the ends of the day and of the month that contain a time. */
  datatype Boundaries = Boundaries(day: nat -> nat, month: nat -> nat)

  ghost predicate Lawful(b: Boundaries) { Periodic(b.day) && Periodic(b.month) }

  /** The boundaries of the UTC calendar. */
  const UTC: Boundaries := Boundaries(NextDayBoundary, NextMonthBoundary)

  lemma UtcLawful()
    ensures Lawful(UTC)
  {
    DaysPeriodic();
    MonthsPeriodic();
  }

  // ---------------------------------------------------------------------------
  // One user's state

  datatype UserState = UserState(
    secondWindow: Window, hourWindow: Window, daily: Counter, monthly: Counter,
    connPerSecond: Window, connPerMinute: Window, connPerHour: Window, totalBytes: nat)

  function NewUser(b: Boundaries, now: nat): UserState {
    UserState(New(1, 1, now), New(3600, 60, now),
              NewCounter(b.day, now), NewCounter(b.month, now),
              New(1, 1, now), New(60, 60, now), New(3600, 60, now), 0)
  }

  function LazyReset(b: Boundaries, st: UserState, now: nat): UserState {
    st.(daily := Touch(b.day, st.daily, now), monthly := Touch(b.month, st.monthly, now))
  }

  function WithConn(st: UserState, now: nat): UserState
    requires WellFormed(st.connPerSecond) && WellFormed(st.connPerMinute) && WellFormed(st.connPerHour)
  {
    st.(connPerSecond := Record(st.connPerSecond, now, 1),
        connPerMinute := Record(st.connPerMinute, now, 1),
        connPerHour := Record(st.connPerHour, now, 1),
        daily := st.daily.(conns := st.daily.conns + 1),
        monthly := st.monthly.(conns := st.monthly.conns + 1))
  }

  function WithBytes(st: UserState, now: nat, n: nat): UserState
    requires WellFormed(st.secondWindow) && WellFormed(st.hourWindow)
  {
    st.(secondWindow := Record(st.secondWindow, now, n),
        hourWindow := Record(st.hourWindow, now, n),
        daily := st.daily.(bytes := st.daily.bytes + n),
        monthly := st.monthly.(bytes := st.monthly.bytes + n),
        totalBytes := st.totalBytes + n)
  }

  ghost predicate WindowOk(w: Window, n: nat, log: seq<Event>, clock: nat) {
    WellFormed(w) && Represents(w, log) && |w.buckets| == n && w.last <= clock
  }

  const MINUTE: nat := 60
  const HOUR: nat := 3600

  /** If `m`, then `now` is a whole minute. */
  predicate OnMinute(m: bool, now: nat) { m ==> now % MINUTE == 0 }

  /** An hour window, whose buckets are a minute wide: never more than was recorded, and if the clock
      has only shown whole minutes (`m`), exactly what was recorded in the last hour. */
  ghost predicate HourOk(m: bool, w: Window, log: seq<Event>, clock: nat) {
    && WellFormed(w) && w.last <= clock
    && w.cached == Sum(w.buckets) <= Recorded(log)
    && (m ==> RepresentsWide(w, log) && w.bucketSecs == MINUTE && |w.buckets| == 60)
  }

  lemma NewHour(m: bool, now: nat)
    requires OnMinute(m, now)
    ensures HourOk(m, New(HOUR, 60, now), [], now)
  {
    SumZeros(New(HOUR, 60, now).buckets);
    if m { NewWide(HOUR, 60, now); }
  }

  lemma HourAdvance(m: bool, w: Window, log: seq<Event>, clock: nat, now: nat)
    requires HourOk(m, w, log, clock) && clock <= now && OnMinute(m, now)
    ensures HourOk(m, Advance(w, now), log, now)
    ensures m ==> Advance(w, now).cached == Trailing(log, HOUR, now)
  {
    hide RepresentsWide;
    AdvanceConserves(w, now);
    if m {
      AdvanceWide(w, log, now);
      CachedWide(Advance(w, now), log);
    }
  }

  lemma HourRecord(m: bool, w: Window, log: seq<Event>, clock: nat, now: nat, n: nat)
    requires HourOk(m, w, log, clock) && clock <= now && OnMinute(m, now)
    ensures HourOk(m, Record(w, now, n), log + [Event(now, n)], now)
  {
    hide RepresentsWide;
    RecordConserves(w, now, n);
    assert (log + [Event(now, n)])[..|log|] == log;
    if m { RecordWide(w, log, now, n); }
  }

  /** The state of a user for whom `bytes` and `conns` were recorded. */
  ghost predicate UserOk(b: Boundaries, m: bool, st: UserState, bytes: seq<Event>, conns: seq<Event>, clock: nat) {
    && WindowOk(st.secondWindow, 1, bytes, clock)
    && HourOk(m, st.hourWindow, bytes, clock) && HourOk(m, st.connPerHour, conns, clock)
    && WindowOk(st.connPerSecond, 1, conns, clock)
    && WindowOk(st.connPerMinute, 60, conns, clock)
    && Counts(b.day, st.daily, bytes, conns, clock)
    && Counts(b.month, st.monthly, bytes, conns, clock)
    && st.totalBytes == Recorded(bytes)
  }

  lemma NewWindowOk(secs: nat, now: nat)
    requires secs > 0
    ensures WindowOk(New(secs, secs, now), secs, [], now)
  {
    SumZeros(New(secs, secs, now).buckets);
  }

  lemma NewUserOk(b: Boundaries, m: bool, now: nat)
    requires OnMinute(m, now)
    ensures UserOk(b, m, NewUser(b, now), [], [], now)
  {
    NewWindowOk(1, now);
    NewWindowOk(60, now);
    NewHour(m, now);
  }

  lemma ResetOk(b: Boundaries, m: bool, st: UserState, bytes: seq<Event>, conns: seq<Event>, clock: nat, now: nat)
    requires Lawful(b) && UserOk(b, m, st, bytes, conns, clock) && clock <= now
    ensures UserOk(b, m, LazyReset(b, st, now), bytes, conns, now)
    ensures Current(b, LazyReset(b, st, now), bytes, conns, now)
  {
    TouchCounts(b.day, st.daily, bytes, conns, clock, now);
    TouchCounts(b.month, st.monthly, bytes, conns, clock, now);
  }

  /** The calendar counters cover exactly the day and the month of `now`. */
  ghost predicate Current(b: Boundaries, st: UserState, bytes: seq<Event>, conns: seq<Event>, now: nat) {
    && st.daily == Counter(InPeriod(b.day, bytes, b.day(now)), InPeriod(b.day, conns, b.day(now)), b.day(now))
    && st.monthly == Counter(InPeriod(b.month, bytes, b.month(now)), InPeriod(b.month, conns, b.month(now)), b.month(now))
  }

  lemma WithBytesCurrent(b: Boundaries, m: bool, st: UserState, bytes: seq<Event>, conns: seq<Event>, now: nat, n: nat)
    requires UserOk(b, m, st, bytes, conns, now) && Current(b, st, bytes, conns, now)
    ensures Current(b, WithBytes(st, now, n), bytes + [Event(now, n)], conns, now)
  {
    InPeriodAppend(b.day, bytes, Event(now, n), b.day(now));
    InPeriodAppend(b.month, bytes, Event(now, n), b.month(now));
  }

  lemma LaterOk(b: Boundaries, m: bool, st: UserState, bytes: seq<Event>, conns: seq<Event>, clock: nat, now: nat)
    requires UserOk(b, m, st, bytes, conns, clock) && clock <= now
    ensures UserOk(b, m, st, bytes, conns, now)
  {
    LaterCounts(b.day, st.daily, bytes, conns, clock, now);
    LaterCounts(b.month, st.monthly, bytes, conns, clock, now);
  }

  lemma WithConnOk(b: Boundaries, m: bool, st: UserState, bytes: seq<Event>, conns: seq<Event>, now: nat)
    requires UserOk(b, m, st, bytes, conns, now) && OnMinute(m, now)
    requires st.daily.resetAt == b.day(now) && st.monthly.resetAt == b.month(now)
    ensures UserOk(b, m, WithConn(st, now), bytes, conns + [Event(now, 1)], now)
  {
    hide Represents, RepresentsWide, Counts, HourOk, Record;
    RecordRepresents(st.connPerSecond, conns, now, 1);
    RecordRepresents(st.connPerMinute, conns, now, 1);
    HourRecord(m, st.connPerHour, conns, now, now, 1);
    AddConnCounts(b.day, st.daily, bytes, conns, now);
    AddConnCounts(b.month, st.monthly, bytes, conns, now);
  }

  lemma WithBytesOk(b: Boundaries, m: bool, st: UserState, bytes: seq<Event>, conns: seq<Event>, now: nat, n: nat)
    requires UserOk(b, m, st, bytes, conns, now) && OnMinute(m, now)
    requires st.daily.resetAt == b.day(now) && st.monthly.resetAt == b.month(now)
    ensures UserOk(b, m, WithBytes(st, now, n), bytes + [Event(now, n)], conns, now)
  {
    hide Represents, RepresentsWide, Counts, HourOk, Record;
    RecordRepresents(st.secondWindow, bytes, now, n);
    HourRecord(m, st.hourWindow, bytes, now, now, n);
    AddBytesCounts(b.day, st.daily, bytes, conns, now, n);
    AddBytesCounts(b.month, st.monthly, bytes, conns, now, n);
    assert (bytes + [Event(now, n)])[..|bytes|] == bytes;
  }

  /** The per-user part of the rate check; reading a window advances it. */
  function UserRateCheck(st: UserState, limits: RateLimits, now: nat): (UserState, Verdict)
    requires WellFormed(st.connPerSecond) && WellFormed(st.connPerMinute) && WellFormed(st.connPerHour)
  {
    var second, minute, hour :=
      Advance(st.connPerSecond, now), Advance(st.connPerMinute, now), Advance(st.connPerHour, now);
    var st1 := if limits.perSecond > 0 then st.(connPerSecond := second) else st;
    if limits.perSecond > 0 && second.cached >= limits.perSecond then (st1, Exceeded(UserPerSecond)) else
    var st2 := if limits.perMinute > 0 then st1.(connPerMinute := minute) else st1;
    if limits.perMinute > 0 && minute.cached >= limits.perMinute then (st2, Exceeded(UserPerMinute)) else
    var st3 := if limits.perHour > 0 then st2.(connPerHour := hour) else st2;
    (st3, if limits.perHour > 0 && hour.cached >= limits.perHour then Exceeded(UserPerHour) else Allowed)
  }

  /** What the per-user part decides, in terms of the user's connections. */
  function UserRateVerdict(conns: seq<Event>, limits: RateLimits, hourSum: nat, now: nat): Verdict {
    if !UnderLimit(conns, 1, limits.perSecond, now) then Exceeded(UserPerSecond)
    else if !UnderLimit(conns, 60, limits.perMinute, now) then Exceeded(UserPerMinute)
    else if limits.perHour > 0 && hourSum >= limits.perHour then Exceeded(UserPerHour)
    else Allowed
  }

  lemma UserRateCheckOk(b: Boundaries, m: bool, st: UserState, bytes: seq<Event>, conns: seq<Event>, limits: RateLimits, now: nat)
    requires UserOk(b, m, st, bytes, conns, now) && OnMinute(m, now)
    ensures UserOk(b, m, UserRateCheck(st, limits, now).0, bytes, conns, now)
    ensures UserRateCheck(st, limits, now).1
         == UserRateVerdict(conns, limits, Advance(st.connPerHour, now).cached, now)
    ensures UserRateCheck(st, limits, now).1 == Exceeded(UserPerHour) ==> Recorded(conns) >= limits.perHour
    ensures m ==> Advance(st.connPerHour, now).cached == Trailing(conns, HOUR, now)
  {
    hide Represents, Counts, Advance;
    HourAdvance(m, st.connPerHour, conns, now, now);
    ReadWindow(st.connPerSecond, 1, conns, now, now);
    ReadWindow(st.connPerMinute, 60, conns, now, now);
  }

  /** Reading a window: it stays faithful and answers the sliding total. */
  lemma ReadWindow(w: Window, n: nat, log: seq<Event>, clock: nat, now: nat)
    requires WindowOk(w, n, log, clock) && clock <= now
    ensures WindowOk(Advance(w, now), n, log, now)
    ensures Advance(w, now).cached == Trailing(log, n, now)
  {
    AdvanceRepresents(w, log, now);
    CachedIsTotal(Advance(w, now), log);
  }

  // ---------------------------------------------------------------------------
  // The log of the whole tracker

  datatype Entry = Bytes(user: string, time: nat, n: nat) | Conn(user: string, time: nat)

  function ByteLog(log: seq<Entry>, u: string): seq<Event> {
    if log == [] then []
    else
      var e := log[|log| - 1];
      ByteLog(log[..|log| - 1], u) + if e.Bytes? && e.user == u then [Event(e.time, e.n)] else []
  }

  /** Connections of one user, or of the whole server. */
  function ConnLog(log: seq<Entry>, who: Option<string>): seq<Event> {
    if log == [] then []
    else
      var e := log[|log| - 1];
      ConnLog(log[..|log| - 1], who) +
      if e.Conn? && (who.None? || who.value == e.user) then [Event(e.time, 1)] else []
  }

  lemma AppendEntry(log: seq<Entry>, e: Entry, u: string, who: Option<string>)
    ensures ByteLog(log + [e], u)
         == if e.Bytes? && e.user == u then ByteLog(log, u) + [Event(e.time, e.n)] else ByteLog(log, u)
    ensures ConnLog(log + [e], who)
         == if e.Conn? && (who.None? || who.value == e.user) then ConnLog(log, who) + [Event(e.time, 1)]
            else ConnLog(log, who)
  {
    assert (log + [e])[..|log|] == log;
  }

  lemma AppendConn(log: seq<Entry>, u: string, now: nat)
    ensures var log' := log + [Conn(u, now)];
      && ByteLog(log', u) == ByteLog(log, u)
      && ConnLog(log', Some(u)) == ConnLog(log, Some(u)) + [Event(now, 1)]
      && forall v :: v != u ==> ByteLog(log', v) == ByteLog(log, v) && ConnLog(log', Some(v)) == ConnLog(log, Some(v))
  {
    forall v { AppendEntry(log, Conn(u, now), v, Some(v)); }
  }

  lemma AppendBytes(log: seq<Entry>, u: string, now: nat, n: nat)
    ensures var log' := log + [Bytes(u, now, n)];
      && ByteLog(log', u) == ByteLog(log, u) + [Event(now, n)]
      && (forall v :: ConnLog(log', v) == ConnLog(log, v))
      && forall v :: v != u ==> ByteLog(log', v) == ByteLog(log, v)
  {
    forall v { AppendEntry(log, Bytes(u, now, n), v, Some(v)); }
    forall w { AppendEntry(log, Bytes(u, now, n), u, w); }
  }

  // ---------------------------------------------------------------------------
  // Verdicts, read off the log

  predicate UnderLimit(conns: seq<Event>, secs: nat, limit: nat, now: nat) {
    limit == 0 || Trailing(conns, secs, now) < limit
  }

  /** `second` and `minute` say which server-wide limiters exist; `hourSum` is the reading of the
      hour window, whose wide buckets do not give an exact total. */
  function ServerRateVerdict(all: seq<Event>, second: bool, minute: bool, server: ServerLimits, now: nat): Verdict {
    if second && Trailing(all, 1, now) >= server.perSecond then Exceeded(ServerPerSecond)
    else if minute && Trailing(all, 60, now) >= server.perMinute then Exceeded(ServerPerMinute)
    else Allowed
  }

  function RateVerdict(log: seq<Entry>, u: string, second: bool, minute: bool,
                       server: ServerLimits, limits: RateLimits, hourSum: nat, now: nat): Verdict
  {
    var v := ServerRateVerdict(ConnLog(log, None), second, minute, server, now);
    if v.Exceeded? then v else UserRateVerdict(ConnLog(log, Some(u)), limits, hourSum, now)
  }

  function ConnVerdict(b: Boundaries, conns: seq<Event>, quotas: Option<QuotaConfig>, now: nat): Verdict {
    if quotas.None? then Allowed
    else
      var q := quotas.value;
      if q.dailyConns > 0 && InPeriod(b.day, conns, b.day(now)) >= q.dailyConns
      then Exceeded(DailyConns)
      else if q.monthlyConns > 0 && InPeriod(b.month, conns, b.month(now)) >= q.monthlyConns
      then Exceeded(MonthlyConns)
      else Allowed
  }

  function ByteVerdict(b: Boundaries, bytes: seq<Event>, quotas: Option<QuotaConfig>, hourSum: nat, now: nat): Verdict {
    if quotas.None? then Allowed
    else
      var q := quotas.value;
      if q.totalBytes > 0 && Recorded(bytes) >= q.totalBytes then Exceeded(TotalBytes)
      else if q.dailyBytes > 0 && InPeriod(b.day, bytes, b.day(now)) >= q.dailyBytes
      then Exceeded(DailyBytes)
      else if q.monthlyBytes > 0 && InPeriod(b.month, bytes, b.month(now)) >= q.monthlyBytes
      then Exceeded(MonthlyBytes)
      else if q.hourlyBytes > 0 && hourSum >= q.hourlyBytes then Exceeded(HourlyBytes)
      else Allowed
  }

  // ---------------------------------------------------------------------------
  // What a verdict means, in numbers

  /** The first limit reached is reported, in the order server, user; second, minute, hour. */
  predicate RateMeans(v: Verdict, second: bool, minute: bool, server: ServerLimits, limits: RateLimits,
                      all1: nat, all60: nat, own1: nat, own60: nat, own3600: nat)
  {
    var s1, s60 := second && all1 >= server.perSecond, minute && all60 >= server.perMinute;
    var u1, u60, u3600 :=
      0 < limits.perSecond <= own1, 0 < limits.perMinute <= own60, 0 < limits.perHour <= own3600;
    && (v == Exceeded(ServerPerSecond) <==> s1)
    && (v == Exceeded(ServerPerMinute) <==> !s1 && s60)
    && (v == Exceeded(UserPerSecond) <==> !s1 && !s60 && u1)
    && (v == Exceeded(UserPerMinute) <==> !s1 && !s60 && !u1 && u60)
    && (v == Exceeded(UserPerHour) <==> !s1 && !s60 && !u1 && !u60 && u3600)
    && (v == Allowed <==> !s1 && !s60 && !u1 && !u60 && !u3600)
  }

  lemma RateVerdictMeans(log: seq<Entry>, u: string, second: bool, minute: bool,
                         server: ServerLimits, limits: RateLimits, hourSum: nat, now: nat)
    ensures var all, own := ConnLog(log, None), ConnLog(log, Some(u));
      RateMeans(RateVerdict(log, u, second, minute, server, limits, hourSum, now), second, minute, server, limits,
                Trailing(all, 1, now), Trailing(all, 60, now), Trailing(own, 1, now), Trailing(own, 60, now), hourSum)
  {
    hide Trailing, ConnLog;
  }

  /** A connection is let through exactly below both quotas; the day is reported before the month. */
  predicate ConnsMean(v: Verdict, quotas: Option<QuotaConfig>, day: nat, month: nat) {
    var d := quotas.Some? && 0 < quotas.value.dailyConns <= day;
    var m := quotas.Some? && 0 < quotas.value.monthlyConns <= month;
    && (v == Exceeded(DailyConns) <==> d)
    && (v == Exceeded(MonthlyConns) <==> !d && m)
    && (v == Allowed <==> !d && !m)
  }

  lemma ConnVerdictMeans(b: Boundaries, conns: seq<Event>, quotas: Option<QuotaConfig>, now: nat)
    ensures ConnsMean(ConnVerdict(b, conns, quotas, now), quotas,
                      InPeriod(b.day, conns, b.day(now)), InPeriod(b.month, conns, b.month(now)))
  {
    hide InPeriod;
  }

  /** The bytes are within quota exactly when every configured total is below its limit; the order of
      the report is all time, day, month, hour. */
  predicate BytesMean(v: Verdict, quotas: Option<QuotaConfig>, total: nat, day: nat, month: nat, hour: nat) {
    var t := quotas.Some? && 0 < quotas.value.totalBytes <= total;
    var d := quotas.Some? && 0 < quotas.value.dailyBytes <= day;
    var m := quotas.Some? && 0 < quotas.value.monthlyBytes <= month;
    var h := quotas.Some? && 0 < quotas.value.hourlyBytes <= hour;
    && (v == Exceeded(TotalBytes) <==> t)
    && (v == Exceeded(DailyBytes) <==> !t && d)
    && (v == Exceeded(MonthlyBytes) <==> !t && !d && m)
    && (v == Exceeded(HourlyBytes) <==> !t && !d && !m && h)
    && (v == Allowed <==> !t && !d && !m && !h)
  }

  lemma ByteVerdictMeans(b: Boundaries, bytes: seq<Event>, quotas: Option<QuotaConfig>, hourSum: nat, now: nat)
    ensures BytesMean(ByteVerdict(b, bytes, quotas, hourSum, now), quotas, Recorded(bytes),
                      InPeriod(b.day, bytes, b.day(now)), InPeriod(b.month, bytes, b.month(now)), hourSum)
  {
    hide InPeriod, Recorded;
  }

  /** What was recorded this UTC day and this month. */
  function ToDay(log: seq<Event>, now: nat): nat { OnDay(log, now / SECS_PER_DAY) }

  function ToMonth(log: seq<Event>, now: nat): nat { InMonth(log, MonthOf(now / SECS_PER_DAY)) }

  lemma InUtc(log: seq<Event>, now: nat)
    ensures InPeriod(UTC.day, log, UTC.day(now)) == ToDay(log, now)
    ensures InPeriod(UTC.month, log, UTC.month(now)) == ToMonth(log, now)
  {
    hide InPeriod, NextDayBoundary, NextMonthBoundary, MonthOf, OnDay, InMonth;
    PeriodsAreCalendar(log, now);
  }

  // ---------------------------------------------------------------------------
  // Connection quotas over whole runs

  /** The connections recorded when one is asked for at each of these times. */
  function Recording(quotas: Option<QuotaConfig>, times: seq<nat>): seq<Event> {
    if times == [] then []
    else
      var conns, now := Recording(quotas, times[..|times| - 1]), times[|times| - 1];
      if ConnVerdict(UTC, conns, quotas, now).Allowed? then conns + [Event(now, 1)] else conns
  }

  lemma OneMoreConn(conns: seq<Event>, now: nat, day: nat, month: YearMonth)
    ensures OnDay(conns + [Event(now, 1)], day)
         == OnDay(conns, day) + (if now / SECS_PER_DAY == day then 1 else 0)
    ensures InMonth(conns + [Event(now, 1)], month)
         == InMonth(conns, month) + (if MonthOf(now / SECS_PER_DAY) == month then 1 else 0)
  {
    assert (conns + [Event(now, 1)])[..|conns|] == conns;
  }

  /** No UTC day and no month ever holds more connections than its quota, however many are asked for. */
  lemma {:induction false} ConnQuotaHolds(q: QuotaConfig, times: seq<nat>, day: nat, month: YearMonth)
    ensures q.dailyConns > 0 ==> OnDay(Recording(Some(q), times), day) <= q.dailyConns
    ensures q.monthlyConns > 0 ==> InMonth(Recording(Some(q), times), month) <= q.monthlyConns
    decreases |times|
  {
    hide ConnVerdict, OnDay, InMonth, MonthOf, InPeriod, ToDay, ToMonth;
    if times == [] {
      NoneYet(day, month);
    } else {
      var conns, now := Recording(Some(q), times[..|times| - 1]), times[|times| - 1];
      ConnQuotaHolds(q, times[..|times| - 1], day, month);
      ConnVerdictMeans(UTC, conns, Some(q), now);
      InUtc(conns, now);
      AtNow(conns, now);
      OneMoreConn(conns, now, day, month);
    }
  }

  /** And one is refused exactly when its day or its month is full. */
  lemma ConnRefusedIff(q: QuotaConfig, times: seq<nat>, now: nat)
    ensures var conns := Recording(Some(q), times);
      Recording(Some(q), times + [now])
      == if 0 < q.dailyConns <= ToDay(conns, now) || 0 < q.monthlyConns <= ToMonth(conns, now) then conns
         else conns + [Event(now, 1)]
  {
    hide ConnVerdict, InPeriod, ToDay, ToMonth;
    assert (times + [now])[..|times|] == times;
    ConnVerdictMeans(UTC, Recording(Some(q), times), Some(q), now);
    InUtc(Recording(Some(q), times), now);
  }

  lemma NoneYet(day: nat, month: YearMonth)
    ensures OnDay([], day) == 0 && InMonth([], month) == 0
  {
  }

  lemma AtNow(log: seq<Event>, now: nat)
    ensures ToDay(log, now) == OnDay(log, now / SECS_PER_DAY)
    ensures ToMonth(log, now) == InMonth(log, MonthOf(now / SECS_PER_DAY))
  {
  }

  // ---------------------------------------------------------------------------
  // Usage reports

  datatype Usage = Usage(
    dailyBytes: nat, dailyConns: nat, monthlyBytes: nat, monthlyConns: nat,
    rate: nat, hourly: nat, totalBytes: nat)

  /** The report in calendar terms: this UTC day and this month, a day within its month within all time. */
  predicate InCalendarTerms(usage: Usage, bytes: seq<Event>, conns: seq<Event>, now: nat) {
    var day := now / SECS_PER_DAY;
    && usage.dailyBytes == OnDay(bytes, day) && usage.dailyConns == OnDay(conns, day)
    && usage.monthlyBytes == InMonth(bytes, MonthOf(day)) && usage.monthlyConns == InMonth(conns, MonthOf(day))
    && usage.dailyBytes <= usage.monthlyBytes <= usage.totalBytes
    && usage.dailyConns <= usage.monthlyConns
  }

  lemma CalendarUsage(usage: Usage, bytes: seq<Event>, conns: seq<Event>, now: nat)
    requires usage.totalBytes == Recorded(bytes)
    ensures
      && usage.dailyBytes == InPeriod(UTC.day, bytes, UTC.day(now))
      && usage.dailyConns == InPeriod(UTC.day, conns, UTC.day(now))
      && usage.monthlyBytes == InPeriod(UTC.month, bytes, UTC.month(now))
      && usage.monthlyConns == InPeriod(UTC.month, conns, UTC.month(now))
      ==> InCalendarTerms(usage, bytes, conns, now)
  {
    hide InPeriod, NextDayBoundary, NextMonthBoundary, MonthOf, OnDay, InMonth;
    PeriodsAreCalendar(bytes, now);
    PeriodsAreCalendar(conns, now);
    DayWithinMonth(bytes, now);
    DayWithinMonth(conns, now);
  }

  // ---------------------------------------------------------------------------
  // All users at once

  /** A server-wide limiter that may not be configured. */
  ghost predicate LimiterOk(w: Option<Window>, n: nat, log: seq<Event>, clock: nat) {
    w.Some? ==> WindowOk(w.value, n, log, clock)
  }

  ghost predicate UserAgrees(b: Boundaries, m: bool, users: map<string, UserState>, log: seq<Entry>, clock: nat, u: string) {
    if u in users then UserOk(b, m, users[u], ByteLog(log, u), ConnLog(log, Some(u)), clock)
    else ByteLog(log, u) == [] && ConnLog(log, Some(u)) == []
  }

  ghost predicate UsersOk(b: Boundaries, m: bool, users: map<string, UserState>, log: seq<Entry>, clock: nat) {
    forall u :: UserAgrees(b, m, users, log, clock, u)
  }

  /** Replacing one user's state, while the log grows by entries of that user only. */
  lemma StoreOk(b: Boundaries, m: bool, users: map<string, UserState>, log: seq<Entry>, clock: nat,
                u: string, st: UserState, log': seq<Entry>, now: nat)
    requires UsersOk(b, m, users, log, clock) && clock <= now
    requires UserOk(b, m, st, ByteLog(log', u), ConnLog(log', Some(u)), now)
    requires forall v :: v != u ==> ByteLog(log', v) == ByteLog(log, v) && ConnLog(log', Some(v)) == ConnLog(log, Some(v))
    ensures UsersOk(b, m, users[u := st], log', now)
  {
    var users' := users[u := st];
    forall v ensures UserAgrees(b, m, users', log', now, v) {
      assert UserAgrees(b, m, users, log, clock, v);
      if v != u && v in users {
        LaterOk(b, m, users[v], ByteLog(log, v), ConnLog(log, Some(v)), clock, now);
      }
    }
  }

  lemma StoreConn(b: Boundaries, m: bool, users: map<string, UserState>, log: seq<Entry>, u: string, st: UserState, now: nat)
    requires UsersOk(b, m, users, log, now)
    requires UserOk(b, m, st, ByteLog(log, u), ConnLog(log, Some(u)), now) && OnMinute(m, now)
    requires st.daily.resetAt == b.day(now) && st.monthly.resetAt == b.month(now)
    ensures UsersOk(b, m, users[u := WithConn(st, now)], log + [Conn(u, now)], now)
  {
    hide Represents, Counts, Record, UsersOk, ByteLog, ConnLog;
    AppendConn(log, u, now);
    WithConnOk(b, m, st, ByteLog(log, u), ConnLog(log, Some(u)), now);
    StoreOk(b, m, users, log, now, u, WithConn(st, now), log + [Conn(u, now)], now);
  }

  lemma LaterUsers(b: Boundaries, m: bool, users: map<string, UserState>, log: seq<Entry>, clock: nat, now: nat)
    requires UsersOk(b, m, users, log, clock) && clock <= now
    ensures UsersOk(b, m, users, log, now)
  {
    forall v ensures UserAgrees(b, m, users, log, now, v) {
      assert UserAgrees(b, m, users, log, clock, v);
      if v in users {
        LaterOk(b, m, users[v], ByteLog(log, v), ConnLog(log, Some(v)), clock, now);
      }
    }
  }

  /** Knowing less about the clock. */
  lemma WeakerUsers(b: Boundaries, m: bool, users: map<string, UserState>, log: seq<Entry>, clock: nat, m': bool)
    requires UsersOk(b, m, users, log, clock) && (m' ==> m)
    ensures UsersOk(b, m', users, log, clock)
  {
    forall v ensures UserAgrees(b, m', users, log, clock, v) {
      assert UserAgrees(b, m, users, log, clock, v);
    }
  }

  // ---------------------------------------------------------------------------
  // The tracker, updated in place

  class QuotaTracker {
    const b: Boundaries
    var users: map<string, UserState>
    var serverPerSecond: Option<Window>
    var serverPerMinute: Option<Window>
    ghost var log: seq<Entry>
    ghost var clock: nat
    ghost var minutes: bool   // the clock has only shown whole minutes

    ghost predicate Valid()
      reads this
    {
      && Lawful(b) && OnMinute(minutes, clock)
      && UsersOk(b, minutes, users, log, clock)
      && LimiterOk(serverPerSecond, 1, ConnLog(log, None), clock)
      && LimiterOk(serverPerMinute, 60, ConnLog(log, None), clock)
    }

    constructor (limits: ServerLimits, now: nat)
      ensures Valid() && b == UTC && log == [] && clock == now && minutes == (now % MINUTE == 0)
      ensures serverPerSecond.Some? == (limits.perSecond > 0)
      ensures serverPerMinute.Some? == (limits.perMinute > 0)
    {
      UtcLawful();
      NewWindowOk(1, now);
      NewWindowOk(60, now);
      b := UTC;
      users := map[];
      serverPerSecond := if limits.perSecond > 0 then Some(New(1, 1, now)) else None;
      serverPerMinute := if limits.perMinute > 0 then Some(New(60, 60, now)) else None;
      log, clock, minutes := [], now, now % MINUTE == 0;
    }

    /** The stored state, or the one `get_user` is about to create. */
    function UserAt(u: string, now: nat): UserState
      reads this
    {
      if u in users then users[u] else NewUser(b, now)
    }

    lemma UserAtOk(u: string, now: nat)
      requires Valid() && clock <= now
      ensures UserOk(b, minutes && now % MINUTE == 0, UserAt(u, now), ByteLog(log, u), ConnLog(log, Some(u)), now)
    {
      assert UserAgrees(b, minutes, users, log, clock, u);
      if u in users {
        LaterOk(b, minutes, users[u], ByteLog(log, u), ConnLog(log, Some(u)), clock, now);
      } else {
        NewUserOk(b, minutes && now % MINUTE == 0, now);
      }
    }

    /** The reading of the user's hourly connection window: at most what was recorded, and exactly the
        last hour on a clock of whole minutes. */
    ghost function HourConns(u: string, now: nat): (n: nat)
      requires Valid() && clock <= now
      reads this
      ensures n <= Recorded(ConnLog(log, Some(u)))
      ensures minutes && now % MINUTE == 0 ==> n == Trailing(ConnLog(log, Some(u)), HOUR, now)
    {
      UserAtOk(u, now);
      HourAdvance(minutes && now % MINUTE == 0, UserAt(u, now).connPerHour, ConnLog(log, Some(u)), now, now);
      Advance(UserAt(u, now).connPerHour, now).cached
    }

    /** The reading of the user's hourly byte window, before and after `n` more bytes. */
    ghost function HourBytes(u: string, now: nat): (n: nat)
      requires Valid() && clock <= now
      reads this
      ensures n <= Recorded(ByteLog(log, u))
      ensures minutes && now % MINUTE == 0 ==> n == Trailing(ByteLog(log, u), HOUR, now)
    {
      UserAtOk(u, now);
      HourAdvance(minutes && now % MINUTE == 0, UserAt(u, now).hourWindow, ByteLog(log, u), now, now);
      Advance(UserAt(u, now).hourWindow, now).cached
    }

    ghost function HourBytesAfter(u: string, now: nat, n: nat): (r: nat)
      requires Valid() && clock <= now
      reads this
      ensures r <= Recorded(ByteLog(log, u) + [Event(now, n)])
      ensures minutes && now % MINUTE == 0 ==> r == Trailing(ByteLog(log, u) + [Event(now, n)], HOUR, now)
    {
      UserAtOk(u, now);
      HourRecord(minutes && now % MINUTE == 0, UserAt(u, now).hourWindow, ByteLog(log, u), now, now, n);
      HourAdvance(minutes && now % MINUTE == 0, Record(UserAt(u, now).hourWindow, now, n),
                  ByteLog(log, u) + [Event(now, n)], now, now);
      Advance(Record(UserAt(u, now).hourWindow, now, n), now).cached
    }

    /** Time passes. */
    ghost method Tick(now: nat)
      requires Valid() && clock <= now
      modifies this`clock, this`minutes
      ensures Valid() && clock == now && minutes == (old(minutes) && now % MINUTE == 0)
    {
      hide Represents, UserOk;
      var m := minutes && now % MINUTE == 0;
      LaterUsers(b, minutes, users, log, clock, now);
      WeakerUsers(b, minutes, users, log, now, m);
      clock, minutes := now, m;
    }

    /** The server-wide part of the rate check. */
    method CheckServerRate(server: ServerLimits, now: nat) returns (verdict: Verdict)
      requires Valid() && clock == now
      modifies this`serverPerSecond, this`serverPerMinute
      ensures Valid()
      ensures serverPerSecond.Some? == old(serverPerSecond.Some?) && serverPerMinute.Some? == old(serverPerMinute.Some?)
      ensures verdict == ServerRateVerdict(ConnLog(log, None), serverPerSecond.Some?, serverPerMinute.Some?, server, now)
    {
      hide Represents, UserOk, UsersOk, Advance;
      if serverPerSecond.Some? {
        ReadWindow(serverPerSecond.value, 1, ConnLog(log, None), now, now);
        serverPerSecond := Some(Advance(serverPerSecond.value, now));
        if serverPerSecond.value.cached >= server.perSecond {
          return Exceeded(ServerPerSecond);
        }
      }
      if serverPerMinute.Some? {
        ReadWindow(serverPerMinute.value, 60, ConnLog(log, None), now, now);
        serverPerMinute := Some(Advance(serverPerMinute.value, now));
        if serverPerMinute.value.cached >= server.perMinute {
          return Exceeded(ServerPerMinute);
        }
      }
      verdict := Allowed;
    }

    /** The per-user part of the rate check. */
    method CheckUserRate(u: string, limits: RateLimits, now: nat) returns (verdict: Verdict)
      requires Valid() && clock == now
      modifies this`users
      ensures Valid()
      ensures verdict == UserRateVerdict(ConnLog(log, Some(u)), limits, old(HourConns(u, now)), now)
      ensures verdict == Exceeded(UserPerHour) ==> Recorded(ConnLog(log, Some(u))) >= limits.perHour
    {
      hide Represents, Counts, Advance, UserRateCheck, UserRateVerdict;
      UserAtOk(u, now);
      UserRateCheckOk(b, minutes, UserAt(u, now), ByteLog(log, u), ConnLog(log, Some(u)), limits, now);
      var r := UserRateCheck(UserAt(u, now), limits, now);
      StoreOk(b, minutes, users, log, now, u, r.0, log, now);
      users, verdict := users[u := r.0], r.1;
    }

    /** Server-wide limiters first, then the user's own windows; the first limit reached is
        reported.  Nothing is recorded. */
    method CheckConnectionRate(u: string, limits: RateLimits, server: ServerLimits, now: nat)
      returns (verdict: Verdict)
      requires Valid() && clock <= now
      modifies this
      ensures Valid() && clock == now && log == old(log)
      ensures serverPerSecond.Some? == old(serverPerSecond.Some?) && serverPerMinute.Some? == old(serverPerMinute.Some?)
      ensures verdict == RateVerdict(log, u, serverPerSecond.Some?, serverPerMinute.Some?,
                                     server, limits, old(HourConns(u, now)), now)
      ensures verdict == Exceeded(UserPerHour) ==> Recorded(ConnLog(log, Some(u))) >= limits.perHour
      ensures minutes == (old(minutes) && now % MINUTE == 0)
      ensures var all, own := ConnLog(log, None), ConnLog(log, Some(u));
        RateMeans(verdict, serverPerSecond.Some?, serverPerMinute.Some?, server, limits,
                  Trailing(all, 1, now), Trailing(all, 60, now),
                  Trailing(own, 1, now), Trailing(own, 60, now), old(HourConns(u, now)))
      ensures var all, own := ConnLog(log, None), ConnLog(log, Some(u));
        minutes ==> RateMeans(verdict, serverPerSecond.Some?, serverPerMinute.Some?, server, limits,
                              Trailing(all, 1, now), Trailing(all, 60, now),
                              Trailing(own, 1, now), Trailing(own, 60, now), Trailing(own, HOUR, now))
    {
      hide Valid, UserRateVerdict, RateMeans;
      ghost var hourSum := HourConns(u, now);
      Tick(now);
      verdict := CheckServerRate(server, now);
      if verdict.Allowed? {
        verdict := CheckUserRate(u, limits, now);
      }
      RateVerdictMeans(log, u, serverPerSecond.Some?, serverPerMinute.Some?, server, limits, hourSum, now);
    }

    /** `get_user` followed by `lazy_reset`: the counters now cover the current day and month. */
    method TouchUser(u: string, now: nat) returns (st: UserState)
      requires Valid() && clock == now
      modifies this`users
      ensures Valid() && users == old(users)[u := st] && st == LazyReset(b, old(UserAt(u, now)), now)
      ensures UserOk(b, minutes, st, ByteLog(log, u), ConnLog(log, Some(u)), now)
      ensures Current(b, st, ByteLog(log, u), ConnLog(log, Some(u)), now)
    {
      hide Represents, Counts, InPeriod, Touch;
      UserAtOk(u, now);
      ResetOk(b, minutes, UserAt(u, now), ByteLog(log, u), ConnLog(log, Some(u)), now, now);
      st := LazyReset(b, UserAt(u, now), now);
      StoreOk(b, minutes, users, log, now, u, st, log, now);
      users := users[u := st];
    }

    /** Records a connection in the server-wide limiters. */
    method RecordServerConn(u: string, now: nat)
      requires LimiterOk(serverPerSecond, 1, ConnLog(log, None), clock)
      requires LimiterOk(serverPerMinute, 60, ConnLog(log, None), clock) && clock == now
      modifies this`serverPerSecond, this`serverPerMinute
      ensures serverPerSecond.Some? == old(serverPerSecond.Some?) && serverPerMinute.Some? == old(serverPerMinute.Some?)
      ensures LimiterOk(serverPerSecond, 1, ConnLog(log + [Conn(u, now)], None), clock)
      ensures LimiterOk(serverPerMinute, 60, ConnLog(log + [Conn(u, now)], None), clock)
    {
      AppendEntry(log, Conn(u, now), u, None);
      if serverPerSecond.Some? {
        RecordRepresents(serverPerSecond.value, ConnLog(log, None), now, 1);
        serverPerSecond := Some(Record(serverPerSecond.value, now, 1));
      }
      if serverPerMinute.Some? {
        RecordRepresents(serverPerMinute.value, ConnLog(log, None), now, 1);
        serverPerMinute := Some(Record(serverPerMinute.value, now, 1));
      }
    }

    /** The connection quotas of the day and the month. */
    method CompareConns(st: UserState, quotas: Option<QuotaConfig>, now: nat, ghost bytes: seq<Event>, ghost conns: seq<Event>)
      returns (verdict: Verdict)
      requires Current(b, st, bytes, conns, now)
      ensures verdict == ConnVerdict(b, conns, quotas, now)
    {
      hide InPeriod;
      if quotas.Some? {
        if quotas.value.dailyConns > 0 && st.daily.conns >= quotas.value.dailyConns {
          return Exceeded(DailyConns);
        }
        if quotas.value.monthlyConns > 0 && st.monthly.conns >= quotas.value.monthlyConns {
          return Exceeded(MonthlyConns);
        }
      }
      verdict := Allowed;
    }

    /** Adds a connection to every counter and window of a user touched at `now`. */
    method AddConn(u: string, st: UserState, now: nat)
      requires Valid() && clock == now && UserOk(b, minutes, st, ByteLog(log, u), ConnLog(log, Some(u)), now)
      requires st.daily.resetAt == b.day(now) && st.monthly.resetAt == b.month(now)
      modifies this
      ensures Valid() && clock == now && log == old(log) + [Conn(u, now)] && minutes == old(minutes)
      ensures serverPerSecond.Some? == old(serverPerSecond.Some?) && serverPerMinute.Some? == old(serverPerMinute.Some?)
    {
      hide Represents, Counts, Record, UsersOk, LimiterOk, ByteLog, ConnLog;
      StoreConn(b, minutes, users, log, u, st, now);
      users := users[u := WithConn(st, now)];
      RecordServerConn(u, now);
      log := log + [Conn(u, now)];
    }

    /** Checks the calendar quotas, and records the connection everywhere if they have room. */
    method RecordConnection(u: string, quotas: Option<QuotaConfig>, now: nat) returns (verdict: Verdict)
      requires Valid() && clock <= now
      modifies this
      ensures Valid() && clock == now
      ensures serverPerSecond.Some? == old(serverPerSecond.Some?) && serverPerMinute.Some? == old(serverPerMinute.Some?)
      ensures verdict == ConnVerdict(b, ConnLog(old(log), Some(u)), quotas, now)
      ensures log == if verdict.Allowed? then old(log) + [Conn(u, now)] else old(log)
      ensures minutes == (old(minutes) && now % MINUTE == 0)
      ensures var own := ConnLog(old(log), Some(u));
        b == UTC ==> ConnsMean(verdict, quotas, ToDay(own, now), ToMonth(own, now))
    {
      hide Valid, UserOk, ConnVerdict, ConnsMean, ToDay, ToMonth, InPeriod;
      ConnVerdictMeans(b, ConnLog(log, Some(u)), quotas, now);
      InUtc(ConnLog(log, Some(u)), now);
      Tick(now);
      var st := TouchUser(u, now);
      verdict := CompareConns(st, quotas, now, ByteLog(log, u), ConnLog(log, Some(u)));
      if verdict.Allowed? {
        AddConn(u, st, now);
      }
    }

    /** The byte quotas in the order the tracker checks them: total, day, month, hour. */
    method CompareBytes(u: string, st: UserState, quotas: Option<QuotaConfig>, now: nat) returns (verdict: Verdict)
      requires Valid() && clock == now && UserOk(b, minutes, st, ByteLog(log, u), ConnLog(log, Some(u)), now)
      requires Current(b, st, ByteLog(log, u), ConnLog(log, Some(u)), now)
      modifies this`users
      ensures Valid()
      ensures verdict == ByteVerdict(b, ByteLog(log, u), quotas, Advance(st.hourWindow, now).cached, now)
      ensures verdict == Exceeded(HourlyBytes) ==> quotas.Some? && Recorded(ByteLog(log, u)) >= quotas.value.hourlyBytes
    {
      hide Represents, Counts, InPeriod, Advance;
      HourAdvance(minutes, st.hourWindow, ByteLog(log, u), now, now);
      if quotas.None? {
        return Allowed;
      }
      var q := quotas.value;
      if q.totalBytes > 0 && st.totalBytes >= q.totalBytes {
        return Exceeded(TotalBytes);
      }
      if q.dailyBytes > 0 && st.daily.bytes >= q.dailyBytes {
        return Exceeded(DailyBytes);
      }
      if q.monthlyBytes > 0 && st.monthly.bytes >= q.monthlyBytes {
        return Exceeded(MonthlyBytes);
      }
      if q.hourlyBytes > 0 {
        var st' := st.(hourWindow := Advance(st.hourWindow, now));
        StoreOk(b, minutes, users, log, now, u, st', log, now);
        users := users[u := st'];
        if st'.hourWindow.cached >= q.hourlyBytes {
          return Exceeded(HourlyBytes);
        }
      }
      verdict := Allowed;
    }

    /** Whether the byte quotas still have room; nothing is recorded. */
    method CheckBandwidthQuota(u: string, quotas: Option<QuotaConfig>, now: nat) returns (verdict: Verdict)
      requires Valid() && clock <= now
      modifies this
      ensures Valid() && clock == now && log == old(log)
      ensures verdict == ByteVerdict(b, ByteLog(log, u), quotas, old(HourBytes(u, now)), now)
      ensures verdict == Exceeded(HourlyBytes) ==> quotas.Some? && Recorded(ByteLog(log, u)) >= quotas.value.hourlyBytes
      ensures minutes == (old(minutes) && now % MINUTE == 0)
      ensures var own := ByteLog(log, u);
        b == UTC && minutes ==>
          BytesMean(verdict, quotas, Recorded(own), ToDay(own, now), ToMonth(own, now), Trailing(own, HOUR, now))
      ensures var own := ByteLog(log, u);
        b == UTC ==> BytesMean(verdict, quotas, Recorded(own), ToDay(own, now), ToMonth(own, now), old(HourBytes(u, now)))
    {
      hide Represents, Counts, InPeriod, Advance, BytesMean, ToDay, ToMonth;
      ByteVerdictMeans(b, ByteLog(log, u), quotas, HourBytes(u, now), now);
      InUtc(ByteLog(log, u), now);
      Tick(now);
      if quotas.None? {
        return Allowed;
      }
      var st := TouchUser(u, now);
      verdict := CompareBytes(u, st, quotas, now);
    }

    /** Adds the bytes to every counter and window of a user touched at `now`. */
    method AddBytes(u: string, st: UserState, n: nat, now: nat) returns (st': UserState)
      requires Valid() && clock == now && UserOk(b, minutes, st, ByteLog(log, u), ConnLog(log, Some(u)), now)
      requires Current(b, st, ByteLog(log, u), ConnLog(log, Some(u)), now)
      modifies this`users, this`log
      ensures Valid() && log == old(log) + [Bytes(u, now, n)] && st' == WithBytes(st, now, n)
      ensures UserOk(b, minutes, st', ByteLog(log, u), ConnLog(log, Some(u)), now)
      ensures Current(b, st', ByteLog(log, u), ConnLog(log, Some(u)), now)
    {
      hide Represents, Counts, InPeriod, Record;
      ghost var bytes, conns, log' := ByteLog(log, u), ConnLog(log, Some(u)), log + [Bytes(u, now, n)];
      AppendBytes(log, u, now, n);
      WithBytesOk(b, minutes, st, bytes, conns, now, n);
      WithBytesCurrent(b, minutes, st, bytes, conns, now, n);
      st' := WithBytes(st, now, n);
      StoreOk(b, minutes, users, log, now, u, st', log', now);
      users := users[u := st'];
      log := log';
    }

    /** Records the bytes first and then checks the quotas against the new totals. */
    method RecordBytes(u: string, n: nat, quotas: Option<QuotaConfig>, now: nat) returns (verdict: Verdict)
      requires Valid() && clock <= now
      modifies this
      ensures Valid() && clock == now && log == old(log) + [Bytes(u, now, n)]
      ensures verdict == ByteVerdict(b, ByteLog(log, u), quotas, old(HourBytesAfter(u, now, n)), now)
      ensures verdict == Exceeded(HourlyBytes) ==> quotas.Some? && Recorded(ByteLog(log, u)) >= quotas.value.hourlyBytes
      ensures minutes == (old(minutes) && now % MINUTE == 0)
      ensures var own := ByteLog(log, u);
        b == UTC && minutes ==>
          BytesMean(verdict, quotas, Recorded(own), ToDay(own, now), ToMonth(own, now), Trailing(own, HOUR, now))
      ensures var own := ByteLog(log, u);
        b == UTC ==> BytesMean(verdict, quotas, Recorded(own), ToDay(own, now), ToMonth(own, now), old(HourBytesAfter(u, now, n)))
    {
      hide Valid, UserOk, Current, ByteVerdict, Advance, Record, BytesMean, ToDay, ToMonth, InPeriod;
      ghost var own, hour := ByteLog(log, u) + [Event(now, n)], HourBytesAfter(u, now, n);
      AppendBytes(log, u, now, n);
      ByteVerdictMeans(b, own, quotas, hour, now);
      InUtc(own, now);
      Tick(now);
      var st := TouchUser(u, now);
      st := AddBytes(u, st, n, now);
      verdict := CompareBytes(u, st, quotas, now);
    }

    /** The usage report is what the log says: this UTC day, this month, the last second, all time. */
    method GetUserUsage(u: string, now: nat) returns (usage: Usage)
      requires Valid() && clock <= now
      modifies this
      ensures Valid() && clock == now && log == old(log)
      ensures var bytes, conns := ByteLog(log, u), ConnLog(log, Some(u));
        usage == Usage(InPeriod(b.day, bytes, b.day(now)), InPeriod(b.day, conns, b.day(now)),
                       InPeriod(b.month, bytes, b.month(now)), InPeriod(b.month, conns, b.month(now)),
                       Trailing(bytes, 1, now), old(HourBytes(u, now)), Recorded(bytes))
      ensures usage.hourly <= usage.totalBytes
      ensures minutes == (old(minutes) && now % MINUTE == 0)
      ensures minutes ==> usage.hourly == Trailing(ByteLog(log, u), HOUR, now)
      ensures b == UTC ==> InCalendarTerms(usage, ByteLog(log, u), ConnLog(log, Some(u)), now)
    {
      hide Represents, Counts, InPeriod, Advance, InCalendarTerms;
      Tick(now);
      var st := TouchUser(u, now);
      ReadWindow(st.secondWindow, 1, ByteLog(log, u), now, now);
      HourAdvance(minutes, st.hourWindow, ByteLog(log, u), now, now);
      st := st.(secondWindow := Advance(st.secondWindow, now), hourWindow := Advance(st.hourWindow, now));
      StoreOk(b, minutes, users, log, now, u, st, log, now);
      users := users[u := st];
      usage := Usage(st.daily.bytes, st.daily.conns, st.monthly.bytes, st.monthly.conns,
                     st.secondWindow.cached, st.hourWindow.cached, st.totalBytes);
      CalendarUsage(usage, ByteLog(log, u), ConnLog(log, Some(u)), now);
    }
  }
}

/** Counters that are reset lazily at calendar boundaries, against the log of what was
    recorded. */
module LazyCounters {
  import opened RollingWindows
  import opened Calendar

  // ---------------------------------------------------------------------------
  // A counter pair that is zeroed the first time it is touched after a boundary

  datatype Counter = Counter(bytes: nat, conns: nat, resetAt: nat)

  function NewCounter(end: nat -> nat, now: nat): Counter { Counter(0, 0, end(now)) }

  function Touch(end: nat -> nat, c: Counter, now: nat): Counter {
    if now >= c.resetAt then NewCounter(end, now) else c
  }

  /** Everything recorded in the period that ends at `at`. */
  function InPeriod(end: nat -> nat, log: seq<Event>, at: nat): nat {
    if log == [] then 0
    else
      var e := log[|log| - 1];
      InPeriod(end, log[..|log| - 1], at) + (if end(e.time) == at then e.count else 0)
  }

  lemma InPeriodAppend(end: nat -> nat, log: seq<Event>, e: Event, at: nat)
    ensures InPeriod(end, log + [e], at)
         == InPeriod(end, log, at) + (if end(e.time) == at then e.count else 0)
  {
    assert (log + [e])[..|log|] == log;
  }

  lemma InPeriodNone(end: nat -> nat, log: seq<Event>, at: nat)
    requires forall e :: e in log ==> end(e.time) != at
    ensures InPeriod(end, log, at) == 0
  {
  }

  ghost predicate Counts(end: nat -> nat, c: Counter, bytes: seq<Event>, conns: seq<Event>, clock: nat) {
    && (exists t: nat :: t <= clock && c.resetAt == end(t))
    && (forall e :: e in bytes ==> end(e.time) <= c.resetAt)
    && (forall e :: e in conns ==> end(e.time) <= c.resetAt)
    && c.bytes == InPeriod(end, bytes, c.resetAt)
    && c.conns == InPeriod(end, conns, c.resetAt)
  }

  lemma TouchCounts(end: nat -> nat, c: Counter, bytes: seq<Event>, conns: seq<Event>, clock: nat, now: nat)
    requires Periodic(end) && Counts(end, c, bytes, conns, clock) && clock <= now
    ensures Counts(end, Touch(end, c, now), bytes, conns, now)
    ensures Touch(end, c, now).resetAt == end(now)
  {
    var t: nat :| t <= clock && c.resetAt == end(t);
    if now >= c.resetAt {
      InPeriodNone(end, bytes, end(now));
      InPeriodNone(end, conns, end(now));
    }
  }

  lemma AddBytesCounts(end: nat -> nat, c: Counter, bytes: seq<Event>, conns: seq<Event>, now: nat, n: nat)
    requires Counts(end, c, bytes, conns, now) && c.resetAt == end(now)
    ensures Counts(end, c.(bytes := c.bytes + n), bytes + [Event(now, n)], conns, now)
  {
    InPeriodAppend(end, bytes, Event(now, n), c.resetAt);
  }

  lemma AddConnCounts(end: nat -> nat, c: Counter, bytes: seq<Event>, conns: seq<Event>, now: nat)
    requires Counts(end, c, bytes, conns, now) && c.resetAt == end(now)
    ensures Counts(end, c.(conns := c.conns + 1), bytes, conns + [Event(now, 1)], now)
  {
    InPeriodAppend(end, conns, Event(now, 1), c.resetAt);
  }

  datatype Use = UseBytes(now: nat, n: nat) | UseConn(now: nat) | Look(now: nat)

  function Used(end: nat -> nat, c: Counter, use: Use): Counter {
    var t := Touch(end, c, use.now);
    match use
    case UseBytes(_, n) => t.(bytes := t.bytes + n)
    case UseConn(_) => t.(conns := t.conns + 1)
    case Look(_) => t
  }

  function CounterAfter(end: nat -> nat, start: nat, uses: seq<Use>): Counter {
    if uses == [] then NewCounter(end, start)
    else Used(end, CounterAfter(end, start, uses[..|uses| - 1]), uses[|uses| - 1])
  }

  function BytesOf(uses: seq<Use>): seq<Event> {
    if uses == [] then []
    else
      var u := uses[|uses| - 1];
      BytesOf(uses[..|uses| - 1]) + if u.UseBytes? then [Event(u.now, u.n)] else []
  }

  function ConnsOf(uses: seq<Use>): seq<Event> {
    if uses == [] then []
    else
      var u := uses[|uses| - 1];
      ConnsOf(uses[..|uses| - 1]) + if u.UseConn? then [Event(u.now, 1)] else []
  }

  predicate InOrder(start: nat, uses: seq<Use>, now: nat) {
    if uses == [] then start <= now
    else InOrder(start, uses[..|uses| - 1], uses[|uses| - 1].now) && uses[|uses| - 1].now <= now
  }

  lemma UsedCounts(end: nat -> nat, c: Counter, bytes: seq<Event>, conns: seq<Event>, clock: nat, use: Use)
    requires Periodic(end) && Counts(end, c, bytes, conns, clock) && clock <= use.now
    ensures Counts(end, Used(end, c, use),
                   if use.UseBytes? then bytes + [Event(use.now, use.n)] else bytes,
                   if use.UseConn? then conns + [Event(use.now, 1)] else conns, use.now)
  {
    TouchCounts(end, c, bytes, conns, clock, use.now);
    var t := Touch(end, c, use.now);
    match use
    case UseBytes(now, n) => AddBytesCounts(end, t, bytes, conns, now, n);
    case UseConn(now) => AddConnCounts(end, t, bytes, conns, now);
    case Look(_) =>
  }

  lemma {:induction false} RunCounts(end: nat -> nat, start: nat, uses: seq<Use>, now: nat)
    requires Periodic(end) && InOrder(start, uses, now)
    ensures Counts(end, CounterAfter(end, start, uses), BytesOf(uses), ConnsOf(uses), now)
    decreases |uses|
  {
    if uses == [] {
      assert NewCounter(end, start).resetAt == end(start);
    } else {
      var u, rest := uses[|uses| - 1], uses[..|uses| - 1];
      RunCounts(end, start, rest, u.now);
      UsedCounts(end, CounterAfter(end, start, rest), BytesOf(rest), ConnsOf(rest), u.now, u);
      assert u.UseBytes? || BytesOf(uses) == BytesOf(rest);
      assert u.UseConn? || ConnsOf(uses) == ConnsOf(rest);
      LaterCounts(end, CounterAfter(end, start, uses), BytesOf(uses), ConnsOf(uses), u.now, now);
    }
  }

  lemma LaterCounts(end: nat -> nat, c: Counter, bytes: seq<Event>, conns: seq<Event>, clock: nat, now: nat)
    requires Counts(end, c, bytes, conns, clock) && clock <= now
    ensures Counts(end, c, bytes, conns, now)
  {
    var t: nat :| t <= clock && c.resetAt == end(t);
    assert t <= now && c.resetAt == end(t);
  }

  /** Lazy reset equals eager reset: whenever the counter is looked at, it holds exactly what
      was recorded in the current UTC day (or month), whatever happened before. */
  lemma LazyResetIsExact(end: nat -> nat, start: nat, uses: seq<Use>, now: nat)
    requires Periodic(end) && InOrder(start, uses, now)
    ensures Touch(end, CounterAfter(end, start, uses), now)
         == Counter(InPeriod(end, BytesOf(uses), end(now)),
                    InPeriod(end, ConnsOf(uses), end(now)),
                    end(now))
  {
    RunCounts(end, start, uses, now);
    TouchCounts(end, CounterAfter(end, start, uses), BytesOf(uses), ConnsOf(uses), now, now);
  }

  /** A day lies within a month, and both within the lifetime total. */
  lemma {:induction false} DayWithinMonth(log: seq<Event>, now: nat)
    ensures InPeriod(NextDayBoundary, log, NextDayBoundary(now))
         <= InPeriod(NextMonthBoundary, log, NextMonthBoundary(now))
         <= Recorded(log)
    decreases |log|
  {
    if log != [] {
      DayWithinMonth(log[..|log| - 1], now);
      SamePeriod(log[|log| - 1].time, now);
    }
  }

  // ---------------------------------------------------------------------------
  // The same totals, said in calendar terms

  function OnDay(log: seq<Event>, day: nat): nat {
    if log == [] then 0
    else
      var e := log[|log| - 1];
      OnDay(log[..|log| - 1], day) + (if e.time / SECS_PER_DAY == day then e.count else 0)
  }

  function InMonth(log: seq<Event>, m: YearMonth): nat {
    if log == [] then 0
    else
      var e := log[|log| - 1];
      InMonth(log[..|log| - 1], m) + (if MonthOf(e.time / SECS_PER_DAY) == m then e.count else 0)
  }

  lemma {:induction false} PeriodsAreCalendar(log: seq<Event>, now: nat)
    ensures InPeriod(NextDayBoundary, log, NextDayBoundary(now)) == OnDay(log, now / SECS_PER_DAY)
    ensures InPeriod(NextMonthBoundary, log, NextMonthBoundary(now)) == InMonth(log, MonthOf(now / SECS_PER_DAY))
    decreases |log|
  {
    hide NextDayBoundary, NextMonthBoundary, MonthOf;
    if log != [] {
      PeriodsAreCalendar(log[..|log| - 1], now);
      SamePeriod(log[|log| - 1].time, now);
    }
  }
}

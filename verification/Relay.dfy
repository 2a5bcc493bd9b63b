/** The relay loop and the total-bandwidth quota: each direction adds a chunk to the shared
    total and only then looks at it, so the total may run past the limit. */
module Relays {
  import opened Text
  import opened Tally
  import opened RollingWindows
  import opened Quotas

  const RELAY_BUFFER_SIZE: nat := 8192

  // ---------------------------------------------------------------------------
  // Any number of directions, interleaved

  datatype Direction =
    | Waiting   // the relay has not passed the bandwidth pre-check yet
    | Reading   // at the top of the loop
    | Added     // a chunk is in the total, the total has not been loaded yet
    | Stopped   // the quota was reported exceeded
    | Closed    // end of stream, error, idle timeout, or refused by the pre-check

  datatype State = State(total: nat, dirs: map<nat, Direction>)

  datatype Move = PreCheck | Add(n: nat) | Load(otherQuota: bool) | Close

  /** `otherQuota` says that one of the remaining quotas (day, month, hour) is exceeded. */
  function Step(q: nat, s: State, d: nat, m: Move): State {
    if d !in s.dirs then s else
    match s.dirs[d]
    case Waiting =>
      if !m.PreCheck? then s
      else s.(dirs := s.dirs[d := if q > 0 && s.total >= q then Closed else Reading])
    case Reading =>
      if m.Add? && 0 < m.n <= RELAY_BUFFER_SIZE then State(s.total + m.n, s.dirs[d := Added])
      else if m.Close? then s.(dirs := s.dirs[d := Closed])
      else s
    case Added =>
      if !m.Load? then s
      else s.(dirs := s.dirs[d := if (q > 0 && s.total >= q) || m.otherQuota then Stopped else Reading])
    case Stopped => s
    case Closed => s
  }

  function Run(q: nat, s: State, sched: seq<(nat, Move)>): State
    decreases |sched|
  {
    if sched == [] then s
    else
      var n := |sched| - 1;
      Step(q, Run(q, s, sched[..n]), sched[n].0, sched[n].1)
  }

  function Init(ids: set<nat>): State { State(0, map d | d in ids :: Waiting) }

  /** Directions that have put a chunk in the total without having seen it below the limit since. */
  predicate IsCharged(d: Direction) { d.Stopped? || d.Added? }

  ghost function Charged(s: State): nat { Count(s.dirs, IsCharged) }

  ghost predicate Bounded(q: nat, s: State) { s.total < q + RELAY_BUFFER_SIZE * Charged(s) }

  lemma StepBounded(q: nat, s: State, d: nat, m: Move)
    requires q > 0 && Bounded(q, s)
    ensures Bounded(q, Step(q, s, d, m))
  {
    var s' := Step(q, s, d, m);
    if d in s.dirs && s' != s {
      CountUpdate(s.dirs, d, s'.dirs[d], IsCharged);
    }
  }

  lemma {:induction false} RunBounded(q: nat, ids: set<nat>, sched: seq<(nat, Move)>)
    requires q > 0
    ensures Bounded(q, Run(q, Init(ids), sched))
    ensures |Run(q, Init(ids), sched).dirs| == |ids|
    decreases |sched|
  {
    if sched == [] {
      assert Init(ids).dirs.Keys == ids;
    } else {
      var n := |sched| - 1;
      RunBounded(q, ids, sched[..n]);
      var s := Run(q, Init(ids), sched[..n]);
      StepBounded(q, s, sched[n].0, sched[n].1);
      assert Run(q, Init(ids), sched).dirs.Keys == s.dirs.Keys;
    }
  }

  /** In every interleaving the total stays below the quota plus one buffer for each direction
      that is stopped or between its add and its load, hence one buffer per direction. */
  lemma QuotaOvershootBound(q: nat, ids: set<nat>, sched: seq<(nat, Move)>)
    requires q > 0
    ensures var s := Run(q, Init(ids), sched);
      && s.total < q + RELAY_BUFFER_SIZE * Charged(s)
      && Charged(s) <= |ids|
  {
    RunBounded(q, ids, sched);
    CountAtMost(Run(q, Init(ids), sched).dirs, IsCharged);
  }

  predicate Entered(d: Direction) { !d.Waiting? && !d.Closed? }

  predicate IsReading(d: Direction) { d.Reading? }

  /** What the total can still become: one more chunk for each direction that reads. */
  ghost function Ceiling(s: State): nat { s.total + RELAY_BUFFER_SIZE * Count(s.dirs, IsReading) }

  lemma StepUnderCeiling(q: nat, s: State, d: nat, m: Move)
    requires q > 0 && s.total >= q
    ensures Step(q, s, d, m).total >= s.total && Ceiling(Step(q, s, d, m)) <= Ceiling(s)
  {
    var s' := Step(q, s, d, m);
    if d in s.dirs && s' != s {
      CountUpdate(s.dirs, d, s'.dirs[d], IsReading);
    }
  }

  /** Once the total has reached the quota it stays there and nothing new gets in: a direction
      still waiting ends up refused, one that has added a chunk stops, and the directions that read
      add at most one more chunk each. */
  lemma {:induction false} NothingEntersAfterQuota(q: nat, s: State, sched: seq<(nat, Move)>, d: nat)
    requires q > 0 && s.total >= q && d in s.dirs
    ensures var s' := Run(q, s, sched);
      && s'.total >= s.total && d in s'.dirs
      && (s.dirs[d].Waiting? ==> !Entered(s'.dirs[d]))
      && (s.dirs[d].Added? ==> s'.dirs[d].Added? || s'.dirs[d].Stopped?)
      && s'.total <= Ceiling(s') <= s.total + RELAY_BUFFER_SIZE * Count(s.dirs, IsReading)
    decreases |sched|
  {
    hide Count;
    if sched != [] {
      var n := |sched| - 1;
      NothingEntersAfterQuota(q, s, sched[..n], d);
      StepUnderCeiling(q, Run(q, s, sched[..n]), sched[n].0, sched[n].1);
    }
  }

  // ---------------------------------------------------------------------------
  // Nothing stops below the quota

  /** Neither the pre-check nor the loop looks at anything but the quotas: below them a relay gets in
      and goes on, at the limit it is kept out or stopped. */
  lemma DecidesByQuota(q: nat, s: State, d: nat, otherQuota: bool)
    requires d in s.dirs
    ensures s.dirs[d].Waiting? ==>
      Step(q, s, d, PreCheck) == s.(dirs := s.dirs[d := if q == 0 || s.total < q then Reading else Closed])
    ensures s.dirs[d].Added? ==>
      Step(q, s, d, Load(otherQuota))
      == s.(dirs := s.dirs[d := if (q == 0 || s.total < q) && !otherQuota then Reading else Stopped])
  {
  }

  function Sum(chunks: seq<nat>): nat {
    if chunks == [] then 0 else Sum(chunks[..|chunks| - 1]) + chunks[|chunks| - 1]
  }

  /** One direction past its pre-check, fed chunk after chunk. */
  function Feed(q: nat, s: State, d: nat, chunks: seq<nat>): State {
    if chunks == [] then Step(q, s, d, PreCheck)
    else
      var n := |chunks| - 1;
      Step(q, Step(q, Feed(q, s, d, chunks[..n]), d, Add(chunks[n])), d, Load(false))
  }

  /** A relay that gets in carries every chunk as long as the total before it is below the quota, and
      stops exactly with the chunk that reaches it. */
  lemma {:induction false} FeedCarries(q: nat, s: State, d: nat, chunks: seq<nat>)
    requires d in s.dirs && s.dirs[d].Waiting?
    requires forall i :: 0 <= i < |chunks| ==> 0 < chunks[i] <= RELAY_BUFFER_SIZE
    requires q == 0 || s.total < q
    requires chunks != [] ==> q == 0 || s.total + Sum(chunks[..|chunks| - 1]) < q
    ensures var s' := Feed(q, s, d, chunks);
      && s'.total == s.total + Sum(chunks)
      && s'.dirs == s.dirs[d := if q == 0 || s'.total < q then Reading else Stopped]
    decreases |chunks|
  {
    if chunks != [] {
      var n := |chunks| - 1;
      assert n > 0 ==> Sum(chunks[..n][..n - 1]) <= Sum(chunks[..n]);
      FeedCarries(q, s, d, chunks[..n]);
    }
  }

  // ---------------------------------------------------------------------------
  // One direction, run to its end

  /** What one turn of the loop meets: a read of 1 to 8192 bytes at time `now`, whose write
      succeeds or not, or one of the ways to end. */
  datatype Turn = Data(n: nat, written: bool, now: nat) | EndOfStream | ReadError | IdleTimeout

  predicate Plausible(turns: seq<Turn>, clock: nat) {
    forall i :: 0 <= i < |turns| && turns[i].Data? ==>
      && 0 < turns[i].n <= RELAY_BUFFER_SIZE
      && clock <= turns[i].now
      && forall j :: 0 <= j < i && turns[j].Data? ==> turns[j].now <= turns[i].now
  }

  predicate Delivers(t: Turn) { t.Data? && t.written }

  /** Bytes delivered to the writer in these turns. */
  function Delivered(turns: seq<Turn>): nat {
    if turns == [] then 0
    else
      var t := turns[|turns| - 1];
      Delivered(turns[..|turns| - 1]) + (if Delivers(t) then t.n else 0)
  }

  function Entries(u: string, turns: seq<Turn>): seq<Entry> {
    if turns == [] then []
    else
      var t := turns[|turns| - 1];
      Entries(u, turns[..|turns| - 1]) + if Delivers(t) then [Bytes(u, t.now, t.n)] else []
  }

  lemma NextTurn(u: string, turns: seq<Turn>, k: nat)
    requires k < |turns|
    ensures Delivered(turns[..k + 1]) == Delivered(turns[..k]) + (if Delivers(turns[k]) then turns[k].n else 0)
    ensures Entries(u, turns[..k + 1])
         == Entries(u, turns[..k]) + if Delivers(turns[k]) then [Bytes(u, turns[k].now, turns[k].n)] else []
  {
    assert turns[..k + 1][..k] == turns[..k];
  }

  lemma RecordMore(log: seq<Entry>, u: string, now: nat, n: nat)
    ensures Recorded(ByteLog(log + [Bytes(u, now, n)], u)) == Recorded(ByteLog(log, u)) + n
  {
    var bytes, e := ByteLog(log, u), Event(now, n);
    AppendEntry(log, Bytes(u, now, n), u, None);
    assert (bytes + [e])[..|bytes|] == bytes;
  }

  /** The limit of the lifetime byte quota; 0 means none. */
  function TotalLimit(quotas: Option<QuotaConfig>): nat {
    if quotas.Some? then quotas.value.totalBytes else 0
  }

  lemma TotalVerdict(b: Boundaries, bytes: seq<Event>, quotas: Option<QuotaConfig>, hourSum: nat, now: nat)
    ensures ByteVerdict(b, bytes, quotas, hourSum, now) == Exceeded(TotalBytes)
            <==> 0 < TotalLimit(quotas) <= Recorded(bytes)
  {
  }

  /** All bytes ever recorded for the user. */
  ghost function UserTotal(tracker: QuotaTracker, user: string): nat
    reads tracker
  {
    Recorded(ByteLog(tracker.log, user))
  }

  /** The user's totals are below every limit on bytes, the hourly one aside. */
  predicate Below(log: seq<Entry>, user: string, quotas: Option<QuotaConfig>, now: nat) {
    quotas.None? ||
    (var q, own := quotas.value, ByteLog(log, user);
     && (q.totalBytes == 0 || Recorded(own) < q.totalBytes)
     && (q.dailyBytes == 0 || ToDay(own, now) < q.dailyBytes)
     && (q.monthlyBytes == 0 || ToMonth(own, now) < q.monthlyBytes))
  }

  /** What a verdict on bytes tells: allowed below the limits, exceeded at one of them. */
  predicate Tells(v: Verdict, log: seq<Entry>, user: string, quotas: Option<QuotaConfig>, now: nat) {
    && (v == Allowed ==> Below(log, user, quotas, now))
    && (v.Exceeded? ==> quotas.Some?)
    && (v.Exceeded? && v != Exceeded(HourlyBytes) ==> !Below(log, user, quotas, now))
    && (v == Exceeded(HourlyBytes) ==> quotas.value.hourlyBytes > 0)
  }

  lemma VerdictTells(v: Verdict, log: seq<Entry>, user: string, quotas: Option<QuotaConfig>, now: nat, hour: nat)
    requires var own := ByteLog(log, user);
      BytesMean(v, quotas, Recorded(own), ToDay(own, now), ToMonth(own, now), hour)
    ensures Tells(v, log, user, quotas, now)
  {
    hide ByteLog, Recorded, ToDay, ToMonth;
  }

  class LiveSession {
    var bytesUp: nat
    var bytesDown: nat
  }

  /** One chunk that was written: counted in the session and in the tracker, which answers for it. */
  method CountChunk(n: nat, now: nat, tracker: QuotaTracker, user: string,
                    quotas: Option<QuotaConfig>, session: LiveSession, upload: bool)
    returns (v: Verdict)
    requires tracker.Valid() && tracker.clock <= now
    modifies tracker, session
    ensures tracker.Valid() && tracker.clock == now
    ensures tracker.log == old(tracker.log) + [Bytes(user, now, n)]
    ensures UserTotal(tracker, user) == old(UserTotal(tracker, user)) + n
    ensures session.bytesUp == old(session.bytesUp) + (if upload then n else 0)
    ensures session.bytesDown == old(session.bytesDown) + (if upload then 0 else n)
    ensures v == Exceeded(TotalBytes) <==> 0 < TotalLimit(quotas) <= UserTotal(tracker, user)
    ensures tracker.b == UTC ==> Tells(v, tracker.log, user, quotas, now)
  {
    hide QuotaTracker.Valid, ByteLog, Recorded, ByteVerdict, BytesMean, Tells;
    if upload {
      session.bytesUp := session.bytesUp + n;
    } else {
      session.bytesDown := session.bytesDown + n;
    }
    ghost var hourSum := tracker.HourBytesAfter(user, now, n);
    RecordMore(tracker.log, user, now, n);
    v := tracker.RecordBytes(user, n, quotas, now);
    TotalVerdict(tracker.b, ByteLog(tracker.log, user), quotas, hourSum, now);
    if tracker.b == UTC { VerdictTells(v, tracker.log, user, quotas, now, hourSum); }
  }

  /** The loop of one direction.  It ends at the first turn that does not deliver, or whose bytes
      the quota tracker reports as exceeding a quota; every delivered byte is counted once in the
      result, in the session and in the tracker.  Under a lifetime limit only the last delivered
      chunk can find the total at the limit. */
  method RelayOneDirection(turns: seq<Turn>, tracker: QuotaTracker, user: string,
                           quotas: Option<QuotaConfig>, session: LiveSession, upload: bool)
    returns (total: nat, k: nat, last: Verdict)
    requires tracker.Valid() && Plausible(turns, tracker.clock)
    modifies tracker, session
    ensures tracker.Valid() && k <= |turns|
    ensures total == Delivered(turns[..k])
    ensures tracker.log == old(tracker.log) + Entries(user, turns[..k])
    ensures UserTotal(tracker, user) == old(UserTotal(tracker, user)) + total
    ensures session.bytesUp == old(session.bytesUp) + (if upload then total else 0)
    ensures session.bytesDown == old(session.bytesDown) + (if upload then 0 else total)
    ensures forall i :: 0 <= i < k - 1 ==> Delivers(turns[i])
    ensures k == |turns| || (k > 0 && !Delivers(turns[k - 1])) || last.Exceeded?
    ensures TotalLimit(quotas) > 0 && old(UserTotal(tracker, user)) < TotalLimit(quotas) ==>
              && (last == Exceeded(TotalBytes) <==> UserTotal(tracker, user) >= TotalLimit(quotas))
              && UserTotal(tracker, user) < TotalLimit(quotas) + RELAY_BUFFER_SIZE
    ensures last.Exceeded? ==> k > 0 && Delivers(turns[k - 1])
    ensures tracker.b == UTC ==> ToldAlong(old(tracker.log), user, turns, quotas, k, last)
  {
    hide QuotaTracker.Valid, ByteLog, Recorded, Delivered, Entries, Plausible, ToldAlong;
    total, k, last := 0, 0, Allowed;
    NoTurns(user, turns);
    NothingTold(tracker.log, user, turns, quotas);
    assert tracker.log + [] == tracker.log;
    while k < |turns| && last.Allowed?
      invariant k <= |turns| && tracker.Valid()
      invariant last.Allowed? ==> Plausible(turns[k..], tracker.clock)
      invariant total == Delivered(turns[..k])
      invariant tracker.log == old(tracker.log) + Entries(user, turns[..k])
      invariant UserTotal(tracker, user) == old(UserTotal(tracker, user)) + total
      invariant session.bytesUp == old(session.bytesUp) + (if upload then total else 0)
      invariant session.bytesDown == old(session.bytesDown) + (if upload then 0 else total)
      invariant forall i :: 0 <= i < k ==> Delivers(turns[i])
      invariant last.Exceeded? ==> k > 0
      invariant TotalLimit(quotas) > 0 && old(UserTotal(tracker, user)) < TotalLimit(quotas) ==>
        && (last == Exceeded(TotalBytes) <==> UserTotal(tracker, user) >= TotalLimit(quotas))
        && UserTotal(tracker, user) < TotalLimit(quotas) + RELAY_BUFFER_SIZE
      invariant tracker.b == UTC ==> ToldAlong(old(tracker.log), user, turns, quotas, k, last)
    {
      NextTurn(user, turns, k);
      var t := turns[k];
      k := k + 1;
      if !t.Data? || !t.written {
        if tracker.b == UTC { ToldNothingNew(old(tracker.log), user, turns, quotas, k); }
        break;
      }
      PlausibleNow(turns, k - 1, tracker.clock);
      total := total + t.n;
      last := CountChunk(t.n, t.now, tracker, user, quotas, session, upload);
      assert tracker.log == old(tracker.log) + Entries(user, turns[..k]);
      if tracker.b == UTC { ToldMore(old(tracker.log), user, turns, quotas, k, last); }
    }
  }

  /** Every verdict along the way was the right one: after each delivered chunk but the last the
      totals were below the limits, and the last verdict tells where they are now. */
  ghost predicate ToldAlong(log: seq<Entry>, user: string, turns: seq<Turn>, quotas: Option<QuotaConfig>, k: nat, last: Verdict)
    requires k <= |turns|
  {
    forall i :: 0 <= i < k && Delivers(turns[i]) ==>
      Tells(if i < k - 1 then Allowed else last, log + Entries(user, turns[..i + 1]), user, quotas, turns[i].now)
  }

  lemma NothingTold(log: seq<Entry>, user: string, turns: seq<Turn>, quotas: Option<QuotaConfig>)
    ensures ToldAlong(log, user, turns, quotas, 0, Allowed)
  {
  }

  lemma ToldNothingNew(log: seq<Entry>, user: string, turns: seq<Turn>, quotas: Option<QuotaConfig>, k: nat)
    requires 0 < k <= |turns| && ToldAlong(log, user, turns, quotas, k - 1, Allowed) && !Delivers(turns[k - 1])
    ensures ToldAlong(log, user, turns, quotas, k, Allowed)
  {
    hide Tells, Entries;
  }

  lemma ToldMore(log: seq<Entry>, user: string, turns: seq<Turn>, quotas: Option<QuotaConfig>, k: nat, v: Verdict)
    requires 0 < k <= |turns| && ToldAlong(log, user, turns, quotas, k - 1, Allowed) && Delivers(turns[k - 1])
    requires Tells(v, log + Entries(user, turns[..k]), user, quotas, turns[k - 1].now)
    ensures ToldAlong(log, user, turns, quotas, k, v)
  {
    hide Tells, Entries;
  }

  lemma PlausibleNow(turns: seq<Turn>, k: nat, clock: nat)
    requires k < |turns| && turns[k].Data? && Plausible(turns[k..], clock)
    ensures 0 < turns[k].n <= RELAY_BUFFER_SIZE && clock <= turns[k].now
    ensures Plausible(turns[k + 1..], turns[k].now)
  {
    assert turns[k..][0] == turns[k];
    LaterTurns(turns, k);
  }

  lemma NoTurns(u: string, turns: seq<Turn>)
    ensures Delivered(turns[..0]) == 0 && Entries(u, turns[..0]) == []
  {
  }

  lemma LaterTurns(turns: seq<Turn>, k: nat)
    requires k < |turns| && turns[k].Data? && exists c: nat :: Plausible(turns[k..], c)
    ensures Plausible(turns[k + 1..], turns[k].now)
  {
    var c: nat :| Plausible(turns[k..], c);
    var a, b := turns[k..], turns[k + 1..];
    forall i | 0 <= i < |b| && b[i].Data?
      ensures 0 < b[i].n <= RELAY_BUFFER_SIZE && turns[k].now <= b[i].now
      ensures forall j :: 0 <= j < i && b[j].Data? ==> b[j].now <= b[i].now
    {
      assert b[i] == a[i + 1] && a[0] == turns[k];
      forall j | 0 <= j < i && b[j].Data? ensures b[j].now <= b[i].now { assert b[j] == a[j + 1]; }
    }
  }
}

/** The connection-slot protocol of the proxy engine: one global atomic counter and
    a concurrent map of per-user atomic counters, updated by any number of tasks.

    A task is one caller of `acquire_connection`, followed by the drop of the guard it
    received.  Every atomic or map operation is one step, and a schedule picks which
    task moves next, so "for every schedule" means "in every interleaving". */
module Slots {
  import opened Tally

  const U32_MAX: nat := 0xFFFF_FFFF

  type User = string
  type Tid = nat

  datatype Task =
    | Idle
    | Starting(user: User, cap: nat)   // called, global counter not yet touched
    | Admitted(user: User, cap: nat)   // global counter incremented
    | Refused(user: User)              // over the per-user cap, global rollback pending
    | Holding(user: User)              // owns a live guard
    | Releasing(user: User)            // drop: global decremented, user entry not yet
    | Sweeping(user: User)             // drop: saw the count go 1 -> 0, `remove_if` pending

  datatype State = State(global: nat, users: map<User, nat>, tasks: map<Tid, Task>)

  // ---------------------------------------------------------------------------
  // Atomic operations (u32 arithmetic wraps)

  function WrappingInc(c: nat): nat { if c >= U32_MAX then 0 else c + 1 }

  function WrappingDec(c: nat): nat { if c == 0 then U32_MAX else c - 1 }

  /** Value of the entry after `or_insert_with(0)`. */
  function CountOf(users: map<User, nat>, u: User): nat { if u in users then users[u] else 0 }

  /** Whether the capped increment succeeds; a cap of 0 means unlimited. */
  predicate HasRoom(users: map<User, nat>, u: User, cap: nat) {
    cap == 0 || CountOf(users, u) < cap
  }

  /** The per-user update of an acquire, done under the shard lock. */
  function EnterUser(users: map<User, nat>, u: User, cap: nat): map<User, nat> {
    var c := CountOf(users, u);
    users[u := if !HasRoom(users, u, cap) then c else if cap == 0 then WrappingInc(c) else c + 1]
  }

  /** `remove_if(user, count == 0)`. */
  function RemoveIfZero(users: map<User, nat>, u: User): map<User, nat> {
    if u in users && users[u] == 0 then users - {u} else users
  }

  // ---------------------------------------------------------------------------
  // One step of one task

  datatype Action = Call(user: User, cap: nat) | Advance

  datatype Move = Move(global: nat, users: map<User, nat>, task: Task)

  /** The next step of the program text, from the task's own position in it; an action that
      is not enabled changes nothing.  `Call` starts a new acquire from an idle task. */
  function Next(max: nat, g: nat, users: map<User, nat>, x: Task, a: Action): Move {
    match x
    case Idle => if a.Call? then Move(g, users, Starting(a.user, a.cap)) else Move(g, users, x)
    case Starting(u, cap) =>
      if a.Call? then Move(g, users, x)
      else if g >= max then Move(g, users, Idle)
      else Move(g + 1, users, Admitted(u, cap))
    case Admitted(u, cap) =>
      if a.Call? then Move(g, users, x)
      else Move(g, EnterUser(users, u, cap), if HasRoom(users, u, cap) then Holding(u) else Refused(u))
    case Refused(u) => if a.Call? then Move(g, users, x) else Move(WrappingDec(g), users, Idle)
    case Holding(u) => if a.Call? then Move(g, users, x) else Move(WrappingDec(g), users, Releasing(u))
    case Releasing(u) =>
      if a.Call? then Move(g, users, x)
      else if u !in users then Move(g, users, Idle)
      else Move(g, users[u := WrappingDec(users[u])], if users[u] == 1 then Sweeping(u) else Idle)
    case Sweeping(u) => if a.Call? then Move(g, users, x) else Move(g, RemoveIfZero(users, u), Idle)
  }

  function Step(max: nat, s: State, t: Tid, a: Action): State {
    if t !in s.tasks then s
    else
      var m := Next(max, s.global, s.users, s.tasks[t], a);
      State(m.global, m.users, s.tasks[t := m.task])
  }

  function Init(tids: set<Tid>): State { State(0, map[], map t | t in tids :: Idle) }

  type Schedule = seq<(Tid, Action)>

  function Run(max: nat, s: State, sched: Schedule): State
    decreases |sched|
  {
    if sched == [] then s
    else
      var last := sched[|sched| - 1];
      Step(max, Run(max, s, sched[..|sched| - 1]), last.0, last.1)
  }

  // ---------------------------------------------------------------------------
  // Who holds what

  predicate HoldsGlobal(x: Task) { x.Admitted? || x.Refused? || x.Holding? }

  predicate IsHolding(x: Task) { x.Holding? }

  predicate IsUnsettled(x: Task) { x.Admitted? || x.Refused? }

  function HoldsUser(u: User): Task -> bool {
    (x: Task) => (x.Holding? || x.Releasing?) && x.user == u
  }

  function HoldsGuardOf(u: User): Task -> bool { (x: Task) => x.Holding? && x.user == u }

  function IsReleasing(u: User): Task -> bool { (x: Task) => x.Releasing? && x.user == u }

  ghost function LiveGuards(s: State): nat { Count(s.tasks, IsHolding) }

  ghost function LiveGuardsOf(s: State, u: User): nat { Count(s.tasks, HoldsGuardOf(u)) }

  /** Some task is still due to run `remove_if` on the entry of `u`. */
  ghost predicate SweepPending(s: State, u: User) {
    exists t :: t in s.tasks && s.tasks[t] == Sweeping(u)
  }

  ghost predicate Inv(max: nat, s: State) {
    && s.global == Count(s.tasks, HoldsGlobal) <= max
    && (forall u :: CountOf(s.users, u) == Count(s.tasks, HoldsUser(u)))
    && (forall u :: u in s.users && s.users[u] == 0 ==> SweepPending(s, u))
    && |s.tasks| <= U32_MAX
  }

  lemma InvInit(max: nat, tids: set<Tid>)
    requires |tids| <= U32_MAX
    ensures Inv(max, Init(tids))
  {
    var s := Init(tids);
    assert s.tasks.Keys == tids;
    CountNone(s.tasks, HoldsGlobal);
    forall u ensures Count(s.tasks, HoldsUser(u)) == 0 { CountNone(s.tasks, HoldsUser(u)); }
  }

  /** How the holder counts move when task `t` becomes `x`. */
  lemma HoldersUpdate(m: map<Tid, Task>, t: Tid, x: Task)
    requires t in m
    ensures var m' := m[t := x];
      && |m'| == |m|
      && Count(m', HoldsGlobal) + (if HoldsGlobal(m[t]) then 1 else 0)
         == Count(m, HoldsGlobal) + (if HoldsGlobal(x) then 1 else 0)
      && forall u {:trigger HoldsUser(u)} ::
           Count(m', HoldsUser(u)) + (if HoldsUser(u)(m[t]) then 1 else 0)
           == Count(m, HoldsUser(u)) + (if HoldsUser(u)(x) then 1 else 0)
    ensures HoldsGlobal(m[t]) ==> Count(m, HoldsGlobal) > 0
    ensures forall u {:trigger HoldsUser(u)} :: HoldsUser(u)(m[t]) ==> Count(m, HoldsUser(u)) > 0
    ensures forall u {:trigger HoldsUser(u)} :: Count(m, HoldsUser(u)) <= |m|
    ensures forall u {:trigger HoldsUser(u)} :: !HoldsUser(u)(m[t]) ==> Count(m, HoldsUser(u)) < |m|
  {
    var m' := m[t := x];
    assert m'.Keys == m.Keys;
    CountUpdate(m, t, x, HoldsGlobal);
    if HoldsGlobal(m[t]) { CountPositive(m, t, HoldsGlobal); }
    forall u {:trigger HoldsUser(u)}
      ensures Count(m', HoldsUser(u)) + (if HoldsUser(u)(m[t]) then 1 else 0)
           == Count(m, HoldsUser(u)) + (if HoldsUser(u)(x) then 1 else 0)
      ensures HoldsUser(u)(m[t]) ==> Count(m, HoldsUser(u)) > 0
      ensures Count(m, HoldsUser(u)) <= |m|
      ensures !HoldsUser(u)(m[t]) ==> Count(m, HoldsUser(u)) < |m|
    {
      CountUpdate(m, t, x, HoldsUser(u));
      CountUpdate(m, t, Holding(u), HoldsUser(u));
      CountAtMost(m, HoldsUser(u));
      CountAtMost(m[t := Holding(u)], HoldsUser(u));
      assert m[t := Holding(u)].Keys == m.Keys;
      if HoldsUser(u)(m[t]) { CountPositive(m, t, HoldsUser(u)); }
    }
  }

  /** A pending sweep of another task, or of another user, stays pending. */
  lemma SweepStays(s: State, s': State, t: Tid, u: User)
    requires t in s.tasks && t in s'.tasks && s'.tasks == s.tasks[t := s'.tasks[t]]
    requires SweepPending(s, u) && s.tasks[t] != Sweeping(u)
    ensures SweepPending(s', u)
  {
    var w :| w in s.tasks && s.tasks[w] == Sweeping(u);
    assert s'.tasks[w] == Sweeping(u);
  }

  /** The invariant after task `t` becomes `x`: the counters must move with the holders. */
  lemma InvAfter(max: nat, s: State, t: Tid, s': State)
    requires Inv(max, s) && t in s.tasks && t in s'.tasks
    requires s'.tasks == s.tasks[t := s'.tasks[t]]
    requires var x, x' := s.tasks[t], s'.tasks[t];
      && s'.global + (if HoldsGlobal(x) then 1 else 0) == s.global + (if HoldsGlobal(x') then 1 else 0)
      && s'.global <= max
      && (forall u :: CountOf(s'.users, u) + (if HoldsUser(u)(x) then 1 else 0)
                      == CountOf(s.users, u) + (if HoldsUser(u)(x') then 1 else 0))
      && (forall u :: u in s'.users && s'.users[u] == 0 ==>
            x' == Sweeping(u) || (u in s.users && s.users[u] == 0 && x != Sweeping(u)))
    ensures Inv(max, s')
  {
    HoldersUpdate(s.tasks, t, s'.tasks[t]);
    forall u | u in s'.users && s'.users[u] == 0 ensures SweepPending(s', u) {
      if s'.tasks[t] != Sweeping(u) { SweepStays(s, s', t, u); }
    }
  }

  /** Each move keeps the counters in step with what its task holds. */
  lemma NextBalanced(max: nat, g: nat, users: map<User, nat>, x: Task, a: Action)
    requires HoldsGlobal(x) ==> g > 0
    requires g <= max
    requires forall u :: HoldsUser(u)(x) ==> CountOf(users, u) > 0
    requires forall u :: !HoldsUser(u)(x) ==> CountOf(users, u) < U32_MAX
    ensures var m := Next(max, g, users, x, a);
      && m.global + (if HoldsGlobal(x) then 1 else 0) == g + (if HoldsGlobal(m.task) then 1 else 0)
      && m.global <= max
      && (forall u :: CountOf(m.users, u) + (if HoldsUser(u)(x) then 1 else 0)
                      == CountOf(users, u) + (if HoldsUser(u)(m.task) then 1 else 0))
      && (forall u :: u in m.users && m.users[u] == 0 ==>
            m.task == Sweeping(u) || (u in users && users[u] == 0 && x != Sweeping(u)))
  {
  }

  lemma InvStep(max: nat, s: State, t: Tid, a: Action)
    requires Inv(max, s)
    ensures Inv(max, Step(max, s, t, a))
  {
    if t in s.tasks {
      HoldersUpdate(s.tasks, t, Idle);
      if Step(max, s, t, a) != s {
        NextBalanced(max, s.global, s.users, s.tasks[t], a);
        InvAfter(max, s, t, Step(max, s, t, a));
      }
    }
  }

  lemma {:induction false} InvRun(max: nat, tids: set<Tid>, sched: Schedule)
    requires |tids| <= U32_MAX
    ensures Inv(max, Run(max, Init(tids), sched))
    decreases |sched|
  {
    if sched == [] {
      InvInit(max, tids);
    } else {
      var n := |sched| - 1;
      InvRun(max, tids, sched[..n]);
      InvStep(max, Run(max, Init(tids), sched[..n]), sched[n].0, sched[n].1);
    }
  }

  // ---------------------------------------------------------------------------
  // What holds in every interleaving

  /** The states some schedule of the tasks `tids` leads to. */
  ghost predicate Reachable(max: nat, tids: set<Tid>, s: State) {
    exists sched: Schedule :: s == Run(max, Init(tids), sched)
  }

  lemma InvReachable(max: nat, tids: set<Tid>, s: State)
    requires |tids| <= U32_MAX && Reachable(max, tids, s)
    ensures Inv(max, s)
  {
    var sched :| s == Run(max, Init(tids), sched);
    InvRun(max, tids, sched);
  }

  /** No `fetch_sub` of the program can meet a zero counter or a missing entry. */
  ghost predicate NoUnderflow(s: State) {
    forall t :: t in s.tasks ==>
      && (HoldsGlobal(s.tasks[t]) ==> s.global > 0)
      && (s.tasks[t].Holding? || s.tasks[t].Releasing? ==>
            s.tasks[t].user in s.users && s.users[s.tasks[t].user] > 0)
  }

  /** Conservation: the counters are exactly the guards plus the operations in flight,
      nothing underflows, and the global limit holds. */
  lemma SlotConservation(max: nat, tids: set<Tid>, s: State)
    requires |tids| <= U32_MAX && Reachable(max, tids, s)
    ensures s.global == LiveGuards(s) + Count(s.tasks, IsUnsettled)
    ensures forall u :: CountOf(s.users, u) == LiveGuardsOf(s, u) + Count(s.tasks, IsReleasing(u))
    ensures NoUnderflow(s)
    ensures LiveGuards(s) <= s.global <= max
  {
    InvReachable(max, tids, s);
    CountSplit(s.tasks, IsHolding, IsUnsettled, HoldsGlobal);
    forall u ensures CountOf(s.users, u) == LiveGuardsOf(s, u) + Count(s.tasks, IsReleasing(u)) {
      CountSplit(s.tasks, HoldsGuardOf(u), IsReleasing(u), HoldsUser(u));
    }
    forall t | t in s.tasks
      ensures HoldsGlobal(s.tasks[t]) ==> s.global > 0
      ensures s.tasks[t].Holding? || s.tasks[t].Releasing? ==>
                s.tasks[t].user in s.users && s.users[s.tasks[t].user] > 0
    {
      HoldersUpdate(s.tasks, t, Idle);
      if s.tasks[t].Holding? || s.tasks[t].Releasing? {
        assert CountOf(s.users, s.tasks[t].user) > 0;
      }
    }
  }

  /** Every acquire of `u` in the schedule carries a cap between 1 and `k`. */
  predicate CapsWithin(sched: Schedule, u: User, k: nat) {
    forall i :: 0 <= i < |sched| && sched[i].1.Call? && sched[i].1.user == u ==>
      1 <= sched[i].1.cap <= k
  }

  predicate CapCarried(x: Task, u: User, k: nat) {
    (x.Starting? || x.Admitted?) && x.user == u ==> 1 <= x.cap <= k
  }

  ghost predicate CapInv(s: State, u: User, k: nat) {
    && CountOf(s.users, u) <= k
    && forall t :: t in s.tasks ==> CapCarried(s.tasks[t], u, k)
  }

  lemma CapStep(max: nat, s: State, t: Tid, a: Action, u: User, k: nat)
    requires Inv(max, s) && CapInv(s, u, k)
    requires a.Call? && a.user == u ==> 1 <= a.cap <= k
    ensures CapInv(Step(max, s, t, a), u, k)
  {
    if t in s.tasks {
      HoldersUpdate(s.tasks, t, Idle);
      NextWithinCap(max, s.global, s.users, s.tasks[t], a, u, k);
    }
  }

  lemma NextWithinCap(max: nat, g: nat, users: map<User, nat>, x: Task, a: Action, u: User, k: nat)
    requires CountOf(users, u) <= k && CapCarried(x, u, k)
    requires a.Call? && a.user == u ==> 1 <= a.cap <= k
    requires HoldsUser(u)(x) ==> CountOf(users, u) > 0
    ensures CountOf(Next(max, g, users, x, a).users, u) <= k
    ensures CapCarried(Next(max, g, users, x, a).task, u, k)
  {
  }

  lemma {:induction false} CapRun(max: nat, tids: set<Tid>, sched: Schedule, u: User, k: nat)
    requires |tids| <= U32_MAX && CapsWithin(sched, u, k)
    ensures CapInv(Run(max, Init(tids), sched), u, k)
    decreases |sched|
  {
    if sched != [] {
      var n := |sched| - 1;
      CapRun(max, tids, sched[..n], u, k);
      InvRun(max, tids, sched[..n]);
      CapStep(max, Run(max, Init(tids), sched[..n]), sched[n].0, sched[n].1, u, k);
    }
  }

  /** With caps between 1 and `k`, the user never holds more than `k` guards, not even
      counting guards whose drop has only half run. */
  lemma PerUserCap(max: nat, tids: set<Tid>, sched: Schedule, s: State, u: User, k: nat)
    requires |tids| <= U32_MAX && CapsWithin(sched, u, k)
    requires s == Run(max, Init(tids), sched)
    ensures LiveGuardsOf(s, u) + Count(s.tasks, IsReleasing(u)) <= k
  {
    CapRun(max, tids, sched, u, k);
    SlotConservation(max, tids, s);
  }

  /** Entries: a counted entry survives every step, a user with a live guard has one, and
      a zero entry always has a sweeper. */
  lemma EntriesTracked(max: nat, tids: set<Tid>, s: State, t: Tid, a: Action, u: User)
    requires |tids| <= U32_MAX && Reachable(max, tids, s)
    ensures LiveGuardsOf(s, u) > 0 ==> u in s.users && s.users[u] > 0
    ensures u in s.users && s.users[u] > 0 ==> u in Step(max, s, t, a).users
    ensures u in s.users && s.users[u] == 0 ==> SweepPending(s, u)
  {
    InvReachable(max, tids, s);
    CountMonotone(s.tasks, HoldsGuardOf(u), HoldsUser(u));
    assert CountOf(s.users, u) >= LiveGuardsOf(s, u);
  }

  predicate Quiescent(s: State) {
    forall t :: t in s.tasks ==> s.tasks[t].Idle? || s.tasks[t].Holding?
  }

  /** At rest the map has one entry per user with a live guard, no more and no less,
      each entry is that user's number of guards, and the entries add up to the global counter. */
  lemma QuiescentExact(max: nat, tids: set<Tid>, s: State)
    requires |tids| <= U32_MAX && Reachable(max, tids, s) && Quiescent(s)
    ensures forall u :: u in s.users <==> LiveGuardsOf(s, u) > 0
    ensures forall u :: u in s.users ==> s.users[u] == LiveGuardsOf(s, u)
    ensures s.global == LiveGuards(s) == SumCounts(s.users)
  {
    SlotConservation(max, tids, s);
    RestEntries(max, tids, s);
    RestSum(s);
    CountNone(s.tasks, IsUnsettled);
  }

  lemma RestEntries(max: nat, tids: set<Tid>, s: State)
    requires |tids| <= U32_MAX && Reachable(max, tids, s) && Quiescent(s)
    ensures forall u :: u in s.users <==> LiveGuardsOf(s, u) > 0
    ensures forall u :: u in s.users ==> s.users[u] == LiveGuardsOf(s, u)
  {
    InvReachable(max, tids, s);
    forall u
      ensures u in s.users <==> LiveGuardsOf(s, u) > 0
      ensures u in s.users ==> s.users[u] == LiveGuardsOf(s, u)
    {
      CountNone(s.tasks, IsReleasing(u));
      CountSplit(s.tasks, HoldsGuardOf(u), IsReleasing(u), HoldsUser(u));
      assert CountOf(s.users, u) == LiveGuardsOf(s, u);
      assert !SweepPending(s, u);
    }
  }

  lemma RestSum(s: State)
    requires forall u :: u in s.users <==> LiveGuardsOf(s, u) > 0
    requires forall u :: u in s.users ==> s.users[u] == LiveGuardsOf(s, u)
    ensures LiveGuards(s) == SumCounts(s.users)
  {
    forall t | t in s.tasks && s.tasks[t].Holding? ensures s.tasks[t].user in s.users.Keys {
      CountPositive(s.tasks, t, HoldsGuardOf(s.tasks[t].user));
    }
    GuardsByUser(s.tasks, s.users, s.users.Keys);
    assert Where(s.tasks, IsHolding) == Where(s.tasks, HoldsGuardIn(s.users.Keys));
  }

  /** Nothing leaks: once every task is idle again the engine is back in its first state. */
  lemma NoLeak(max: nat, tids: set<Tid>, s: State)
    requires |tids| <= U32_MAX && Reachable(max, tids, s)
    requires forall t :: t in s.tasks ==> s.tasks[t].Idle?
    ensures s == Init(tids)
  {
    var sched :| s == Run(max, Init(tids), sched);
    TasksFixed(max, tids, sched);
    QuiescentExact(max, tids, s);
    CountNone(s.tasks, IsHolding);
    forall u ensures u !in s.users { CountNone(s.tasks, HoldsGuardOf(u)); }
    assert s.users == map[];
    assert s.tasks == Init(tids).tasks;
  }

  lemma {:induction false} TasksFixed(max: nat, tids: set<Tid>, sched: Schedule)
    ensures Run(max, Init(tids), sched).tasks.Keys == tids
    decreases |sched|
  {
    if sched != [] { TasksFixed(max, tids, sched[..|sched| - 1]); }
  }

  // ---------------------------------------------------------------------------
  // What each step of a task does, said in guards

  lemma ReachableStep(max: nat, tids: set<Tid>, s: State, t: Tid, a: Action)
    requires Reachable(max, tids, s)
    ensures Reachable(max, tids, Step(max, s, t, a))
  {
    var sched :| s == Run(max, Init(tids), sched);
    var longer := sched + [(t, a)];
    assert longer[..|sched|] == sched;
    assert Step(max, s, t, a) == Run(max, Init(tids), longer);
  }

  /** In every interleaving an acquire gets past the global limit exactly when the live guards and
      the acquires not yet settled leave room; otherwise it ends at once. */
  lemma GlobalSlotIff(max: nat, tids: set<Tid>, s: State, t: Tid, u: User, cap: nat)
    requires |tids| <= U32_MAX && Reachable(max, tids, s)
    requires t in s.tasks && s.tasks[t] == Starting(u, cap)
    ensures Step(max, s, t, Advance).tasks
         == s.tasks[t := if LiveGuards(s) + Count(s.tasks, IsUnsettled) < max then Admitted(u, cap) else Idle]
  {
    SlotConservation(max, tids, s);
  }

  /** In every interleaving an admitted acquire gets its guard exactly when the user's live guards
      and half-run drops are below the cap, or there is no cap; otherwise it is refused. */
  lemma GuardIff(max: nat, tids: set<Tid>, s: State, t: Tid, u: User, cap: nat)
    requires |tids| <= U32_MAX && Reachable(max, tids, s)
    requires t in s.tasks && s.tasks[t] == Admitted(u, cap)
    ensures var granted := cap == 0 || LiveGuardsOf(s, u) + Count(s.tasks, IsReleasing(u)) < cap;
      var s' := Step(max, s, t, Advance);
      && s'.tasks == s.tasks[t := if granted then Holding(u) else Refused(u)]
      && LiveGuardsOf(s', u) == LiveGuardsOf(s, u) + (if granted then 1 else 0)
  {
    SlotConservation(max, tids, s);
    assert CountOf(s.users, u) == LiveGuardsOf(s, u) + Count(s.tasks, IsReleasing(u));
    CountUpdate(s.tasks, t, Step(max, s, t, Advance).tasks[t], HoldsGuardOf(u));
  }

  /** In every interleaving a refused acquire ends, and a drop takes the guard at once, then gives up
      the user's slot, and sweeps exactly when that was the last one. */
  lemma ReleaseSteps(max: nat, tids: set<Tid>, s: State, t: Tid, u: User)
    requires |tids| <= U32_MAX && Reachable(max, tids, s) && t in s.tasks
    ensures var s' := Step(max, s, t, Advance);
      && (s.tasks[t] == Refused(u) ==> s'.tasks == s.tasks[t := Idle])
      && (s.tasks[t] == Holding(u) ==>
            s'.tasks == s.tasks[t := Releasing(u)] && LiveGuardsOf(s', u) == LiveGuardsOf(s, u) - 1)
      && (s.tasks[t] == Releasing(u) ==>
            s'.tasks == s.tasks[t := if LiveGuardsOf(s, u) + Count(s.tasks, IsReleasing(u)) == 1 then Sweeping(u) else Idle])
      && (s.tasks[t] == Sweeping(u) ==> s'.tasks == s.tasks[t := Idle])
  {
    SlotConservation(max, tids, s);
    assert CountOf(s.users, u) == LiveGuardsOf(s, u) + Count(s.tasks, IsReleasing(u));
    if s.tasks[t] == Holding(u) { CountUpdate(s.tasks, t, Releasing(u), HoldsGuardOf(u)); }
  }

  // ---------------------------------------------------------------------------
  // Calls that run alone

  /** At rest the tasks determine the counters. */
  lemma QuiescentDetermined(max: nat, tids: set<Tid>, s: State, s': State)
    requires |tids| <= U32_MAX && Reachable(max, tids, s) && Reachable(max, tids, s')
    requires Quiescent(s) && s'.tasks == s.tasks
    ensures s' == s
  {
    QuiescentExact(max, tids, s);
    QuiescentExact(max, tids, s');
    assert forall u :: LiveGuardsOf(s', u) == LiveGuardsOf(s, u);
    assert s'.users == s.users;
  }

  /** A whole acquire by task `t`, with no other task moving. */
  function AcquireAlone(max: nat, s: State, t: Tid, u: User, cap: nat): State {
    var s2 := Step(max, Step(max, s, t, Call(u, cap)), t, Advance);
    var s3 := Step(max, s2, t, Advance);
    if t in s3.tasks && s3.tasks[t].Refused? then Step(max, s3, t, Advance) else s3
  }

  /** A whole drop of the guard of task `t`, with no other task moving. */
  function DropAlone(max: nat, s: State, t: Tid): State {
    Step(max, Step(max, Step(max, s, t, Advance), t, Advance), t, Advance)
  }

  lemma AtRest(s: State, u: User)
    requires Quiescent(s)
    ensures Count(s.tasks, IsUnsettled) == 0 && Count(s.tasks, IsReleasing(u)) == 0
  {
    CountNone(s.tasks, IsUnsettled);
    CountNone(s.tasks, IsReleasing(u));
  }

  /** Moving one idle task among the first positions of an acquire changes no count at rest. */
  lemma StillAtRest(s: State, s': State, t: Tid, x: Task, u: User)
    requires Quiescent(s) && t in s.tasks && s.tasks[t].Idle? && s'.tasks == s.tasks[t := x]
    requires x.Starting? || x.Admitted?
    ensures LiveGuards(s') == LiveGuards(s) && LiveGuardsOf(s', u) == LiveGuardsOf(s, u)
    ensures Count(s'.tasks, IsReleasing(u)) == 0
    ensures x.Starting? ==> Count(s'.tasks, IsUnsettled) == 0
  {
    AtRest(s, u);
    CountUpdate(s.tasks, t, x, IsHolding);
    CountUpdate(s.tasks, t, x, HoldsGuardOf(u));
    CountUpdate(s.tasks, t, x, IsReleasing(u));
    CountUpdate(s.tasks, t, x, IsUnsettled);
  }

  /** From every state at rest an acquire that runs alone succeeds exactly when both limits leave room
      for one more guard; then the live guards grow by exactly that one, and otherwise nothing has
      changed. */
  lemma AcquireAloneAnswers(max: nat, tids: set<Tid>, s: State, t: Tid, u: User, cap: nat)
    requires |tids| <= U32_MAX && Reachable(max, tids, s) && Quiescent(s)
    requires t in s.tasks && s.tasks[t].Idle?
    ensures var s' := AcquireAlone(max, s, t, u, cap);
      var ok := LiveGuards(s) < max && (cap == 0 || LiveGuardsOf(s, u) < cap);
      && Reachable(max, tids, s') && Quiescent(s')
      && (if ok then s'.tasks == s.tasks[t := Holding(u)] else s' == s)
      && forall v :: LiveGuardsOf(s', v) == LiveGuardsOf(s, v) + (if ok && v == u then 1 else 0)
  {
    hide Step, Reachable, Quiescent;
    var s' := AcquireAlone(max, s, t, u, cap);
    AcquireAloneTasks(max, tids, s, t, u, cap);
    var x := s'.tasks[t];
    RestWith(s, s', t, x);
    forall v ensures LiveGuardsOf(s', v) == LiveGuardsOf(s, v) + (if x.Holding? && v == u then 1 else 0) {
      CountUpdate(s.tasks, t, x, HoldsGuardOf(v));
    }
    if x.Idle? {
      assert s'.tasks == s.tasks;
      QuiescentDetermined(max, tids, s, s');
    }
  }

  lemma RestWith(s: State, s': State, t: Tid, x: Task)
    requires Quiescent(s) && t in s.tasks && s'.tasks == s.tasks[t := x] && (x.Idle? || x.Holding?)
    ensures Quiescent(s')
  {
  }

  lemma CallStarts(max: nat, s: State, t: Tid, u: User, cap: nat)
    requires t in s.tasks && s.tasks[t].Idle?
    ensures Step(max, s, t, Call(u, cap)).tasks == s.tasks[t := Starting(u, cap)]
    ensures Step(max, s, t, Advance) == s
  {
  }

  lemma AcquireAloneTasks(max: nat, tids: set<Tid>, s: State, t: Tid, u: User, cap: nat)
    requires |tids| <= U32_MAX && Reachable(max, tids, s) && Quiescent(s)
    requires t in s.tasks && s.tasks[t].Idle?
    ensures var s' := AcquireAlone(max, s, t, u, cap);
      var ok := LiveGuards(s) < max && (cap == 0 || LiveGuardsOf(s, u) < cap);
      Reachable(max, tids, s') && s'.tasks == s.tasks[t := if ok then Holding(u) else Idle]
  {
    hide Step, Reachable, Quiescent, Count;
    var s1 := Step(max, s, t, Call(u, cap));
    CallStarts(max, s, t, u, cap);
    ReachableStep(max, tids, s, t, Call(u, cap));
    StillAtRest(s, s1, t, Starting(u, cap), u);
    GlobalSlotIff(max, tids, s1, t, u, cap);
    var s2 := Step(max, s1, t, Advance);
    ReachableStep(max, tids, s1, t, Advance);
    var s3 := Step(max, s2, t, Advance);
    ReachableStep(max, tids, s2, t, Advance);
    if s2.tasks[t].Idle? {
      CallStarts(max, s2, t, u, cap);
    } else {
      assert s2.tasks == s.tasks[t := Admitted(u, cap)];
      StillAtRest(s, s2, t, Admitted(u, cap), u);
      GuardIff(max, tids, s2, t, u, cap);
      if s3.tasks[t].Refused? {
        ReleaseSteps(max, tids, s3, t, u);
        ReachableStep(max, tids, s3, t, Advance);
      }
    }
  }

  /** A drop that runs alone gives back exactly that guard. */
  lemma DropAloneReleases(max: nat, tids: set<Tid>, s: State, t: Tid, u: User)
    requires |tids| <= U32_MAX && Reachable(max, tids, s) && Quiescent(s)
    requires t in s.tasks && s.tasks[t] == Holding(u)
    ensures var s' := DropAlone(max, s, t);
      && Reachable(max, tids, s') && Quiescent(s') && s'.tasks == s.tasks[t := Idle]
      && forall v :: LiveGuardsOf(s', v) == LiveGuardsOf(s, v) - (if v == u then 1 else 0)
  {
    hide Step, Reachable, Quiescent, Count;
    var s1 := Step(max, s, t, Advance);
    ReleaseSteps(max, tids, s, t, u);
    ReachableStep(max, tids, s, t, Advance);
    var s2 := Step(max, s1, t, Advance);
    ReleaseSteps(max, tids, s1, t, u);
    ReachableStep(max, tids, s1, t, Advance);
    var s' := Step(max, s2, t, Advance);
    ReachableStep(max, tids, s2, t, Advance);
    if s2.tasks[t].Idle? { CallStarts(max, s2, t, u, 0); } else { ReleaseSteps(max, tids, s2, t, u); }
    assert s'.tasks == s.tasks[t := Idle];
    RestWith(s, s', t, Idle);
    forall v ensures LiveGuardsOf(s', v) == LiveGuardsOf(s, v) - (if v == u then 1 else 0) {
      CountUpdate(s.tasks, t, Idle, HoldsGuardOf(v));
    }
  }

  /** A guard acquired and dropped leaves everything as it was. */
  lemma AcquireThenDrop(max: nat, tids: set<Tid>, s: State, t: Tid, u: User, cap: nat)
    requires |tids| <= U32_MAX && Reachable(max, tids, s) && Quiescent(s)
    requires t in s.tasks && s.tasks[t].Idle?
    requires LiveGuards(s) < max && (cap == 0 || LiveGuardsOf(s, u) < cap)
    ensures DropAlone(max, AcquireAlone(max, s, t, u, cap), t) == s
  {
    hide AcquireAlone, DropAlone, Reachable, Quiescent, Count;
    var held := AcquireAlone(max, s, t, u, cap);
    AcquireAloneAnswers(max, tids, s, t, u, cap);
    DropAloneReleases(max, tids, held, t, u);
    var s' := DropAlone(max, held, t);
    assert s'.tasks == s.tasks;
    QuiescentDetermined(max, tids, s, s');
  }

  // ---------------------------------------------------------------------------
  // Adding up the per-user counters

  ghost function SumOver(users: map<User, nat>, keys: set<User>): nat
    requires keys <= users.Keys
  {
    if keys == {} then 0
    else var u :| u in keys; users[u] + SumOver(users, keys - {u})
  }

  ghost function SumCounts(users: map<User, nat>): nat { SumOver(users, users.Keys) }

  function HoldsGuardIn(keys: set<User>): Task -> bool {
    (x: Task) => x.Holding? && x.user in keys
  }

  lemma {:induction false} GuardsByUser(tasks: map<Tid, Task>, users: map<User, nat>, keys: set<User>)
    requires keys <= users.Keys
    requires forall u :: u in keys ==> users[u] == Count(tasks, HoldsGuardOf(u))
    ensures Count(tasks, HoldsGuardIn(keys)) == SumOver(users, keys)
  {
    if keys == {} {
      CountNone(tasks, HoldsGuardIn(keys));
    } else {
      var u :| u in keys && SumOver(users, keys) == users[u] + SumOver(users, keys - {u});
      GuardsByUser(tasks, users, keys - {u});
      CountSplit(tasks, HoldsGuardOf(u), HoldsGuardIn(keys - {u}), HoldsGuardIn(keys));
    }
  }

  // ---------------------------------------------------------------------------
  // The engine's own fields, updated in place by calls that do not overlap

  /** `ProxyEngine`'s counters.  `guards` is the multiset of users holding a live guard:
      the two counters are a compressed form of it. */
  class Engine {
    const maxConnections: nat
    var globalConnections: nat
    var userConnections: map<User, nat>
    ghost var guards: multiset<User>

    ghost predicate Valid()
      reads this
    {
      && globalConnections == |guards| <= maxConnections <= U32_MAX
      && (forall u :: u in userConnections <==> u in guards)
      && (forall u :: u in userConnections ==> userConnections[u] == guards[u])
    }

    constructor (maxConnections: nat)
      requires maxConnections <= U32_MAX
      ensures Valid() && guards == multiset{} && this.maxConnections == maxConnections
    {
      this.maxConnections := maxConnections;
      globalConnections, userConnections, guards := 0, map[], multiset{};
    }

    /** Succeeds exactly when both limits leave room, and then adds one guard of `username`. */
    method AcquireConnection(username: User, maxPerUser: nat) returns (ok: bool)
      requires Valid()
      modifies this
      ensures Valid()
      ensures ok <==> |old(guards)| < maxConnections && (maxPerUser == 0 || old(guards)[username] < maxPerUser)
      ensures guards == if ok then old(guards) + multiset{username} else old(guards)
    {
      if globalConnections >= maxConnections {
        return false;
      }
      globalConnections := globalConnections + 1;
      ok := HasRoom(userConnections, username, maxPerUser);
      userConnections := EnterUser(userConnections, username, maxPerUser);
      if ok {
        MultiplicityAtMost(guards, username);
        guards := guards + multiset{username};
      } else {
        globalConnections := WrappingDec(globalConnections);
      }
    }

    /** `ConnectionGuard::drop`. */
    method Drop(username: User)
      requires Valid() && username in guards
      modifies this
      ensures Valid() && guards == old(guards) - multiset{username}
    {
      globalConnections := WrappingDec(globalConnections);
      if username in userConnections {
        var prev := userConnections[username];
        userConnections := userConnections[username := WrappingDec(prev)];
        if prev == 1 {
          userConnections := RemoveIfZero(userConnections, username);
        }
      }
      guards := guards - multiset{username};
    }

    method UserConnections(username: User) returns (n: nat)
      requires Valid()
      ensures n == guards[username]
    {
      n := CountOf(userConnections, username);
    }
  }

  lemma MultiplicityAtMost(m: multiset<User>, u: User)
    ensures m[u] <= |m|
  {
    assert |m[u := 0]| + m[u] == |m|;
  }
}

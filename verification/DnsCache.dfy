/** The DNS cache (expiry, least-recently-used eviction, guard filtering on every hit) and the
    connector that uses it. */
module DnsCaches {
  import opened Text
  import opened Acl
  import opened Tally

  datatype Socket = Socket(ip: IpAddr, port: u16)

  /** Which addresses the guard refuses. */
  type Guard = IpAddr -> bool

  datatype Entry = Entry(addrs: seq<Socket>, insertedAt: nat, lastAccessed: nat, ttl: nat)

  type Entries = map<string, Entry>

  predicate Expired(e: Entry, now: nat) { (if now >= e.insertedAt then now - e.insertedAt else 0) > e.ttl }

  function Safe(addrs: seq<Socket>, dangerous: Guard): seq<Socket> {
    if addrs == [] then []
    else
      (if dangerous(addrs[0].ip) then [] else [addrs[0]]) + Safe(addrs[1..], dangerous)
  }

  lemma {:induction false} SafeMembers(addrs: seq<Socket>, dangerous: Guard)
    ensures forall a :: a in Safe(addrs, dangerous) <==> a in addrs && !dangerous(a.ip)
  {
    if addrs != [] { SafeMembers(addrs[1..], dangerous); }
  }

  function Usable(addrs: seq<Socket>, guarded: bool, dangerous: Guard): seq<Socket> {
    if guarded then Safe(addrs, dangerous) else addrs
  }

  // ---------------------------------------------------------------------------
  // Steps

  datatype Cache = Cache(ttlMode: int, maxEntries: nat, entries: Entries, hits: nat, misses: nat)

  predicate Enabled(c: Cache) { c.ttlMode != 0 }

  /** -1 follows the record's own time to live (60 if unknown), n > 0 overrides it. */
  function ResolveTtl(ttlMode: int, native: Option<nat>): nat {
    if ttlMode < 0 then (if native.Some? then native.value else 60) else ttlMode
  }

  function Lookup(c: Cache, key: string, guarded: bool, dangerous: Guard, now: nat): (Cache, Option<seq<Socket>>) {
    if !Enabled(c) || key !in c.entries then (c, None)
    else
      var e := c.entries[key];
      var addrs := Usable(e.addrs, guarded, dangerous);
      if Expired(e, now) || addrs == [] then (c.(entries := c.entries - {key}, misses := c.misses + 1), None)
      else (c.(entries := c.entries[key := e.(lastAccessed := now)], hits := c.hits + 1), Some(addrs))
  }

  function Unexpired(entries: Entries, now: nat): Entries { map k | k in entries && !Expired(entries[k], now) :: entries[k] }

  predicate LeastRecent(entries: Entries, k: string) {
    k in entries && forall j :: j in entries ==> entries[k].lastAccessed <= entries[j].lastAccessed
  }

  /** Some least recently accessed entry goes; which one of several is not determined. */
  ghost predicate Evicts(before: Entries, after: Entries) {
    if before == map[] then after == before
    else exists k :: LeastRecent(before, k) && after == before - {k}
  }

  ghost predicate MakesRoom(max: nat, before: Entries, now: nat, after: Entries) {
    if |before| < max then after == before
    else if |Unexpired(before, now)| < max then after == Unexpired(before, now)
    else Evicts(Unexpired(before, now), after)
  }

  ghost predicate Inserts(c: Cache, key: string, addrs: seq<Socket>, native: Option<nat>, now: nat, c': Cache) {
    if !Enabled(c) then c' == c
    else exists room ::
      && MakesRoom(c.maxEntries, c.entries, now, room)
      && c' == c.(entries := room[key := Entry(addrs, now, now, ResolveTtl(c.ttlMode, native))])
  }

  // ---------------------------------------------------------------------------
  // Whole runs

  datatype Op =
    | Get(key: string, guarded: bool, now: nat)
    | Insert(key: string, addrs: seq<Socket>, native: Option<nat>, now: nat)
    | Clean(now: nat)

  datatype Step = Step(op: Op, answer: Option<seq<Socket>>, after: Cache)

  ghost predicate Allowed(dangerous: Guard, c: Cache, s: Step) {
    match s.op
    case Get(key, guarded, now) => (s.after, s.answer) == Lookup(c, key, guarded, dangerous, now)
    case Insert(key, addrs, native, now) => s.answer == None && Inserts(c, key, addrs, native, now, s.after)
    case Clean(now) => s.answer == None && s.after == c.(entries := Unexpired(c.entries, now))
  }

  function Empty(ttlMode: int, maxEntries: nat): Cache { Cache(ttlMode, maxEntries, map[], 0, 0) }

  function StateAfter(init: Cache, run: seq<Step>): Cache {
    if run == [] then init else run[|run| - 1].after
  }

  ghost predicate Behaves(dangerous: Guard, init: Cache, run: seq<Step>) {
    run == [] ||
    (var rest := run[..|run| - 1];
     Behaves(dangerous, init, rest) && Allowed(dangerous, StateAfter(init, rest), run[|run| - 1]))
  }

  /** The last insert of the key in the run. */
  function LatestInsert(run: seq<Step>, key: string): Option<Op> {
    if run == [] then None
    else
      var op := run[|run| - 1].op;
      if op.Insert? && op.key == key then Some(op) else LatestInsert(run[..|run| - 1], key)
  }

  /** When the key was last inserted or hit. */
  function LastTouched(run: seq<Step>, key: string): Option<nat> {
    if run == [] then None
    else
      var s := run[|run| - 1];
      if !s.op.Clean? && s.op.key == key && (s.op.Insert? || s.answer.Some?) then Some(s.op.now)
      else LastTouched(run[..|run| - 1], key)
  }

  /** The entry was made by this insert. */
  predicate Came(ttlMode: int, e: Entry, i: Op) {
    i.Insert? && e.addrs == i.addrs && e.insertedAt == i.now && e.ttl == ResolveTtl(ttlMode, i.native)
  }

  /** An entry is the latest insert of its key, and remembers its last use. */
  ghost predicate EntryTrue(c: Cache, run: seq<Step>, key: string) {
    key in c.entries ==>
      && LatestInsert(run, key).Some?
      && Came(c.ttlMode, c.entries[key], LatestInsert(run, key).value)
      && LastTouched(run, key) == Some(c.entries[key].lastAccessed)
  }

  ghost predicate Faithful(c: Cache, run: seq<Step>) {
    (!Enabled(c) ==> c.entries == map[]) && forall key :: EntryTrue(c, run, key)
  }

  function Bound(max: nat): nat { if max > 0 then max else 1 }

  lemma RoomIsSubset(max: nat, before: Entries, now: nat, room: Entries)
    requires MakesRoom(max, before, now, room) && |before| <= Bound(max)
    ensures forall k :: k in room ==> k in before && room[k] == before[k]
    ensures |room| < Bound(max)
  {
    var kept := Unexpired(before, now);
    if |before| >= max {
      SubsetSize(kept.Keys, before.Keys);
      assert |kept| == |kept.Keys| && |before| == |before.Keys|;
      if |kept| >= max && kept != map[] {
        var k :| LeastRecent(kept, k) && room == kept - {k};
        assert room.Keys == kept.Keys - {k};
      }
    }
  }

  lemma StepFaithful(dangerous: Guard, c: Cache, run: seq<Step>, s: Step)
    requires Faithful(c, run) && Allowed(dangerous, c, s) && |c.entries| <= Bound(c.maxEntries)
    ensures Faithful(s.after, run + [s])
  {
    assert (run + [s])[..|run|] == run;
    forall key ensures EntryTrue(s.after, run + [s], key) {
      assert EntryTrue(c, run, key);
      if s.op.Insert? && Enabled(c) {
        var room :| MakesRoom(c.maxEntries, c.entries, s.op.now, room)
          && s.after == c.(entries := room[s.op.key := Entry(s.op.addrs, s.op.now, s.op.now, ResolveTtl(c.ttlMode, s.op.native))]);
        RoomIsSubset(c.maxEntries, c.entries, s.op.now, room);
      }
    }
  }

  lemma StepBounded(dangerous: Guard, c: Cache, s: Step)
    requires Allowed(dangerous, c, s) && |c.entries| <= Bound(c.maxEntries)
    ensures |s.after.entries| <= Bound(c.maxEntries)
    ensures s.after.ttlMode == c.ttlMode && s.after.maxEntries == c.maxEntries
  {
    if s.op.Insert? && Enabled(c) {
      var room :| MakesRoom(c.maxEntries, c.entries, s.op.now, room)
        && s.after == c.(entries := room[s.op.key := Entry(s.op.addrs, s.op.now, s.op.now, ResolveTtl(c.ttlMode, s.op.native))]);
      RoomIsSubset(c.maxEntries, c.entries, s.op.now, room);
      assert s.after.entries.Keys == room.Keys + {s.op.key};
    } else {
      assert s.after.entries.Keys <= c.entries.Keys;
      SubsetSize(s.after.entries.Keys, c.entries.Keys);
      assert |s.after.entries| == |s.after.entries.Keys| && |c.entries| == |c.entries.Keys|;
    }
  }

  lemma {:induction false} RunFaithful(dangerous: Guard, ttlMode: int, max: nat, run: seq<Step>)
    requires Behaves(dangerous, Empty(ttlMode, max), run)
    ensures var c := StateAfter(Empty(ttlMode, max), run);
      Faithful(c, run) && |c.entries| <= Bound(max) && c.ttlMode == ttlMode && c.maxEntries == max
    decreases |run|
  {
    if run != [] {
      var rest, s := run[..|run| - 1], run[|run| - 1];
      RunFaithful(dangerous, ttlMode, max, rest);
      var c := StateAfter(Empty(ttlMode, max), rest);
      StepFaithful(dangerous, c, rest, s);
      StepBounded(dangerous, c, s);
      assert rest + [s] == run;
    }
  }

  /** Over every run: a hit returns the usable addresses of the latest insert of that key, at least
      one of them, and never later than its time to live; and the size bound holds. */
  lemma HitsAreCurrent(dangerous: Guard, ttlMode: int, max: nat, run: seq<Step>, s: Step)
    requires Behaves(dangerous, Empty(ttlMode, max), run + [s])
    requires s.op.Get? && s.answer.Some?
    ensures var i := LatestInsert(run, s.op.key);
      && i.Some? && i.value.Insert?
      && s.answer.value == Usable(i.value.addrs, s.op.guarded, dangerous) != []
      && (s.op.now >= i.value.now ==> s.op.now - i.value.now <= ResolveTtl(ttlMode, i.value.native))
    ensures |s.after.entries| <= Bound(max)
  {
    assert (run + [s])[..|run|] == run;
    RunFaithful(dangerous, ttlMode, max, run);
    var c := StateAfter(Empty(ttlMode, max), run);
    assert EntryTrue(c, run, s.op.key);
    StepBounded(dangerous, c, s);
  }

  /** Over every run: an insert drops an unexpired entry of another key only when the cache is still
      full without its expired entries, and then no other surviving key was used less recently. */
  lemma EvictionIsLru(dangerous: Guard, ttlMode: int, max: nat, run: seq<Step>, s: Step, k: string)
    requires Behaves(dangerous, Empty(ttlMode, max), run + [s]) && s.op.Insert?
    requires var c := StateAfter(Empty(ttlMode, max), run);
      k in c.entries && k != s.op.key && !Expired(c.entries[k], s.op.now) && k !in s.after.entries
    ensures var c := StateAfter(Empty(ttlMode, max), run);
      && |Unexpired(c.entries, s.op.now)| >= max
      && LastTouched(run, k).Some?
      && forall j :: j in s.after.entries && j != s.op.key ==>
           LastTouched(run, j).Some? && LastTouched(run, k).value <= LastTouched(run, j).value
  {
    assert (run + [s])[..|run|] == run;
    RunFaithful(dangerous, ttlMode, max, run);
    var c := StateAfter(Empty(ttlMode, max), run);
    var room :| MakesRoom(max, c.entries, s.op.now, room)
      && s.after == c.(entries := room[s.op.key := Entry(s.op.addrs, s.op.now, s.op.now, ResolveTtl(ttlMode, s.op.native))]);
    assert k !in room && k in Unexpired(c.entries, s.op.now);
    var victim :| LeastRecent(Unexpired(c.entries, s.op.now), victim) && room == Unexpired(c.entries, s.op.now) - {victim};
    assert victim == k;
    assert EntryTrue(c, run, k);
    forall j | j in s.after.entries && j != s.op.key
      ensures LastTouched(run, j).Some? && LastTouched(run, k).value <= LastTouched(run, j).value
    {
      assert EntryTrue(c, run, j);
    }
  }

  /** A lookup right after an insert, within the time to live, hits. */
  lemma InsertThenHit(dangerous: Guard, c: Cache, key: string, addrs: seq<Socket>, native: Option<nat>, now: nat,
                      c': Cache, guarded: bool, later: nat)
    requires Enabled(c) && Inserts(c, key, addrs, native, now, c') && Usable(addrs, guarded, dangerous) != []
    requires now <= later <= now + ResolveTtl(c.ttlMode, native)
    ensures Lookup(c', key, guarded, dangerous, later).1 == Some(Usable(addrs, guarded, dangerous))
  {
  }

  /** In numbers: after an insert a lookup hits for exactly as long as the mode says, the fixed number
      of seconds if above 0, the record's own time or 60 seconds if below; a cache with mode 0 never
      stores and never hits. */
  lemma HitsForTtl(dangerous: Guard, c: Cache, key: string, addrs: seq<Socket>, native: Option<nat>, now: nat,
                   c': Cache, guarded: bool, later: nat)
    requires Inserts(c, key, addrs, native, now, c') && Usable(addrs, guarded, dangerous) != [] && now <= later
    ensures c.ttlMode > 0 ==> (Lookup(c', key, guarded, dangerous, later).1.Some? <==> later <= now + c.ttlMode)
    ensures c.ttlMode < 0 && native.Some? ==>
      (Lookup(c', key, guarded, dangerous, later).1.Some? <==> later <= now + native.value)
    ensures c.ttlMode < 0 && native.None? ==> (Lookup(c', key, guarded, dangerous, later).1.Some? <==> later <= now + 60)
    ensures c.ttlMode == 0 ==> c' == c && Lookup(c', key, guarded, dangerous, later) == (c, None)
  {
  }

  /** Over every run the counters are the lookups that hit, and those that found an entry they could
      not use. */
  lemma {:induction false} CountersCount(dangerous: Guard, ttlMode: int, max: nat, run: seq<Step>)
    requires Behaves(dangerous, Empty(ttlMode, max), run)
    ensures StateAfter(Empty(ttlMode, max), run).hits == Hits(run)
    ensures StateAfter(Empty(ttlMode, max), run).misses == Misses(Empty(ttlMode, max), run)
    decreases |run|
  {
    hide Usable, Expired;
    if run != [] { CountersCount(dangerous, ttlMode, max, run[..|run| - 1]); }
  }

  function Hits(run: seq<Step>): nat {
    if run == [] then 0
    else Hits(run[..|run| - 1]) + (if run[|run| - 1].answer.Some? then 1 else 0)
  }

  function Misses(init: Cache, run: seq<Step>): nat {
    if run == [] then 0
    else
      var rest, s := run[..|run| - 1], run[|run| - 1];
      var c := StateAfter(init, rest);
      Misses(init, rest) +
      (if s.op.Get? && c.ttlMode != 0 && s.op.key in c.entries && s.answer.None? then 1 else 0)
  }

  /** The guard only takes addresses away; the others keep their order. */
  lemma {:induction false} SafeKeepsOrder(a: seq<Socket>, b: seq<Socket>, dangerous: Guard)
    ensures Safe(a + b, dangerous) == Safe(a, dangerous) + Safe(b, dangerous)
    ensures |a| == 1 ==> Safe(a, dangerous) == if dangerous(a[0].ip) then [] else a
  {
    hide Safe;
    if a == [] {
      NoneSafe(dangerous);
      assert a + b == b;
    } else {
      SafeKeepsOrder(a[1..], b, dangerous);
      SafeUnfold(a, dangerous);
      SafeUnfold(a + b, dangerous);
      assert (a + b)[0] == a[0] && (a + b)[1..] == a[1..] + b;
      Associates(if dangerous(a[0].ip) then [] else [a[0]], Safe(a[1..], dangerous), Safe(b, dangerous));
    }
  }

  lemma Associates(a: seq<Socket>, b: seq<Socket>, c: seq<Socket>)
    ensures a + (b + c) == a + b + c
  {
  }

  lemma NoneSafe(dangerous: Guard)
    ensures Safe([], dangerous) == []
  {
  }

  lemma SafeUnfold(a: seq<Socket>, dangerous: Guard)
    requires a != []
    ensures Safe(a, dangerous) == (if dangerous(a[0].ip) then [] else [a[0]]) + Safe(a[1..], dangerous)
    ensures |a| == 1 ==> Safe(a, dangerous) == if dangerous(a[0].ip) then [] else a
  {
    if |a| == 1 { assert a == [a[0]] && a[1..] == []; }
  }

  /** Refreshing a key of a full cache still makes room first: a key that is not the least recent one
      costs some other key its unexpired entry, and the cache ends one short of full. */
  lemma RefreshWhenFullDropsAnother(c: Cache, key: string, addrs: seq<Socket>, native: Option<nat>, now: nat, c': Cache)
    requires Enabled(c) && Inserts(c, key, addrs, native, now, c')
    requires |c.entries| == c.maxEntries && key in c.entries && !LeastRecent(c.entries, key)
    requires forall k :: k in c.entries ==> !Expired(c.entries[k], now)
    ensures |c'.entries| == c.maxEntries - 1
    ensures exists k :: k in c.entries && k != key && k !in c'.entries
  {
    var room :| MakesRoom(c.maxEntries, c.entries, now, room)
      && c' == c.(entries := room[key := Entry(addrs, now, now, ResolveTtl(c.ttlMode, native))]);
    assert Unexpired(c.entries, now) == c.entries;
    var k :| LeastRecent(c.entries, k) && room == c.entries - {k};
    assert k != key;
    assert c'.entries.Keys == c.entries.Keys - {k};
    assert |c.entries| == |c.entries.Keys| && |c'.entries| == |c'.entries.Keys|;
  }

  /** The insert of `key` costs some other key an unexpired entry. */
  predicate DropsAnother(c: Cache, key: string, now: nat, c': Cache) {
    exists k :: k in Unexpired(c.entries, now) && k != key && k !in c'.entries
  }

  /** The cache after `key` is stored in what is left. */
  function Stored(c: Cache, room: Entries, key: string, addrs: seq<Socket>, native: Option<nat>, now: nat): Cache {
    c.(entries := room[key := Entry(addrs, now, now, ResolveTtl(c.ttlMode, native))])
  }

  /** What an insert drops is what making room drops. */
  lemma DropsFromRoom(c: Cache, room: Entries, key: string, addrs: seq<Socket>, native: Option<nat>, now: nat)
    requires Enabled(c) && MakesRoom(c.maxEntries, c.entries, now, room)
    ensures var c' := Stored(c, room, key, addrs, native, now);
      && Inserts(c, key, addrs, native, now, c')
      && (DropsAnother(c, key, now, c') <==> exists k :: k in Unexpired(c.entries, now) && k != key && k !in room)
  {
    var c', live := Stored(c, room, key, addrs, native, now), Unexpired(c.entries, now);
    if DropsAnother(c, key, now, c') {
      var k :| k in live && k != key && k !in c'.entries;
      assert k !in room;
    }
    if exists k :: k in live && k != key && k !in room {
      var k :| k in live && k != key && k !in room;
      assert k !in c'.entries;
    }
  }

  /** The cache is full even without its expired entries. */
  predicate Full(c: Cache, now: nat) { |Unexpired(c.entries, now)| >= c.maxEntries && Unexpired(c.entries, now) != map[] }

  lemma UnexpiredSmaller(entries: Entries, now: nat)
    ensures |Unexpired(entries, now)| <= |entries|
  {
    SubsetSize(Unexpired(entries, now).Keys, entries.Keys);
    assert |Unexpired(entries, now)| == |Unexpired(entries, now).Keys| && |entries| == |entries.Keys|;
  }

  /** Storing a key, new or not, must cost another key its unexpired entry exactly when the cache is
      full and the key is not itself among the least recently used. */
  lemma InsertMustDropIff(c: Cache, key: string, addrs: seq<Socket>, native: Option<nat>, now: nat)
    requires Enabled(c)
    ensures (forall c' :: Inserts(c, key, addrs, native, now, c') ==> DropsAnother(c, key, now, c'))
            <==> Full(c, now) && !LeastRecent(Unexpired(c.entries, now), key)
  {
    hide Inserts, DropsAnother, Unexpired, LeastRecent, Full;
    if Full(c, now) && !LeastRecent(Unexpired(c.entries, now), key) {
      forall c' | Inserts(c, key, addrs, native, now, c') ensures DropsAnother(c, key, now, c') {
        FullDrops(c, key, addrs, native, now, c');
      }
    } else {
      var c' := KeepsOthers(c, key, addrs, native, now);
    }
  }

  lemma FullDrops(c: Cache, key: string, addrs: seq<Socket>, native: Option<nat>, now: nat, c': Cache)
    requires Enabled(c) && Inserts(c, key, addrs, native, now, c')
    requires Full(c, now) && !LeastRecent(Unexpired(c.entries, now), key)
    ensures DropsAnother(c, key, now, c')
  {
    var live := Unexpired(c.entries, now);
    UnexpiredSmaller(c.entries, now);
    var room :| MakesRoom(c.maxEntries, c.entries, now, room) && c' == Stored(c, room, key, addrs, native, now);
    var k :| LeastRecent(live, k) && room == live - {k};
    assert k !in room && k in live && k != key;
    DropsFromRoom(c, room, key, addrs, native, now);
  }

  lemma KeepsOthers(c: Cache, key: string, addrs: seq<Socket>, native: Option<nat>, now: nat) returns (c': Cache)
    requires Enabled(c) && !(Full(c, now) && !LeastRecent(Unexpired(c.entries, now), key))
    ensures Inserts(c, key, addrs, native, now, c') && !DropsAnother(c, key, now, c')
  {
    var live := Unexpired(c.entries, now);
    var room :=
      if |c.entries| < c.maxEntries then c.entries
      else if |live| < c.maxEntries || live == map[] then live
      else live - {key};
    assert MakesRoom(c.maxEntries, c.entries, now, room);
    DropsFromRoom(c, room, key, addrs, native, now);
    c' := Stored(c, room, key, addrs, native, now);
  }

  /** It may cost another key its entry exactly when the cache is full and some other key is among
      the least recently used; the two conditions differ only by ties. */
  lemma InsertMayDropIff(c: Cache, key: string, addrs: seq<Socket>, native: Option<nat>, now: nat)
    requires Enabled(c)
    ensures (exists c' :: Inserts(c, key, addrs, native, now, c') && DropsAnother(c, key, now, c'))
            <==> Full(c, now) && exists k :: LeastRecent(Unexpired(c.entries, now), k) && k != key
  {
    var live := Unexpired(c.entries, now);
    UnexpiredSmaller(c.entries, now);
    if c' :| Inserts(c, key, addrs, native, now, c') && DropsAnother(c, key, now, c') {
      var room :| MakesRoom(c.maxEntries, c.entries, now, room) && c' == Stored(c, room, key, addrs, native, now);
      DropsFromRoom(c, room, key, addrs, native, now);
      var k :| k in live && k != key && k !in room;
      assert Full(c, now) && LeastRecent(live, k);
    }
    if Full(c, now) && exists k :: LeastRecent(live, k) && k != key {
      var k :| LeastRecent(live, k) && k != key;
      var room := live - {k};
      assert MakesRoom(c.maxEntries, c.entries, now, room);
      DropsFromRoom(c, room, key, addrs, native, now);
      assert k in live && k !in room;
    }
  }

  // ---------------------------------------------------------------------------
  // Expired entries are never seen

  /** The same settings and the same unexpired entries. */
  predicate Alike(c: Cache, d: Cache, now: nat) {
    c.ttlMode == d.ttlMode && c.maxEntries == d.maxEntries && Unexpired(c.entries, now) == Unexpired(d.entries, now)
  }

  lemma AlikeLater(c: Cache, d: Cache, now: nat, later: nat)
    requires Alike(c, d, now) && now <= later
    ensures Alike(c, d, later)
  {
    var a, b := Unexpired(c.entries, later), Unexpired(d.entries, later);
    forall k ensures k in a <==> k in b ensures k in a ==> a[k] == b[k] {
      UnexpiredBefore(c.entries, k, now, later);
      UnexpiredBefore(d.entries, k, now, later);
      assert k in Unexpired(c.entries, now) <==> k in Unexpired(d.entries, now);
    }
  }

  lemma UnexpiredBefore(entries: Entries, k: string, now: nat, later: nat)
    requires now <= later
    ensures k in Unexpired(entries, later) ==> k in Unexpired(entries, now) && Unexpired(entries, now)[k] == entries[k]
    ensures k in Unexpired(entries, now) ==> k in entries && Unexpired(entries, now)[k] == entries[k]
    ensures k in Unexpired(entries, later) <==> k in entries && !Expired(entries[k], later)
  {
  }

  /** The unexpired entries after a change to one key. */
  lemma UnexpiredChange(entries: Entries, k: string, e: Entry, now: nat)
    ensures Unexpired(entries - {k}, now) == Unexpired(entries, now) - {k}
    ensures Unexpired(entries[k := e], now) == if Expired(e, now) then Unexpired(entries, now) - {k} else Unexpired(entries, now)[k := e]
  {
  }

  lemma AlikeLookup(c: Cache, d: Cache, key: string, guarded: bool, dangerous: Guard, now: nat)
    requires Alike(c, d, now)
    ensures var (c', a), (d', b) := Lookup(c, key, guarded, dangerous, now), Lookup(d, key, guarded, dangerous, now);
      a == b && Alike(c', d', now)
  {
    hide Unexpired, Usable, Expired;
    UnexpiredBefore(c.entries, key, now, now);
    UnexpiredBefore(d.entries, key, now, now);
    DropAbsent(c.entries, key, now);
    DropAbsent(d.entries, key, now);
    if key in c.entries { UnexpiredChange(c.entries, key, c.entries[key].(lastAccessed := now), now); }
    if key in d.entries { UnexpiredChange(d.entries, key, d.entries[key].(lastAccessed := now), now); }
    if key in c.entries && key in d.entries && !Expired(c.entries[key], now) {
      TouchKeeps(c.entries[key], now);
    }
  }

  lemma DropAbsent(entries: Entries, key: string, now: nat)
    ensures key !in Unexpired(entries, now) ==> Unexpired(entries - {key}, now) == Unexpired(entries, now)
    ensures Unexpired(entries - {key}, now) == Unexpired(entries, now) - {key}
  {
  }

  lemma TouchKeeps(e: Entry, now: nat)
    ensures Expired(e.(lastAccessed := now), now) == Expired(e, now)
  {
  }

  lemma UnexpiredTwice(entries: Entries, now: nat)
    ensures Unexpired(Unexpired(entries, now), now) == Unexpired(entries, now)
    ensures forall k :: Unexpired(Unexpired(entries, now) - {k}, now) == Unexpired(entries, now) - {k}
  {
  }

  /** Making room leaves room in the other cache that looks the same. */
  lemma AlikeRoom(c: Cache, d: Cache, now: nat, room: Entries) returns (room': Entries)
    requires Alike(c, d, now) && MakesRoom(c.maxEntries, c.entries, now, room)
    ensures MakesRoom(d.maxEntries, d.entries, now, room')
    ensures Unexpired(room', now) == Unexpired(room, now)
  {
    hide Unexpired;
    var live := Unexpired(c.entries, now);
    UnexpiredSmaller(c.entries, now);
    UnexpiredSmaller(d.entries, now);
    UnexpiredTwice(c.entries, now);
    if |live| >= c.maxEntries {
      room' := room;
    } else {
      room' := if |d.entries| < d.maxEntries then d.entries else live;
    }
  }

  /** One step of one cache has a step of the other with the same answer. */
  lemma AlikeStep(dangerous: Guard, c: Cache, d: Cache, s: Step) returns (s': Step)
    requires Alike(c, d, s.op.now) && Allowed(dangerous, c, s)
    ensures Allowed(dangerous, d, s') && s'.op == s.op && s'.answer == s.answer && Alike(s.after, s'.after, s.op.now)
  {
    hide Unexpired, MakesRoom;
    match s.op {
      case Get(key, guarded, now) =>
        AlikeLookup(c, d, key, guarded, dangerous, now);
        var (d', b) := Lookup(d, key, guarded, dangerous, now);
        s' := Step(s.op, b, d');
      case Insert(key, addrs, native, now) =>
        if Enabled(c) {
          var room :| MakesRoom(c.maxEntries, c.entries, now, room) && s.after == Stored(c, room, key, addrs, native, now);
          var room' := AlikeRoom(c, d, now, room);
          var e := Entry(addrs, now, now, ResolveTtl(c.ttlMode, native));
          UnexpiredChange(room, key, e, now);
          UnexpiredChange(room', key, e, now);
          s' := Step(s.op, None, Stored(d, room', key, addrs, native, now));
          assert s.after == Stored(c, room, key, addrs, native, now);
          assert Stored(c, room, key, addrs, native, now).entries == room[key := e];
          assert s'.after.entries == room'[key := e];
          assert Unexpired(s.after.entries, now) == Unexpired(s'.after.entries, now);
        } else {
          s' := Step(s.op, None, d);
        }
      case Clean(now) =>
        UnexpiredTwice(c.entries, now);
        UnexpiredTwice(d.entries, now);
        s' := Step(s.op, None, d.(entries := Unexpired(d.entries, now)));
        assert Alike(s.after, s'.after, now);
    }
  }

  /** The time of the last step, or the start. */
  function LastTime(run: seq<Step>, start: nat): nat { if run == [] then start else run[|run| - 1].op.now }

  predicate InOrder(run: seq<Step>, start: nat) {
    run == [] ||
    (var rest := run[..|run| - 1];
     InOrder(rest, start) && LastTime(rest, start) <= run[|run| - 1].op.now)
  }

  /** The same operations with the same answers. */
  predicate SameAnswers(a: seq<Step>, b: seq<Step>) {
    |a| == |b| && forall i :: 0 <= i < |a| ==> a[i].op == b[i].op && a[i].answer == b[i].answer
  }

  lemma {:induction false} AlikeRun(dangerous: Guard, c: Cache, d: Cache, start: nat, run: seq<Step>) returns (run': seq<Step>)
    requires Alike(c, d, start) && Behaves(dangerous, c, run) && InOrder(run, start)
    ensures Behaves(dangerous, d, run') && SameAnswers(run, run')
    ensures Alike(StateAfter(c, run), StateAfter(d, run'), LastTime(run, start))
    decreases |run|
  {
    hide Allowed, Alike;
    run' := [];
    if run != [] {
      var rest, s := run[..|run| - 1], run[|run| - 1];
      var rest' := AlikeRun(dangerous, c, d, start, rest);
      AlikeLater(StateAfter(c, rest), StateAfter(d, rest'), LastTime(rest, start), s.op.now);
      var s' := AlikeStep(dangerous, StateAfter(c, rest), StateAfter(d, rest'), s);
      run' := rest' + [s'];
      assert run'[..|run'| - 1] == rest';
    }
  }

  /** The operations of a run with their answers. */
  function Script(run: seq<Step>): seq<(Op, Option<seq<Socket>>)> {
    seq(|run|, i requires 0 <= i < |run| => (run[i].op, run[i].answer))
  }

  /** Some behaviour from `c` after `start` performs these operations with these answers. */
  ghost predicate MayAnswer(dangerous: Guard, c: Cache, start: nat, script: seq<(Op, Option<seq<Socket>>)>) {
    exists run :: Behaves(dangerous, c, run) && InOrder(run, start) && Script(run) == script
  }

  lemma {:induction false} InOrderSame(a: seq<Step>, b: seq<Step>, start: nat)
    requires SameAnswers(a, b) && InOrder(a, start)
    ensures InOrder(b, start) && Script(a) == Script(b)
  {
    if a != [] {
      var n := |a| - 1;
      InOrderSame(a[..n], b[..n], start);
      assert LastTime(a[..n], start) == LastTime(b[..n], start);
    }
  }

  lemma AlikeMayAnswer(dangerous: Guard, c: Cache, d: Cache, start: nat, script: seq<(Op, Option<seq<Socket>>)>)
    requires Alike(c, d, start) && MayAnswer(dangerous, c, start, script)
    ensures MayAnswer(dangerous, d, start, script)
  {
    hide Behaves, InOrder, Alike, Script, SameAnswers;
    var run :| Behaves(dangerous, c, run) && InOrder(run, start) && Script(run) == script;
    var run' := AlikeRun(dangerous, c, d, start, run);
    InOrderSame(run, run', start);
  }

  /** A cleanup is never seen: whatever the cache may answer to whatever is asked of it afterwards,
      it may answer after the cleanup too, and nothing else. */
  lemma CleanupChangesNoAnswer(dangerous: Guard, c: Cache, now: nat, script: seq<(Op, Option<seq<Socket>>)>)
    ensures MayAnswer(dangerous, c, now, script)
            <==> MayAnswer(dangerous, c.(entries := Unexpired(c.entries, now)), now, script)
  {
    hide MayAnswer;
    var d := c.(entries := Unexpired(c.entries, now));
    UnexpiredTwice(c.entries, now);
    if MayAnswer(dangerous, c, now, script) { AlikeMayAnswer(dangerous, c, d, now, script); }
    if MayAnswer(dangerous, d, now, script) { AlikeMayAnswer(dangerous, d, c, now, script); }
  }

  // ---------------------------------------------------------------------------
  // The cache, updated in place

  class DnsCache {
    const ttlMode: int
    const maxEntries: nat
    var cache: Entries
    var hits: nat
    var misses: nat

    function View(): Cache
      reads this
    {
      Cache(ttlMode, maxEntries, cache, hits, misses)
    }

    constructor (ttlMode: int, maxEntries: nat)
      ensures View() == Empty(ttlMode, maxEntries)
    {
      this.ttlMode, this.maxEntries := ttlMode, maxEntries;
      cache, hits, misses := map[], 0, 0;
    }

    method Get(key: string, guarded: bool, dangerous: Guard, now: nat) returns (found: Option<seq<Socket>>)
      modifies this
      ensures (View(), found) == Lookup(old(View()), key, guarded, dangerous, now)
    {
      if ttlMode == 0 || key !in cache {
        return None;
      }
      var entry := cache[key];
      if Expired(entry, now) {
        cache := cache - {key};
        misses := misses + 1;
        return None;
      }
      var addrs := Usable(entry.addrs, guarded, dangerous);
      if addrs == [] {
        cache := cache - {key};
        misses := misses + 1;
        return None;
      }
      cache := cache[key := entry.(lastAccessed := now)];
      hits := hits + 1;
      return Some(addrs);
    }

    method CleanupExpired(now: nat)
      modifies this`cache
      ensures cache == Unexpired(old(cache), now)
    {
      cache := map k | k in cache && !Expired(cache[k], now) :: cache[k];
    }

    /** A scan for the oldest access time, then one removal. */
    method EvictLru()
      modifies this`cache
      ensures Evicts(old(cache), cache)
    {
      if cache == map[] {
        return;
      }
      var rest := cache.Keys;
      var oldest :| oldest in rest;
      rest := rest - {oldest};
      while rest != {}
        invariant rest <= cache.Keys && oldest in cache && cache == old(cache)
        invariant forall j :: j in cache && j !in rest ==> cache[oldest].lastAccessed <= cache[j].lastAccessed
        decreases |rest|
      {
        var k :| k in rest;
        rest := rest - {k};
        if cache[k].lastAccessed < cache[oldest].lastAccessed {
          oldest := k;
        }
      }
      assert LeastRecent(cache, oldest);
      cache := cache - {oldest};
    }

    method Insert(key: string, addrs: seq<Socket>, native: Option<nat>, now: nat)
      modifies this`cache
      ensures Inserts(old(View()), key, addrs, native, now, View())
    {
      if ttlMode == 0 {
        return;
      }
      if |cache| >= maxEntries {
        CleanupExpired(now);
        if |cache| >= maxEntries {
          EvictLru();
        }
      }
      ghost var room := cache;
      assert MakesRoom(maxEntries, old(cache), now, room);
      cache := cache[key := Entry(addrs, now, now, ResolveTtl(ttlMode, native))];
    }
  }

  // ---------------------------------------------------------------------------
  // Connecting through the cache

  function CacheKey(host: string, port: u16): string { host + ":" + ShowNat(port) }

  /** Different targets never share a cache entry, whatever characters the host contains. */
  lemma CacheKeyInjective(host: string, port: u16, host': string, port': u16)
    requires CacheKey(host, port) == CacheKey(host', port')
    ensures host == host' && port == port'
  {
    var a, b, s := ShowNat(port), ShowNat(port'), CacheKey(host, port);
    DigitsLack(a, ':');
    DigitsLack(b, ':');
    RFindAt(host, ':', a);
    RFindAt(host', ':', b);
    assert s == host + [':'] + a && s == host' + [':'] + b;
    assert host == s[..|host|] && host' == s[..|host'|];
    assert a == s[|host| + 1..] && b == s[|host'| + 1..];
    ShowNatValue(port);
    ShowNatValue(port');
  }

  datatype ConnectError = PortZero | LookupFailed | NoAddresses | AllBlocked | Unreachable

  /** The resolver's answer, filtered; `lookup` is what the name service returned, if anything. */
  method ResolveAndCheck(lookup: Option<seq<Socket>>, guarded: bool, dangerous: Guard)
    returns (r: Result<seq<Socket>, ConnectError>)
    ensures r.Ok? <==> lookup.Some? && Usable(lookup.value, guarded, dangerous) != []
    ensures r.Ok? ==> r.value == Usable(lookup.value, guarded, dangerous)
    ensures r == Err(LookupFailed) <==> lookup.None?
    ensures r == Err(NoAddresses) <==> lookup == Some([])
    ensures r == Err(AllBlocked) <==> guarded && lookup.Some? && lookup.value != []
                                      && forall a :: a in lookup.value ==> dangerous(a.ip)
  {
    if lookup.None? {
      return Err(LookupFailed);
    }
    if lookup.value == [] {
      return Err(NoAddresses);
    }
    if !guarded {
      return Ok(lookup.value);
    }
    SafeMembers(lookup.value, dangerous);
    var safe := Safe(lookup.value, dangerous);
    if safe == [] {
      return Err(AllBlocked);
    }
    assert safe[0] in safe;
    return Ok(safe);
  }

  /** The first address that accepts, or a failure if none does; `up` says which ones accept. */
  predicate FirstUp(addrs: seq<Socket>, up: Socket -> bool, r: Result<Socket, ConnectError>) {
    if forall i :: 0 <= i < |addrs| ==> !up(addrs[i]) then r == Err(Unreachable)
    else exists i :: 0 <= i < |addrs| && r == Ok(addrs[i]) && up(addrs[i]) && forall j :: 0 <= j < i ==> !up(addrs[j])
  }

  method ConnectToAddrs(addrs: seq<Socket>, up: Socket -> bool) returns (r: Result<Socket, ConnectError>)
    ensures FirstUp(addrs, up, r)
  {
    for i := 0 to |addrs|
      invariant forall j :: 0 <= j < i ==> !up(addrs[j])
    {
      if up(addrs[i]) {
        return Ok(addrs[i]);
      }
    }
    return Err(Unreachable);
  }

  /** Address `i` is the first that is neither dangerous nor down. */
  predicate FirstGood(addrs: seq<Socket>, dangerous: Guard, up: Socket -> bool, i: nat) {
    && i < |addrs| && !dangerous(addrs[i].ip) && up(addrs[i])
    && forall j :: 0 <= j < i ==> dangerous(addrs[j].ip) || !up(addrs[j])
  }

  /** Under the guard the connection goes to the first address, in the name service's own order, that
      is not dangerous and accepts; it fails if there is none. */
  lemma {:induction false} GuardedFirst(addrs: seq<Socket>, dangerous: Guard, up: Socket -> bool, r: Result<Socket, ConnectError>)
    requires FirstUp(Safe(addrs, dangerous), up, r)
    ensures if r.Ok? then exists i: nat :: FirstGood(addrs, dangerous, up, i) && r.value == addrs[i]
            else forall i :: 0 <= i < |addrs| ==> dangerous(addrs[i].ip) || !up(addrs[i])
    decreases |addrs|
  {
    hide FirstUp, Safe;
    if addrs == [] {
      NoneSafe(dangerous);
      NoneUp(up, r);
    } else {
      SafeUnfold(addrs, dangerous);
      var rest := addrs[1..];
      if !dangerous(addrs[0].ip) && up(addrs[0]) {
        HeadUp(Safe(addrs, dangerous), up, r);
        assert FirstGood(addrs, dangerous, up, 0);
      } else {
        if !dangerous(addrs[0].ip) {
          RestFirst(Safe(addrs, dangerous), up, r);
          assert Safe(addrs, dangerous)[1..] == Safe(rest, dangerous);
        } else {
          assert Safe(addrs, dangerous) == Safe(rest, dangerous);
        }
        GuardedFirst(rest, dangerous, up, r);
        assert forall i :: 0 <= i < |rest| ==> rest[i] == addrs[i + 1];
        if r.Ok? {
          var i: nat :| FirstGood(rest, dangerous, up, i) && r.value == rest[i];
          GoodLater(addrs, dangerous, up, i);
        }
      }
    }
  }

  lemma GoodLater(addrs: seq<Socket>, dangerous: Guard, up: Socket -> bool, i: nat)
    requires addrs != [] && (dangerous(addrs[0].ip) || !up(addrs[0])) && FirstGood(addrs[1..], dangerous, up, i)
    ensures FirstGood(addrs, dangerous, up, i + 1)
  {
    forall j | 0 <= j < i + 1 ensures dangerous(addrs[j].ip) || !up(addrs[j]) {
      if j > 0 { assert addrs[1..][j - 1] == addrs[j]; }
    }
  }

  lemma NoneUp(up: Socket -> bool, r: Result<Socket, ConnectError>)
    requires FirstUp([], up, r)
    ensures r.Err?
  {
  }

  lemma HeadUp(addrs: seq<Socket>, up: Socket -> bool, r: Result<Socket, ConnectError>)
    requires addrs != [] && up(addrs[0]) && FirstUp(addrs, up, r)
    ensures r == Ok(addrs[0])
  {
  }

  /** An address that does not accept is passed over. */
  lemma RestFirst(addrs: seq<Socket>, up: Socket -> bool, r: Result<Socket, ConnectError>)
    requires addrs != [] && !up(addrs[0]) && FirstUp(addrs, up, r)
    ensures FirstUp(addrs[1..], up, r)
  {
    var rest := addrs[1..];
    assert forall i :: 0 <= i < |rest| ==> rest[i] == addrs[i + 1];
    if i :| 0 <= i < |addrs| && r == Ok(addrs[i]) && up(addrs[i]) && forall j :: 0 <= j < i ==> !up(addrs[j]) {
      assert rest[i - 1] == addrs[i];
      assert forall j :: 0 <= j < i - 1 ==> !up(rest[j]);
    }
  }

  /** The usable addresses a name service answer holds. */
  function Resolved(lookup: Option<seq<Socket>>, guarded: bool, dangerous: Guard): seq<Socket> {
    if lookup.Some? then Usable(lookup.value, guarded, dangerous) else []
  }

  /** With the guard on, a connection only ever reaches an address the guard accepts, whatever the
      name service returned now and whatever was cached before, with or without the guard.  A hit
      needs no name service; a miss stores the usable addresses it found, if any. */
  method ConnectWithCache(cache: DnsCache, host: string, port: u16, guarded: bool, dangerous: Guard,
                          lookup: Option<seq<Socket>>, up: Socket -> bool, now: nat)
    returns (r: Result<Socket, ConnectError>)
    modifies cache
    ensures port == 0 ==> r == Err(PortZero) && cache.View() == old(cache.View())
    ensures r.Ok? && guarded ==> !dangerous(r.value.ip)
    ensures port > 0 ==>
      var (looked, hit) := Lookup(old(cache.View()), CacheKey(host, port), guarded, dangerous, now);
      var found := Resolved(lookup, guarded, dangerous);
      if hit.Some? then FirstUp(hit.value, up, r) && cache.View() == looked
      else if found == [] then r.Err? && cache.View() == looked
      else FirstUp(found, up, r) && Inserts(looked, CacheKey(host, port), found, None, now, cache.View())
  {
    hide CacheKey, Inserts;
    if port == 0 {
      return Err(PortZero);
    }
    var key := CacheKey(host, port);
    var cached := cache.Get(key, guarded, dangerous, now);
    if cached.Some? {
      ghost var known := old(cache.View()).entries[key].addrs;
      SafeMembers(known, dangerous);
      r := ConnectToAddrs(cached.value, up);
      return;
    }
    var addrs :- ResolveAndCheck(lookup, guarded, dangerous);
    SafeMembers(lookup.value, dangerous);
    cache.Insert(key, addrs, None, now);
    r := ConnectToAddrs(addrs, up);
  }
}

/**
 * What every run of the cache keeps: consistency of its two indices, the balance of
 * its counters, recency order, agreement with an unbounded map, and inclusion of a
 * smaller cache in a larger one.
 */
module CacheRuns {
  import opened Basics
  import opened Net
  import opened Names
  import opened CacheModel

  ghost predicate NoDuplicates(s: seq<CacheKey>) {
    forall i, j :: 0 <= i < j < |s| ==> s[i] != s[j]
  }

  function Bound(capacity: nat): nat {
    if capacity == 0 then 1 else capacity
  }

  ghost predicate Consistent(c: Cache) {
    && NoDuplicates(c.order)
    && (forall k :: k in c.order <==> k in c.entries)
    && (forall k :: k in c.entries ==> c.entries[k].Key() == k)
    && |c.entries| <= Bound(c.capacity)
  }

  ghost predicate Balanced(c: Cache) {
    && c.stats.lookups == c.stats.hits + c.stats.misses
    && c.stats.currentSize == |c.entries| + c.ledger.stale
    && c.stats.insertions + c.ledger.phantoms ==
       |c.entries| + c.stats.evictions + c.stats.expirations
       + c.ledger.overwrites + c.ledger.dhcpRemovals + c.ledger.cleared
  }

  ghost predicate Good(c: Cache) {
    Consistent(c) && Balanced(c)
  }

  // ---- Set and sequence facts -------------------------------------------------

  lemma {:induction false} DropKeepsDistinct(s: seq<CacheKey>, gone: set<CacheKey>)
    requires NoDuplicates(s)
    ensures NoDuplicates(Drop(s, gone))
  {
    if s != [] {
      DropKeepsDistinct(s[1..], gone);
      assert s[0] !in s[1..];
    }
  }

  lemma SizeWithout(m: map<CacheKey, CacheEntry>, gone: set<CacheKey>)
    requires gone <= m.Keys
    ensures |m - gone| == |m| - |gone|
  {
    assert (m - gone).Keys == m.Keys - gone;
    assert m.Keys == (m.Keys - gone) + gone;
  }

  lemma SizeWith(m: map<CacheKey, CacheEntry>, k: CacheKey, e: CacheEntry)
    ensures |m[k := e]| == |m| + (if k in m then 0 else 1)
  {
    assert m[k := e].Keys == m.Keys + {k};
  }

  // ---- Consistency and counters -----------------------------------------------

  lemma RemovalIsConsistent(c: Cache, gone: set<CacheKey>, d: Cache)
    requires Consistent(c) && gone <= c.entries.Keys
    requires d.capacity == c.capacity
    requires d.entries == c.entries - gone && d.order == Drop(c.order, gone)
    ensures Consistent(d) && |d.entries| == |c.entries| - |gone|
  {
    DropKeepsDistinct(c.order, gone);
    SizeWithout(c.entries, gone);
  }

  lemma TouchIsConsistent(c: Cache, k: CacheKey, d: Cache)
    requires Consistent(c) && k in c.entries
    requires d.capacity == c.capacity && d.entries == c.entries && d.order == Touch(c.order, k)
    ensures Consistent(d)
  {
    DropKeepsDistinct(c.order, {k});
  }

  lemma EvictIsConsistent(c: Cache)
    requires Good(c)
    ensures Good(EvictLru(c))
    ensures |EvictLru(c).entries| == if |c.entries| == 0 then 0 else |c.entries| - 1
  {
    if c.order != [] {
      assert c.order[0] in c.entries;
      SizeWithout(c.entries, {c.order[0]});
      assert c.order[0] !in c.order[1..];
    } else {
      assert c.entries == map[];
    }
  }

  // Making room leaves a free place for the key, unless it is already present.
  lemma RoomIsConsistent(c: Cache, k: CacheKey)
    requires Good(c)
    ensures Good(MakeRoom(c, k))
    ensures k in MakeRoom(c, k).entries <==> k in c.entries
    ensures k !in c.entries ==> |MakeRoom(c, k).entries| < Bound(c.capacity)
    ensures MakeRoom(c, k).capacity == c.capacity
  {
    EvictIsConsistent(c);
  }

  lemma PutIsConsistent(c: Cache, e: CacheEntry)
    requires Good(c)
    requires e.Key() !in c.entries ==> |c.entries| < Bound(c.capacity)
    ensures Good(Put(c, e))
    ensures |Put(c, e).entries| == |c.entries| + (if e.Key() in c.entries then 0 else 1)
  {
    SizeWith(c.entries, e.Key(), e);
    DropKeepsDistinct(c.order, {e.Key()});
  }

  lemma {:induction false} InsertIsConsistent(c: Cache, e: CacheEntry)
    requires Good(c)
    ensures Good(Insert(c, e)) && Insert(c, e).capacity == c.capacity
  {
    RoomIsConsistent(c, e.Key());
    PutIsConsistent(MakeRoom(c, e.Key()), e);
  }

  lemma FindByNameIsConsistent(c: Cache, k: CacheKey, now: Timestamp)
    requires Good(c)
    ensures Good(FindByName(c, k, now))
  {
    if k in c.entries {
      if c.entries[k].IsExpired(now) {
        RemovalIsConsistent(c, {k}, FindByName(c, k, now));
      } else {
        TouchIsConsistent(c, k, FindByName(c, k, now));
      }
    }
  }

  lemma FindByAddrIsConsistent(c: Cache, found: AddrChoice)
    requires Good(c)
    ensures Good(FindByAddr(c, found))
  {
    if found.Live? && found.key in c.order {
      TouchIsConsistent(c, found.key, FindByAddr(c, found));
    }
  }

  lemma EvictExpiredIsConsistent(c: Cache, victim: Option<CacheKey>, now: Timestamp)
    requires Good(c)
    ensures Good(EvictExpired(c, victim, now))
  {
    if victim.Some? && victim.value in c.entries && c.entries[victim.value].IsExpired(now) {
      RemovalIsConsistent(c, {victim.value}, EvictExpired(c, victim, now));
    }
  }

  lemma PruneIsConsistent(c: Cache, now: Timestamp)
    requires Good(c)
    ensures Good(PruneExpired(c, now))
  {
    if ExpiredKeys(c.entries, now) != {} {
      RemovalIsConsistent(c, ExpiredKeys(c.entries, now), PruneExpired(c, now));
    }
  }

  lemma RemoveDhcpIsConsistent(c: Cache, k: CacheKey)
    requires Good(c)
    ensures Good(RemoveDhcp(c, k))
  {
    if k in c.entries && c.entries[k].IsDhcp() {
      RemovalIsConsistent(c, {k}, RemoveDhcp(c, k));
    }
  }

  lemma ClearIsConsistent(c: Cache)
    requires Good(c)
    ensures Good(Clear(c))
  {
  }

  // The entry an event stores, if it stores one.
  function Stored(ev: Event): Option<CacheEntry> {
    match ev.op
    case OpInsert(e) => Some(e)
    case OpAddDhcp(host, addr, ttl) => Some(DhcpEntry(host, addr, ttl, ev.now))
    case _ => None
  }

  // What a step does, operation by operation.
  lemma StepIs(c: Cache, ev: Event)
    ensures Stored(ev).Some? ==> Step(c, ev) == Insert(c, Stored(ev).value)
    ensures ev.op.OpFindByName? ==> Step(c, ev) == FindByName(c, ev.op.key, ev.now)
    ensures ev.op.OpFindByAddr? ==> Step(c, ev) == FindByAddr(c, ev.op.found)
    ensures ev.op.OpRemoveDhcp? ==> Step(c, ev) == RemoveDhcp(c, ev.op.key)
    ensures ev.op.OpEvictLru? ==> Step(c, ev) == EvictLru(c)
    ensures ev.op.OpEvictExpired? ==> Step(c, ev) == EvictExpired(c, ev.op.victim, ev.now)
    ensures ev.op.OpPruneExpired? ==> Step(c, ev) == PruneExpired(c, ev.now)
    ensures ev.op.OpClear? ==> Step(c, ev) == Clear(c)
  {
  }

  lemma StepKeepsCapacity(c: Cache, ev: Event)
    ensures Step(c, ev).capacity == c.capacity
  {
    StepIs(c, ev);
  }

  lemma StepIsConsistent(c: Cache, ev: Event)
    requires Good(c)
    ensures Good(Step(c, ev))
  {
    StepIs(c, ev);
    match ev.op
    case OpInsert(e) => InsertIsConsistent(c, e);
    case OpAddDhcp(host, addr, ttl) => InsertIsConsistent(c, DhcpEntry(host, addr, ttl, ev.now));
    case OpRemoveDhcp(k) => RemoveDhcpIsConsistent(c, k);
    case OpFindByName(k) => FindByNameIsConsistent(c, k, ev.now);
    case OpFindByAddr(_, found) => FindByAddrIsConsistent(c, found);
    case OpEvictLru => EvictIsConsistent(c);
    case OpEvictExpired(victim) => EvictExpiredIsConsistent(c, victim, ev.now);
    case OpPruneExpired => PruneIsConsistent(c, ev.now);
    case OpClear => ClearIsConsistent(c);
  }

  // Every reachable state is consistent and its counters balance.
  lemma {:induction false} EveryRunIsConsistent(capacity: nat, t: seq<Event>)
    ensures Good(Run(capacity, t))
    ensures Run(capacity, t).capacity == capacity
  {
    if t != [] {
      EveryRunIsConsistent(capacity, t[..|t| - 1]);
      StepIsConsistent(Run(capacity, t[..|t| - 1]), t[|t| - 1]);
      StepKeepsCapacity(Run(capacity, t[..|t| - 1]), t[|t| - 1]);
    }
  }

  // ---- When the counters are right --------------------------------------------

  // An address lookup that stops at an expired entry, which it counts and leaves in place.
  predicate CountsTwice(ev: Event) {
    ev.op.OpFindByAddr? && ev.op.found.Stale?
  }

  ghost predicate NoneCountsTwice(t: seq<Event>) {
    forall ev :: ev in t ==> !CountsTwice(ev)
  }

  lemma NoneCountsTwiceLast(t: seq<Event>)
    requires t != []
    ensures NoneCountsTwice(t) <==> NoneCountsTwice(t[..|t| - 1]) && !CountsTwice(t[|t| - 1])
  {
    assert t == t[..|t| - 1] + [t[|t| - 1]];
  }

  lemma InsertKeepsPhantoms(c: Cache, e: CacheEntry)
    ensures Insert(c, e).ledger.phantoms == c.ledger.phantoms
  {
  }

  lemma StepPhantoms(c: Cache, ev: Event)
    ensures Step(c, ev).ledger.phantoms == c.ledger.phantoms + if CountsTwice(ev) then 1 else 0
  {
    StepIs(c, ev);
    if Stored(ev).Some? { InsertKeepsPhantoms(c, Stored(ev).value); }
  }

  lemma {:induction false} PhantomsAreStaleHits(capacity: nat, t: seq<Event>)
    ensures Run(capacity, t).ledger.phantoms == 0 <==> NoneCountsTwice(t)
  {
    if t != [] {
      PhantomsAreStaleHits(capacity, t[..|t| - 1]);
      StepPhantoms(Run(capacity, t[..|t| - 1]), t[|t| - 1]);
      NoneCountsTwiceLast(t);
    }
  }

  /** In every run each lookup is a hit or a miss, and current_size is at least the number
      of entries. Every entry inserted is accounted for once, as held, evicted, expired,
      overwritten, removed as a DHCP entry or cleared, exactly when no address lookup of the
      run stopped at an expired entry. */
  lemma {:induction false} CountersConserve(capacity: nat, t: seq<Event>)
    ensures
      var c := Run(capacity, t);
      && c.stats.lookups == c.stats.hits + c.stats.misses
      && c.stats.currentSize >= |c.entries|
    ensures
      var c := Run(capacity, t);
      c.stats.insertions ==
        |c.entries| + c.stats.evictions + c.stats.expirations
        + c.ledger.overwrites + c.ledger.dhcpRemovals + c.ledger.cleared
      <==> NoneCountsTwice(t)
  {
    EveryRunIsConsistent(capacity, t);
    PhantomsAreStaleHits(capacity, t);
  }

  // A name lookup that drops an expired entry.
  predicate DropsExpired(c: Cache, ev: Event) {
    ev.op.OpFindByName? && ev.op.key in c.entries && c.entries[ev.op.key].IsExpired(ev.now)
  }

  // An event that sets current_size: one that stores or clears, or removes something.
  predicate SetsSize(c: Cache, ev: Event) {
    match ev.op
    case OpInsert(_) => true
    case OpAddDhcp(_, _, _) => true
    case OpClear => true
    case OpRemoveDhcp(k) => k in c.entries && c.entries[k].IsDhcp()
    case OpEvictLru => c.order != []
    case OpEvictExpired(victim) =>
      victim.Some? && victim.value in c.entries && c.entries[victim.value].IsExpired(ev.now)
    case OpPruneExpired => ExpiredKeys(c.entries, ev.now) != {}
    case OpFindByName(_) => false
    case OpFindByAddr(_, _) => false
  }

  lemma StepStale(c: Cache, ev: Event)
    ensures Step(c, ev).ledger.stale ==
      if SetsSize(c, ev) then 0 else c.ledger.stale + if DropsExpired(c, ev) then 1 else 0
  {
    StepIs(c, ev);
  }

  predicate DropsAt(capacity: nat, t: seq<Event>, i: nat)
    requires i < |t|
  {
    DropsExpired(Run(capacity, t[..i]), t[i])
  }

  predicate SetsSizeAt(capacity: nat, t: seq<Event>, i: nat)
    requires i < |t|
  {
    SetsSize(Run(capacity, t[..i]), t[i])
  }

  // Some event after position i sets current_size.
  ghost predicate SetAfter(capacity: nat, t: seq<Event>, i: nat) {
    exists j: nat :: i < j < |t| && SetsSizeAt(capacity, t, j)
  }

  // Every drop of an expired entry is followed by such an event.
  ghost predicate DropsAreFollowed(capacity: nat, t: seq<Event>) {
    forall i: nat :: i < |t| && DropsAt(capacity, t, i) ==> SetAfter(capacity, t, i)
  }

  lemma PrefixEvents(capacity: nat, t: seq<Event>, i: nat)
    requires i < |t| - 1
    ensures DropsAt(capacity, t, i) == DropsAt(capacity, t[..|t| - 1], i)
    ensures SetsSizeAt(capacity, t, i) == SetsSizeAt(capacity, t[..|t| - 1], i)
  {
    assert t[..|t| - 1][..i] == t[..i];
  }

  lemma SetAfterOneMore(capacity: nat, t: seq<Event>, i: nat)
    requires i < |t| - 1
    ensures SetAfter(capacity, t, i) <==>
      SetAfter(capacity, t[..|t| - 1], i) || SetsSizeAt(capacity, t, |t| - 1)
  {
    var p := t[..|t| - 1];
    if SetAfter(capacity, p, i) {
      var j: nat :| i < j < |p| && SetsSizeAt(capacity, p, j);
      PrefixEvents(capacity, t, j);
      assert SetsSizeAt(capacity, t, j);
    }
    if SetAfter(capacity, t, i) {
      var j: nat :| i < j < |t| && SetsSizeAt(capacity, t, j);
      if j < |t| - 1 {
        PrefixEvents(capacity, t, j);
        assert SetsSizeAt(capacity, p, j);
      }
    }
  }

  lemma SettingFollowsAll(capacity: nat, t: seq<Event>)
    requires t != [] && SetsSizeAt(capacity, t, |t| - 1)
    ensures DropsAreFollowed(capacity, t)
  {
    forall i: nat | i < |t| && DropsAt(capacity, t, i) ensures SetAfter(capacity, t, i) {
      assert i < |t| - 1;
    }
  }

  lemma FollowedBefore(capacity: nat, t: seq<Event>)
    requires t != [] && !SetsSizeAt(capacity, t, |t| - 1) && DropsAreFollowed(capacity, t)
    ensures DropsAreFollowed(capacity, t[..|t| - 1]) && !DropsAt(capacity, t, |t| - 1)
  {
    var p := t[..|t| - 1];
    assert !SetAfter(capacity, t, |t| - 1);
    forall i: nat | i < |p| && DropsAt(capacity, p, i) ensures SetAfter(capacity, p, i) {
      PrefixEvents(capacity, t, i);
      SetAfterOneMore(capacity, t, i);
    }
  }

  lemma FollowedStill(capacity: nat, t: seq<Event>)
    requires t != [] && DropsAreFollowed(capacity, t[..|t| - 1]) && !DropsAt(capacity, t, |t| - 1)
    ensures DropsAreFollowed(capacity, t)
  {
    forall i: nat | i < |t| && DropsAt(capacity, t, i) ensures SetAfter(capacity, t, i) {
      PrefixEvents(capacity, t, i);
      SetAfterOneMore(capacity, t, i);
    }
  }

  lemma {:induction false} StaleAreUnfollowed(capacity: nat, t: seq<Event>)
    ensures Run(capacity, t).ledger.stale == 0 <==> DropsAreFollowed(capacity, t)
  {
    if t != [] {
      StaleAreUnfollowed(capacity, t[..|t| - 1]);
      StepStale(Run(capacity, t[..|t| - 1]), t[|t| - 1]);
      if SetsSizeAt(capacity, t, |t| - 1) {
        SettingFollowsAll(capacity, t);
      } else if DropsAreFollowed(capacity, t) {
        FollowedBefore(capacity, t);
      } else if DropsAreFollowed(capacity, t[..|t| - 1]) && !DropsAt(capacity, t, |t| - 1) {
        FollowedStill(capacity, t);
      }
    }
  }

  /** After a run current_size is the number of entries exactly when every name lookup that
      dropped an expired entry was followed by an event that sets it. */
  lemma CurrentSizeExactly(capacity: nat, t: seq<Event>)
    ensures Run(capacity, t).stats.currentSize == |Run(capacity, t).entries| <==> DropsAreFollowed(capacity, t)
  {
    EveryRunIsConsistent(capacity, t);
    StaleAreUnfollowed(capacity, t);
  }

  lemma RunOfTwo(capacity: nat, a: Event, b: Event)
    requires Enabled(Empty(capacity), a) && Enabled(Step(Empty(capacity), a), b)
    ensures Run(capacity, [a, b]) == Step(Step(Empty(capacity), a), b)
    ensures Legal(capacity, [a, b])
  {
    assert [a, b][..1] == [a] && [a][..0] == [];
    assert Run(capacity, []) == Empty(capacity) && Legal(capacity, []);
    assert Run(capacity, [a]) == Step(Empty(capacity), a) && Legal(capacity, [a]);
  }

  lemma OneEntry(capacity: nat, e: CacheEntry)
    ensures
      var c := Insert(Empty(capacity), e);
      && c.entries == map[e.Key() := e]
      && c.stats.insertions == 1 && c.stats.currentSize == 1 && c.stats.expirations == 0
  {
    assert |map[e.Key() := e]| == 1;
  }

  /** An entry has expired when it is looked up by address: it is counted as expired and
      still held. */
  lemma AddressLookupCountsTwice(capacity: nat, e: CacheEntry, addr: IpAddr, now: Timestamp)
    requires e.addr == Some(addr) && e.IsExpired(now)
    ensures
      var t := [Event(OpInsert(e), now), Event(OpFindByAddr(addr, Stale(e.Key())), now)];
      var c := Run(capacity, t);
      && Legal(capacity, t)
      && c.stats.insertions == 1 && |c.entries| == 1 && c.stats.expirations == 1
  {
    var a, b := Event(OpInsert(e), now), Event(OpFindByAddr(addr, Stale(e.Key())), now);
    var c := Step(Empty(capacity), a);
    StepIs(Empty(capacity), a);
    StepIs(c, b);
    OneEntry(capacity, e);
    RunOfTwo(capacity, a, b);
  }

  // Looked up by name it is gone, and current_size still counts it.
  lemma NameLookupLeavesSize(capacity: nat, e: CacheEntry, now: Timestamp)
    requires e.IsExpired(now)
    ensures
      var t := [Event(OpInsert(e), now), Event(OpFindByName(e.Key()), now)];
      var c := Run(capacity, t);
      Legal(capacity, t) && c.stats.currentSize == 1 && c.entries == map[]
  {
    var a, b := Event(OpInsert(e), now), Event(OpFindByName(e.Key()), now);
    var c := Step(Empty(capacity), a);
    StepIs(Empty(capacity), a);
    StepIs(c, b);
    OneEntry(capacity, e);
    DropTheOnly(c, e, now);
    RunOfTwo(capacity, a, b);
  }

  lemma DropTheOnly(c: Cache, e: CacheEntry, now: Timestamp)
    requires c.entries == map[e.Key() := e] && e.IsExpired(now)
    ensures
      var d := FindByName(c, e.Key(), now);
      d.entries == map[] && d.stats.currentSize == c.stats.currentSize
  {
    assert c.entries - {e.Key()} == map[];
  }

  // ---- What the counters count ------------------------------------------------

  // The sum over a run of a number for each event and the state it meets.
  function Sum(capacity: nat, t: seq<Event>, f: (Cache, Event) -> nat): nat {
    if t == [] then 0
    else Sum(capacity, t[..|t| - 1], f) + f(Run(capacity, t[..|t| - 1]), t[|t| - 1])
  }

  function Answered(c: Cache, ev: Event): nat {
    match ev.op
    case OpFindByName(k) => if k in c.entries && ev.now < c.entries[k].expiry then 1 else 0
    case OpFindByAddr(_, Live(_)) => 1
    case _ => 0
  }

  function Unanswered(c: Cache, ev: Event): nat {
    if ev.op.OpFindByName? || ev.op.OpFindByAddr? then 1 - Answered(c, ev) else 0
  }

  function Inserted(c: Cache, ev: Event): nat {
    if Stored(ev).Some? then 1 else 0
  }

  // An entry goes to make room, for a new key in a full cache or on request.
  predicate Evicts(c: Cache, ev: Event) {
    && c.order != []
    && (ev.op.OpEvictLru?
        || (Stored(ev).Some? && |c.entries| >= c.capacity && Stored(ev).value.Key() !in c.entries))
  }

  function Evicted(c: Cache, ev: Event): nat {
    if Evicts(c, ev) then 1 else 0
  }

  function ExpiredBy(c: Cache, ev: Event): nat {
    match ev.op
    case OpFindByName(k) => if k in c.entries && ev.now >= c.entries[k].expiry then 1 else 0
    case OpFindByAddr(_, Stale(_)) => 1
    case OpEvictExpired(Some(k)) => if k in c.entries && ev.now >= c.entries[k].expiry then 1 else 0
    case OpPruneExpired => |set k | k in c.entries && ev.now >= c.entries[k].expiry|
    case _ => 0
  }

  lemma InsertCounts(c: Cache, e: CacheEntry)
    ensures
      var a, b := c.stats, Insert(c, e).stats;
      && b.hits == a.hits && b.misses == a.misses && b.expirations == a.expirations
      && b.insertions == a.insertions + 1
      && b.evictions == a.evictions
         + if c.order != [] && |c.entries| >= c.capacity && e.Key() !in c.entries then 1 else 0
  {
  }

  lemma LookupCounts(c: Cache, ev: Event)
    requires ev.op.OpFindByName? || ev.op.OpFindByAddr?
    ensures
      var a, b := c.stats, Step(c, ev).stats;
      && b.hits == a.hits + Answered(c, ev)
      && b.misses == a.misses + Unanswered(c, ev)
      && b.expirations == a.expirations + ExpiredBy(c, ev)
      && b.insertions == a.insertions && b.evictions == a.evictions
  {
    StepIs(c, ev);
  }

  lemma RemovalCounts(c: Cache, ev: Event)
    requires Stored(ev).None? && !ev.op.OpFindByName? && !ev.op.OpFindByAddr? && !ev.op.OpPruneExpired?
    ensures
      var a, b := c.stats, Step(c, ev).stats;
      && b.hits == a.hits && b.misses == a.misses && b.insertions == a.insertions
      && b.evictions == a.evictions + Evicted(c, ev)
      && b.expirations == a.expirations + ExpiredBy(c, ev)
  {
    StepIs(c, ev);
  }

  lemma PruneCounts(c: Cache, now: Timestamp)
    ensures
      var a, b := c.stats, PruneExpired(c, now).stats;
      && b.hits == a.hits && b.misses == a.misses && b.insertions == a.insertions && b.evictions == a.evictions
      && b.expirations == a.expirations + |set k | k in c.entries && now >= c.entries[k].expiry|
  {
    assert ExpiredKeys(c.entries, now) == set k | k in c.entries && now >= c.entries[k].expiry;
  }

  lemma StepCounts(c: Cache, ev: Event)
    ensures
      var a, b := c.stats, Step(c, ev).stats;
      && b.hits == a.hits + Answered(c, ev)
      && b.misses == a.misses + Unanswered(c, ev)
      && b.insertions == a.insertions + Inserted(c, ev)
      && b.evictions == a.evictions + Evicted(c, ev)
      && b.expirations == a.expirations + ExpiredBy(c, ev)
  {
    if Stored(ev).Some? {
      StepIs(c, ev);
      InsertCounts(c, Stored(ev).value);
    } else if ev.op.OpFindByName? || ev.op.OpFindByAddr? {
      LookupCounts(c, ev);
    } else if ev.op.OpPruneExpired? {
      StepIs(c, ev);
      PruneCounts(c, ev.now);
    } else {
      RemovalCounts(c, ev);
    }
  }

  // Every published counter counts what its name says.
  lemma {:induction false} CountersAreCounts(capacity: nat, t: seq<Event>)
    ensures
      var stats := Run(capacity, t).stats;
      && stats.hits == Sum(capacity, t, Answered)
      && stats.misses == Sum(capacity, t, Unanswered)
      && stats.insertions == Sum(capacity, t, Inserted)
      && stats.evictions == Sum(capacity, t, Evicted)
      && stats.expirations == Sum(capacity, t, ExpiredBy)
  {
    if t != [] {
      CountersAreCounts(capacity, t[..|t| - 1]);
      StepCounts(Run(capacity, t[..|t| - 1]), t[|t| - 1]);
    }
  }

  // ---- Recency ----------------------------------------------------------------

  // The event uses key k: an insert under it, a lookup of it, or an address hit on it.
  predicate Uses(ev: Event, k: CacheKey) {
    match ev.op
    case OpInsert(e) => e.Key() == k
    case OpAddDhcp(host, addr, _) => KeyOf(host, AddrType(addr)) == k
    case OpFindByName(k') => k' == k
    case OpFindByAddr(_, Live(k')) => k' == k
    case _ => false
  }

  ghost predicate UsesOnly(ev: Event, k: CacheKey) {
    Uses(ev, k) && forall x :: Uses(ev, x) ==> x == k
  }

  // One past the position of the last event of the trace that uses k; 0 if none does.
  function LastUse(t: seq<Event>, k: CacheKey): (n: nat)
    ensures n <= |t|
  {
    if t == [] then 0
    else if Uses(t[|t| - 1], k) then |t|
    else LastUse(t[..|t| - 1], k)
  }

  ghost predicate InUseOrder(t: seq<Event>, s: seq<CacheKey>) {
    forall i, j :: 0 <= i < j < |s| ==> LastUse(t, s[i]) < LastUse(t, s[j])
  }

  lemma {:induction false} DropKeepsUseOrder(t: seq<Event>, s: seq<CacheKey>, gone: set<CacheKey>)
    requires InUseOrder(t, s)
    ensures InUseOrder(t, Drop(s, gone))
  {
    if s != [] {
      DropKeepsUseOrder(t, s[1..], gone);
      var r := Drop(s[1..], gone);
      forall i | 0 <= i < |r| ensures LastUse(t, s[0]) < LastUse(t, r[i]) {
        assert r[i] in s[1..];
      }
    }
  }

  lemma UnusedKeepOrder(t: seq<Event>, s: seq<CacheKey>)
    requires t != [] && InUseOrder(t[..|t| - 1], s)
    requires forall k :: k in s ==> !Uses(t[|t| - 1], k)
    ensures InUseOrder(t, s)
  {
    forall i | 0 <= i < |s| ensures LastUse(t, s[i]) == LastUse(t[..|t| - 1], s[i]) {
      assert s[i] in s;
    }
  }

  lemma UsedGoesLast(t: seq<Event>, s: seq<CacheKey>, k: CacheKey)
    requires t != [] && InUseOrder(t[..|t| - 1], s)
    requires UsesOnly(t[|t| - 1], k)
    ensures InUseOrder(t, Touch(s, k))
  {
    DropKeepsUseOrder(t[..|t| - 1], s, {k});
    var r := Drop(s, {k});
    assert forall x :: x in r ==> !Uses(t[|t| - 1], x);
    UnusedKeepOrder(t, r);
    forall i | 0 <= i < |r| ensures LastUse(t, r[i]) < LastUse(t, k) {
      assert r[i] in r;
    }
  }

  lemma DropInUseOrder(t: seq<Event>, s: seq<CacheKey>, gone: set<CacheKey>)
    requires t != [] && InUseOrder(t[..|t| - 1], s)
    requires forall k :: k in s && k !in gone ==> !Uses(t[|t| - 1], k)
    ensures InUseOrder(t, Drop(s, gone))
    ensures (forall k :: k in s ==> !Uses(t[|t| - 1], k)) ==> InUseOrder(t, s)
  {
    DropKeepsUseOrder(t[..|t| - 1], s, gone);
    UnusedKeepOrder(t, Drop(s, gone));
    if forall k :: k in s ==> !Uses(t[|t| - 1], k) { UnusedKeepOrder(t, s); }
  }

  lemma InsertInUseOrder(t: seq<Event>, c: Cache, e: CacheEntry)
    requires t != [] && InUseOrder(t[..|t| - 1], c.order)
    requires UsesOnly(t[|t| - 1], e.Key())
    ensures InUseOrder(t, Insert(c, e).order)
  {
    UsedGoesLast(t, c.order, e.Key());
    if c.order != [] { UsedGoesLast(t, c.order[1..], e.Key()); }
  }

  lemma FindByNameInUseOrder(t: seq<Event>, c: Cache, k: CacheKey, now: Timestamp)
    requires t != [] && InUseOrder(t[..|t| - 1], c.order)
    requires forall x :: x in c.order <==> x in c.entries
    requires UsesOnly(t[|t| - 1], k)
    ensures InUseOrder(t, FindByName(c, k, now).order)
  {
    if k !in c.entries {
      UnusedKeepOrder(t, c.order);
    } else if c.entries[k].IsExpired(now) {
      DropInUseOrder(t, c.order, {k});
    } else {
      UsedGoesLast(t, c.order, k);
    }
  }

  lemma FindByAddrInUseOrder(t: seq<Event>, c: Cache, found: AddrChoice)
    requires t != [] && InUseOrder(t[..|t| - 1], c.order)
    requires t[|t| - 1].op.OpFindByAddr? && t[|t| - 1].op.found == found
    ensures InUseOrder(t, FindByAddr(c, found).order)
  {
    if found.Live? && found.key in c.order {
      UsedGoesLast(t, c.order, found.key);
    } else {
      UnusedKeepOrder(t, c.order);
    }
  }

  // An event that uses no key.
  predicate UsesNothing(op: Op) {
    op.OpRemoveDhcp? || op.OpEvictLru? || op.OpEvictExpired? || op.OpPruneExpired? || op.OpClear?
  }

  lemma RemovalInUseOrder(t: seq<Event>, c: Cache)
    requires t != [] && InUseOrder(t[..|t| - 1], c.order)
    requires UsesNothing(t[|t| - 1].op)
    ensures InUseOrder(t, Step(c, t[|t| - 1]).order)
  {
    var ev := t[|t| - 1];
    StepIs(c, ev);
    UnusedKeepOrder(t, c.order);
    match ev.op
    case OpRemoveDhcp(k) => DropInUseOrder(t, c.order, {k});
    case OpEvictLru =>
    case OpEvictExpired(victim) =>
      if victim.Some? { DropInUseOrder(t, c.order, {victim.value}); }
    case OpPruneExpired => DropInUseOrder(t, c.order, ExpiredKeys(c.entries, ev.now));
    case OpClear =>
  }

  lemma EventInUseOrder(t: seq<Event>, c: Cache)
    requires t != [] && InUseOrder(t[..|t| - 1], c.order)
    requires forall x :: x in c.order <==> x in c.entries
    ensures InUseOrder(t, Step(c, t[|t| - 1]).order)
  {
    var ev := t[|t| - 1];
    if UsesNothing(ev.op) {
      RemovalInUseOrder(t, c);
    } else {
      StepIs(c, ev);
      match ev.op
      case OpInsert(e) => InsertInUseOrder(t, c, e);
      case OpAddDhcp(host, addr, ttl) => InsertInUseOrder(t, c, DhcpEntry(host, addr, ttl, ev.now));
      case OpFindByName(k) => FindByNameInUseOrder(t, c, k, ev.now);
      case OpFindByAddr(_, found) => FindByAddrInUseOrder(t, c, found);
    }
  }

  // In every run the LRU list is in the order of last use.
  lemma {:induction false} OrderIsLastUse(capacity: nat, t: seq<Event>)
    requires Legal(capacity, t)
    ensures InUseOrder(t, Run(capacity, t).order)
  {
    if t != [] {
      OrderIsLastUse(capacity, t[..|t| - 1]);
      EveryRunIsConsistent(capacity, t[..|t| - 1]);
      EventInUseOrder(t, Run(capacity, t[..|t| - 1]));
    }
  }

  // The key an eviction removes was used before every key it keeps.
  lemma {:induction false} VictimIsLeastRecentlyUsed(capacity: nat, t: seq<Event>, k: CacheKey)
    requires Legal(capacity, t)
    requires k in Run(capacity, t).entries
    ensures
      var c := Run(capacity, t);
      && c.order != []
      && c.order[0] in c.entries
      && EvictLru(c).entries == c.entries - {c.order[0]}
      && (k != c.order[0] ==> LastUse(t, c.order[0]) < LastUse(t, k))
  {
    EveryRunIsConsistent(capacity, t);
    OrderIsLastUse(capacity, t);
    var order := Run(capacity, t).order;
    assert k in order;
    var i :| 0 <= i < |order| && order[i] == k;
  }

  // ---- Agreement with an unbounded map ----------------------------------------

  // The last-insert-wins map: no capacity, nothing removed for age.
  function Unbounded(t: seq<Event>): map<CacheKey, CacheEntry> {
    if t == [] then map[]
    else
      var m, ev := Unbounded(t[..|t| - 1]), t[|t| - 1];
      if Stored(ev).Some? then m[Stored(ev).value.Key() := Stored(ev).value]
      else if ev.op.OpRemoveDhcp? && ev.op.key in m && m[ev.op.key].IsDhcp() then m - {ev.op.key}
      else if ev.op.OpClear? then map[]
      else m
  }

  ghost predicate Included(s: map<CacheKey, CacheEntry>, l: map<CacheKey, CacheEntry>) {
    forall k :: k in s ==> k in l && s[k] == l[k]
  }

  lemma EvictOnlyShrinks(c: Cache)
    ensures Included(EvictLru(c).entries, c.entries)
  {
  }

  lemma LookupOnlyShrinks(c: Cache, k: CacheKey, now: Timestamp)
    ensures Included(FindByName(c, k, now).entries, c.entries)
  {
  }

  lemma ExpiryOnlyShrinks(c: Cache, victim: Option<CacheKey>, now: Timestamp)
    ensures Included(EvictExpired(c, victim, now).entries, c.entries)
    ensures Included(PruneExpired(c, now).entries, c.entries)
  {
    PruneRemoves(c, now);
  }

  lemma RemoveDhcpOnlyShrinks(c: Cache, k: CacheKey)
    ensures Included(RemoveDhcp(c, k).entries, c.entries)
  {
  }

  lemma PruneRemoves(c: Cache, now: Timestamp)
    ensures PruneExpired(c, now).entries == c.entries - ExpiredKeys(c.entries, now)
  {
    assert c.entries - {} == c.entries;
  }

  lemma InsertOnlyStores(c: Cache, e: CacheEntry)
    ensures Included(Insert(c, e).entries, c.entries[e.Key() := e])
  {
    EvictOnlyShrinks(c);
  }

  // A step that stores nothing adds and changes no entry.
  lemma StepOnlyShrinks(c: Cache, ev: Event)
    requires Stored(ev).None?
    ensures Included(Step(c, ev).entries, c.entries)
  {
    StepIs(c, ev);
    match ev.op
    case OpRemoveDhcp(k) => RemoveDhcpOnlyShrinks(c, k);
    case OpFindByName(k) => LookupOnlyShrinks(c, k, ev.now);
    case OpFindByAddr(_, _) =>
    case OpEvictLru => EvictOnlyShrinks(c);
    case OpEvictExpired(victim) => ExpiryOnlyShrinks(c, victim, ev.now);
    case OpPruneExpired => ExpiryOnlyShrinks(c, None, ev.now);
    case OpClear =>
  }

  lemma {:induction false} HeldEntriesAreLatest(capacity: nat, t: seq<Event>)
    ensures Included(Run(capacity, t).entries, Unbounded(t))
  {
    if t != [] {
      var c, ev := Run(capacity, t[..|t| - 1]), t[|t| - 1];
      HeldEntriesAreLatest(capacity, t[..|t| - 1]);
      if Stored(ev).Some? {
        StepIs(c, ev);
        InsertOnlyStores(c, Stored(ev).value);
      } else {
        StepOnlyShrinks(c, ev);
      }
    }
  }

  // A name hit returns what the unbounded map returns.
  lemma {:induction false} HitsAgreeWithUnbounded(capacity: nat, t: seq<Event>, k: CacheKey, now: Timestamp)
    requires Answer(Run(capacity, t).entries, k, now).Some?
    ensures Answer(Run(capacity, t).entries, k, now) == Answer(Unbounded(t), k, now)
    ensures Answer(Run(capacity, t).entries, k, now).value.Key() == k
  {
    HeldEntriesAreLatest(capacity, t);
    EveryRunIsConsistent(capacity, t);
  }

  // ---- Names, types and lifetimes ---------------------------------------------

  // Two lookups share a key exactly when they name the same labels and the same type.
  lemma KeyOfExactly(a: DomainName, s: RecordType, b: DomainName, t: RecordType)
    ensures KeyOf(a, s) == KeyOf(b, t) <==> SameLabels(Labels(a), Labels(b)) && s == t
  {
    SameNameIsSameLabels(a, b);
  }

  // Entries with the same name, ignoring case, and the same type.
  predicate Alike(e: CacheEntry, f: CacheEntry) {
    SameName(e.domain, f.domain) && e.rtype == f.rtype
  }

  /** In every run the answer to a name lookup has the name and the type asked for, and
      has not reached its expiry. */
  lemma HitHasNameAndType(capacity: nat, t: seq<Event>, name: DomainName, rtype: RecordType, now: Timestamp)
    requires Answer(Run(capacity, t).entries, KeyOf(name, rtype), now).Some?
    ensures
      var r := Answer(Run(capacity, t).entries, KeyOf(name, rtype), now).value;
      SameLabels(Labels(r.domain), Labels(name)) && r.rtype == rtype && now < r.expiry
  {
    EveryRunIsConsistent(capacity, t);
    var r := Answer(Run(capacity, t).entries, KeyOf(name, rtype), now).value;
    KeyOfExactly(r.domain, r.rtype, name, rtype);
  }

  /** The event leaves an entry in place: the entry has not expired, and it is not
      overwritten, removed as a DHCP entry, cleared or evicted. */
  ghost predicate Spares(c: Cache, ev: Event, e: CacheEntry) {
    && ev.now < e.expiry
    && (Stored(ev).Some? ==> !Alike(Stored(ev).value, e))
    && (ev.op.OpRemoveDhcp? && Dhcp in e.flags ==> ev.op.key != KeyOf(e.domain, e.rtype))
    && !ev.op.OpClear?
    && (Evicts(c, ev) && c.order[0] in c.entries ==> !Alike(c.entries[c.order[0]], e))
  }

  ghost predicate Holds(c: Cache, e: CacheEntry) {
    e.Key() in c.entries && c.entries[e.Key()] == e
  }

  lemma SparedInsert(c: Cache, f: CacheEntry, e: CacheEntry)
    requires Consistent(c) && Holds(c, e) && f.Key() != e.Key()
    requires c.order != [] && |c.entries| >= c.capacity && f.Key() !in c.entries ==> c.order[0] != e.Key()
    ensures Holds(Insert(c, f), e)
  {
    assert e.Key() in MakeRoom(c, f.Key()).entries;
  }

  lemma SparedEviction(c: Cache, e: CacheEntry)
    requires Consistent(c) && Holds(c, e) && (c.order != [] ==> c.order[0] != e.Key())
    ensures Holds(EvictLru(c), e)
  {
  }

  lemma SparedRemoval(c: Cache, ev: Event, e: CacheEntry)
    requires Stored(ev).None? && !ev.op.OpEvictLru?
    requires Holds(c, e) && Spares(c, ev, e)
    ensures Holds(Step(c, ev), e)
  {
    StepOnlyShrinks(c, ev);
    if e.Key() !in Step(c, ev).entries { StepDropsOnlyExpired(c, ev, e.Key()); }
  }

  lemma SparedStep(c: Cache, ev: Event, e: CacheEntry)
    requires Consistent(c) && Holds(c, e) && Spares(c, ev, e)
    ensures Holds(Step(c, ev), e)
  {
    if Stored(ev).Some? {
      StepIs(c, ev);
      SparedInsert(c, Stored(ev).value, e);
    } else if ev.op.OpEvictLru? {
      StepIs(c, ev);
      SparedEviction(c, e);
    } else {
      SparedRemoval(c, ev, e);
    }
  }

  lemma InsertHolds(c: Cache, e: CacheEntry)
    ensures Holds(Insert(c, e), e)
  {
  }

  ghost predicate SparedAt(capacity: nat, t: seq<Event>, j: nat, e: CacheEntry)
    requires j < |t|
  {
    Spares(Run(capacity, t[..j]), t[j], e)
  }

  // Every event from a position on spares the entry.
  ghost predicate SparedFrom(capacity: nat, t: seq<Event>, i: nat, e: CacheEntry) {
    forall j: nat :: i <= j < |t| ==> SparedAt(capacity, t, j, e)
  }

  lemma SparedBefore(capacity: nat, t: seq<Event>, i: nat, e: CacheEntry)
    requires i < |t| && SparedFrom(capacity, t, i, e)
    ensures SparedFrom(capacity, t[..|t| - 1], i, e)
    ensures Spares(Run(capacity, t[..|t| - 1]), t[|t| - 1], e)
  {
    var p := t[..|t| - 1];
    assert SparedAt(capacity, t, |t| - 1, e);
    forall j: nat | i <= j < |p| ensures SparedAt(capacity, p, j, e) {
      assert SparedAt(capacity, t, j, e);
      assert p[..j] == t[..j];
    }
  }

  lemma StoreHolds(capacity: nat, t: seq<Event>, e: CacheEntry)
    requires t != [] && Stored(t[|t| - 1]) == Some(e)
    ensures Holds(Run(capacity, t), e)
  {
    var c := Run(capacity, t[..|t| - 1]);
    StepIs(c, t[|t| - 1]);
    InsertHolds(c, e);
  }

  lemma {:induction false} StoredIsHeld(capacity: nat, t: seq<Event>, i: nat, e: CacheEntry)
    requires i < |t| && Stored(t[i]) == Some(e) && SparedFrom(capacity, t, i + 1, e)
    ensures Holds(Run(capacity, t), e)
    decreases |t|
  {
    if i == |t| - 1 {
      StoreHolds(capacity, t, e);
    } else {
      var p := t[..|t| - 1];
      SparedBefore(capacity, t, i + 1, e);
      StoredIsHeld(capacity, p, i, e);
      EveryRunIsConsistent(capacity, p);
      SparedStep(Run(capacity, p), t[|t| - 1], e);
    }
  }

  /** An entry once stored, and spared by every later event, is the answer to every lookup
      of its name and type until its expiry, and to none from then on. */
  lemma StoredIsFound(
    capacity: nat, t: seq<Event>, i: nat, e: CacheEntry, name: DomainName, rtype: RecordType, now: Timestamp)
    requires i < |t| && Stored(t[i]) == Some(e) && SparedFrom(capacity, t, i + 1, e)
    requires SameLabels(Labels(e.domain), Labels(name)) && e.rtype == rtype
    ensures Answer(Run(capacity, t).entries, KeyOf(name, rtype), now) == if now < e.expiry then Some(e) else None
  {
    StoredIsHeld(capacity, t, i, e);
    KeyOfExactly(e.domain, e.rtype, name, rtype);
  }

  /** A lease is found under type A (1) or AAAA (28), by its address family, until its time
      is up; removing it as a DHCP entry removes it, and leaves entries of other origin. */
  lemma DhcpEntryIsFound(c: Cache, host: DomainName, addr: IpAddr, ttl: nat, added: Timestamp, now: Timestamp)
    ensures
      var e := DhcpEntry(host, addr, ttl, added);
      var k := KeyOf(host, if addr.V4? then 1 else 28);
      var d := Insert(c, e);
      && e.addr == Some(addr) && e.domain == host && e.flags == {Dhcp, Forward}
      && Answer(d.entries, k, now) == (if now < added + ttl then Some(e) else None)
      && k !in RemoveDhcp(d, k).entries
    ensures forall k :: k in c.entries && Dhcp !in c.entries[k].flags ==> RemoveDhcp(c, k).entries == c.entries
  {
    InsertHolds(c, DhcpEntry(host, addr, ttl, added));
  }

  // Pruning keeps exactly the entries that have not reached their expiry.
  lemma PruneKeepsLive(c: Cache, now: Timestamp, k: CacheKey)
    ensures k in PruneExpired(c, now).entries <==> k in c.entries && now < c.entries[k].expiry
    ensures k in PruneExpired(c, now).entries ==> PruneExpired(c, now).entries[k] == c.entries[k]
  {
    PruneRemoves(c, now);
  }

  function InsertedKeys(t: seq<Event>): set<CacheKey> {
    if t == [] then {}
    else
      var ev := t[|t| - 1];
      InsertedKeys(t[..|t| - 1]) + (if Stored(ev).Some? then {Stored(ev).value.Key()} else {})
  }

  // An insert into a cache that has room keeps the whole of what it held.
  lemma InsertWithRoom(c: Cache, e: CacheEntry, keys: set<CacheKey>)
    requires c.entries.Keys <= keys && e.Key() in keys
    requires |keys| <= c.capacity
    ensures Insert(c, e).entries == c.entries[e.Key() := e]
  {
    var k := e.Key();
    if k !in c.entries {
      SubsetSize(c.entries.Keys, keys - {k});
    }
  }

  // Everything the unbounded map holds and the cache does not is expired.
  ghost predicate OnlyExpiredMissing(c: map<CacheKey, CacheEntry>, m: map<CacheKey, CacheEntry>, now: Timestamp) {
    forall k :: k in m && k !in c ==> m[k].IsExpired(now)
  }

  // Apart from hand-made evictions, a step that stores nothing drops an unexpired entry
  // only where the unbounded map drops it too.
  lemma StepDropsOnlyExpired(c: Cache, ev: Event, k: CacheKey)
    requires !ev.op.OpEvictLru? && !ev.op.OpClear? && Stored(ev).None?
    requires k in c.entries && k !in Step(c, ev).entries
    ensures c.entries[k].IsExpired(ev.now) || (ev.op == OpRemoveDhcp(k) && c.entries[k].IsDhcp())
  {
  }

  lemma {:induction false} ExpiredStepByStep(capacity: nat, t: seq<Event>)
    requires t != [] && |InsertedKeys(t)| <= capacity
    requires !t[|t| - 1].op.OpEvictLru?
    requires
      var p := t[..|t| - 1];
      var c := Run(capacity, p);
      && c.capacity == capacity && c.entries.Keys <= InsertedKeys(p)
      && OnlyExpiredMissing(c.entries, Unbounded(p), t[|t| - 1].now)
    ensures Run(capacity, t).capacity == capacity
    ensures Run(capacity, t).entries.Keys <= InsertedKeys(t)
    ensures OnlyExpiredMissing(Run(capacity, t).entries, Unbounded(t), t[|t| - 1].now)
  {
    var p, ev := t[..|t| - 1], t[|t| - 1];
    var c := Run(capacity, p);
    HeldEntriesAreLatest(capacity, p);
    StepKeepsCapacity(c, ev);
    if Stored(ev).Some? {
      StepIs(c, ev);
      InsertWithRoom(c, Stored(ev).value, InsertedKeys(t));
    } else {
      StepOnlyShrinks(c, ev);
      forall k | k in Unbounded(t) && k !in Run(capacity, t).entries
        ensures Unbounded(t)[k].IsExpired(ev.now)
      {
        if k in c.entries { StepDropsOnlyExpired(c, ev, k); }
      }
    }
  }

  lemma {:induction false} OnlyExpiredEntriesMissing(capacity: nat, t: seq<Event>, now: Timestamp)
    requires |InsertedKeys(t)| <= capacity
    requires forall ev :: ev in t ==> !ev.op.OpEvictLru?
    requires Monotone(t)
    requires t != [] ==> t[|t| - 1].now <= now
    ensures Run(capacity, t).capacity == capacity
    ensures Run(capacity, t).entries.Keys <= InsertedKeys(t)
    ensures OnlyExpiredMissing(Run(capacity, t).entries, Unbounded(t), now)
  {
    if t != [] {
      var p, ev := t[..|t| - 1], t[|t| - 1];
      assert ev in t;
      SubsetSize(InsertedKeys(p), InsertedKeys(t));
      assert p != [] ==> p[|p| - 1] == t[|t| - 2];
      OnlyExpiredEntriesMissing(capacity, p, ev.now);
      ExpiredStepByStep(capacity, t);
    }
  }

  /** When the keys ever inserted fit the capacity, no one evicts by hand and the clock
      never goes back, the bounded cache answers every name lookup as the unbounded map does. */
  lemma EnoughRoomIsTransparent(capacity: nat, t: seq<Event>, k: CacheKey, now: Timestamp)
    requires |InsertedKeys(t)| <= capacity
    requires forall ev :: ev in t ==> !ev.op.OpEvictLru?
    requires Monotone(t + [Event(OpFindByName(k), now)])
    ensures Answer(Run(capacity, t).entries, k, now) == Answer(Unbounded(t), k, now)
  {
    var u := t + [Event(OpFindByName(k), now)];
    assert forall i :: 0 <= i < |t| ==> u[i] == t[i];
    assert u[|t|].now == now;
    HeldEntriesAreLatest(capacity, t);
    OnlyExpiredEntriesMissing(capacity, t, now);
  }

  // ---- Inclusion --------------------------------------------------------------

  // The operations whose effect does not depend on hash order.
  predicate Deterministic(ev: Event) {
    !ev.op.OpFindByAddr? && !ev.op.OpEvictExpired?
  }

  lemma {:induction false} DeterministicIsLegal(capacity: nat, t: seq<Event>)
    requires forall ev :: ev in t ==> Deterministic(ev)
    ensures Legal(capacity, t)
  {
    if t != [] {
      assert t[|t| - 1] in t;
      DeterministicIsLegal(capacity, t[..|t| - 1]);
    }
  }

  lemma EvictKeepsInclusion(t: seq<Event>, s: Cache, l: Cache)
    requires Consistent(s) && Consistent(l)
    requires InUseOrder(t, s.order) && InUseOrder(t, l.order)
    requires Included(s.entries, l.entries)
    ensures Included(EvictLru(s).entries, EvictLru(l).entries)
  {
    if l.order != [] {
      var v := l.order[0];
      if v in s.entries {
        assert v in s.order;
        var i :| 0 <= i < |s.order| && s.order[i] == v;
        var w := s.order[0];
        assert w in s.entries && w in l.order;
        var j :| 0 <= j < |l.order| && l.order[j] == w;
        assert i == 0;
      }
    }
  }

  // Inclusion, with a size gap the larger capacity can absorb.
  ghost predicate Nested(s: Cache, l: Cache) {
    && Included(s.entries, l.entries)
    && |l.entries| - |s.entries| <= Bound(l.capacity) - Bound(s.capacity)
  }

  // If the larger cache has to evict, so does the smaller one.
  lemma RoomKeepsInclusion(t: seq<Event>, s: Cache, l: Cache, k: CacheKey)
    requires Consistent(s) && Consistent(l)
    requires InUseOrder(t, s.order) && InUseOrder(t, l.order)
    requires Nested(s, l)
    ensures Included(MakeRoom(s, k).entries, MakeRoom(l, k).entries)
  {
    EvictOnlyShrinks(s);
    if MakeRoom(l, k) != l {
      EvictKeepsInclusion(t, s, l);
      if s.entries == map[] { EvictOnlyShrinks(l); }
    }
  }

  lemma RoomSize(c: Cache, k: CacheKey)
    requires Good(c)
    ensures |MakeRoom(c, k).entries| ==
      if k !in c.entries && |c.entries| == Bound(c.capacity) then |c.entries| - 1 else |c.entries|
  {
    EvictIsConsistent(c);
  }

  lemma InsertSize(c: Cache, e: CacheEntry)
    requires Good(c)
    ensures |Insert(c, e).entries| ==
      if e.Key() !in c.entries && |c.entries| < Bound(c.capacity) then |c.entries| + 1 else |c.entries|
  {
    RoomIsConsistent(c, e.Key());
    RoomSize(c, e.Key());
    SizeWith(MakeRoom(c, e.Key()).entries, e.Key(), e);
  }

  lemma {:induction false} InsertKeepsNesting(t: seq<Event>, s: Cache, l: Cache, e: CacheEntry)
    requires Good(s) && Good(l)
    requires InUseOrder(t, s.order) && InUseOrder(t, l.order)
    requires Nested(s, l)
    ensures Nested(Insert(s, e), Insert(l, e))
  {
    RoomKeepsInclusion(t, s, l, e.Key());
    InsertSize(s, e);
    InsertSize(l, e);
    InsertIsConsistent(s, e);
    InsertIsConsistent(l, e);
  }

  // Removing the same keys from both caches does not widen the gap.
  lemma RemovalKeepsGap(s: map<CacheKey, CacheEntry>, l: map<CacheKey, CacheEntry>, gone: set<CacheKey>)
    requires Included(s, l)
    ensures Included(s - gone, l - gone)
    ensures |l - gone| - |s - gone| <= |l| - |s|
  {
    var goneS, goneL := gone * s.Keys, gone * l.Keys;
    assert s - gone == s - goneS && l - gone == l - goneL;
    SizeWithout(s, goneS);
    SizeWithout(l, goneL);
    SubsetSize(goneS, goneL);
  }

  lemma RemoveDhcpKeepsNesting(s: Cache, l: Cache, k: CacheKey)
    requires Nested(s, l)
    ensures Nested(RemoveDhcp(s, k), RemoveDhcp(l, k))
  {
    if k in l.entries && l.entries[k].IsDhcp() {
      RemovalKeepsGap(s.entries, l.entries, {k});
      if k !in s.entries { assert s.entries - {k} == s.entries; }
    }
  }

  lemma FindByNameKeepsNesting(s: Cache, l: Cache, k: CacheKey, now: Timestamp)
    requires Nested(s, l)
    ensures Nested(FindByName(s, k, now), FindByName(l, k, now))
  {
    if k in l.entries && l.entries[k].IsExpired(now) {
      RemovalKeepsGap(s.entries, l.entries, {k});
      if k !in s.entries { assert s.entries - {k} == s.entries; }
    }
  }

  lemma EvictKeepsNesting(t: seq<Event>, s: Cache, l: Cache)
    requires Good(s) && Good(l)
    requires InUseOrder(t, s.order) && InUseOrder(t, l.order)
    requires Nested(s, l) && s.capacity <= l.capacity
    ensures Nested(EvictLru(s), EvictLru(l))
  {
    EvictKeepsInclusion(t, s, l);
    EvictIsConsistent(s);
    EvictIsConsistent(l);
  }

  lemma SameExpired(s: map<CacheKey, CacheEntry>, l: map<CacheKey, CacheEntry>, now: Timestamp)
    requires Included(s, l)
    ensures s - ExpiredKeys(s, now) == s - ExpiredKeys(l, now)
  {
  }

  lemma PruneKeepsNesting(s: Cache, l: Cache, now: Timestamp)
    requires Nested(s, l)
    ensures Nested(PruneExpired(s, now), PruneExpired(l, now))
  {
    var gone := ExpiredKeys(l.entries, now);
    PruneRemoves(s, now);
    PruneRemoves(l, now);
    RemovalKeepsGap(s.entries, l.entries, gone);
    SameExpired(s.entries, l.entries, now);
  }

  lemma StepKeepsNesting(t: seq<Event>, s: Cache, l: Cache, ev: Event)
    requires Deterministic(ev)
    requires Good(s) && Good(l)
    requires InUseOrder(t, s.order) && InUseOrder(t, l.order)
    requires Nested(s, l) && s.capacity <= l.capacity
    ensures Nested(Step(s, ev), Step(l, ev))
  {
    StepIs(s, ev);
    StepIs(l, ev);
    match ev.op
    case OpInsert(e) => InsertKeepsNesting(t, s, l, e);
    case OpAddDhcp(host, addr, ttl) => InsertKeepsNesting(t, s, l, DhcpEntry(host, addr, ttl, ev.now));
    case OpRemoveDhcp(k) => RemoveDhcpKeepsNesting(s, l, k);
    case OpFindByName(k) => FindByNameKeepsNesting(s, l, k, ev.now);
    case OpEvictLru => EvictKeepsNesting(t, s, l);
    case OpPruneExpired => PruneKeepsNesting(s, l, ev.now);
    case OpClear =>
  }

  /** LRU inclusion: a larger cache fed the same operations holds everything a smaller
      one holds, at every point of every run. */
  lemma {:induction false} SmallerIsIncludedInLarger(n: nat, m: nat, t: seq<Event>)
    requires n <= m
    requires forall ev :: ev in t ==> Deterministic(ev)
    ensures Nested(Run(n, t), Run(m, t))
  {
    if t != [] {
      var p, ev := t[..|t| - 1], t[|t| - 1];
      assert ev in t;
      SmallerIsIncludedInLarger(n, m, p);
      DeterministicIsLegal(n, p);
      DeterministicIsLegal(m, p);
      OrderIsLastUse(n, p);
      OrderIsLastUse(m, p);
      EveryRunIsConsistent(n, p);
      EveryRunIsConsistent(m, p);
      StepKeepsNesting(p, Run(n, p), Run(m, p), ev);
    }
  }

  // So the larger cache never misses where the smaller one hits.
  lemma {:induction false} LargerCacheHitsMore(n: nat, m: nat, t: seq<Event>, k: CacheKey, now: Timestamp)
    requires n <= m
    requires forall ev :: ev in t ==> Deterministic(ev)
    requires Answer(Run(n, t).entries, k, now).Some?
    ensures Answer(Run(m, t).entries, k, now) == Answer(Run(n, t).entries, k, now)
  {
    SmallerIsIncludedInLarger(n, m, t);
  }
}

/**
 * The imperative DNS cache: a hash map and an LRU list holding the same entries, both
 * updated by hand in every operation. Each method is proved to take the step of
 * `CacheModel` of the same name.
 */
module DnsCacheImpl {
  import opened Basics
  import opened Net
  import opened Names
  import opened CacheModel
  import opened CacheRuns

  /** The `lru::LruCache` the program uses: `Put` on a full list drops the least recently
      used element without telling its caller. `silent` counts those drops. */
  class LruCache {
    const cap: nat
    var order: seq<CacheKey>
    var values: map<CacheKey, CacheEntry>
    ghost var silent: nat

    ghost predicate Valid()
      reads this
    {
      && NoDuplicates(order)
      && (forall k :: k in order <==> k in values)
      && |values| <= cap
    }

    constructor (capacity: nat)
      requires capacity >= 1
      ensures Valid() && cap == capacity && order == [] && values == map[] && silent == 0
    {
      cap := capacity;
      order := [];
      values := map[];
      silent := 0;
    }

    method Get(k: CacheKey) returns (r: Option<CacheEntry>)
      requires Valid()
      modifies this
      ensures Valid() && values == old(values) && silent == old(silent)
      ensures r == if k in values then Some(values[k]) else None
      ensures order == if k in values then Touch(old(order), k) else old(order)
    {
      if k !in values { return None; }
      DropKeepsDistinct(order, {k});
      order := Touch(order, k);
      r := Some(values[k]);
    }

    method Put(k: CacheKey, e: CacheEntry)
      requires Valid() && cap >= 1
      modifies this
      ensures Valid()
      ensures k in old(values) || |old(values)| < cap ==>
        silent == old(silent) && values == old(values)[k := e] && order == Touch(old(order), k)
      ensures k !in old(values) && |old(values)| == cap ==>
        && old(order) != []
        && silent == old(silent) + 1
        && values == (old(values) - {old(order)[0]})[k := e]
        && order == Touch(old(order)[1..], k)
    {
      if k !in values && |values| == cap {
        DropOldest();
      }
      SizeWith(values, k, e);
      DropKeepsDistinct(order, {k});
      order := Touch(order, k);
      values := values[k := e];
    }

    method DropOldest()
      requires Valid() && |values| == cap && cap >= 1
      modifies this
      ensures Valid() && silent == old(silent) + 1 && |values| < cap
      ensures old(order) != [] && order == old(order)[1..]
      ensures values == old(values) - {old(order)[0]}
    {
      assert order == [] ==> values == map[];
      assert order[0] in values && order[0] !in order[1..];
      SizeWithout(values, {order[0]});
      values := values - {order[0]};
      order := order[1..];
      silent := silent + 1;
    }

    method Pop(k: CacheKey)
      requires Valid()
      modifies this
      ensures Valid() && silent == old(silent)
      ensures values == old(values) - {k} && order == Drop(old(order), {k})
    {
      PopIsSound(order, values, k);
      order := Drop(order, {k});
      values := values - {k};
    }

    method PopLru() returns (r: Option<CacheKey>)
      requires Valid()
      modifies this
      ensures Valid() && silent == old(silent)
      ensures old(order) == [] ==> r == None && order == [] && values == old(values)
      ensures old(order) != [] ==>
        r == Some(old(order)[0]) && order == old(order)[1..] && values == old(values) - {old(order)[0]}
    {
      if order == [] { return None; }
      r := Some(order[0]);
      assert order[0] in values && order[0] !in order[1..];
      SizeWithout(values, {order[0]});
      values := values - {order[0]};
      order := order[1..];
    }

    method Clear()
      requires Valid()
      modifies this
      ensures Valid() && silent == old(silent) && order == [] && values == map[]
    {
      order := [];
      values := map[];
    }
  }

  class DnsCache {
    const capacity: nat
    const lru: LruCache
    var entries: map<CacheKey, CacheEntry>
    var stats: Stats
    ghost var ledger: Ledger

    // The abstract state of the cache.
    ghost function View(): Cache
      reads this, lru
    {
      Cache(capacity, entries, lru.order, stats, ledger)
    }

    /** The two indices hold the same entries, within the bound, and the LRU list has
        never dropped anything on its own. */
    ghost predicate Valid()
      reads this, lru
    {
      && lru.Valid()
      && lru.values == entries
      && lru.silent == 0
      && Keyed(entries)
      && lru.cap == (if capacity == 0 then 150 else capacity)
      && |entries| <= Bound(capacity)
    }

    constructor WithCapacity(capacity: nat)
      ensures Valid() && fresh(lru) && View() == Empty(capacity)
    {
      this.capacity := capacity;
      lru := new LruCache(if capacity == 0 then 150 else capacity);
      entries := map[];
      stats := NO_STATS;
      ledger := NO_LEDGER;
    }

    method FindByName(name: DomainName, rtype: RecordType, now: Timestamp) returns (r: Option<CacheEntry>)
      requires Valid()
      modifies this, lru
      ensures Valid() && View() == CacheModel.FindByName(old(View()), KeyOf(name, rtype), now)
      ensures r == Answer(old(entries), KeyOf(name, rtype), now)
      ensures r.Some? ==> SameName(r.value.domain, name) && r.value.rtype == rtype && now < r.value.expiry
    {
      var key := KeyOf(name, rtype);
      r := lru.Get(key);
      if r.None? {
        stats := stats.Miss(0);
      } else if r.value.IsExpired(now) {
        DropOfTouch(old(lru.order), key);
        DropOnLookup(key);
        r := None;
      } else {
        stats := stats.Hit();
      }
    }

    method DropOnLookup(key: CacheKey)
      requires lru.Valid() && lru.values == entries && Keyed(entries)
      modifies this`entries, this`stats, this`ledger, lru
      ensures lru.Valid() && lru.values == entries && Keyed(entries) && lru.silent == old(lru.silent)
      ensures entries == old(entries) - {key} && lru.order == Drop(old(lru.order), {key})
      ensures |entries| <= |old(entries)|
      ensures stats == old(stats).Miss(1) && ledger == old(ledger).DroppedOnLookup()
    {
      SubsetSize((entries - {key}).Keys, entries.Keys);
      KeyedWithout(entries, {key});
      lru.Pop(key);
      entries := entries - {key};
      stats := stats.Miss(1);
      ledger := ledger.DroppedOnLookup();
    }

    method FindByAddr(addr: IpAddr, now: Timestamp) returns (r: Option<CacheEntry>, ghost found: AddrChoice)
      requires Valid()
      modifies this, lru
      ensures Valid() && View() == CacheModel.FindByAddr(old(View()), found)
      ensures Enabled(old(View()), Event(OpFindByAddr(addr, found), now))
      ensures r == if found.Live? then Some(old(entries)[found.key]) else None
    {
      var stop := ScanAddr(addr);
      if stop.None? {
        r, found := None, NoMatch;
        stats := stats.Miss(0);
      } else if entries[stop.value].IsExpired(now) {
        r, found := None, Stale(stop.value);
        stats := stats.Miss(1);
        ledger := ledger.Phantom();
      } else {
        found := Live(stop.value);
        r := lru.Get(stop.value);
        stats := stats.Hit();
      }
    }

    // The first entry in hash order with the address, live or not.
    method ScanAddr(addr: IpAddr) returns (r: Option<CacheKey>)
      ensures r.None? ==> forall k :: k in entries ==> entries[k].addr != Some(addr)
      ensures r.Some? ==> r.value in entries && entries[r.value].addr == Some(addr)
    {
      var unseen := entries.Keys;
      while unseen != {}
        invariant unseen <= entries.Keys
        invariant forall k :: k in entries && k !in unseen ==> entries[k].addr != Some(addr)
      {
        var key :| key in unseen;
        if entries[key].addr == Some(addr) { return Some(key); }
        unseen := unseen - {key};
      }
      return None;
    }

    method Insert(e: CacheEntry)
      requires Valid()
      modifies this, lru
      ensures Valid() && View() == CacheModel.Insert(old(View()), e)
    {
      if |entries| >= capacity && e.Key() !in entries {
        var _ := PopOldest();
      }
      Store(e);
    }

    // Both indices take the entry; the LRU list has room for it.
    method Store(e: CacheEntry)
      requires lru.Valid() && lru.values == entries && Keyed(entries)
      requires lru.cap >= 1 && (e.Key() in entries || |entries| < lru.cap)
      modifies this`entries, this`stats, this`ledger, lru
      ensures lru.Valid() && lru.values == entries && Keyed(entries) && lru.silent == old(lru.silent)
      ensures View() == CacheModel.Put(old(View()), e)
      ensures |entries| == if e.Key() in old(entries) then |old(entries)| else |old(entries)| + 1
    {
      var key := e.Key();
      ledger := ledger.Overwritten(if key in entries then 1 else 0);
      SizeWith(entries, key, e);
      KeyedWith(entries, e);
      lru.Put(key, e);
      entries := entries[key := e];
      stats := stats.Inserted(|entries|);
    }

    method EvictLru() returns (r: Option<CacheEntry>)
      requires Valid()
      modifies this, lru
      ensures Valid() && View() == CacheModel.EvictLru(old(View()))
      ensures old(entries) == map[] ==> r == None
      ensures old(entries) != map[] ==>
        && old(lru.order) != []
        && old(lru.order)[0] in old(entries)
        && r == Some(old(entries)[old(lru.order)[0]])
    {
      assert lru.order != [] ==> lru.order[0] in entries;
      assert lru.order == [] ==> entries == map[];
      r := PopOldest();
    }

    method PopOldest() returns (r: Option<CacheEntry>)
      requires lru.Valid() && lru.values == entries && Keyed(entries)
      modifies this`entries, this`stats, this`ledger, lru
      ensures lru.Valid() && lru.values == entries && Keyed(entries) && lru.silent == old(lru.silent)
      ensures View() == CacheModel.EvictLru(old(View()))
      ensures |entries| == if old(lru.order) == [] then |old(entries)| else |old(entries)| - 1
      ensures old(lru.order) == [] ==> r == None
      ensures old(lru.order) != [] ==>
        old(lru.order)[0] in old(entries) && r == Some(old(entries)[old(lru.order)[0]])
    {
      assert lru.order != [] ==> lru.order[0] in entries;
      var popped := lru.PopLru();
      if popped.None? { return None; }
      var key := popped.value;
      r := Some(entries[key]);
      SizeWithout(entries, {key});
      KeyedWithout(entries, {key});
      entries := entries - {key};
      stats := stats.Evicted(|entries|);
      ledger := ledger.Refreshed();
    }

    method EvictExpired(now: Timestamp) returns (r: Option<CacheEntry>, ghost victim: Option<CacheKey>)
      requires Valid()
      modifies this, lru
      ensures Valid() && View() == CacheModel.EvictExpired(old(View()), victim, now)
      ensures Enabled(old(View()), Event(OpEvictExpired(victim), now))
      ensures r == if victim.Some? then Some(old(entries)[victim.value]) else None
    {
      var expired := ExpiredKeys(entries, now);
      if expired == {} {
        r, victim := None, None;
      } else {
        var key :| key in expired;
        r, victim := Some(entries[key]), Some(key);
        SizeWithout(entries, {key});
        KeyedWithout(entries, {key});
        entries := entries - {key};
        lru.Pop(key);
        stats := stats.Expired(1).Resized(|entries|);
        ledger := ledger.Refreshed();
      }
    }

    method PruneExpired(now: Timestamp) returns (removed: nat)
      requires Valid()
      modifies this, lru
      ensures Valid() && View() == CacheModel.PruneExpired(old(View()), now)
      ensures removed == |ExpiredKeys(old(entries), now)|
    {
      ghost var before := View();
      var expired := ExpiredKeys(entries, now);
      SizeWithout(entries, expired);
      KeyedWithout(entries, expired);
      removed := RemoveAll(expired);
      if removed > 0 {
        RefreshSize();
      } else {
        DropNothing(before.order);
        RemoveNothing(before.entries);
      }
    }

    method RefreshSize()
      requires Valid()
      modifies this`stats, this`ledger
      ensures Valid() && stats == old(stats).Resized(|entries|) && ledger == old(ledger).Refreshed()
    {
      stats := stats.Resized(|entries|);
      ledger := ledger.Refreshed();
    }

    // The cache once the `n` keys `done` have been removed from the state `c` as expired.
    ghost predicate Without(c: Cache, done: set<CacheKey>, n: nat)
      reads this, lru
    {
      && lru.Valid()
      && lru.values == entries == c.entries - done
      && lru.order == Drop(c.order, done)
      && stats == c.stats.Expired(n)
    }

    method Expire(key: CacheKey, ghost c: Cache, ghost done: set<CacheKey>, ghost n: nat)
      requires Without(c, done, n)
      modifies this`entries, this`stats, lru
      ensures Without(c, done + {key}, n + 1) && lru.silent == old(lru.silent)
    {
      DropTwice(c.order, done, {key});
      RemoveTwice(c.entries, done, {key});
      entries := entries - {key};
      lru.Pop(key);
      stats := stats.Expired(1);
    }

    // The loop of prune_expired over the keys it collected.
    method RemoveAll(keys: set<CacheKey>) returns (removed: nat)
      requires lru.Valid() && lru.values == entries
      modifies this`entries, this`stats, lru
      ensures Without(old(View()), keys, |keys|) && lru.silent == old(lru.silent)
      ensures removed == |keys|
    {
      removed := 0;
      DropNothing(lru.order);
      RemoveNothing(entries);
      var todo := keys;
      ghost var c := View();
      assert keys - todo == {} && keys - {} == keys;
      while todo != {}
        invariant todo <= keys && removed == |keys| - |todo|
        invariant Without(c, keys - todo, removed) && lru.silent == old(lru.silent)
      {
        var key :| key in todo;
        Expire(key, c, keys - todo, removed);
        OneLess(keys, todo, key);
        todo, removed := todo - {key}, removed + 1;
      }
    }

    method AddDhcpEntry(host: DomainName, addr: IpAddr, ttl: nat, now: Timestamp)
      requires Valid()
      modifies this, lru
      ensures Valid() && View() == CacheModel.Insert(old(View()), DhcpEntry(host, addr, ttl, now))
    {
      var rtype := if addr.V4? then TYPE_A else TYPE_AAAA;
      Insert(CacheEntry(host, rtype, Some(addr), now + ttl, {Dhcp, Forward}));
    }

    method RemoveDhcpEntry(host: DomainName, rtype: RecordType) returns (r: bool)
      requires Valid()
      modifies this, lru
      ensures Valid() && View() == RemoveDhcp(old(View()), KeyOf(host, rtype))
      ensures r <==> KeyOf(host, rtype) in old(entries) && old(entries)[KeyOf(host, rtype)].IsDhcp()
    {
      var key := KeyOf(host, rtype);
      r := key in entries && entries[key].IsDhcp();
      if r {
        SizeWithout(entries, {key});
        KeyedWithout(entries, {key});
        entries := entries - {key};
        lru.Pop(key);
        stats := stats.Resized(|entries|);
        ledger := ledger.DhcpRemoved();
      }
    }

    method Clear()
      requires Valid()
      modifies this, lru
      ensures Valid() && View() == CacheModel.Clear(old(View()))
    {
      ledger := ledger.Cleared(|entries|);
      entries := map[];
      lru.Clear();
      stats := stats.Resized(0);
    }
  }

  // Every entry is stored under its own name and type.
  ghost predicate Keyed(m: map<CacheKey, CacheEntry>) {
    forall k :: k in m ==> m[k].Key() == k
  }

  lemma KeyedWithout(m: map<CacheKey, CacheEntry>, gone: set<CacheKey>)
    requires Keyed(m)
    ensures Keyed(m - gone)
  {
  }

  lemma KeyedWith(m: map<CacheKey, CacheEntry>, e: CacheEntry)
    requires Keyed(m)
    ensures Keyed(m[e.Key() := e])
  {
  }

  // ---- Facts about dropping keys from the recency order -----------------------

  lemma {:induction false} DropTwice(s: seq<CacheKey>, a: set<CacheKey>, b: set<CacheKey>)
    ensures Drop(Drop(s, a), b) == Drop(s, a + b)
  {
    if s != [] {
      DropTwice(s[1..], a, b);
      if s[0] !in a { assert Drop(s, a)[1..] == Drop(s[1..], a); }
    }
  }

  lemma PopIsSound(order: seq<CacheKey>, values: map<CacheKey, CacheEntry>, k: CacheKey)
    requires NoDuplicates(order) && forall x :: x in order <==> x in values
    ensures NoDuplicates(Drop(order, {k}))
    ensures forall x :: x in Drop(order, {k}) <==> x in values - {k}
    ensures |values - {k}| <= |values|
  {
    DropKeepsDistinct(order, {k});
    SubsetSize((values - {k}).Keys, values.Keys);
  }

  lemma RemoveTwice(m: map<CacheKey, CacheEntry>, a: set<CacheKey>, b: set<CacheKey>)
    ensures m - a - b == m - (a + b)
  {
  }

  lemma OneLess(keys: set<CacheKey>, todo: set<CacheKey>, k: CacheKey)
    requires todo <= keys && k in todo
    ensures keys - (todo - {k}) == (keys - todo) + {k}
    ensures |todo - {k}| == |todo| - 1
  {
  }

  lemma RemoveNothing(m: map<CacheKey, CacheEntry>)
    ensures m - {} == m
  {
  }

  lemma {:induction false} DropNothing(s: seq<CacheKey>)
    ensures Drop(s, {}) == s
  {
    if s != [] { DropNothing(s[1..]); }
  }

  lemma {:induction false} DropOfAppend(s: seq<CacheKey>, k: CacheKey)
    ensures Drop(s + [k], {k}) == Drop(s, {k})
  {
    if s != [] {
      assert (s + [k])[1..] == s[1..] + [k];
      DropOfAppend(s[1..], k);
    }
  }

  // Promoting a key and then popping it is popping it.
  lemma DropOfTouch(s: seq<CacheKey>, k: CacheKey)
    ensures Drop(Touch(s, k), {k}) == Drop(s, {k})
  {
    DropOfAppend(Drop(s, {k}), k);
    DropTwice(s, {k}, {k});
    assert {k} + {k} == {k};
  }
}

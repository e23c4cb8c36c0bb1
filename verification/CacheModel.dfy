/**
 * The DNS cache as a state machine: one pure step per public operation.
 *
 * A state holds the hash map and the recency order of the LRU list (least recently
 * used key first), the published counters, and a ledger of events the program does
 * not count itself. `DnsCache.dfy` proves that the imperative cache, which keeps
 * the map and the LRU list by hand, takes exactly these steps.
 */
module CacheModel {
  import opened Basics
  import opened Net
  import opened Names

  // A reading of the monotonic clock.
  type Timestamp = nat

  type RecordType = t: nat | t < 0x1_0000

  const TYPE_A: RecordType := 1
  const TYPE_AAAA: RecordType := 28

  datatype CacheFlag = Immortal | Reverse | Forward | Dhcp | Negative | Hosts

  // Names are compared and hashed ignoring case, so the key holds the folded name.
  datatype CacheKey = CacheKey(domain: string, rtype: RecordType)

  datatype CacheEntry = CacheEntry(
    domain: DomainName,
    rtype: RecordType,
    addr: Option<IpAddr>,
    expiry: Timestamp,
    flags: set<CacheFlag>)
  {
    predicate IsExpired(now: Timestamp) {
      now >= expiry
    }

    predicate IsDhcp() {
      Dhcp in flags
    }

    function Key(): CacheKey {
      KeyOf(domain, rtype)
    }
  }

  function KeyOf(name: DomainName, rtype: RecordType): CacheKey {
    CacheKey(Lower(name), rtype)
  }

  function AddrType(addr: IpAddr): RecordType {
    if addr.V4? then TYPE_A else TYPE_AAAA
  }

  function DhcpEntry(host: DomainName, addr: IpAddr, ttl: nat, now: Timestamp): CacheEntry {
    CacheEntry(host, AddrType(addr), Some(addr), now + ttl, {Dhcp, Forward})
  }

  datatype Stats = Stats(
    lookups: nat,
    hits: nat,
    misses: nat,
    currentSize: nat,
    evictions: nat,
    expirations: nat,
    insertions: nat)
  {
    // A lookup that finds a live entry.
    function Hit(): Stats {
      Stats(lookups + 1, hits + 1, misses, currentSize, evictions, expirations, insertions)
    }

    // A lookup that finds nothing, or that counts `expired` expirations on the way.
    function Miss(expired: nat): Stats {
      Stats(lookups + 1, hits, misses + 1, currentSize, evictions, expirations + expired, insertions)
    }

    function Inserted(size: nat): Stats {
      Stats(lookups, hits, misses, size, evictions, expirations, insertions + 1)
    }

    function Evicted(size: nat): Stats {
      Stats(lookups, hits, misses, size, evictions + 1, expirations, insertions)
    }

    function Expired(n: nat): Stats {
      Stats(lookups, hits, misses, currentSize, evictions, expirations + n, insertions)
    }

    function Resized(size: nat): Stats {
      Stats(lookups, hits, misses, size, evictions, expirations, insertions)
    }
  }

  const NO_STATS := Stats(0, 0, 0, 0, 0, 0, 0)

  /** What happened to entries that no published counter records:
   - overwrites: entries replaced by an insert under the same key
   - dhcpRemovals, cleared: entries dropped by remove_dhcp_entry and by clear
   - phantoms: expirations counted by an address lookup that removed nothing
   - stale: entries dropped by a name lookup since current_size was last refreshed
   */
  datatype Ledger = Ledger(
    overwrites: nat,
    dhcpRemovals: nat,
    cleared: nat,
    phantoms: nat,
    stale: nat)
  {
    // current_size has just been set to the number of entries.
    function Refreshed(): Ledger {
      Ledger(overwrites, dhcpRemovals, cleared, phantoms, 0)
    }

    function Overwritten(n: nat): Ledger {
      Ledger(overwrites + n, dhcpRemovals, cleared, phantoms, 0)
    }

    function DhcpRemoved(): Ledger {
      Ledger(overwrites, dhcpRemovals + 1, cleared, phantoms, 0)
    }

    function Cleared(n: nat): Ledger {
      Ledger(overwrites, dhcpRemovals, cleared + n, phantoms, 0)
    }

    function Phantom(): Ledger {
      Ledger(overwrites, dhcpRemovals, cleared, phantoms + 1, stale)
    }

    function DroppedOnLookup(): Ledger {
      Ledger(overwrites, dhcpRemovals, cleared, phantoms, stale + 1)
    }
  }

  const NO_LEDGER := Ledger(0, 0, 0, 0, 0)

  datatype Cache = Cache(
    capacity: nat,
    entries: map<CacheKey, CacheEntry>,
    order: seq<CacheKey>,
    stats: Stats,
    ledger: Ledger)

  function Empty(capacity: nat): Cache {
    Cache(capacity, map[], [], NO_STATS, NO_LEDGER)
  }

  // The order without the given keys.
  function Drop(order: seq<CacheKey>, gone: set<CacheKey>): (r: seq<CacheKey>)
    ensures forall k :: k in r <==> k in order && k !in gone
  {
    if order == [] then []
    else if order[0] in gone then Drop(order[1..], gone)
    else [order[0]] + Drop(order[1..], gone)
  }

  // The key becomes the most recently used one.
  function Touch(order: seq<CacheKey>, k: CacheKey): seq<CacheKey> {
    Drop(order, {k}) + [k]
  }

  function EvictLru(c: Cache): Cache {
    if c.order == [] then c
    else
      var entries := c.entries - {c.order[0]};
      Cache(c.capacity, entries, c.order[1..], c.stats.Evicted(|entries|), c.ledger.Refreshed())
  }

  // Eviction before an insert: only a full cache that lacks the key evicts.
  function MakeRoom(c: Cache, k: CacheKey): Cache {
    if |c.entries| >= c.capacity && k !in c.entries then EvictLru(c) else c
  }

  function Put(c: Cache, e: CacheEntry): Cache {
    var entries := c.entries[e.Key() := e];
    Cache(c.capacity, entries, Touch(c.order, e.Key()), c.stats.Inserted(|entries|),
          c.ledger.Overwritten(if e.Key() in c.entries then 1 else 0))
  }

  function Insert(c: Cache, e: CacheEntry): Cache {
    Put(MakeRoom(c, e.Key()), e)
  }

  // What a name lookup answers.
  function Answer(entries: map<CacheKey, CacheEntry>, k: CacheKey, now: Timestamp): Option<CacheEntry> {
    if k in entries && !entries[k].IsExpired(now) then Some(entries[k]) else None
  }

  function FindByName(c: Cache, k: CacheKey, now: Timestamp): Cache {
    if k !in c.entries then
      Cache(c.capacity, c.entries, c.order, c.stats.Miss(0), c.ledger)
    else if c.entries[k].IsExpired(now) then
      Cache(c.capacity, c.entries - {k}, Drop(c.order, {k}), c.stats.Miss(1), c.ledger.DroppedOnLookup())
    else
      Cache(c.capacity, c.entries, Touch(c.order, k), c.stats.Hit(), c.ledger)
  }

  // Where the address scan stops: it visits the entries in hash order.
  datatype AddrChoice = NoMatch | Live(key: CacheKey) | Stale(key: CacheKey)

  function FindByAddr(c: Cache, choice: AddrChoice): Cache {
    match choice
    case NoMatch => Cache(c.capacity, c.entries, c.order, c.stats.Miss(0), c.ledger)
    case Stale(_) => Cache(c.capacity, c.entries, c.order, c.stats.Miss(1), c.ledger.Phantom())
    case Live(k) =>
      var order := if k in c.order then Touch(c.order, k) else c.order;
      Cache(c.capacity, c.entries, order, c.stats.Hit(), c.ledger)
  }

  // Removal of one expired entry, the first that hash order yields.
  function EvictExpired(c: Cache, choice: Option<CacheKey>, now: Timestamp): Cache {
    if choice.Some? && choice.value in c.entries && c.entries[choice.value].IsExpired(now) then
      var entries := c.entries - {choice.value};
      Cache(c.capacity, entries, Drop(c.order, {choice.value}),
            c.stats.Expired(1).Resized(|entries|), c.ledger.Refreshed())
    else c
  }

  function ExpiredKeys(entries: map<CacheKey, CacheEntry>, now: Timestamp): set<CacheKey> {
    set k | k in entries && entries[k].IsExpired(now)
  }

  function PruneExpired(c: Cache, now: Timestamp): Cache {
    var gone := ExpiredKeys(c.entries, now);
    if gone == {} then c
    else
      var entries := c.entries - gone;
      Cache(c.capacity, entries, Drop(c.order, gone),
            c.stats.Expired(|gone|).Resized(|entries|), c.ledger.Refreshed())
  }

  function RemoveDhcp(c: Cache, k: CacheKey): Cache {
    if k in c.entries && c.entries[k].IsDhcp() then
      var entries := c.entries - {k};
      Cache(c.capacity, entries, Drop(c.order, {k}), c.stats.Resized(|entries|), c.ledger.DhcpRemoved())
    else c
  }

  function Clear(c: Cache): Cache {
    Cache(c.capacity, map[], [], c.stats.Resized(0), c.ledger.Cleared(|c.entries|))
  }

  datatype Op =
    | OpInsert(entry: CacheEntry)
    | OpAddDhcp(host: DomainName, addr: IpAddr, ttl: nat)
    | OpRemoveDhcp(key: CacheKey)
    | OpFindByName(key: CacheKey)
    | OpFindByAddr(addr: IpAddr, found: AddrChoice)
    | OpEvictLru
    | OpEvictExpired(victim: Option<CacheKey>)
    | OpPruneExpired
    | OpClear

  datatype Event = Event(op: Op, now: Timestamp)

  function Step(c: Cache, ev: Event): Cache {
    match ev.op
    case OpInsert(e) => Insert(c, e)
    case OpAddDhcp(host, addr, ttl) => Insert(c, DhcpEntry(host, addr, ttl, ev.now))
    case OpRemoveDhcp(k) => RemoveDhcp(c, k)
    case OpFindByName(k) => FindByName(c, k, ev.now)
    case OpFindByAddr(_, found) => FindByAddr(c, found)
    case OpEvictLru => EvictLru(c)
    case OpEvictExpired(victim) => EvictExpired(c, victim, ev.now)
    case OpPruneExpired => PruneExpired(c, ev.now)
    case OpClear => Clear(c)
  }

  // The nondeterministic choices of an operation are ones its scan could make.
  ghost predicate Enabled(c: Cache, ev: Event) {
    match ev.op
    case OpFindByAddr(addr, NoMatch) =>
      forall k :: k in c.entries ==> c.entries[k].addr != Some(addr)
    case OpFindByAddr(addr, Live(k)) =>
      k in c.entries && c.entries[k].addr == Some(addr) && !c.entries[k].IsExpired(ev.now)
    case OpFindByAddr(addr, Stale(k)) =>
      k in c.entries && c.entries[k].addr == Some(addr) && c.entries[k].IsExpired(ev.now)
    case OpEvictExpired(None) => ExpiredKeys(c.entries, ev.now) == {}
    case OpEvictExpired(Some(k)) => k in ExpiredKeys(c.entries, ev.now)
    case _ => true
  }

  // The state after a whole trace of operations on a new cache.
  function Run(capacity: nat, t: seq<Event>): Cache {
    if t == [] then Empty(capacity)
    else Step(Run(capacity, t[..|t| - 1]), t[|t| - 1])
  }

  ghost predicate Legal(capacity: nat, t: seq<Event>) {
    t == [] ||
    (Legal(capacity, t[..|t| - 1]) && Enabled(Run(capacity, t[..|t| - 1]), t[|t| - 1]))
  }

  ghost predicate Monotone(t: seq<Event>) {
    forall i, j :: 0 <= i < j < |t| ==> t[i].now <= t[j].now
  }
}

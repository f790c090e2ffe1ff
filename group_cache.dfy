/**
 * The time-stamped counters cache of the group registry, the decisions
 * of the counter loaders, and the guard that accepts a stored config.
 * Time is a millisecond count passed in by the caller.
 */
module GroupCache {
  import opened Wrappers
  import opened GroupTypes

  /** Milliseconds in one day: 1000 * 60 * 60 * 24. */
  const DayMs: int := 86400000

  /** The cache, keyed by group id (cachedGroupsData). */
  type Cache = map<int, CacheEntry>

  /**
   * Whole days elapsed, rounded down. Dafny's division by a positive
   * divisor is floor division, as Math.floor of the quotient is.
   */
  function DaysElapsed(now: int, date: int): (days: int)
    ensures days * DayMs <= now - date < (days + 1) * DayMs
  {
    (now - date) / DayMs
  }

  /** The entry is stale: more than three whole days old. */
  predicate Expired(e: CacheEntry, now: int) {
    DaysElapsed(now, e.date) > 3
  }

  /** An entry is stale exactly from four full days after it was written. */
  lemma ExpiredIff(e: CacheEntry, now: int)
    ensures Expired(e, now) <==> now - e.date >= 4 * DayMs
  {
    var days := DaysElapsed(now, e.date);
    if days > 3 {
      assert days * DayMs >= 4 * DayMs;
    } else {
      assert (days + 1) * DayMs <= 4 * DayMs;
    }
  }

  /**
   * Three days and one second after the write the entry is still kept;
   * four days after the write it is dropped. An entry that carries a date in
   * the future is never stale.
   */
  lemma ExpiryBoundary(t: int, d: CachedData)
    ensures !Expired(CacheEntry(t, d), t + 3 * DayMs + 1000)
    ensures !Expired(CacheEntry(t, d), t + 4 * DayMs - 1)
    ensures Expired(CacheEntry(t, d), t + 4 * DayMs)
    ensures forall now :: now <= t ==> !Expired(CacheEntry(t, d), now)
  {
    ExpiredIff(CacheEntry(t, d), t + 3 * DayMs + 1000);
    ExpiredIff(CacheEntry(t, d), t + 4 * DayMs - 1);
    ExpiredIff(CacheEntry(t, d), t + 4 * DayMs);
    forall now | now <= t ensures !Expired(CacheEntry(t, d), now) {
      ExpiredIff(CacheEntry(t, d), now);
    }
  }

  /**
   * The cache after clearCachedGroupIfExpired(id) at time now: the entry
   * of id goes when it is stale, every other entry stays as it was.
   */
  function AfterExpiryCheck(cache: Cache, id: int, now: int): (r: Cache)
    ensures id in r <==> id in cache && !Expired(cache[id], now)
    ensures id in r ==> r[id] == cache[id]
    ensures forall k :: k != id ==> (k in r <==> k in cache)
    ensures forall k :: k != id && k in r ==> r[k] == cache[k]
  {
    if id in cache && Expired(cache[id], now) then cache - {id} else cache
  }

  /**
   * getCachedGroup(id): the `?.data` of the entry of id after the expiry
   * check. It has data exactly when the entry exists and is less than four
   * days old, and then the entry's data.
   */
  function CachedGroup(cache: Cache, id: int, now: int): (r: Option<CachedData>)
    ensures r.Some? <==> id in cache && now - cache[id].date < 4 * DayMs
    ensures r.Some? ==> r.value == cache[id].data
  {
    var c := AfterExpiryCheck(cache, id, now);
    if id in cache then
      ExpiredIff(cache[id], now);
      if id in c then Some(c[id].data) else None
    else None
  }

  // ---------------------------------------------------------------
  // getGroupCounters and loadGroupCounters
  // ---------------------------------------------------------------

  /**
   * The answer of the groups.getById request: it fails (the catch turns it
   * into [{ counters: {} }]), or it returns a list whose items carry a
   * possibly undefined `counters` field.
   */
  datatype CounterFetch = FetchFailed | FetchReturned(items: seq<Option<Counters>>)

  /** How a call ends: with the counters it returns, or with a thrown error. */
  datatype CountersOutcome = Returned(counters: Option<Counters>) | Threw

  /** The new cache, whether a request was sent, and how the call ended. */
  datatype CountersStep = CountersStep(cache: Cache, requested: bool, outcome: CountersOutcome)

  /** The cached counters that let getGroupCounters answer without a request. */
  predicate CacheHit(cache: Cache, id: int) {
    id in cache && cache[id].data.counters.Some?
  }

  /**
   * getGroupCounters(group) at time now, given what the request would
   * answer. An empty answer list makes the destructuring `[{ counters }]`
   * throw after the stale entry was already cleared.
   */
  function GetCounters(cache: Cache, id: int, now: int, fetch: CounterFetch): (s: CountersStep)
    ensures var c := AfterExpiryCheck(cache, id, now);
      !s.requested <==> CacheHit(c, id)
    ensures var c := AfterExpiryCheck(cache, id, now);
      !s.requested ==> s.cache == c && s.outcome == Returned(c[id].data.counters)
    ensures s.requested && fetch == FetchFailed ==>
      s.outcome == Returned(Some(map[]))
    ensures s.requested && fetch.FetchReturned? && fetch.items != [] ==>
      s.outcome == Returned(fetch.items[0])
    ensures s.outcome == Threw <==> s.requested && fetch == FetchReturned([])
    ensures s.requested && s.outcome.Returned? ==>
      s.cache == AfterExpiryCheck(cache, id, now)[id := CacheEntry(now, CachedData(s.outcome.counters))]
    ensures s.outcome == Threw ==> s.cache == AfterExpiryCheck(cache, id, now)
  {
    var c := AfterExpiryCheck(cache, id, now);
    if CacheHit(c, id) then
      CountersStep(c, false, Returned(c[id].data.counters))
    else
      match fetch
      case FetchFailed =>
        CountersStep(c[id := CacheEntry(now, CachedData(Some(map[])))], true, Returned(Some(map[])))
      case FetchReturned(items) =>
        if items == [] then CountersStep(c, true, Threw)
        else CountersStep(c[id := CacheEntry(now, CachedData(items[0]))], true, Returned(items[0]))
  }

  /** A call leaves the entries of every other group as they were. */
  lemma GetCountersOthers(cache: Cache, id: int, now: int, fetch: CounterFetch, k: int)
    requires k != id
    ensures var s := GetCounters(cache, id, now, fetch);
      (k in s.cache <==> k in cache) && (k in cache ==> s.cache[k] == cache[k])
  {
  }

  /**
   * A call that sent a request and got defined counters back (or failed,
   * which caches {}) makes any later call for the same group within four
   * days answer from the cache with the same counters and without a request.
   */
  lemma SecondCallHitsCache(cache: Cache, id: int, now: int, fetch: CounterFetch, later: int, fetch2: CounterFetch)
    requires var s := GetCounters(cache, id, now, fetch);
      s.requested && s.outcome.Returned? && s.outcome.counters.Some?
    requires now <= later < now + 4 * DayMs
    ensures var s := GetCounters(cache, id, now, fetch);
      var s2 := GetCounters(s.cache, id, later, fetch2);
      !s2.requested && s2.outcome == s.outcome && s2.cache == s.cache
  {
    var s := GetCounters(cache, id, now, fetch);
    assert s.cache[id] == CacheEntry(now, CachedData(s.outcome.counters));
    ExpiredIff(s.cache[id], later);
  }

  /**
   * Once the cached entry is four days old the next call sends a new
   * request, even when it holds counters.
   */
  lemma StaleEntryRefetches(cache: Cache, id: int, now: int, fetch: CounterFetch)
    requires id in cache && now - cache[id].date >= 4 * DayMs
    ensures GetCounters(cache, id, now, fetch).requested
    ensures GetCounters(cache, id, now, fetch).outcome.Returned? ==>
      GetCounters(cache, id, now, fetch).cache[id].date == now
  {
    ExpiredIff(cache[id], now);
  }

  /** The outcome of loadGroupCounters: the returned group, or a thrown error. */
  datatype LoadOutcome = Loaded(group: Group) | LoadThrew

  /** The new cache, whether a request was sent, and how loadGroupCounters ended. */
  datatype LoadStep = LoadStep(cache: Cache, requested: bool, outcome: LoadOutcome)

  /**
   * loadGroupCounters(group): a group that already has counters, or is
   * banned, comes back unchanged with no request and no cache change;
   * otherwise its counters are what getGroupCounters returns.
   */
  function LoadCounters(cache: Cache, g: Group, banned: bool, now: int, fetch: CounterFetch): (s: LoadStep)
    ensures g.counters.Some? || banned ==>
      s == LoadStep(cache, false, Loaded(g))
    ensures !(g.counters.Some? || banned) ==>
      var c := GetCounters(cache, g.id, now, fetch);
      s.cache == c.cache && s.requested == c.requested &&
      (s.outcome == LoadThrew <==> c.outcome == Threw) &&
      (c.outcome.Returned? ==> s.outcome == Loaded(g.(counters := c.outcome.counters)))
  {
    if g.counters.Some? || banned then LoadStep(cache, false, Loaded(g))
    else
      var c := GetCounters(cache, g.id, now, fetch);
      match c.outcome
      case Returned(counters) => LoadStep(c.cache, c.requested, Loaded(g.(counters := counters)))
      case Threw => LoadStep(c.cache, c.requested, LoadThrew)
  }

  /** Loading the counters never changes the group's id or name. */
  lemma LoadCountersKeepsIdentity(cache: Cache, g: Group, banned: bool, now: int, fetch: CounterFetch)
    ensures var s := LoadCounters(cache, g, banned, now, fetch);
      s.outcome.Loaded? ==> s.outcome.group.id == g.id && s.outcome.group.name == g.name
  {
  }

  // ---------------------------------------------------------------
  // updateConfig
  // ---------------------------------------------------------------

  /**
   * The read of the stored config: it throws, or it yields the `config`
   * field, which may be missing.
   */
  datatype ConfigRead = ConfigReadFailed | ConfigRead(config: Option<StoredConfig>)

  /**
   * The config updateConfig installs: one was read and both autoSave and
   * showCounters are defined in it; otherwise none and the current config
   * stays.
   */
  function AcceptConfig(read: ConfigRead): (r: Option<Config>)
    ensures r.Some? <==>
      read.ConfigRead? && read.config.Some? &&
      read.config.value.autoSave.Some? && read.config.value.showCounters.Some?
    ensures r.Some? ==>
      var c := read.config.value;
      r.value == Config(c.autoSave.value, c.showCounters.value, c.eruda, c.originalSizePhoto, c.reverseOrder)
  {
    match read
    case ConfigReadFailed => None
    case ConfigRead(None) => None
    case ConfigRead(Some(c)) =>
      if c.autoSave.Some? && c.showCounters.Some? then
        Some(Config(c.autoSave.value, c.showCounters.value, c.eruda, c.originalSizePhoto, c.reverseOrder))
      else None
  }

  /** What saveCurrentConfig writes, as read back. */
  function StoreConfig(c: Config): StoredConfig {
    StoredConfig(Some(c.autoSave), Some(c.showCounters), c.eruda, c.originalSizePhoto, c.reverseOrder)
  }

  /** A config written by saveCurrentConfig is accepted back unchanged. */
  lemma SavedConfigAccepted(c: Config)
    ensures AcceptConfig(ConfigRead(Some(StoreConfig(c)))) == Some(c)
  {
  }
}

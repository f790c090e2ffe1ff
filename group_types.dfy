/**
 * The entities of the group registry: memberships, resolved groups,
 * counters, cache entries and the configuration profile.
 */
module GroupTypes {
  import opened Wrappers

  /** One membership: the user tracks group `id` inside folder `folder` (ILocalGroup). */
  datatype LocalGroup = LocalGroup(id: int, folder: string)

  /** Auxiliary numeric counters of a group; `{}` is the empty map. */
  type Counters = map<string, int>

  /**
   * A resolved remote group (IGroup). Presentation fields other than the
   * name are not modelled; `counters` is None while never loaded.
   */
  datatype Group = Group(id: int, name: string, counters: Option<Counters>)

  /** The cached partial group data: only `counters` is ever cached. */
  datatype CachedData = CachedData(counters: Option<Counters>)

  /** A cache entry; `date` is the write time in milliseconds since the epoch. */
  datatype CacheEntry = CacheEntry(date: int, data: CachedData)

  /** The configuration profile (IGroupsConfig). */
  datatype Config = Config(
    autoSave: bool,
    showCounters: bool,
    eruda: Option<bool>,
    originalSizePhoto: Option<bool>,
    reverseOrder: Option<bool>)

  /** The configuration as read back from storage: any field may be undefined. */
  datatype StoredConfig = StoredConfig(
    autoSave: Option<bool>,
    showCounters: Option<bool>,
    eruda: Option<bool>,
    originalSizePhoto: Option<bool>,
    reverseOrder: Option<bool>)

  /** The configuration the store starts with. */
  const DefaultConfig := Config(true, true, None, None, None)
}

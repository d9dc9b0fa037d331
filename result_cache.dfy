/**
 * The cache collaborator injected into the parser (Drupal's cache backend
 * interface), reduced to its get/set contract over a map. An entry whose
 * expiry has passed reads as absent; the permanent marker -1 never expires.
 */
module ResultCache {
  import opened Prelude
  import opened EventEngine

  /** The cache backend's "never expires" marker. */
  const PERMANENT: int := -1

  datatype CacheEntry = CacheEntry(data: Option<Node>, expire: int)

  predicate Live(e: CacheEntry, now: int)
  {
    e.expire == PERMANENT || now <= e.expire
  }

  /** What get($key) finds in a store at time now: the entry, if there is one that has not expired. */
  function Lookup(entries: map<string, CacheEntry>, key: string, now: int): Option<CacheEntry>
  {
    if key in entries && Live(entries[key], now) then Some(entries[key]) else None
  }

  /**
   * Get after set: the key just stored reads back the data stored with it
   * until its expiry has passed (for ever if permanent), and every other key
   * reads as before.
   */
  lemma LookupAfterStore(entries: map<string, CacheEntry>, key: string, data: Option<Node>, expire: int, other: string, now: int)
    requires other != key
    ensures Lookup(entries[key := CacheEntry(data, expire)], key, now)
      == if expire == PERMANENT || now <= expire then Some(CacheEntry(data, expire)) else None
    ensures Lookup(entries[key := CacheEntry(data, expire)], other, now) == Lookup(entries, other, now)
  {
  }

  class Cache {
    var entries: map<string, CacheEntry>

    constructor (entries: map<string, CacheEntry>)
      ensures this.entries == entries
    {
      this.entries := entries;
    }

    /** get($key) at time now: the stored entry, if there is one that has not expired. */
    function Get(key: string, now: int): Option<CacheEntry>
      reads this
    {
      Lookup(entries, key, now)
    }

    /** set($key, $data, $expire): stores the entry, replacing any earlier one for the key. */
    method Set(key: string, data: Option<Node>, expire: int)
      modifies this
      ensures entries == old(entries)[key := CacheEntry(data, expire)]
    {
      entries := entries[key := CacheEntry(data, expire)];
    }
  }
}

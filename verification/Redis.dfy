/**
 Redis as the services see it through CacheService: a map whose entries may carry an expiry time.
 An entry is live while the clock is strictly before its expiry; a dead entry is indistinguishable
 from an absent one. Connection faults are not part of this model.
 */
module Redis {
  import opened Prelude

  datatype Entry<+V> = Entry(value: V, expiresAt: Option<nat>)

  type Store<K, V> = map<K, Entry<V>>

  predicate Live<K, V>(store: Store<K, V>, key: K, now: nat) {
    key in store && match store[key].expiresAt case None => true case Some(t) => now < t
  }

  function Get<K, V>(store: Store<K, V>, key: K, now: nat): Option<V> {
    if Live(store, key, now) then Some(store[key].value) else None
  }

  function SetEx<K, V>(store: Store<K, V>, key: K, value: V, now: nat, ttl: nat): Store<K, V> {
    store[key := Entry(value, Some(now + ttl))]
  }

  /** KEYS: the live keys that match a pattern. */
  function Keys<K, V>(store: Store<K, V>, now: nat): set<K> {
    set k | k in store && Live(store, k, now)
  }
}

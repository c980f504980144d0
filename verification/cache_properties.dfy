/**
 * Properties of the cache that relate several calls: reading one's own write, the
 * expiration boundary, the clock reset on overwrite, load-on-miss followed by a hit,
 * and lazy eviction being invisible to the enumerations.
 */
module CacheProperties {
  import opened Wrappers
  import opened Cache

  /** A write is read back at the same instant exactly when its time-to-live is positive;
      with a ttl of 0 or less the very same instant already reports it Expired. */
  lemma ReadYourWrite<T>(store: Store<T>, key: string, value: T, now: int, expirationInMs: Option<int>)
    ensures var s := AddOrUpdate(store, key, value, now, expirationInMs);
            var got := Get(s, key, now);
            && (TtlOrDefault(expirationInMs) > 0 ==> got == GetResult(Hit(value), s))
            && (TtlOrDefault(expirationInMs) <= 0 ==>
                  got == GetResult(Expired(key, now + TtlOrDefault(expirationInMs), now), s[key := None]))
    ensures expirationInMs.None? ==> Get(AddOrUpdate(store, key, value, now, expirationInMs), key, now).outcome == Hit(value)
  {
  }

  /** A write overwrites whatever the key held, even a live record: the second value is
      read back, and a strictly later write with the same ttl pushes the expiration later. */
  lemma OverwriteResetsClock<T>(store: Store<T>, key: string, v1: T, v2: T, t1: int, t2: int,
                                expirationInMs: Option<int>)
    ensures var s1 := AddOrUpdate(store, key, v1, t1, expirationInMs);
            var s2 := AddOrUpdate(s1, key, v2, t2, expirationInMs);
            && (t1 < t2 ==> s2[key].value.expiration > s1[key].value.expiration)
            && s2 == AddOrUpdate(store, key, v2, t2, expirationInMs)
            && (TtlOrDefault(expirationInMs) > 0 ==> Get(s2, key, t2).outcome == Hit(v2))
  {
  }

  /** A record written with ttl 0 is Expired at its write time and afterwards; the lookup
      that reports it leaves a tombstone, so the next lookup, at any time, is NotFound. */
  lemma ZeroTtlExpiresThenVanishes<T>(store: Store<T>, key: string, value: T, written: int, later: int, again: int)
    requires written <= later
    ensures var s := AddOrUpdate(store, key, value, written, Some(0));
            var first := Get(s, key, later);
            && first.outcome == Expired(key, written, later)
            && Get(first.store, key, again).outcome == NotFound(key)
  {
  }

  /** Load-on-miss: on a missing or expired record the loader's value is stored and is new;
      a second call before that record expires returns the same value, not new, whatever
      its own loader would produce, and changes nothing. */
  lemma LoadOnMissThenHit<T>(store: Store<T>, key: string, loaded: T, other: T,
                             read1: int, write1: int, read2: int, write2: int,
                             ttl1: Option<int>, ttl2: Option<int>)
    requires !Live(store, key, read1)
    requires read2 < write1 + TtlOrDefault(ttl1)
    ensures var first := GetOrAdd(store, key, loaded, read1, write1, ttl1);
            var second := GetOrAdd(first.store, key, other, read2, write2, ttl2);
            && first.value == loaded && first.isNew
            && second == Loaded(loaded, false, first.store)
  {
  }

  /** With no filter, a key is selected by the enumerations exactly when a lookup at the
      same instant would hit it. */
  lemma SelectedIffHit<T>(store: Store<T>, key: string, now: int)
    ensures Valid(store, key, now, FilterOrDefault(None)) <==> Get(store, key, now).outcome.Hit?
  {
  }

  /** Lazy eviction is invisible to the enumerations: the tombstone a lookup leaves at `now`
      changes no key's selection at `now` or any later instant, and a lookup never creates
      a record. */
  lemma LookupPreservesSelection<T>(store: Store<T>, key: string, now: int, later: int, filter: T -> bool)
    requires now <= later
    ensures var after := Get(store, key, now).store;
            && (forall k :: Valid(after, k, later, filter) <==> Valid(store, k, later, filter))
            && (forall k :: Present(after, k) ==> Present(store, k))
  {
  }
}

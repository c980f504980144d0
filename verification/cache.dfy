/**
 * The in-process TTL cache `InternalCache`: string keys map to records holding a value
 * and an expiration time, and expired records are evicted lazily, by the lookup that
 * observes them.
 *
 * Time is an explicit `now` in integer milliseconds. The store is a value threaded
 * through every operation: an operation that writes returns the new store.
 */
module Cache {
  import opened Wrappers

  /** A stored record: the caller's value and the instant at which it stops being valid. */
  datatype Entry<T> = Entry(value: T, expiration: int)

  /**
   * The backing object. A key mapped to `None` is the tombstone that an expiring
   * lookup leaves behind (`storage[key] = undefined`): the key is still enumerated,
   * but it holds no record.
   */
  type Store<T> = map<string, Option<Entry<T>>>

  /** The time-to-live used when a write gives none: five minutes. */
  const DefaultExpirationMs: int := 5 * 60 * 1000

  /** What a point lookup reports. */
  datatype Lookup<T> =
    | NotFound(key: string)
    | Expired(key: string, expiration: int, now: int)
    | Hit(value: T)

  /** A lookup's report together with the store it leaves behind. */
  datatype GetResult<T> = GetResult(outcome: Lookup<T>, store: Store<T>)

  /** The answer of a load-on-miss lookup and the store it leaves behind. */
  datatype Loaded<T> = Loaded(value: T, isNew: bool, store: Store<T>)

  /** One record yielded by the enumerator. */
  datatype Record<T> = Record(key: string, value: T, expiration: int)

  /** The key holds a record (it is neither missing nor a tombstone). */
  predicate Present<T>(store: Store<T>, key: string) {
    key in store && store[key].Some?
  }

  /** The key holds a record that has not yet expired at `now`. */
  predicate Live<T>(store: Store<T>, key: string, now: int) {
    Present(store, key) && store[key].value.expiration > now
  }

  /** The key holds a live record whose value passes `filter`: the enumerations' selection rule. */
  predicate Valid<T>(store: Store<T>, key: string, now: int, filter: T -> bool) {
    Live(store, key, now) && filter(store[key].value.value)
  }

  /** No key holds a tombstone. */
  predicate NoTombstones<T>(store: Store<T>) {
    forall key :: key in store ==> store[key].Some?
  }

  /** The record a present key holds, in the enumerator's shape. */
  function RecordOf<T>(store: Store<T>, key: string): Record<T>
    requires Present(store, key)
  {
    Record(key, store[key].value.value, store[key].value.expiration)
  }

  /** The time-to-live a write uses: the given one, even 0, or else the default. */
  function TtlOrDefault(expirationInMs: Option<int>): int {
    expirationInMs.GetOr(DefaultExpirationMs)
  }

  /** The filter an enumeration uses: the given one, or else one that accepts everything. */
  function FilterOrDefault<T>(filter: Option<T -> bool>): T -> bool {
    filter.GetOr(_ => true)
  }

  /** The sequence has no repeated element. */
  ghost predicate Distinct<X>(s: seq<X>) {
    forall i, j :: 0 <= i < j < |s| ==> s[i] != s[j]
  }

  /**
   * `get`: a missing key or a tombstone is NotFound; a record whose expiration is at or
   * before `now` is Expired and is replaced by a tombstone; otherwise the stored value.
   */
  function Get<T>(store: Store<T>, key: string, now: int): (r: GetResult<T>)
    ensures r.outcome.NotFound? <==> !Present(store, key)
    ensures r.outcome.Expired? <==> Present(store, key) && !Live(store, key, now)
    ensures r.outcome.Hit? <==> Live(store, key, now)
    ensures r.outcome.NotFound? ==> r.outcome.key == key && r.store == store
    ensures r.outcome.Expired? ==>
              && r.outcome == Expired(key, store[key].value.expiration, now)
              && r.store.Keys == store.Keys
              && r.store[key] == None
              && forall k :: k in store && k != key ==> r.store[k] == store[k]
    ensures r.outcome.Hit? ==> r.outcome.value == store[key].value.value && r.store == store
  {
    match if key in store then store[key] else None
    case None => GetResult(NotFound(key), store)
    case Some(record) =>
      if record.expiration <= now then
        GetResult(Expired(key, record.expiration, now), store[key := None])
      else
        GetResult(Hit(record.value), store)
  }

  /**
   * `addOrUpdate`: unconditionally writes a fresh record for `key` that expires
   * `expirationInMs` (default: five minutes) after `now`.
   */
  function AddOrUpdate<T>(store: Store<T>, key: string, value: T, now: int, expirationInMs: Option<int>): (s: Store<T>)
    ensures s.Keys == store.Keys + {key}
    ensures Present(s, key) && s[key].value.value == value
    ensures expirationInMs.Some? ==> s[key].value.expiration == now + expirationInMs.value
    ensures expirationInMs.None? ==> s[key].value.expiration == now + 300000
    ensures forall k :: k in store && k != key ==> s[k] == store[k]
  {
    store[key := Some(Entry(value, now + TtlOrDefault(expirationInMs)))]
  }

  /**
   * `getOrAdd`: the lookup runs at `readNow`. A live record is returned as it is, not new.
   * On NotFound or Expired, `loaded` (the loader's result) is written with an expiration
   * measured from `writeNow`, the time the write happens after the loader returns.
   */
  function GetOrAdd<T>(store: Store<T>, key: string, loaded: T, readNow: int, writeNow: int,
                       expirationInMs: Option<int>): (r: Loaded<T>)
    ensures Live(store, key, readNow) ==>
              r == Loaded(store[key].value.value, false, store)
    ensures !Live(store, key, readNow) ==>
              && r.value == loaded && r.isNew
              && r.store.Keys == store.Keys + {key}
              && r.store[key] == Some(Entry(loaded, writeNow + TtlOrDefault(expirationInMs)))
              && forall k :: k in store && k != key ==> r.store[k] == store[k]
  {
    var got := Get(store, key, readNow);
    match got.outcome
    case Hit(v) => Loaded(v, false, got.store)
    case NotFound(_) => Loaded(loaded, true, AddOrUpdate(got.store, key, loaded, writeNow, expirationInMs))
    case Expired(_, _, _) => Loaded(loaded, true, AddOrUpdate(got.store, key, loaded, writeNow, expirationInMs))
  }

  /**
   * `getAllValidKeys`: visits every key in an unspecified order, skips tombstones, and keeps
   * those whose record is live at `now` and whose value passes the filter (default: all).
   * The store is only read.
   */
  method GetAllValidKeys<T>(store: Store<T>, now: int, filter: Option<T -> bool>) returns (keys: seq<string>)
    ensures forall k :: k in keys <==> Valid(store, k, now, FilterOrDefault(filter))
    ensures Distinct(keys)
  {
    var accept := FilterOrDefault(filter);
    keys := [];
    var pending := store.Keys;
    while pending != {}
      invariant pending <= store.Keys
      invariant forall k :: k in keys <==> k in store && k !in pending && Valid(store, k, now, accept)
      invariant Distinct(keys)
      decreases pending
    {
      var key :| key in pending;
      pending := pending - {key};
      var data := store[key];
      if data.None? {
        continue;
      }
      if data.value.expiration > now && accept(data.value.value) {
        keys := keys + [key];
      }
    }
  }

  /**
   * `getAllValidKeysEnumerator`, consumed to the end with no writes in between. It reads
   * every key's record without first checking for a tombstone, so a store holding one
   * makes it fail (with that key) instead of finishing. Otherwise it yields each valid
   * record once.
   */
  method GetAllValidKeysEnumerator<T>(store: Store<T>, now: int, filter: Option<T -> bool>)
    returns (r: Result<seq<Record<T>>, string>)
    ensures r.Failure? <==> !NoTombstones(store)
    ensures r.Failure? ==> r.error in store && store[r.error].None?
    ensures r.Success? ==>
              && (forall k :: Valid(store, k, now, FilterOrDefault(filter)) ==> RecordOf(store, k) in r.value)
              && (forall rec :: rec in r.value ==>
                    Valid(store, rec.key, now, FilterOrDefault(filter)) && rec == RecordOf(store, rec.key))
              && Distinct(r.value)
  {
    var accept := FilterOrDefault(filter);
    var records := [];
    var pending := store.Keys;
    while pending != {}
      invariant pending <= store.Keys
      invariant forall k :: k in store && k !in pending ==> store[k].Some?
      invariant forall k :: k in store && k !in pending && Valid(store, k, now, accept) ==> RecordOf(store, k) in records
      invariant forall rec :: rec in records ==>
                  rec.key in store && rec.key !in pending && Valid(store, rec.key, now, accept) && rec == RecordOf(store, rec.key)
      invariant Distinct(records)
      decreases pending
    {
      var key :| key in pending;
      pending := pending - {key};
      match store[key]
      case None =>
        return Failure(key);
      case Some(entry) =>
        if entry.expiration > now && accept(entry.value) {
          records := records + [Record(key, entry.value, entry.expiration)];
        }
    }
    r := Success(records);
  }
}

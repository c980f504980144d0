/**
 * The cache's lookups as they behave on the plain object literal that backs the store.
 * `this.storage[key]` also finds the members every such object inherits from
 * `Object.prototype`. Such a member is a truthy function with no `expiration`, and
 * `undefined <= now` is false, so `get` returns its `value`, which is `undefined`,
 * instead of throwing NotFound. `Cache` models the own-key lookup the documentation
 * describes. This module shows where the two part.
 */
module PlainObjectCache {
  import opened Wrappers
  import opened Cache

  /**
   * The names a plain object inherits from `Object.prototype`. Reading `__proto__` returns
   * `Object.prototype` itself, which is just as truthy and has no `expiration` or `value`,
   * so a read treats it like the others. The enumerations never meet them: `for...in`
   * skips non-enumerable inherited members.
   */
  const InheritedNames: set<string> := {
    "constructor", "hasOwnProperty", "isPrototypeOf", "propertyIsEnumerable",
    "toLocaleString", "toString", "valueOf", "__proto__",
    "__defineGetter__", "__defineSetter__", "__lookupGetter__", "__lookupSetter__"
  }

  /** A lookup's report, where a returned `undefined` is `Hit(None)`, and the store it leaves. */
  datatype RawLookup<T> = RawLookup(outcome: Lookup<Option<T>>, store: Store<T>)

  /** A load-on-miss answer that may be `undefined`, and the store it leaves. */
  datatype RawLoaded<T> = RawLoaded(value: Option<T>, isNew: bool, store: Store<T>)

  /** The key is not an own key of the store but is found on its prototype. */
  predicate FoundOnPrototype<T>(store: Store<T>, key: string) {
    key !in store && key in InheritedNames
  }

  /** An own-key report, as a report whose hit value may be `undefined`. */
  function Lift<T>(outcome: Lookup<T>): Lookup<Option<T>> {
    match outcome
    case NotFound(k) => NotFound(k)
    case Expired(k, e, n) => Expired(k, e, n)
    case Hit(v) => Hit(Some(v))
  }

  /**
   * `get` as written: an inherited name that is not an own key returns `undefined` and
   * changes nothing. Every other key behaves as `Cache.Get` says.
   */
  function GetOnPlainObject<T>(store: Store<T>, key: string, now: int): (r: RawLookup<T>)
    ensures FoundOnPrototype(store, key) ==> r == RawLookup(Hit(None), store)
    ensures !FoundOnPrototype(store, key) ==>
              r == RawLookup(Lift(Get(store, key, now).outcome), Get(store, key, now).store)
    ensures r.outcome.Hit? && r.outcome.value.None? <==> FoundOnPrototype(store, key)
  {
    if FoundOnPrototype(store, key) then RawLookup(Hit(None), store)
    else
      var got := Get(store, key, now);
      RawLookup(Lift(got.outcome), got.store)
  }

  /**
   * `getOrAdd` as written: the inherited member counts as a hit, so the loader is never
   * used and the answer is (`undefined`, not new). Every other key behaves as
   * `Cache.GetOrAdd` says.
   */
  function GetOrAddOnPlainObject<T>(store: Store<T>, key: string, loaded: T, readNow: int, writeNow: int,
                                    expirationInMs: Option<int>): (r: RawLoaded<T>)
    ensures FoundOnPrototype(store, key) ==> r == RawLoaded(None, false, store)
    ensures !FoundOnPrototype(store, key) ==>
              var own := GetOrAdd(store, key, loaded, readNow, writeNow, expirationInMs);
              r == RawLoaded(Some(own.value), own.isNew, own.store)
  {
    var got := GetOnPlainObject(store, key, readNow);
    match got.outcome
    case Hit(v) => RawLoaded(v, false, got.store)
    case NotFound(_) =>
      RawLoaded(Some(loaded), true, AddOrUpdate(got.store, key, loaded, writeNow, expirationInMs))
    case Expired(_, _, _) =>
      RawLoaded(Some(loaded), true, AddOrUpdate(got.store, key, loaded, writeNow, expirationInMs))
  }

  /**
   * On a fresh cache, `get("toString")` and `get("__proto__")` return `undefined` where the
   * documentation promises NotFound. `getOrAdd("constructor", loader)` answers
   * (`undefined`, not new) without loading, where the own-key lookup loads.
   */
  lemma InheritedNameFoundOnFreshCache<T>(loaded: T, now: int, readNow: int, writeNow: int,
                                          expirationInMs: Option<int>)
    ensures GetOnPlainObject<T>(map[], "toString", now).outcome == Hit(None)
    ensures Get<T>(map[], "toString", now).outcome == NotFound("toString")
    ensures GetOnPlainObject<T>(map[], "__proto__", now).outcome == Hit(None)
    ensures GetOrAddOnPlainObject(map[], "constructor", loaded, readNow, writeNow, expirationInMs)
              == RawLoaded(None, false, map[])
    ensures GetOrAdd(map[], "constructor", loaded, readNow, writeNow, expirationInMs).isNew
  {
  }
}

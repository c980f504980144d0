# node-interview exercises, modelled in Dafny

This project models three sequential TypeScript exercises and proves properties about them.

- **`InternalCache`** (`cache.dfy`, `cache_properties.dfy`, `plain_object_cache.dfy`) is a TTL key/value cache. It stores a value and an expiration time under each string key, and it evicts expired records lazily: a record is removed only when `get` finds it expired. The store is `map<string, Option<Entry<T>>>`. `None` is the tombstone that `get` leaves when it sets `storage[key] = undefined`. The clock is an explicit `now` in integer milliseconds. Each write returns the new store. `Cache` models lookups of the store's own keys. `PlainObjectCache` adds the names that a plain object literal inherits from `Object.prototype`.
- **`fizzBuzz`** (`fizzbuzz.dfy`) validates its bounds and then prints one message per integer. The print function is modelled as a trace `seq<string>` that the call extends. The decimal rendering `${i}` is modelled by `Decimal`, which has a proved inverse.
- **`buyCandyBars`** (`candybar.dfy`, `candybar_unchecked.dfy`) is the recursive exchange puzzle: a bar costs one dollar or three wrappers. `CandyBar` models it on naturals, where it terminates because `2 * dollars + wrappers` strictly decreases on every recursive call. A closed form is proved as an independent reference. `CandyBarUnchecked` models one call on arbitrary integers with JavaScript's `%`, to show what the unchecked source does with negative amounts.

`wrappers.dfy` holds the shared `Option` and `Result` types.

The cache adds any `expirationInMs` to the write time without checking it (questions/02-cache/cache.ts:81-83), so `AddOrUpdate` accepts any integer ttl, including 0 or a negative one. `get` counts a record as expired when `expiration <= now` (questions/02-cache/cache.ts:31). A record written with a ttl of 0 or less is therefore already Expired at its own write instant.

## Model

| member | source | states |
|---|---|---|
| Cache.Get | questions/02-cache/cache.ts:21-38 | A missing key or a tombstone gives NotFound and leaves the store unchanged. A record with expiration at or before `now` gives Expired(key, expiration, now) and leaves a tombstone at that key only. Otherwise the call hits with the stored value and leaves the store unchanged. Each outcome holds if and only if its condition does. |
| Cache.AddOrUpdate | questions/02-cache/cache.ts:78-85 | Overwrites the key with the given value unconditionally. The expiration is `now + expirationInMs`, and an explicit 0 is kept. Without a ttl it is `now + 300000`. Every other key is unchanged. |
| Cache.GetOrAdd | questions/02-cache/cache.ts:48-70 | On a live record it returns (stored value, not new) and the store is unchanged. On a missing, tombstoned or expired record it returns (loaded value, new) and stores that value with expiration `writeNow + ttl`. Every other key is unchanged. |
| Cache.GetAllValidKeys | questions/02-cache/cache.ts:91-110 | Returns each key exactly once, and only keys whose record is present, unexpired at `now` and accepted by the filter (default: all). Tombstones are skipped and the store is only read. |
| Cache.GetAllValidKeysEnumerator | questions/02-cache/cache.ts:115-129 | Fails with a tombstoned key exactly when the store holds a tombstone, because the record is destructured without a guard. Otherwise it yields, once each, exactly the (key, value, expiration) records of the keys that GetAllValidKeys selects. |
| CacheProperties.ReadYourWrite | questions/02-cache/cache.ts:29-37 | A `get` at the write instant hits with the written value when the ttl is positive or defaulted. With a ttl of 0 or less it reports Expired. |
| CacheProperties.OverwriteResetsClock | questions/02-cache/cache.ts:78-85 | A second write to the same key wins. At a later instant and with the same ttl it sets a strictly later expiration. The result equals a single write of the second value. |
| CacheProperties.ZeroTtlExpiresThenVanishes | questions/02-cache/cache.ts:21-34 | A record written with ttl 0 is Expired at its write time or later. The next `get`, at any time, is NotFound because the first `get` deleted the record. |
| CacheProperties.LoadOnMissThenHit | questions/02-cache/cache.ts:53-66 | After a load on a miss, a second `getOrAdd` before the stored expiration returns the first loaded value with isNew false. It ignores its own loader and changes nothing. |
| CacheProperties.SelectedIffHit | questions/02-cache/cache.ts:95-106 | With the default filter, the enumerations select a key exactly when `get` at the same instant would hit it. |
| PlainObjectCache.GetOnPlainObject | questions/02-cache/cache.ts:21-37 | If the key is not an own key but is inherited from `Object.prototype` (`__proto__` included), `get` returns `undefined` and changes nothing. It returns `undefined` only in that case. Every other key behaves as in Cache.Get. |
| PlainObjectCache.GetOrAddOnPlainObject | questions/02-cache/cache.ts:53-55 | For an inherited name that is not an own key, `getOrAdd` answers (`undefined`, not new) without loading and leaves the store unchanged. Every other key behaves as in Cache.GetOrAdd. |
| PlainObjectCache.InheritedNameFoundOnFreshCache | questions/02-cache/cache.ts:7-27 | On a fresh cache, `get("toString")` and `get("__proto__")` return `undefined`, where the own-key lookup reports NotFound. `getOrAdd("constructor", …)` answers (`undefined`, not new), where the own-key lookup loads. |
| CacheProperties.LookupPreservesSelection | questions/02-cache/cache.ts:29-34 | The tombstone left by `get` at `now` changes no key's selection at `now` or later. A lookup never creates a record. |
| FizzBuzz.Decimal | questions/01-fizzbuzz/fizzbuzz.ts:48 | The rendering of a natural is a non-empty digit string with no leading zero. Below 10^21 this is what `${i}` gives. |
| FizzBuzz.DecimalRoundTrip | questions/01-fizzbuzz/fizzbuzz.ts:48 | Reading the rendering of `n` back as a decimal number gives `n`. |
| FizzBuzz.Message | questions/01-fizzbuzz/fizzbuzz.ts:39-48 | "FizzBuzz" is printed if and only if 3 and 5 both divide `i`. "Fizz" is printed if and only if only 3 divides it, and "Buzz" if and only if only 5 does. Otherwise the message is the decimal numeral of `i`, which reads back as `i`. |
| FizzBuzz.FizzBuzz | questions/01-fizzbuzz/fizzbuzz.ts:29-55 | `start > end` is rejected first with "on or after end", then a negative bound with "before 0", and a rejection prints nothing. Otherwise the earlier trace is kept and `max(end - start, 1)` messages are appended. The k-th message is for `start + k`. |
| FizzBuzz.EqualBoundsPrintOne | questions/01-fizzbuzz/fizzbuzz.ts:29-54 | `fizzBuzz(3, 3)` succeeds and prints exactly "Fizz". |
| FizzBuzz.FizzBuzzExclusive | questions/01-fizzbuzz/fizzbuzz.ts:13-35 | With the documented half-open range, `start >= end` is rejected. Otherwise exactly `end - start` messages are printed, for `start, ..., end - 1` in order. |
| CandyBar.ComputeRound | questions/04-candybar/candybar.ts:20-30 | Every dollar buys a bar and no dollar is left over. The next round gets `(d + w) / 3` dollars and `(d + w) % 3` wrappers. The round ends the game if and only if `d = 0` and `w < 3`, and otherwise `2d + w` strictly drops. |
| CandyBar.BuyCandyBars | questions/04-candybar/candybar.ts:9-47 | The result is at least `dollars`. With no dollars and fewer than three wrappers (including `(0, 0)`) it is 0. |
| CandyBar.BuyCandyBarsClosedForm | questions/04-candybar/candybar.ts:14-46 | The recursion equals `d + (d + w == 0 ? 0 : (d + w - 1) / 2)`. |
| CandyBar.DollarsOnly | questions/04-candybar/candybar.ts:9-13 | With the default arguments, `d` dollars buy `d + (d - 1) / 2` bars (0 for `d = 0`). |
| CandyBar.BuyCandyBarsBounds | questions/04-candybar/candybar.ts:20-46 | The result lies between `d` and `d + (d + w) / 2`. |
| CandyBar.RoundIrrelevant | questions/04-candybar/candybar.ts:41-46 | The `round` argument does not change the result. |
| CandyBarUnchecked.JsRemainder | questions/04-candybar/candybar.ts:21-25 | JavaScript's `%` by a positive divisor: the remainder is smaller in magnitude than the divisor, equals the Euclidean one for a non-negative dividend, is never positive for a negative dividend, and completes the division truncated toward zero (`a == trunc(a / b) * b + r`). |
| CandyBarUnchecked.StepOnIntegers | questions/04-candybar/candybar.ts:15-45 | One call on arbitrary integers, with JavaScript's sign-of-dividend `%`. On naturals it exits if and only if `d = 0` and `w < 3`, and otherwise recurses with `((d + w) / 3, (d + w) % 3)`. A call with negative dollars cannot exit. |
| CandyBarUnchecked.NegativeDollarsCycle | questions/04-candybar/candybar.ts:15-45 | From (-1, 0) the call recurses to (-1, -1), then (-1, -2), then back to (-1, 0), so `buyCandyBars(-1)` never ends. |
| CandyBarUnchecked.SomeNegativeInputsEnd | questions/04-candybar/candybar.ts:15-46 | Some negative inputs do end: (1, -1) recurses to (0, 0), which exits, so the call returns 1. (-1, 10) recurses to (3, 0), which is worth 4 bars, so the call returns 3. |
| CandyBarUnchecked.BuyCandyBarsChecked | questions/04-candybar/candybar.ts:9-47 | Rejects the input if and only if an amount is negative. Otherwise the count is `d + (d + w == 0 ? 0 : (d + w - 1) / 2)`. |

## Left out

- Cache.GetOrAdd: the `await` on the loader is not modelled. The loader is a supplied value, and `writeNow` stands for the clock after it returns. Interleaved calls, the duplicate-load race, and loader failures propagating are out of scope.
- The wall clock and the datejs `addMilliseconds` extension are replaced by integer milliseconds and plain addition. `getAllValidKeys` and the enumerator read the clock once per key. The model reads it once per call.
- `for...in` order is unspecified in the model, because each loop picks its next key nondeterministically. Results are stated as sets of keys or records, not as sequences in a fixed order.
- Cache.GetAllValidKeysEnumerator: the generator is modelled as consumed to the end with no writes in between. It is neither lazy nor affected by live mutation. On a tombstone the model returns only the failure. It drops the records the real generator had already yielded before that point, since those depend on iteration order.
- The messages and prototype wiring of `NotFoundError`, `ExpiredRecordError` and `InputError` are left out, and so is `InputError`'s console output. Errors are datatype values.
- Cache.GetOrAdd: the model assumes native ES2015+ classes, so `instanceof` recognises both cache errors and the rethrow of other errors (questions/02-cache/cache.ts:68) cannot happen. Both cache error constructors call `setPrototypeOf` on the message string instead of on the error (questions/02-cache/cache.ts:143, :152). Compiled for an ES5 target, `e instanceof NotFoundError` would therefore be false and every miss would be rethrown. That build is not modelled.
- Cache.Get: only the store's own keys behave as modelled. On the plain object behind the store, a name inherited from `Object.prototype` (such as "toString") is found and returns `undefined` instead of NotFound. PlainObjectCache.GetOnPlainObject models that case (see Findings).
- Cache.GetOrAdd: for an inherited name such as "constructor", the source answers (`undefined`, not new) without loading, while this member loads. PlainObjectCache.GetOrAddOnPlainObject models the source.
- Cache.AddOrUpdate: writing the key `__proto__` is not modelled. In the source it replaces the store's prototype and creates no own key, while this member adds the key. Reading `__proto__` from a store that never had it written is modelled by PlainObjectCache.GetOnPlainObject.
- Cache.AddOrUpdate: times and ttls are unbounded integers, while a JavaScript `Date` holds at most 8.64e15 ms either side of 1970. An expiration past that range is an Invalid Date. Every comparison with an Invalid Date is false, so `get` (questions/02-cache/cache.ts:31) hits that record forever and `getAllValidKeys` (questions/02-cache/cache.ts:104) never lists it. The model is faithful only within the Date range.
- The cache's values of type `any` and the generic casts are modelled as one type parameter per store.
- `DefaultExpirationMs` is a constant. Reassigning the public static field is not modelled.
- FizzBuzz: the `null`/`undefined` argument checks are not modelled because they cannot arise for typed integers. Non-integer bounds are also out of scope.
- FizzBuzz.FizzBuzz: bounds are unbounded integers, while a JavaScript `number` is a double, so the model holds for safe integers (at most 2^53). From 2^53 up, `i++` no longer changes `i`. A call such as `fizzBuzz(2**53, 2**53 + 2)` therefore never reaches `i >= end` and prints "9007199254740992" forever, where the model prints two messages.
- FizzBuzz.Decimal: from 10^21 up, `${i}` switches to exponent form (for example "1.1805916207174113e+21"), while the model always writes every digit.
- CandyBar.BuyCandyBars: the model's sums are exact, while above 2^53 the source's `wrappers + candyBarsFromDollars` rounds. The model holds for safe integers.
- CandyBar.BuyCandyBars: the inputs are naturals, because the source checks nothing. A call with negative dollars cannot exit, so it always recurses; where that leads depends on the input. `buyCandyBars(-1)` cycles until the stack overflows (CandyBarUnchecked.NegativeDollarsCycle, see Findings). `buyCandyBars(1, -1)` returns 1 and `buyCandyBars(-1, 10)` returns 3 (CandyBarUnchecked.SomeNegativeInputsEnd). CandyBarUnchecked.StepOnIntegers models one call on any integers, but the whole recursion on them is not modelled. The `nat` types are also what make `2 * dollars + wrappers` a termination measure. Fractional amounts are out of scope, and the console logging is not modelled.

## Findings

| source | as written | input that shows it | evidently intended | confidence | as-written member | corrected member |
|---|---|---|---|---|---|---|
| questions/01-fizzbuzz/fizzbuzz.ts:29 | The guard rejects only `start > end`, and the do-while loop prints before it tests the bound | `fizzBuzz(3, 3, f)` prints "Fizz" | `end` is documented as exclusive and the error reads "cannot start on or after end", so `start >= end` should be rejected and nothing printed | medium; not executed | FizzBuzz.EqualBoundsPrintOne | FizzBuzz.FizzBuzzExclusive |
| questions/02-cache/cache.ts:22 | `this.storage[key]` on a plain object literal also finds members inherited from `Object.prototype`. Such a member is truthy and has no `expiration`, so the lookup returns its `value`, which is `undefined` | On a fresh cache `get("toString")` returns `undefined`. `getOrAdd("constructor", f)` returns `{value: undefined, isNew: false}` without calling `f` | The comment at line 15 says a missing record throws NotFoundError, so only own keys should be found | high; not executed | PlainObjectCache.InheritedNameFoundOnFreshCache | Cache.Get |
| questions/04-candybar/candybar.ts:15 | No input is checked, and a call with negative dollars cannot take either exit (lines 15 and 27) | `buyCandyBars(-1)` recurses through (-1, 0), (-1, -1), (-1, -2), (-1, 0), … until the stack overflows. Other negative inputs end: `buyCandyBars(1, -1)` returns 1 | Negative amounts should be rejected, as `fizzBuzz` rejects negative bounds, and bars counted only for natural amounts. This changes behaviour: the corrected member also rejects the negative inputs the source ends on | medium; not executed | CandyBarUnchecked.NegativeDollarsCycle | CandyBarUnchecked.BuyCandyBarsChecked |

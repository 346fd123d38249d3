# rate_limit in Dafny

A model of the core of `purplecity/rate_limit`, an in-process token-bucket rate limiter for Go services, with machine-checked proofs about it.

- **Rule table.** Each URI pattern has an ordered list of rules. A rule allows `Limit` accesses per `Duration` seconds.
- **Registry.** It maps each caller ("filter key") and pattern to one bucket per rule. Buckets are created lazily, taken from a reuse pool.
- **Access check.** It resyncs the caller's buckets in rule order: a discrete-window refill, then one token consumed. It denies at the first bucket that had no token. Buckets before that one keep their charge.
- **Sweep tick.** It samples the last-access map, evicts every sampled caller idle for more than 30 minutes, and returns that caller's buckets to the pool.

The model has four modules, one per concern:

- `GoInt` (`goint.dfy`): Go's `int32`/`int64`, two's-complement wrap-around and truncating division, written out explicitly.
- `StrInt64` (`str_int64.dfy`): the last-access tracker `StringInt64Map`, a class over one `map<string, int64>` field.
- `Buckets` (`buckets.dfy`):
  - the rule and bucket-state values;
  - the pure refill/consume step `ResyncStep` and its laws;
  - the mutable `Bucket` class, whose `Resync` is proved against `ResyncStep`;
  - the `BucketPool` free list.
- `RateLimit` (`rate_limit.dfy`): the `MemRateLimiter` class, holding the rule table, the registry, the last-access map and the pool. It has `AddRule`, `GetBuckets`, `TokenAccess` and one tick of the sweep (`SweepTick`).
  - The access loop is specified by the pure functions `FirstDenial` and `Charged` over the buckets' states before the check.
  - A ghost ownership map (bucket to registry slot) is part of the class invariant `Valid()`. It proves that no two slots share a bucket and that no pooled bucket is live. This is what makes the in-place updates of one caller's buckets leave every other bucket unchanged.
  - `Valid()` also keeps every pooled bucket in the zero state. So "pooled" in the contracts below also means "zeroed".

Clocks are parameters:

- `TokenAccess` takes the seconds reading that it records (`nowSec`) and one nanosecond reading per bucket (`times[i]`). In the source each resync reads the clock itself.
- `SweepTick` takes its seconds reading.
- Go's map iteration order is unspecified. The loops over maps choose an arbitrary remaining key (`:|`), so every proof holds for every order.

Where the code does something other than its own comments suggest, the model follows the code:

- **Sample size.** The sweep is commented as checking `check_uid_num` items per tick (rate_limit.go:200). But `SomeItems(n)` tests `count > n` before copying (str_int64.go:86), so it copies `n + 1` entries when the map has that many. `SweepTick` therefore samples `checkNum + 1` callers. `SomeOfItems` has the same `count >` test (str_int64.go:71), so it copies one more than `Count() / n`.
- **Refill condition.** The `Rule` comment (rate_limit.go:56) says a caller may access a URI `Limit` times in `Duration` time. The refill itself happens only when the `int64` credit `windows * limit` is positive (rate_limit.go:37). A rule with a zero limit therefore never refills. A rule with a negative limit refills whenever the `int64` credit still comes out positive: with a negative `Duration` (so a negative window count), or when the elapsed time or the product `windows * limit` wraps. A credit that wraps to a non-positive value is dropped. `Buckets.Refill` encodes exactly that condition.
- **Elapsed time.** The window count is computed with Go's `int64` arithmetic (rate_limit.go:35). The subtraction `now - LastSyncTime` wraps on overflow, and the division truncates toward zero. `Buckets.Windows` encodes exactly that.
- **Long-idle lockout.** The credit is converted with `int32(tmp)` and added with `int32` arithmetic (rate_limit.go:38). So a caller idle long enough can come back to a negative count, and is then denied until later refills climb back above zero. `Buckets.LongIdleCreditWraps` exhibits this: with 1000 tokens per second, about 24.9 idle days leave the count near -2^31. Refilling at 1000 per second, it stays non-positive for about as long again.

## Model

| member | source | states |
|---|---|---|
| GoInt.Wrap32 | rate_limit.go:38 | the `int32` Go yields for an exact value: congruent to it modulo 2^32 and equal to it when it is in range |
| GoInt.Wrap64 | rate_limit.go:35 | the `int64` Go yields for an exact value: congruent modulo 2^64 and equal when in range |
| GoInt.TruncDiv | rate_limit.go:35 | Go division: magnitude is quotient of magnitudes, sign is product of signs, equals Euclidean division on non-negative operands; zero divisor excluded (a panic) |
| Buckets.Refill | rate_limit.go:34-44 | the refill leaves the state unchanged exactly when the bucket is unused, the clock has not advanced, or the wrapped credit is not positive; otherwise the timestamp becomes `now` and the count is at most `limit` |
| Buckets.Windows | rate_limit.go:35 | the window count: Go's wrapping `int64` difference divided, truncating, by the window length in nanoseconds; with a positive duration it is non-negative when the wrapped difference is and non-positive when the wrapped difference is |
| Buckets.ResyncStep | rate_limit.go:25-52 | a fresh bucket reports `limit` and is stamped `now`; a used one reports its refilled count; one token is consumed exactly when the reported count is positive; the returned stamp is the new timestamp |
| Buckets.Bucket.Resync | rate_limit.go:20-53 | the in-place step on the two fields yields exactly the state, count and stamp of `ResyncStep` on the old state |
| Buckets.RefillFullWindows | rate_limit.go:34-43 | with a positive limit and duration, after at least one whole window, with no overflow and whatever the sign of the count, the window count is the floor quotient (at least 1), the count becomes `min(tokens + windows*limit, limit)` and the timestamp `now` |
| Buckets.WindowsElapsed | rate_limit.go:35 | with no `int64` overflow the truncating window count is the non-negative floor quotient |
| Buckets.NoPartialCredit | rate_limit.go:34-44 | with less than a whole window elapsed, or the clock behind the timestamp, the refill changes neither field |
| Buckets.ResyncKeepsBounds | rate_limit.go:25-52 | with a non-negative limit and no refill overflow, a resync keeps the count within `0 ..= limit`, from a fresh bucket or one already in range |
| Buckets.LongIdleCreditWraps | rate_limit.go:35-38 | a concrete input where the `int32(tmp)` truncation makes the refilled count negative, denying an idle caller |
| Buckets.LimitZeroDeniesAll | rate_limit.go:25-31 | with limit 0 every resync in any sequence of clock readings reports no token |
| Buckets.RunWithinWindow | rate_limit.go:34-52 | within one window of the last refill successive resyncs report `tokens`, `tokens - 1`, ..., then 0 |
| Buckets.FreshBurst | rate_limit.go:25-52 | against a fresh bucket, within the first window, the `i`-th check sees `max(limit - i, 0)` tokens, so exactly the first `limit` checks pass |
| Buckets.Bucket.constructor | rate_limit.go:169-175 | a new bucket is in the zero state |
| Buckets.Bucket.Reset | rate_limit.go:189-190 | both fields become zero |
| Buckets.BucketPool.Get | rate_limit.go:181-184 | hands out the last pooled bucket (or a new one when the pool is empty), in the zero state and no longer pooled |
| Buckets.BucketPool.constructor | rate_limit.go:166-178 | the pool starts with no pooled bucket |
| Buckets.BucketPool.GetMany | rate_limit.go:123-126 | `n` distinct zero buckets: the `j`-th is the `j`-th from the end of the old free list while it lasts, and new afterwards; the free list loses its last `min(n, length of the free list)` entries |
| Buckets.BucketPool.Put | rate_limit.go:187-192 | zeroes the bucket and appends it to the free list; the pool stays valid |
| Buckets.BucketPool.PutAll | rate_limit.go:229-231 | every bucket of a list is zeroed and appended, in list order |
| Buckets.BucketPool.PutLists | rate_limit.go:228-232 | every bucket of every list is zeroed and pooled, the old free list is kept as a prefix, and only those buckets are added |
| RateLimit.MemRateLimiter.constructor | rate_limit.go:132-138 | empty registry, empty rule table, empty last-access map and pool |
| RateLimit.MemRateLimiter.AddRule | rate_limit.go:64-70 | appends the rule to the pattern's list (creating it), every other pattern unchanged, no validation |
| RateLimit.MemRateLimiter.GetBuckets | rate_limit.go:107-130 | no rules: empty result, nothing touched; existing list: returned unchanged, registry and pool unchanged; otherwise one zero bucket per rule from the pool is installed; only the `(key, pattern)` entry changes |
| RateLimit.MemRateLimiter.Install | rate_limit.go:122-127 | an empty slot receives one pooled-or-new zero bucket per rule and the registry invariant is kept |
| RateLimit.EmptyInnerMap | rate_limit.go:117-119 | creating the empty per-pattern map of a new caller keeps the registry invariant |
| RateLimit.InstallConsistent | rate_limit.go:122-127 | installing distinct unowned buckets in an empty slot keeps the registry invariant |
| RateLimit.MemRateLimiter.TokenAccess | rate_limit.go:87-105 | no rules: allowed, record map untouched; an existing list is used as it is, with the registry and pool unchanged; otherwise one bucket per rule is installed, each from the free list or new, and the free list loses its last `min(n, length of the free list)` entries; then the record map gets `key := nowSec`, the result is allowed exactly when no bucket denies, the buckets end in the `Charged` states, and no other bucket changes |
| RateLimit.MemRateLimiter.RecordAndCharge | rate_limit.go:94-101 | records `nowSec`, then charges the caller's list with the result and final states of `FirstDenial`/`Charged` |
| RateLimit.SlotIsolated | rate_limit.go:95-97 | in a consistent registry a slot's list has no repeats and holds no pooled bucket |
| RateLimit.ChargeLive | rate_limit.go:95-101 | charging live buckets keeps every pooled bucket zero |
| RateLimit.Charge | rate_limit.go:95-101 | the loop returns allowed exactly when `FirstDenial` is the list length and leaves the buckets in the `Charged` states |
| RateLimit.ResyncAt | rate_limit.go:97-100 | one iteration moves the states one step along `Stepped`, and the loop continues exactly when the check gets past that bucket |
| RateLimit.SteppedNext | rate_limit.go:97 | applying `ResyncStep` at index `i` to the first-`i`-resynced states gives the first-`i+1`-resynced states |
| RateLimit.FirstDenial | rate_limit.go:95-101 | the first index whose resync finds no token (the length if none): every earlier one finds a token, this one does not |
| RateLimit.DenialAt | rate_limit.go:95-101 | conversely, any index with tokens at every earlier bucket and none at itself is `FirstDenial` |
| RateLimit.DenialNext | rate_limit.go:97-100 | a check past the first `i` buckets passes bucket `i` exactly when its resync finds a token |
| RateLimit.ChargedBeforeDenial | rate_limit.go:95-101 | after a check denied at `d`, each earlier bucket holds one token less than its refilled count and each later bucket is unchanged |
| RateLimit.Charged | rate_limit.go:95-101 | the bucket states the check loop leaves: those up to and including the first denying one resynced, the rest as they were, one per bucket |
| RateLimit.ExpiredKeys | rate_limit.go:215-222 | the collected keys are exactly the sampled callers with `ts + 1800 < now` (wrapping `int64` sum), each once |
| RateLimit.Expired | rate_limit.go:219 | the sampled callers idle too long: a subset of the sample and, where the `int64` sum `ts + 1800` does not overflow, exactly those with `ts + 1800 < now` |
| RateLimit.CallerSlots | rate_limit.go:226-232 | a caller's lists are pairwise disjoint, free of repeats, owned by that caller and not pooled |
| RateLimit.CallerPooled | rate_limit.go:228-232 | all of one caller's lists pooled means all its buckets are pooled |
| RateLimit.EvictConsistent | rate_limit.go:226-233 | removing a caller and pooling its buckets keeps the registry invariant |
| RateLimit.MemRateLimiter.Evict | rate_limit.go:225-236 | the caller's entry is removed, all its buckets are pooled (so zeroed), the old free list is a prefix, and every other caller's buckets and slots are unchanged |
| RateLimit.PooledStep | rate_limit.go:225-237 | evicting one more key keeps earlier evicted keys' buckets pooled |
| RateLimit.MemRateLimiter.EvictAll | rate_limit.go:223-239 | every listed caller removed from the registry with all its buckets pooled; every other caller's buckets unchanged |
| RateLimit.DeleteAll | rate_limit.go:242-244 | the record map loses exactly the listed keys |
| RateLimit.MemRateLimiter.SweepTick | rate_limit.go:214-249 | the sample is a sub-map of the record map of `checkNum + 1` entries (or all); exactly its expired callers are removed from registry and record map, their buckets pooled, everyone else's buckets unchanged |
| StrInt64.StringInt64Map.constructor | str_int64.go:12-17 | the map starts empty |
| StrInt64.StringInt64Map.Get | str_int64.go:19-26 | the stored value, or 0 for an absent key |
| StrInt64.StringInt64Map.Set | str_int64.go:28-39 | afterwards `BM[k] == v` and all other keys unchanged; reports false exactly when `k` already held `v` |
| StrInt64.StringInt64Map.Check | str_int64.go:41-46 | true exactly when the key is present |
| StrInt64.StringInt64Map.Delete | str_int64.go:48-52 | removes exactly `k`; an absent key leaves the map unchanged |
| StrInt64.StringInt64Map.Items | str_int64.go:54-62 | a copy equal to the map |
| StrInt64.StringInt64Map.Sample | str_int64.go:84-92 | the shared sampling loop yields a sub-map of size `min(size, max(bound + 1, 0))` |
| StrInt64.StringInt64Map.SomeOfItems | str_int64.go:64-78 | a sub-map of size `min(size, max(size/n + 1, 0))` with Go's truncating division; an empty map gives the empty map for every `n`, and a zero `n` is excluded only on a non-empty map, where Go's division panics |
| StrInt64.StringInt64Map.SomeItems | str_int64.go:80-93 | a sub-map of size `min(size, max(n + 1, 0))`: one more than `n` |
| StrInt64.StringInt64Map.Keys | str_int64.go:95-103 | every key of the map, each once |
| StrInt64.StringInt64Map.Count | str_int64.go:105-109 | the number of entries |
| StrInt64.StringInt64Map.AddOne | str_int64.go:111-116 | stores the old value (0 if absent) plus one, wrapping at the `int64` maximum; nothing else changes |
| StrInt64.Incremented | str_int64.go:115 | one more, except that the maximum wraps to the minimum |
| StrInt64.StringInt64Map.SubOne | str_int64.go:118-128 | stores `max(old - 1, 0)` (0 if absent), except that the `int64` minimum wraps to the maximum; the stored value is never negative; nothing else changes |
| StrInt64.Decremented | str_int64.go:121-127 | never negative; `max(v - 1, 0)` except that the `int64` minimum wraps to the maximum |
| StrInt64.DecrementUndoesIncrement | str_int64.go:111-128 | `SubOne` undoes `AddOne` on every counter value in `0 .. INT64_MAX - 1` |

## Left out

- Locks (`sync.Mutex`, `sync.RWMutex`, every `Lock`/`Unlock`): each operation is one atomic step. Concurrent behaviour is not modelled, such as "N parallel checks see exactly `limit` allows", or a sweep racing a check whose bucket list it pools.
- `time.Now()`: passed in as parameters (`nowSec`, `times`, the sweep's `nowSec`). The model does not assume the readings increase, so it also covers clock regressions.
- The `time.Tick` goroutine and the `recover`/`runtime.Stack` fault boundary of `Start_rate_limit`: only one tick's body is modelled (`SweepTick`).
- `sync.Pool` and `sync.Once`: the pool is a LIFO free list that never drops a bucket. Which bucket `sync.Pool` returns, and whether it kept it, is not modelled. All that is relied on is that every bucket it hands out is zeroed.
- The process-wide singletons and wrappers `AppAddRule`, `AppTokenAccess`, `Init_rate_limit` and `NewRules`: the limiter is an explicit object owning its last-access map and pool.
- The zero-`Duration` panic: `ResyncStep` requires the exact condition under which Go's division would panic (`Buckets.Defined`). `TokenAccess` requires a non-zero duration for every rule of the pattern. The panic itself is not modelled.
- Buckets.RefillFullWindows: states the clamp only where the `int64` elapsed time, the credit and the refilled sum do not overflow (`RefillFits`). Outside that range the code's arithmetic wraps; `Buckets.LongIdleCreditWraps` exhibits one such input.
- Buckets.ResyncKeepsBounds: holds only under the same no-overflow condition, for the same reason.
- Buckets.BucketPool.Put: requires that the bucket is not already pooled. In the source this holds because each bucket is in exactly one slot. The registry invariant proves it for every caller of `Put` here.
- `Buckets.Run` and the bucket lemmas over it describe one bucket under its own rule. The access check's list of buckets is described by `RateLimit.FirstDenial` and `RateLimit.Charged` instead.
- Go's map iteration order: which entries a sample holds and the order keys are collected in are arbitrary. `SweepTick` returns the sample as a ghost result.
- `clear(ee)`, `clear(delete_keys)`, `clear(record_items)` and the `nil` assignments of the sweep: they only release memory that nothing else refers to, so they have no observable effect.
- The bucket's mutex field is not modelled: `Put` keeps the object, and the object is all the model tracks.

# unify-cache-go drivers in Dafny

A model of the two cache drivers of unify-cache-go. Each driver keeps an
authoritative in-memory index from string keys to items (a value and a
deadline), copies writes into a second store, and expires entries lazily when
Get finds them past their deadline.

- `Local.BuildInLocalCache` models `BuildInLocalCache` (the second store is a
  go-cache instance). Get makes its optimistic read under the shared lock and,
  when the entry looks expired, re-reads and re-checks it under the exclusive
  lock before deleting it. A zero deadline never expires. Delete does not
  reach go-cache.
- `Redis.RedisCache` models `RedisCache` (the second store is a Redis client
  whose answers are ignored). Get deletes an entry that looks expired without
  a second check and without a Redis command. Delete always sends a Redis
  `Del`. There is no zero-deadline exemption.

Files:

- `common.dfy` (module `Common`): Go's clock readings (`Time`,
  nanoseconds since the zero `time.Time`), `Duration` (signed 64-bit
  nanoseconds), the index entry, `ErrNotFound`, the calls mirrored into a
  second store, the client calls of a history, and `Mirror`, what a second
  store was last told to hold. It also holds the index updates of Set and of
  the private delete, `AfterSet` and `AfterDelete`, which the two drivers
  implement with identical code (memory.go:28-33 and redis.go:27-31;
  memory.go:70-76 and redis.go:65-71).
- `local_cache.dfy` (module `Local`) and `redis_cache.dfy` (module `Redis`):
  each driver as pure functions on the index (what Set, Get and Delete leave
  and return) and as a class whose `data` field is the index, updated in
  place. Each class keeps two ghost fields: `log`, the calls made on the
  second store, and `history`, the client calls applied so far. `Valid()`
  states that `data` is the replay of `history` and `log` is the traffic of
  `history`, so every lemma about replayed histories applies to a live object.
- `contrast.dfy` (module `Contrast`): lemmas comparing the two drivers.

The current time is a parameter of Set and Get (Go reads `time.Now()`).
A history's Get calls carry their own clock readings. An entry is expired only
when its deadline lies strictly before the clock reading, so an entry read at
its deadline is still live. A Set with zero ttl is therefore still readable at
the instant it was made.

Unlike `BuildInLocalCache.Get`, `RedisCache.Get` has no locked re-check and
sends no Redis command: redis.go:47-52 take the lock and delete the entry.
`Contrast.RefreshSurvivesOnlyWithRecheck` shows the effect: an entry refreshed
by a concurrent Set between the first read and the lock survives in the
in-process driver but is deleted by the Redis driver.

## Model

| member | source | states |
|---|---|---|
| Local.DeadlineBefore | pkg/driver/local/memory.go:78-80 | a zero deadline never expires; any other deadline has passed at t exactly when it is strictly before t |
| Common.AfterSet | pkg/driver/local/memory.go:28-33 | after Set the key maps to (val, now + ttl); every other key keeps its presence and its entry (the same code is at redis.go:27-31) |
| Common.AfterDelete | pkg/driver/local/memory.go:70-76 | after the private delete the key is absent, other keys are unchanged, and an index without the key is returned identical (the same code is at redis.go:65-71) |
| Local.Peek | pkg/driver/local/memory.go:41-48 | the first read of Get sees Missing iff the key is absent, Stale iff it is present with a nonzero deadline before now, and otherwise the entry's value |
| Local.Lookup | pkg/driver/local/memory.go:40-61 | Get reports the entry's value iff the key is present and its deadline is zero or at or after now; ErrNotFound otherwise |
| Local.Expire | pkg/driver/local/memory.go:48-58 | Get keeps the key iff it is absent or live, removes nothing else, and changes no entry |
| Local.GetInterleaved | pkg/driver/local/memory.go:40-61 | with a Set or Delete between Get's two reads: a first read that finds nothing reports ErrNotFound and one that finds a live entry returns that entry's value, both with no change; after a stale first read the result and index are Lookup and Expire of the re-read index, so an entry still expired is removed and reported missing, a refreshed entry is kept and its new value returned, and a vanished key reports ErrNotFound with no change; with nothing in between, Get is Lookup plus Expire |
| Local.SetThenGet | pkg/driver/local/memory.go:24-61 | after Set at a wall-clock reading the key reads back its value up to and including now + ttl and ErrNotFound after, so Set never builds a never-expiring entry |
| Local.DeleteThenGet | pkg/driver/local/memory.go:63-76 | after Delete, Get reports ErrNotFound; a second Delete changes nothing (idempotent) |
| Local.GetIsIdempotent | pkg/driver/local/memory.go:40-61 | a second Get at the same instant reports the same result and removes nothing more |
| Local.EntryIsLastSet | pkg/driver/local/memory.go:24-37 | after any history of calls, every entry of the index is exactly the entry stored by a Set of that key after which no Set or Delete of that key came: the last writer wins and no value is invented or mixed |
| Local.NeverWrittenIsNotFound | pkg/driver/local/memory.go:17-22 | after any history with no Set of a key (including the empty history of a new cache), Get of that key reports ErrNotFound |
| Local.IndexShadowed | pkg/driver/local/memory.go:33-35 | after any history, every key in the index is also in what go-cache was last told to hold, with the same value |
| Local.TrafficOnlyPuts | pkg/driver/local/memory.go:63-76 | no call in any history ever deletes from go-cache: every call it receives is a Set |
| Local.BuildInLocalCache.constructor | pkg/driver/local/memory.go:17-22 | a new cache has an empty index, an empty go-cache log and an empty history |
| Local.BuildInLocalCache.Set | pkg/driver/local/memory.go:24-38 | returns nil; the index becomes AfterSet of the old index; exactly one Set(key, val, ttl) is appended to the go-cache log; Valid is kept |
| Local.BuildInLocalCache.Get | pkg/driver/local/memory.go:40-61 | returns Lookup of the old index; the index becomes Expire of the old index; the go-cache log is unchanged; Valid is kept |
| Local.BuildInLocalCache.RecheckLocked | pkg/driver/local/memory.go:49-58 | on whatever index it finds: ErrNotFound with no change for a missing key, ErrNotFound and removal of exactly that key for an expired entry, the value with no change for a live one |
| Local.BuildInLocalCache.Delete | pkg/driver/local/memory.go:63-68 | returns nil; the index becomes AfterDelete of the old index; the go-cache log is unchanged |
| Local.BuildInLocalCache.DeleteEntry | pkg/driver/local/memory.go:70-76 | the index becomes AfterDelete of the old index; nothing else changes |
| Redis.DeadlineBefore | pkg/driver/redis/redis.go:78-80 | the deadline has passed at t exactly when it is strictly before t, the zero deadline included |
| Redis.Peek | pkg/driver/redis/redis.go:39-47 | the first read of Get sees Missing iff the key is absent, Stale iff its deadline is before now, and otherwise the entry's value |
| Redis.Lookup | pkg/driver/redis/redis.go:38-55 | Get reports the entry's value iff the key is present and its deadline is at or after now; ErrNotFound otherwise |
| Redis.Expire | pkg/driver/redis/redis.go:46-52 | Get keeps the key iff it is absent or live, removes nothing else, and changes no entry |
| Redis.GetInterleaved | pkg/driver/redis/redis.go:38-55 | with a Set or Delete between Get's first read and the lock: an entry that looked expired is removed from whatever index is found and ErrNotFound returned, with no re-check; a first read that finds nothing reports ErrNotFound and one that finds a live entry returns that entry's value, both leaving the index untouched; with nothing in between, Get is Lookup plus Expire |
| Redis.SetThenGet | pkg/driver/redis/redis.go:24-55 | after Set the key reads back its value up to and including now + ttl and ErrNotFound after, at any clock reading |
| Redis.DeleteThenGet | pkg/driver/redis/redis.go:57-71 | after Delete, Get reports ErrNotFound; a second Delete leaves the index unchanged (idempotent) |
| Redis.GetIsIdempotent | pkg/driver/redis/redis.go:38-55 | a second Get at the same instant reports the same result and removes nothing more |
| Redis.EntryIsLastSet | pkg/driver/redis/redis.go:24-36 | after any history of calls, every entry of the index is exactly the entry stored by a Set of that key after which no Set or Delete of that key came: the last writer wins and no value is invented or mixed |
| Redis.NeverWrittenIsNotFound | pkg/driver/redis/redis.go:38-44 | after any history with no Set of a key through this instance (including a new instance), Get reports ErrNotFound whatever Redis holds |
| Redis.IndexShadowed | pkg/driver/redis/redis.go:31-33 | after any history, every key in the index is also in what Redis was last told to hold, with the same value |
| Redis.DeleteReachesRemote | pkg/driver/redis/redis.go:57-63 | a Delete, whether or not the index held the key, leaves the key in neither the index nor what Redis was told to hold |
| Redis.RedisCache.constructor | pkg/driver/redis/redis.go:17-22 | a new cache has an empty index, an empty Redis log and an empty history |
| Redis.RedisCache.Set | pkg/driver/redis/redis.go:24-36 | returns nil whatever Redis answers; the index becomes AfterSet of the old index; exactly one Set(key, val, ttl) is appended to the Redis log |
| Redis.RedisCache.Get | pkg/driver/redis/redis.go:38-55 | returns Lookup of the old index; the index becomes Expire of the old index; no Redis command is logged |
| Redis.RedisCache.Delete | pkg/driver/redis/redis.go:57-63 | returns nil; the index becomes AfterDelete of the old index; exactly one Del(key) is appended to the Redis log, present or not |
| Redis.RedisCache.DeleteEntry | pkg/driver/redis/redis.go:65-71 | the index becomes AfterDelete of the old index; nothing else changes |
| Contrast.DeadlineBeforeDiffersOnlyAtZero | pkg/driver/redis/redis.go:78-80 | the two drivers' expiry checks disagree exactly on a zero deadline at a time after the zero time |
| Contrast.RunsAgree | pkg/driver/local/memory.go:78-80 | from an index without zero deadlines, any history whose Sets read the wall clock leaves both drivers with the same index, still without zero deadlines |
| Contrast.ReadsAgree | pkg/driver/local/memory.go:78-80 | after any history whose Sets read the wall clock, Get reports the same from both drivers: the zero-deadline exemption is unobservable through the public calls |
| Contrast.RefreshSurvivesOnlyWithRecheck | pkg/driver/redis/redis.go:46-52 | for every first read that sees an expired entry and every re-read index in which the key was refreshed to a live entry, the in-process driver keeps the index and returns the new value, while the Redis driver deletes the key and reports ErrNotFound |
| Contrast.RefreshLostExample | pkg/driver/redis/redis.go:46-52 | a concrete lost refresh: an entry expired at time 5, refreshed by a Set at time 10, kept by the in-process driver and dropped by the Redis driver |
| Contrast.DeleteLeavesStaleCopyOnlyInGoCache | pkg/driver/local/memory.go:63-68 | after Set then Delete of a key, neither index holds it; go-cache still holds the value, while Redis was told to drop it |

## Left out

- Locking (`sync.RWMutex`) and goroutines: the operations run one at a time. The only interleaving modelled is a Set or Delete between the two halves of Get, as a second index given to `GetInterleaved` and as `RecheckLocked` running on whatever index it finds. The concurrent tests are represented only by their end-state claims, through `EntryIsLastSet` and `DeleteThenGet`.
- The go-cache library's internals: its 5-minute default expiry, its 10-minute cleanup interval and its background janitor. go-cache appears only as the log of calls made on it and, through `Mirror`, as the values it was last told to hold, without its own expiry.
- The Redis client: network round trips, `context.Context`, command results and failures, and Redis's own TTL expiry. Redis appears only as the log of `Set`/`Del` commands and, through `Mirror`, as what it was last told to hold. Reading values back through the Redis client is not modelled.
- The wall clock: `time.Now()` is a parameter. Overflow in `time.Time.Add` is not modelled: a deadline is the exact sum now + ttl.
- Go's dynamically typed `any` values: values are a type parameter `V`.
- `ctx` parameters: unused by the in-process driver and passed through unchanged to Redis by the other; they are dropped.

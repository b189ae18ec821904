/** Types shared by the two cache drivers: clock readings and durations as Go
    represents them, the entry kept in an index, the error a read reports, the
    calls a driver mirrors into its second store, and the calls a client makes
    on a cache. */
module Common {

  /** An instant, in nanoseconds since the zero value of Go's time.Time
      (January 1 of year 1, UTC). time.Time.IsZero() holds exactly at ZeroTime. */
  type Time = int

  const ZeroTime: Time := 0

  /** Go's time.Duration is a signed 64-bit count of nanoseconds. */
  const MinDuration: int := -0x8000_0000_0000_0000
  const MaxDuration: int := 0x7FFF_FFFF_FFFF_FFFF

  type Duration = d: int | MinDuration <= d <= MaxDuration

  /** A reading of time.Now(): so far from the zero time that adding any
      Duration, even the most negative one, stays strictly after it (true of
      every date after the year 293). */
  predicate IsWallClock(now: Time)
  {
    now + MinDuration > ZeroTime
  }

  /** A cached value and the instant it stops being live. */
  datatype Item<V> = Item(val: V, deadline: Time)

  /** A cache's authoritative index. */
  type Index<V> = map<string, Item<V>>

  /** The index after Set(key, val, ttl) at `now`. */
  function AfterSet<V>(m: Index<V>, key: string, val: V, ttl: Duration, now: Time): (m': Index<V>)
    ensures key in m' && m'[key] == Item(val, now + ttl)
    ensures forall k :: k != key ==> (k in m' <==> k in m)
    ensures forall k :: k != key && k in m ==> m'[k] == m[k]
  {
    m[key := Item(val, now + ttl)]
  }

  /** The index after a driver's private delete: the key is gone, and an index
      without it is left exactly as it was. */
  function AfterDelete<V>(m: Index<V>, key: string): (m': Index<V>)
    ensures key !in m'
    ensures key !in m ==> m' == m
    ensures forall k :: k != key ==> (k in m' <==> k in m)
    ensures forall k :: k in m' ==> m'[k] == m[k]
  {
    if key !in m then m else m - {key}
  }

  /** The one error a cache reports. */
  datatype CacheError = ErrNotFound

  datatype Option<T> = None | Some(value: T)

  /** What Get returns: a value, or an error (Go's `(any, error)` pair). */
  datatype Result<T> = Ok(value: T) | Failure(error: CacheError)

  /** What the optimistic first half of Get saw under the shared lock. */
  datatype Peeked<V> = Missing | Fresh(val: V) | Stale

  /** One call a driver makes on its second store (go-cache or Redis). */
  datatype StoreCall<V> = Put(key: string, val: V, ttl: Duration) | Del(key: string)

  /** One call a client makes on a cache, with the clock reading it takes. */
  datatype Op<V> =
    | SetOp(key: string, val: V, ttl: Duration, now: Time)
    | GetOp(key: string, now: Time)
    | DeleteOp(key: string)

  /** The key/value pairs a second store was last told to hold by `calls`,
      leaving aside its own expiry and any call that failed. */
  ghost function Mirror<V>(calls: seq<StoreCall<V>>): map<string, V>
    decreases |calls|
  {
    if calls == [] then map[]
    else
      var before := Mirror(calls[..|calls| - 1]);
      match calls[|calls| - 1]
      case Put(k, v, _) => before[k := v]
      case Del(k) => before - {k}
  }

  /** Mirror of a log that grew by one call. */
  lemma MirrorSnoc<V>(calls: seq<StoreCall<V>>, c: StoreCall<V>)
    ensures c.Put? ==> Mirror(calls + [c]) == Mirror(calls)[c.key := c.val]
    ensures c.Del? ==> Mirror(calls + [c]) == Mirror(calls) - {c.key}
  {
  }

  /** Every Set call of the history `ops` is made at a wall-clock reading. */
  ghost predicate SetsAtWallClock<V>(ops: seq<Op<V>>)
  {
    forall i :: 0 <= i < |ops| && ops[i].SetOp? ==> IsWallClock(ops[i].now)
  }

  /** No Set or Delete of `key` comes after position i of the history. */
  ghost predicate NoLaterWrite<V>(ops: seq<Op<V>>, i: nat, key: string)
  {
    forall j :: i < j < |ops| ==> ops[j].GetOp? || ops[j].key != key
  }

  /** The entry that Set(key, val, ttl) at `now` stores, if op is that call. */
  ghost predicate WritesItem<V>(op: Op<V>, key: string, item: Item<V>)
  {
    op.SetOp? && op.key == key && item == Item(op.val, op.now + op.ttl)
  }
}

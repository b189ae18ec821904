/** The networked driver, RedisCache: the same authoritative index of entries
    with deadlines, whose Sets and Deletes are also sent to a Redis client
    (results ignored). Get reads only the index; an entry found expired is
    dropped from the index at once, without a second check and without telling
    Redis. */
module Redis {
  import opened Common

  /** item.deadlineBefore: the deadline has passed at t exactly when it lies
      strictly before t; unlike the in-process driver, a zero deadline is not
      exempt. */
  function DeadlineBefore<V>(i: Item<V>, t: Time): (expired: bool)
    ensures expired <==> i.deadline < t
    ensures i.deadline == ZeroTime ==> (expired <==> ZeroTime < t)
  {
    i.deadline < t
  }

  /** The optimistic first half of Get, made under the shared lock. */
  function Peek<V>(m: Index<V>, key: string, now: Time): (p: Peeked<V>)
    ensures p.Missing? <==> key !in m
    ensures p.Stale? <==> key in m && m[key].deadline < now
    ensures p.Fresh? ==> key in m && p.val == m[key].val
  {
    if key !in m then Missing
    else if DeadlineBefore(m[key], now) then Stale
    else Fresh(m[key].val)
  }

  /** What Get at `now` reports from an index no one else touches. */
  function Lookup<V>(m: Index<V>, key: string, now: Time): (r: Result<V>)
    ensures r.Ok? <==> key in m && now <= m[key].deadline
    ensures r.Ok? ==> r.value == m[key].val
  {
    if key in m && !DeadlineBefore(m[key], now) then Ok(m[key].val) else Failure(ErrNotFound)
  }

  /** What Get leaves in an index no one else touches: the key is kept
      exactly when it is absent or live, and nothing else changes. */
  function Expire<V>(m: Index<V>, key: string, now: Time): (m': Index<V>)
    ensures key in m' <==> key in m && now <= m[key].deadline
    ensures forall k :: k != key ==> (k in m' <==> k in m)
    ensures forall k :: k in m' ==> m'[k] == m[k]
  {
    if key in m && DeadlineBefore(m[key], now) then AfterDelete(m, key) else m
  }

  /** Get when another caller's Set or Delete may run between its first read
      and the exclusive lock: `first` is the index read under the shared
      lock, `second` the index found once the exclusive lock is held. Gives
      the result and the index left behind. */
  function GetInterleaved<V>(first: Index<V>, second: Index<V>, key: string, now: Time)
    : (out: (Result<V>, Index<V>))
    // An entry that looked expired is removed from whatever index is found,
    // with no second check.
    ensures Peek(first, key, now).Stale? ==> out == (Failure(ErrNotFound), AfterDelete(second, key))
    // Otherwise the first read is final and the index is not touched.
    ensures !Peek(first, key, now).Stale? ==> out.1 == second
    ensures Peek(first, key, now).Missing? ==> out.0 == Failure(ErrNotFound)
    ensures Peek(first, key, now).Fresh? ==> out.0 == Ok(first[key].val)
    // With nothing in between, Get is Lookup followed by Expire.
    ensures first == second ==> out == (Lookup(first, key, now), Expire(first, key, now))
  {
    match Peek(first, key, now)
    case Missing => (Failure(ErrNotFound), second)
    case Fresh(v) => (Ok(v), second)
    case Stale => (Failure(ErrNotFound), AfterDelete(second, key))
  }

  /** The index after one client call. */
  ghost function Step<V>(m: Index<V>, op: Op<V>): Index<V>
  {
    match op
    case SetOp(key, val, ttl, now) => AfterSet(m, key, val, ttl, now)
    case GetOp(key, now) => Expire(m, key, now)
    case DeleteOp(key) => AfterDelete(m, key)
  }

  /** The index after a history of client calls, oldest first. */
  ghost function Run<V>(m: Index<V>, ops: seq<Op<V>>): Index<V>
    decreases |ops|
  {
    if ops == [] then m else Step(Run(m, ops[..|ops| - 1]), ops[|ops| - 1])
  }

  /** The Redis commands one client call sends: Set and Delete each send
      one, Get none. */
  ghost function Calls<V>(op: Op<V>): seq<StoreCall<V>>
  {
    match op
    case SetOp(key, val, ttl, _) => [Put(key, val, ttl)]
    case GetOp(_, _) => []
    case DeleteOp(key) => [Del(key)]
  }

  /** The Redis commands a history of client calls sends. */
  ghost function Traffic<V>(ops: seq<Op<V>>): seq<StoreCall<V>>
    decreases |ops|
  {
    if ops == [] then [] else Traffic(ops[..|ops| - 1]) + Calls(ops[|ops| - 1])
  }

  lemma RunSnoc<V>(m: Index<V>, ops: seq<Op<V>>, op: Op<V>)
    ensures Run(m, ops + [op]) == Step(Run(m, ops), op)
    ensures Traffic(ops + [op]) == Traffic(ops) + Calls(op)
  {
  }

  /** Once Set, a key reads back its value up to and including its deadline,
      and ErrNotFound after it, whatever the clock reading. */
  lemma SetThenGet<V>(m: Index<V>, key: string, val: V, ttl: Duration, now: Time, t: Time)
    ensures Lookup(AfterSet(m, key, val, ttl, now), key, t)
            == if now + ttl < t then Failure(ErrNotFound) else Ok(val)
  {
  }

  /** After Delete a key reads as missing, and deleting again changes nothing. */
  lemma DeleteThenGet<V>(m: Index<V>, key: string, t: Time)
    ensures Lookup(AfterDelete(m, key), key, t) == Failure(ErrNotFound)
    ensures AfterDelete(AfterDelete(m, key), key) == AfterDelete(m, key)
  {
  }

  /** A second Get at the same instant reports what the first did and
      changes nothing more. */
  lemma GetIsIdempotent<V>(m: Index<V>, key: string, now: Time)
    ensures Lookup(Expire(m, key, now), key, now) == Lookup(m, key, now)
    ensures Expire(Expire(m, key, now), key, now) == Expire(m, key, now)
  {
  }

  /** Every entry of the index is the one stored by the last Set of that
      key in the history, and no Delete of it came after: concurrent Sets
      leave one of their own values, never a mixture. */
  lemma {:induction false} EntryIsLastSet<V>(ops: seq<Op<V>>, key: string)
    requires key in Run(map[], ops)
    ensures exists i :: 0 <= i < |ops| && WritesItem(ops[i], key, Run(map[], ops)[key])
                        && NoLaterWrite(ops, i, key)
    decreases |ops|
  {
    var prefix, last := ops[..|ops| - 1], ops[|ops| - 1];
    var entry := Run(map[], ops)[key];
    if last.SetOp? && last.key == key {
      assert WritesItem(ops[|ops| - 1], key, entry);
      assert NoLaterWrite(ops, |ops| - 1, key);
    } else {
      var before := Run(map[], prefix);
      assert last.GetOp? || last.key != key;
      assert key in before && entry == before[key];
      EntryIsLastSet(prefix, key);
      var i :| 0 <= i < |prefix| && WritesItem(prefix[i], key, before[key]) && NoLaterWrite(prefix, i, key);
      assert ops[i] == prefix[i];
      assert NoLaterWrite(ops, i, key) by {
        forall j | i < j < |ops| ensures ops[j].GetOp? || ops[j].key != key {
          if j < |prefix| {
            assert ops[j] == prefix[j];
          }
        }
      }
    }
  }

  /** A key no Set of this instance wrote reads as missing, whatever Redis
      holds: a new instance reports ErrNotFound for every key. */
  lemma {:induction false} NeverWrittenIsNotFound<V>(ops: seq<Op<V>>, key: string, now: Time)
    requires forall i :: 0 <= i < |ops| ==> !(ops[i].SetOp? && ops[i].key == key)
    ensures Lookup(Run(map[], ops), key, now) == Failure(ErrNotFound)
  {
    if key in Run(map[], ops) {
      EntryIsLastSet(ops, key);
    }
  }

  /** Every entry of the index was also last sent to Redis with the same
      value (leaving aside Redis's own expiry and failed commands). */
  lemma {:induction false} IndexShadowed<V>(ops: seq<Op<V>>)
    ensures forall k :: k in Run(map[], ops) ==>
              k in Mirror(Traffic(ops)) && Mirror(Traffic(ops))[k] == Run(map[], ops)[k].val
    decreases |ops|
  {
    if ops != [] {
      var prefix, last := ops[..|ops| - 1], ops[|ops| - 1];
      IndexShadowed(prefix);
      assert ops == prefix + [last];
      RunSnoc(map[], prefix, last);
      match last
      case SetOp(key, val, ttl, now) =>
        MirrorSnoc(Traffic(prefix), Put(key, val, ttl));
      case GetOp(_, _) =>
        assert Traffic(ops) == Traffic(prefix);
      case DeleteOp(key) =>
        MirrorSnoc(Traffic(prefix), Del(key));
    }
  }

  /** A Delete reaches Redis whether or not the index held the key: after
      it, the key is in neither the index nor what Redis was told to hold. */
  lemma DeleteReachesRemote<V>(ops: seq<Op<V>>, key: string)
    ensures key !in Run(map[], ops + [DeleteOp(key)])
    ensures key !in Mirror(Traffic(ops + [DeleteOp(key)]))
  {
  }

  /** RedisCache. */
  class RedisCache<V> {
    /** The authoritative index. */
    var data: Index<V>
    /** Every command sent to Redis, oldest first. */
    ghost var log: seq<StoreCall<V>>
    /** Every client call applied to this cache, oldest first. */
    ghost var history: seq<Op<V>>

    ghost predicate Valid()
      reads this
    {
      data == Run(map[], history) && log == Traffic(history)
    }

    /** NewRedisCache: an empty index over a client the caller owns. */
    constructor ()
      ensures Valid()
      ensures data == map[] && log == [] && history == []
    {
      data := map[];
      log := [];
      history := [];
    }

    /** Stores `val` under `key` until now + ttl, sends the same Set to
        Redis, and never fails, whatever Redis answers. */
    method Set(key: string, val: V, ttl: Duration, now: Time) returns (err: Option<CacheError>)
      requires Valid()
      modifies this
      ensures Valid()
      ensures err == None
      ensures data == AfterSet(old(data), key, val, ttl, now)
      ensures log == old(log) + [Put(key, val, ttl)]
      ensures history == old(history) + [SetOp(key, val, ttl, now)]
    {
      data := data[key := Item(val, now + ttl)];
      log := log + [Put(key, val, ttl)];
      RunSnoc(map[], history, SetOp(key, val, ttl, now));
      history := history + [SetOp(key, val, ttl, now)];
      err := None;
    }

    /** Reports the value of a live entry and ErrNotFound otherwise; drops
        the entry from the index when it is expired; sends nothing to Redis. */
    method Get(key: string, now: Time) returns (r: Result<V>)
      requires Valid()
      modifies this
      ensures Valid()
      ensures r == Lookup(old(data), key, now)
      ensures data == Expire(old(data), key, now)
      ensures log == old(log)
      ensures history == old(history) + [GetOp(key, now)]
    {
      var p := Peek(data, key, now);
      match p {
        case Missing =>
          r := Failure(ErrNotFound);
        case Fresh(v) =>
          r := Ok(v);
        case Stale =>
          DeleteEntry(key);
          r := Failure(ErrNotFound);
      }
      RunSnoc(map[], history, GetOp(key, now));
      history := history + [GetOp(key, now)];
    }

    /** Removes the key from the index and sends a Del to Redis whether or
        not the index held it. Never fails. */
    method Delete(key: string) returns (err: Option<CacheError>)
      requires Valid()
      modifies this
      ensures Valid()
      ensures err == None
      ensures data == AfterDelete(old(data), key)
      ensures log == old(log) + [Del(key)]
      ensures history == old(history) + [DeleteOp(key)]
    {
      DeleteEntry(key);
      log := log + [Del(key)];
      RunSnoc(map[], history, DeleteOp(key));
      history := history + [DeleteOp(key)];
      err := None;
    }

    /** The private delete: drops the key if the index holds it. */
    method DeleteEntry(key: string)
      modifies this
      ensures data == AfterDelete(old(data), key)
      ensures log == old(log) && history == old(history)
    {
      if key !in data {
        return;
      }
      data := data - {key};
    }
  }
}

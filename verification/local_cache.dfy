/** The in-process driver, BuildInLocalCache: an authoritative index of
    entries with deadlines, whose writes are copied into a go-cache instance.
    Expired entries are dropped lazily by Get, after a second check made under
    the exclusive lock. Deletes are never copied into go-cache. */
module Local {
  import opened Common

  /** item.deadlineBefore: a zero deadline never passes; any other deadline
      has passed at t exactly when it lies strictly before t. */
  function DeadlineBefore<V>(i: Item<V>, t: Time): (expired: bool)
    ensures i.deadline == ZeroTime ==> !expired
    ensures i.deadline != ZeroTime ==> (expired <==> i.deadline < t)
  {
    !(i.deadline == ZeroTime) && i.deadline < t
  }

  /** The optimistic first half of Get, made under the shared lock. */
  function Peek<V>(m: Index<V>, key: string, now: Time): (p: Peeked<V>)
    ensures p.Missing? <==> key !in m
    ensures p.Stale? <==> key in m && m[key].deadline != ZeroTime && m[key].deadline < now
    ensures p.Fresh? ==> key in m && p.val == m[key].val
  {
    if key !in m then Missing
    else if DeadlineBefore(m[key], now) then Stale
    else Fresh(m[key].val)
  }

  /** What Get at `now` reports from an index no one else touches. */
  function Lookup<V>(m: Index<V>, key: string, now: Time): (r: Result<V>)
    ensures r.Ok? <==> key in m && (m[key].deadline == ZeroTime || now <= m[key].deadline)
    ensures r.Ok? ==> r.value == m[key].val
  {
    if key in m && !DeadlineBefore(m[key], now) then Ok(m[key].val) else Failure(ErrNotFound)
  }

  /** What the locked half of Get leaves: the key is kept exactly when it is
      absent or live, and nothing else changes. */
  function Expire<V>(m: Index<V>, key: string, now: Time): (m': Index<V>)
    ensures key in m' <==> key in m && (m[key].deadline == ZeroTime || now <= m[key].deadline)
    ensures forall k :: k != key ==> (k in m' <==> k in m)
    ensures forall k :: k in m' ==> m'[k] == m[k]
  {
    if key in m && DeadlineBefore(m[key], now) then AfterDelete(m, key) else m
  }

  /** Get when another caller's Set or Delete may run between its two reads:
      `first` is the index read under the shared lock, `second` the index
      found once the exclusive lock is held. Gives the result and the index
      left behind. */
  function GetInterleaved<V>(first: Index<V>, second: Index<V>, key: string, now: Time)
    : (out: (Result<V>, Index<V>))
    // Only an entry that is expired in the index it finds is ever removed.
    ensures out.1 == second || (key in second && DeadlineBefore(second[key], now) && out.1 == AfterDelete(second, key))
    // An entry refreshed in between is neither removed nor hidden.
    ensures key in second && !DeadlineBefore(second[key], now) ==> out.1 == second
    ensures (Peek(first, key, now).Stale? && key in second && !DeadlineBefore(second[key], now))
              ==> out.0 == Ok(second[key].val)
    // A key removed in between is reported missing.
    ensures Peek(first, key, now).Stale? && key !in second ==> out == (Failure(ErrNotFound), second)
    // An entry still expired when re-read is removed and reported missing.
    ensures (Peek(first, key, now).Stale? && key in second && DeadlineBefore(second[key], now))
              ==> out == (Failure(ErrNotFound), AfterDelete(second, key))
    // In every case the locked half decides on the re-read index alone.
    ensures Peek(first, key, now).Stale? ==> out == (Lookup(second, key, now), Expire(second, key, now))
    // A first read that finds nothing, or a live entry, is final: no lock is
    // taken and the index is not touched.
    ensures Peek(first, key, now).Missing? ==> out == (Failure(ErrNotFound), second)
    ensures Peek(first, key, now).Fresh? ==> out == (Ok(first[key].val), second)
    // With nothing in between, Get is Lookup followed by Expire.
    ensures first == second ==> out == (Lookup(first, key, now), Expire(first, key, now))
  {
    match Peek(first, key, now)
    case Missing => (Failure(ErrNotFound), second)
    case Fresh(v) => (Ok(v), second)
    case Stale => (Lookup(second, key, now), Expire(second, key, now))
  }

  /** The index after one client call. */
  ghost function Step<V>(m: Index<V>, op: Op<V>): Index<V>
  {
    match op
    case SetOp(key, val, ttl, now) => AfterSet(m, key, val, ttl, now)
    case GetOp(key, now) => Expire(m, key, now)
    case DeleteOp(key) => AfterDelete(m, key)
  }

  /** The index after a history of client calls, oldest first. */
  ghost function Run<V>(m: Index<V>, ops: seq<Op<V>>): Index<V>
    decreases |ops|
  {
    if ops == [] then m else Step(Run(m, ops[..|ops| - 1]), ops[|ops| - 1])
  }

  /** The go-cache calls one client call makes: only Set writes through. */
  ghost function Calls<V>(op: Op<V>): seq<StoreCall<V>>
  {
    match op
    case SetOp(key, val, ttl, _) => [Put(key, val, ttl)]
    case GetOp(_, _) => []
    case DeleteOp(_) => []
  }

  /** The go-cache calls a history of client calls makes. */
  ghost function Traffic<V>(ops: seq<Op<V>>): seq<StoreCall<V>>
    decreases |ops|
  {
    if ops == [] then [] else Traffic(ops[..|ops| - 1]) + Calls(ops[|ops| - 1])
  }

  lemma RunSnoc<V>(m: Index<V>, ops: seq<Op<V>>, op: Op<V>)
    ensures Run(m, ops + [op]) == Step(Run(m, ops), op)
    ensures Traffic(ops + [op]) == Traffic(ops) + Calls(op)
  {
  }

  /** Once Set at a wall-clock reading, a key reads back its value up to and
      including its deadline, and ErrNotFound after it. */
  lemma SetThenGet<V>(m: Index<V>, key: string, val: V, ttl: Duration, now: Time, t: Time)
    requires IsWallClock(now)
    ensures Lookup(AfterSet(m, key, val, ttl, now), key, t)
            == if now + ttl < t then Failure(ErrNotFound) else Ok(val)
  {
  }

  /** After Delete a key reads as missing, and deleting again changes nothing. */
  lemma DeleteThenGet<V>(m: Index<V>, key: string, t: Time)
    ensures Lookup(AfterDelete(m, key), key, t) == Failure(ErrNotFound)
    ensures AfterDelete(AfterDelete(m, key), key) == AfterDelete(m, key)
  {
  }

  /** A second Get at the same instant reports what the first did and
      changes nothing more. */
  lemma GetIsIdempotent<V>(m: Index<V>, key: string, now: Time)
    ensures Lookup(Expire(m, key, now), key, now) == Lookup(m, key, now)
    ensures Expire(Expire(m, key, now), key, now) == Expire(m, key, now)
  {
  }

  /** Every entry of the index is the one stored by the last Set of that
      key in the history, and no Delete of it came after: concurrent Sets
      leave one of their own values, never a mixture. */
  lemma {:induction false} EntryIsLastSet<V>(ops: seq<Op<V>>, key: string)
    requires key in Run(map[], ops)
    ensures exists i :: 0 <= i < |ops| && WritesItem(ops[i], key, Run(map[], ops)[key])
                        && NoLaterWrite(ops, i, key)
    decreases |ops|
  {
    var prefix, last := ops[..|ops| - 1], ops[|ops| - 1];
    var entry := Run(map[], ops)[key];
    if last.SetOp? && last.key == key {
      assert WritesItem(ops[|ops| - 1], key, entry);
      assert NoLaterWrite(ops, |ops| - 1, key);
    } else {
      var before := Run(map[], prefix);
      assert last.GetOp? || last.key != key;
      assert key in before && entry == before[key];
      EntryIsLastSet(prefix, key);
      var i :| 0 <= i < |prefix| && WritesItem(prefix[i], key, before[key]) && NoLaterWrite(prefix, i, key);
      assert ops[i] == prefix[i];
      assert NoLaterWrite(ops, i, key) by {
        forall j | i < j < |ops| ensures ops[j].GetOp? || ops[j].key != key {
          if j < |prefix| {
            assert ops[j] == prefix[j];
          }
        }
      }
    }
  }

  /** A key no Set of the history wrote reads as missing: a new cache
      reports ErrNotFound for every key. */
  lemma {:induction false} NeverWrittenIsNotFound<V>(ops: seq<Op<V>>, key: string, now: Time)
    requires forall i :: 0 <= i < |ops| ==> !(ops[i].SetOp? && ops[i].key == key)
    ensures Lookup(Run(map[], ops), key, now) == Failure(ErrNotFound)
  {
    if key in Run(map[], ops) {
      EntryIsLastSet(ops, key);
    }
  }

  /** Every entry of the index is also in go-cache with the same value
      (leaving aside go-cache's own expiry). */
  lemma {:induction false} IndexShadowed<V>(ops: seq<Op<V>>)
    ensures forall k :: k in Run(map[], ops) ==>
              k in Mirror(Traffic(ops)) && Mirror(Traffic(ops))[k] == Run(map[], ops)[k].val
    decreases |ops|
  {
    if ops != [] {
      var prefix, last := ops[..|ops| - 1], ops[|ops| - 1];
      IndexShadowed(prefix);
      assert ops == prefix + [last];
      RunSnoc(map[], prefix, last);
      match last
      case SetOp(key, val, ttl, now) =>
        MirrorSnoc(Traffic(prefix), Put(key, val, ttl));
      case GetOp(_, _) =>
        assert Traffic(ops) == Traffic(prefix);
      case DeleteOp(_) =>
        assert Traffic(ops) == Traffic(prefix);
    }
  }

  /** No client call ever deletes from go-cache: it only receives Puts, one
      for each Set. */
  lemma {:induction false} TrafficOnlyPuts<V>(ops: seq<Op<V>>)
    ensures forall j :: 0 <= j < |Traffic(ops)| ==> Traffic(ops)[j].Put?
    decreases |ops|
  {
    if ops != [] {
      TrafficOnlyPuts(ops[..|ops| - 1]);
    }
  }

  /** BuildInLocalCache. */
  class BuildInLocalCache<V> {
    /** The authoritative index. */
    var data: Index<V>
    /** Every call made on the go-cache instance, oldest first. */
    ghost var log: seq<StoreCall<V>>
    /** Every client call applied to this cache, oldest first. */
    ghost var history: seq<Op<V>>

    ghost predicate Valid()
      reads this
    {
      data == Run(map[], history) && log == Traffic(history)
    }

    /** NewBuildInLocalCache: an empty index and an empty go-cache. */
    constructor ()
      ensures Valid()
      ensures data == map[] && log == [] && history == []
    {
      data := map[];
      log := [];
      history := [];
    }

    /** Stores `val` under `key` until now + ttl, copies the write into
        go-cache, and never fails. */
    method Set(key: string, val: V, ttl: Duration, now: Time) returns (err: Option<CacheError>)
      requires Valid()
      modifies this
      ensures Valid()
      ensures err == None
      ensures data == AfterSet(old(data), key, val, ttl, now)
      ensures log == old(log) + [Put(key, val, ttl)]
      ensures history == old(history) + [SetOp(key, val, ttl, now)]
    {
      data := data[key := Item(val, now + ttl)];
      log := log + [Put(key, val, ttl)];
      RunSnoc(map[], history, SetOp(key, val, ttl, now));
      history := history + [SetOp(key, val, ttl, now)];
      err := None;
    }

    /** Reports the value of a live entry and ErrNotFound otherwise; drops
        the entry when it is expired; never touches go-cache. */
    method Get(key: string, now: Time) returns (r: Result<V>)
      requires Valid()
      modifies this
      ensures Valid()
      ensures r == Lookup(old(data), key, now)
      ensures data == Expire(old(data), key, now)
      ensures log == old(log)
      ensures history == old(history) + [GetOp(key, now)]
    {
      var p := Peek(data, key, now);
      match p
      case Missing =>
        r := Failure(ErrNotFound);
        RunSnoc(map[], history, GetOp(key, now));
        history := history + [GetOp(key, now)];
      case Fresh(v) =>
        r := Ok(v);
        RunSnoc(map[], history, GetOp(key, now));
        history := history + [GetOp(key, now)];
      case Stale =>
        r := RecheckLocked(key, now);
    }

    /** The half of Get made under the exclusive lock: re-reads the entry and
        removes it only if that re-read entry is itself expired. Its contract
        is about whatever index it finds, so it covers an entry refreshed or
        deleted since the first read. */
    method RecheckLocked(key: string, now: Time) returns (r: Result<V>)
      requires Valid()
      modifies this
      ensures Valid()
      ensures r == Lookup(old(data), key, now)
      ensures data == Expire(old(data), key, now)
      ensures log == old(log)
      ensures history == old(history) + [GetOp(key, now)]
    {
      if key !in data {
        r := Failure(ErrNotFound);
      } else if DeadlineBefore(data[key], now) {
        DeleteEntry(key);
        r := Failure(ErrNotFound);
      } else {
        r := Ok(data[key].val);
      }
      RunSnoc(map[], history, GetOp(key, now));
      history := history + [GetOp(key, now)];
    }

    /** Removes the key from the index only; go-cache keeps its copy. Never
        fails. */
    method Delete(key: string) returns (err: Option<CacheError>)
      requires Valid()
      modifies this
      ensures Valid()
      ensures err == None
      ensures data == AfterDelete(old(data), key)
      ensures log == old(log)
      ensures history == old(history) + [DeleteOp(key)]
    {
      DeleteEntry(key);
      RunSnoc(map[], history, DeleteOp(key));
      history := history + [DeleteOp(key)];
      err := None;
    }

    /** The private delete: drops the key if the index holds it. */
    method DeleteEntry(key: string)
      modifies this
      ensures data == AfterDelete(old(data), key)
      ensures log == old(log) && history == old(history)
    {
      if key !in data {
        return;
      }
      data := data - {key};
    }
  }
}

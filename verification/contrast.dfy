/** Where the two drivers differ, and where the differences cannot be seen. */
module Contrast {
  import opened Common
  import Local
  import Redis

  /** No entry of the index has the zero deadline. */
  ghost predicate NoZeroDeadline<V>(m: Index<V>)
  {
    forall k :: k in m ==> m[k].deadline != ZeroTime
  }

  /** The two expiry checks disagree only on the zero deadline, which the
      in-process driver treats as never passing. */
  lemma DeadlineBeforeDiffersOnlyAtZero<V>(i: Item<V>, t: Time)
    ensures Local.DeadlineBefore(i, t) != Redis.DeadlineBefore(i, t)
            <==> i.deadline == ZeroTime && ZeroTime < t
  {
  }

  /** From an index without zero deadlines, histories whose Sets read the
      wall clock leave the two drivers with the same index, still without
      zero deadlines. */
  lemma {:induction false} RunsAgree<V>(m: Index<V>, ops: seq<Op<V>>)
    requires NoZeroDeadline(m) && SetsAtWallClock(ops)
    ensures Local.Run(m, ops) == Redis.Run(m, ops)
    ensures NoZeroDeadline(Local.Run(m, ops))
    decreases |ops|
  {
    if ops != [] {
      var prefix := ops[..|ops| - 1];
      assert SetsAtWallClock(prefix) by {
        forall i | 0 <= i < |prefix| && prefix[i].SetOp?
          ensures IsWallClock(prefix[i].now)
        {
          assert prefix[i] == ops[i];
        }
      }
      RunsAgree(m, prefix);
      var before := Local.Run(m, prefix);
      match ops[|ops| - 1]
      case SetOp(key, val, ttl, now) =>
        assert IsWallClock(ops[|ops| - 1].now);
        assert Local.Run(m, ops) == AfterSet(before, key, val, ttl, now);
      case GetOp(key, now) =>
        assert key in before ==> before[key].deadline != ZeroTime;
      case DeleteOp(key) =>
    }
  }

  /** The zero-deadline exemption cannot be observed through the public
      calls: a Get after any history of wall-clock Sets, Gets and Deletes
      reports the same thing from both drivers. */
  lemma ReadsAgree<V>(ops: seq<Op<V>>, key: string, now: Time)
    requires SetsAtWallClock(ops)
    ensures Local.Lookup(Local.Run(map[], ops), key, now)
            == Redis.Lookup(Redis.Run(map[], ops), key, now)
  {
    RunsAgree(map[], ops);
    var m := Local.Run(map[], ops);
    assert key in m ==> m[key].deadline != ZeroTime;
  }

  /** The lost refresh the in-process driver's second check prevents: an
      entry seen expired under the shared lock and refreshed by a Set before
      the exclusive lock is taken survives, with its new value returned, in
      the in-process driver, but is removed, and reported missing, by the
      Redis driver. */
  lemma RefreshSurvivesOnlyWithRecheck<V>(first: Index<V>, second: Index<V>, key: string, now: Time)
    requires Local.Peek(first, key, now).Stale?
    requires key in second && !Local.DeadlineBefore(second[key], now)
    ensures Local.GetInterleaved(first, second, key, now) == (Ok(second[key].val), second)
    ensures Redis.GetInterleaved(first, second, key, now) == (Failure(ErrNotFound), AfterDelete(second, key))
    ensures key !in Redis.GetInterleaved(first, second, key, now).1
  {
  }

  /** Such a lost refresh happens: a Set at time 10 refreshes an entry that
      expired at time 5. */
  lemma RefreshLostExample()
    ensures var first: Index<int> := map["k" := Item(1, 5)];
            var second := AfterSet(first, "k", 2, 100, 10);
            && Local.GetInterleaved(first, second, "k", 10) == (Ok(2), second)
            && Redis.GetInterleaved(first, second, "k", 10) == (Failure(ErrNotFound), map[])
  {
  }

  /** After Set then Delete of a key, neither index holds it, but go-cache
      still holds the value (it never hears of deletes) while Redis was told
      to drop it. */
  lemma DeleteLeavesStaleCopyOnlyInGoCache<V>(ops: seq<Op<V>>, key: string, val: V, ttl: Duration, now: Time)
    ensures var h := ops + [SetOp(key, val, ttl, now), DeleteOp(key)];
            && key !in Local.Run(map[], h) && key !in Redis.Run(map[], h)
            && key in Mirror(Local.Traffic(h)) && Mirror(Local.Traffic(h))[key] == val
            && key !in Mirror(Redis.Traffic(h))
  {
  }
}

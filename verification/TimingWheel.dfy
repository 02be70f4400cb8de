/**
  The idle-connection timing wheel of the gate (struct Buckets in
  Framework/game_gate/EntryPtr.h): a circular buffer of sets of connection entries. Each tick
  pops the oldest set; an entry dies when no set holds it any more.
*/
module TimingWheel {
  import opened CircularBuffers
  import opened Options

  /** What happens to a wheel: an entry is pushed or updated, or the timer pops. */
  datatype Event<E> = Insert(e: E) | Tick

  type Log<E> = seq<Event<E>>

  function Ticks<E>(log: Log<E>): nat {
    if log == [] then 0 else Ticks(log[..|log| - 1]) + if log[|log| - 1].Tick? then 1 else 0
  }

  /** Ticks add up, one each; insertions are none. */
  lemma {:induction false} TicksAddUp<E>(a: Log<E>, b: Log<E>, e: E)
    ensures Ticks(a + b) == Ticks(a) + Ticks(b)
    ensures Ticks<E>([Tick]) == 1 && Ticks([Insert(e)]) == 0
  {
    if b == [] {
      assert a + b == a;
    } else {
      assert (a + b)[..|a + b| - 1] == a + b[..|b| - 1];
      TicksAddUp(a, b[..|b| - 1], e);
    }
  }

  /** How many ticks have passed since `e` was last inserted; None if it never was. */
  ghost function Since<E>(log: Log<E>, e: E): Option<nat> {
    if log == [] then None
    else
      var before := Since(log[..|log| - 1], e);
      match log[|log| - 1]
      case Insert(x) => if x == e then Some(0) else before
      case Tick => if before.Some? then Some(before.value + 1) else None
  }

  /** `e` was inserted at a time that is exactly `k` ticks ago, perhaps also later. */
  ghost predicate InsertedAgo<E>(log: Log<E>, e: E, k: nat) {
    log != [] &&
    match log[|log| - 1]
    case Insert(x) => (x == e && k == 0) || InsertedAgo(log[..|log| - 1], e, k)
    case Tick => 0 < k && InsertedAgo(log[..|log| - 1], e, k - 1)
  }

  /** The last insertion is the most recent of all insertions. */
  lemma {:induction false} SinceIsLatest<E>(log: Log<E>, e: E)
    ensures match Since(log, e)
            case None => forall k: nat :: !InsertedAgo(log, e, k)
            case Some(n) => InsertedAgo(log, e, n) && forall k: nat :: k < n ==> !InsertedAgo(log, e, k)
  {
    if log != [] {
      SinceIsLatest(log[..|log| - 1], e);
    }
  }

  /** Without a further insertion of `e`, its age is the number of ticks since. */
  lemma {:induction false} SinceCountsTicks<E>(log: Log<E>, e: E, later: Log<E>)
    requires Insert(e) !in later
    ensures Since(log + [Insert(e)] + later, e) == Some(Ticks(later))
  {
    if later == [] {
      assert log + [Insert(e)] + later == log + [Insert(e)];
      assert (log + [Insert(e)])[..|log|] == log;
    } else {
      var shorter := later[..|later| - 1];
      assert later == shorter + [later[|later| - 1]];
      var whole := log + [Insert(e)] + later;
      assert whole[..|whole| - 1] == log + [Insert(e)] + shorter;
      SinceCountsTicks(log, e, shorter);
    }
  }

  class Buckets<E(==, !new)> {
    const size: nat
    var buckets: seq<set<E>>

    /** Everything that has happened to this wheel. */
    ghost var log: Log<E>

    /** Bucket by bucket, from the newest to the oldest, the wheel holds exactly the entries
        inserted 0, 1, 2, ... ticks ago. */
    ghost predicate Valid()
      reads this
    {
      && |buckets| == size && 1 <= size
      && forall e: E, k: nat :: k < size ==> (e in buckets[size - 1 - k] <==> InsertedAgo(log, e, k))
    }

    /** Some bucket keeps the entry alive. */
    predicate Held(e: E)
      reads this
    {
      exists i :: 0 <= i < |buckets| && e in buckets[i]
    }

    constructor (size: nat)
      requires 1 <= size
      ensures Valid() && this.size == size && log == []
    {
      this.size := size;
      buckets := seq(size, _ => {});
      log := [];
    }

    /** A wheel refines the map from entries to their last activity: an entry is held exactly
        while fewer than `size` ticks have passed since it was last inserted. */
    lemma HeldExactlyWhileFresh(e: E)
      requires Valid()
      ensures Held(e) <==> Since(log, e).Some? && Since(log, e).value < size
    {
      SinceIsLatest(log, e);
      if Held(e) {
        var i :| 0 <= i < |buckets| && e in buckets[i];
        assert e in buckets[size - 1 - (size - 1 - i)];
        assert InsertedAgo(log, e, size - 1 - i);
      }
      if Since(log, e).Some? && Since(log, e).value < size {
        assert e in buckets[size - 1 - Since(log, e).value];
      }
    }

    /** An entry stays for `size` - 1 ticks after its last insertion, and not for one more. */
    lemma HeldForSizeTicks(before: Log<E>, e: E, later: Log<E>)
      requires Valid() && log == before + [Insert(e)] + later && Insert(e) !in later
      ensures Held(e) <==> Ticks(later) < size
    {
      SinceCountsTicks(before, e, later);
      HeldExactlyWhileFresh(e);
    }

    /** push and update alike: a live connection's entry goes into the newest bucket. */
    method Push(entry: Option<E>, connected: bool)
      requires Valid()
      modifies `buckets, `log
      ensures Valid()
      ensures log == if entry.Some? && connected then old(log) + [Insert(entry.value)] else old(log)
    {
      if entry.Some? {
        if connected {
          var last := |buckets| - 1;
          buckets := buckets[last := buckets[last] + {entry.value}];
          log := log + [Insert(entry.value)];
          assert log[..|log| - 1] == old(log);
        }
      }
    }

    /** The timer's tick. Exactly those entries are released whose last insertion was `size`
        ticks ago, counting this one: never earlier, and never later. */
    method Pop() returns (released: set<E>)
      requires Valid()
      modifies `buckets, `log
      ensures Valid() && log == old(log) + [Tick]
      ensures forall e: E :: e in released <==> Since(log, e) == Some(size)
      ensures forall e: E :: e in released <==> old(Held(e)) && !Held(e)
    {
      var front := buckets[0];
      buckets := PushBack(buckets, {}, size);
      log := log + [Tick];
      assert log[..|log| - 1] == old(log);
      assert forall i :: 0 <= i < size - 1 ==> buckets[i] == old(buckets)[i + 1];
      released := set e | e in front && !Held(e);
      forall e: E, k: nat | k < size
        ensures e in buckets[size - 1 - k] <==> InsertedAgo(log, e, k)
      {
        if 0 < k {
          assert e in old(buckets)[size - 1 - (k - 1)] <==> InsertedAgo(old(log), e, k - 1);
        }
      }
      forall e: E
        ensures e in released <==> Since(log, e) == Some(size)
        ensures e in released <==> old(Held(e)) && !Held(e)
      {
        ReleasedExactly(e, front, old(buckets), old(log));
      }
    }

    lemma ReleasedExactly(e: E, front: set<E>, before: seq<set<E>>, logBefore: Log<E>)
      requires Valid() && log == logBefore + [Tick]
      requires |before| == size && before[0] == front
      requires forall i :: 0 <= i < size - 1 ==> buckets[i] == before[i + 1]
      requires buckets[size - 1] == {}
      requires forall x: E, k: nat :: k < size ==> (x in before[size - 1 - k] <==> InsertedAgo(logBefore, x, k))
      ensures e in front && !Held(e) <==> Since(log, e) == Some(size)
      ensures e in front && !Held(e) <==> (exists i :: 0 <= i < |before| && e in before[i]) && !Held(e)
    {
      assert log[..|log| - 1] == logBefore;
      HeldExactlyWhileFresh(e);
      SinceIsLatest(logBefore, e);
      assert e in before[size - 1 - (size - 1)] <==> InsertedAgo(logBefore, e, size - 1);
      forall i | 0 < i < |before| && e in before[i]
        ensures Held(e)
      {
        assert e in buckets[i - 1];
      }
    }
  }
}

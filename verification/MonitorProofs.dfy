/** Every run of the blocking queues keeps the monitor's promises. */
module MonitorProofs {
  import opened MonitorQueues

  /** Moving one thread changes the waiters and the threads in transit by that thread only. */
  lemma GotoSets<T>(s: State<T>, t: Tid, pc: PC<T>, side: Side)
    ensures s.Goto(t, pc).Waiters(side) == if pc.WaitsAs(side) then s.Waiters(side) + {t} else s.Waiters(side) - {t}
    ensures t in s.Waiters(side) <==> s.At(t).WaitsAs(side)
    ensures |s.Goto(t, pc).Transit(side)| == |s.Transit(side)|
                                             + (if pc.InTransit(side) then 1 else 0)
                                             - (if s.At(t).InTransit(side) then 1 else 0)
  {
    var s' := s.Goto(t, pc);
    Members(s, t, side);
    Members(s', t, side);
    OthersStay(s, t, pc, side);
    OneMember(s.Waiters(side), s'.Waiters(side), t);
    OneMember(s.Transit(side), s'.Transit(side), t);
  }

  lemma OthersStay<T>(s: State<T>, t: Tid, pc: PC<T>, side: Side)
    ensures s.Goto(t, pc).At(t) == pc
    ensures forall u: Tid :: u != t ==> (u in s.Waiters(side) <==> u in s.Goto(t, pc).Waiters(side))
    ensures forall u: Tid :: u != t ==> (u in s.Transit(side) <==> u in s.Goto(t, pc).Transit(side))
  {
  }

  lemma Members<T>(s: State<T>, t: Tid, side: Side)
    ensures t in s.Waiters(side) <==> s.At(t).WaitsAs(side)
    ensures t in s.Transit(side) <==> s.At(t).InTransit(side)
  {
  }

  /** Two sets that differ at most in `t`. */
  lemma OneMember(before: set<Tid>, after: set<Tid>, t: Tid)
    requires forall u :: u != t ==> (u in before <==> u in after)
    ensures after == if t in after then before + {t} else before - {t}
    ensures |after| - (if t in after then 1 else 0) == |before| - (if t in before then 1 else 0)
  {
    if (t in before) != (t in after) {
      if t in before {
        assert before == after + {t};
      } else {
        assert after == before + {t};
      }
    } else {
      assert before == after;
    }
  }

  lemma StepKeepsMutex<T>(s: State<T>, a: Action<T>)
    requires MutexInv(s) && Enabled(s, a)
    ensures MutexInv(Step(s, a))
  {
    var s' := Step(s, a);
    forall u: Tid
      ensures s'.At(u).InMutex() <==> s'.owner == u
      ensures s'.At(u).Holding() <==> s'.holder == u
    {
      assert s.At(u).InMutex() <==> s.owner == u;
      assert s.At(u).Holding() <==> s.holder == u;
      assert s.At(a.t).InMutex() <==> s.owner == a.t;
      assert s.At(a.t).Holding() <==> s.holder == a.t;
    }
  }

  lemma StepKeepsQueue<T>(s: State<T>, a: Action<T>)
    requires MutexInv(s) && QueueInv(s) && Enabled(s, a)
    ensures QueueInv(Step(s, a))
  {
    if a.Run? && s.At(a.t).Acting? {
      ActKeepsQueue(s, a.t);
    } else {
      var s' := Step(s, a);
      assert s'.queue == s.queue && s'.discipline == s.discipline;
      forall u: Tid
        ensures CallInv(s', s'.At(u))
      {
        assert CallInv(s, s.At(u));
        if u == a.t {
          MoverKeepsCall(s, a);
        } else if a.Notify? && u == a.woken {
        } else {
          assert s'.At(u) == s.At(u);
        }
      }
    }
  }

  lemma MoverKeepsCall<T>(s: State<T>, a: Action<T>)
    requires CallInv(s, s.At(a.t)) && Enabled(s, a) && !(a.Run? && s.At(a.t).Acting?)
    ensures CallInv(s, Step(s, a).At(a.t))
  {
  }

  lemma ActKeepsQueue<T>(s: State<T>, t: Tid)
    requires MutexInv(s) && QueueInv(s) && Enabled(s, Run(t)) && s.At(t).Acting?
    ensures QueueInv(Step(s, Run(t)))
  {
    var s' := Step(s, Run(t));
    assert CallInv(s, s.At(t)) && s.owner == t;
    forall u: Tid
      ensures CallInv(s', s'.At(u))
    {
      assert CallInv(s, s.At(u));
      assert u != t ==> s'.At(u) == s.At(u) && !s.At(u).InMutex();
    }
  }

  lemma StepKeepsWake<T>(s: State<T>, a: Action<T>, side: Side)
    requires MutexInv(s) && QueueInv(s) && WakeInv(s, side) && Enabled(s, a)
    ensures WakeInv(Step(s, a), side)
  {
    match a
    case Begin(t, call) => GotoSets(s, t, Locking(call), side);
    case Run(t) =>
      if s.At(t).Acting? {
        ActKeepsWake(s, t, side);
      } else if s.At(t).Parking? {
        ParkKeepsWake(s, t, side);
      } else {
        RunKeepsWake(s, t, side);
      }
    case Notify(t, w) => NotifyKeepsWake(s, t, w, side);
    case Spurious(t) => GotoSets(s, t, Woken(s.At(t).call), side);
  }

  /** Whoever goes to wait has just seen that the queue has nothing for it. */
  lemma ParkKeepsWake<T>(s: State<T>, t: Tid, side: Side)
    requires MutexInv(s) && QueueInv(s) && WakeInv(s, side) && Enabled(s, Run(t)) && s.At(t).Parking?
    ensures WakeInv(Step(s, Run(t)), side)
  {
    var s' := Step(s, Run(t));
    GotoSets(s, t, s'.At(t), side);
    assert CallInv(s, s.At(t)) && s.owner == t;
  }

  /** A push gives the consumers one more item and owes them a notify; it uses up one free
      place, and a woken producer with it. A removal is the mirror image. */
  lemma ActKeepsWake<T>(s: State<T>, t: Tid, side: Side)
    requires MutexInv(s) && QueueInv(s) && WakeInv(s, side) && Enabled(s, Run(t)) && s.At(t).Acting?
    ensures WakeInv(Step(s, Run(t)), side)
  {
    var s' := Step(s, Run(t));
    GotoSets(s, t, s'.At(t), side);
    assert CallInv(s, s.At(t)) && s.owner == t;
  }

  lemma RunKeepsWake<T>(s: State<T>, t: Tid, side: Side)
    requires MutexInv(s) && QueueInv(s) && WakeInv(s, side) && Enabled(s, Run(t))
    requires !s.At(t).Acting? && !s.At(t).Parking?
    ensures WakeInv(Step(s, Run(t)), side)
  {
    var s' := Step(s, Run(t));
    GotoSets(s, t, s'.At(t), side);
    assert s.At(t).InMutex() ==> s.owner == t;
    assert CallInv(s, s.At(t));
  }

  /** A notify that was owed turns one waiter into a thread in transit. */
  lemma NotifyKeepsWake<T>(s: State<T>, t: Tid, w: Tid, side: Side)
    requires MutexInv(s) && QueueInv(s) && WakeInv(s, side) && Enabled(s, Notify(t, w))
    ensures WakeInv(Step(s, Notify(t, w)), side)
  {
    var woken := s.Goto(w, Woken(s.At(w).call));
    GotoSets(s, w, Woken(s.At(w).call), side);
    GotoSets(woken, t, Unlocking(s.At(t).result), side);
    assert s.owner == t && woken.At(t) == s.At(t);
  }

  // ---------------------------------------------------------------- every run

  lemma StepKeepsInv<T>(s: State<T>, a: Action<T>)
    requires Inv(s) && Enabled(s, a)
    ensures Inv(Step(s, a))
  {
    StepKeepsMutex(s, a);
    StepKeepsQueue(s, a);
    StepKeepsWake(s, a, Consumer);
    StepKeepsWake(s, a, Producer);
  }

  lemma {:induction false} RunKeepsInv<T>(s: State<T>, run: seq<Action<T>>)
    requires Inv(s) && Legal(s, run)
    ensures Inv(After(s, run))
    decreases |run|
  {
    if |run| > 0 {
      StepKeepsInv(s, run[0]);
      RunKeepsInv(Step(s, run[0]), run[1..]);
    }
  }

  lemma InitIsSafe<T>(discipline: Discipline)
    ensures Inv(Init<T>(discipline))
  {
    assert forall t: Tid :: Init<T>(discipline).At(t).Idle?;
  }

  /** Every state that any interleaving of any threads can reach satisfies the invariant. */
  lemma EveryRunIsSafe<T>(discipline: Discipline, run: seq<Action<T>>)
    requires Legal(Init<T>(discipline), run)
    ensures Inv(After(Init(discipline), run))
  {
    InitIsSafe<T>(discipline);
    RunKeepsInv(Init<T>(discipline), run);
  }

  /** First in, first out, for every interleaving: the values removed so far followed by the
      queue are the values put so far, in order, and a bounded queue never exceeds its capacity. */
  lemma QueueConserves<T>(discipline: Discipline, run: seq<Action<T>>)
    requires Legal(Init<T>(discipline), run)
    ensures var s := After(Init(discipline), run);
            && s.puts == s.takes + s.queue
            && s.takes <= s.puts
            && (discipline.Bounded? ==> |s.queue| <= discipline.capacity)
  {
    EveryRunIsSafe(discipline, run);
    RunKeepsDiscipline(Init<T>(discipline), run);
  }

  lemma {:induction false} RunKeepsDiscipline<T>(s: State<T>, run: seq<Action<T>>)
    requires Legal(s, run)
    ensures After(s, run).discipline == s.discipline
    decreases |run|
  {
    if |run| > 0 {
      RunKeepsDiscipline(Step(s, run[0]), run[1..]);
    }
  }

  /** In every reachable state, a put never overwrites the oldest element of the circular buffer,
      and a take always finds a front element: both asserts of the code hold. A put appends its
      value; a take removes and returns the front element, and a drain all elements. */
  lemma ActIsSafe<T>(discipline: Discipline, run: seq<Action<T>>, t: Tid)
    requires Legal(Init<T>(discipline), run) && After(Init<T>(discipline), run).At(t).Acting?
    ensures var s := After(Init<T>(discipline), run);
            && Enabled(s, Run(t))
            && var s' := Step(s, Run(t));
               match s.At(t).call
               case Put(x) => s'.queue == s.queue + [x]
               case Take =>
                 && s.queue != [] && s.queue == [s.queue[0]] + s'.queue
                 && (s'.At(t).Notifying? || s'.At(t).Unlocking?) && s'.At(t).result == [s.queue[0]]
               case Drain => s'.queue == [] && s'.At(t).Unlocking? && s'.At(t).result == s.queue
  {
    EveryRunIsSafe(discipline, run);
    var s := After(Init<T>(discipline), run);
    assert CallInv(s, s.At(t));
  }

  /** After every run, holder_ names the owner of the pthread mutex or nobody,
      isLockedByThisThread() is true for a thread exactly between its assignHolder and its
      unassignHolder, also across wait, and no two threads are inside the mutex. */
  lemma HolderIsExact<T>(discipline: Discipline, run: seq<Action<T>>, t: Tid)
    requires Legal(Init<T>(discipline), run)
    ensures var s := After(Init<T>(discipline), run);
            && (s.holder != 0 ==> s.holder == s.owner)
            && (s.IsLockedByThisThread(t) <==> s.At(t).Holding())
            && (s.At(t).InMutex() ==> s.owner == t && forall u: Tid :: u != t ==> !s.At(u).InMutex())
            && (match s.At(t)
                case Testing(_, _) => s.holder == t
                case Unassigning(_) => s.holder == t
                case Acting(_, _) => s.holder == t
                case Notifying(_, _) => s.holder == t
                case Unlocking(_) => s.holder == t
                case _ => s.holder != t)
  {
    EveryRunIsSafe(discipline, run);
    var s := After(Init<T>(discipline), run);
    if s.holder != 0 {
      assert s.At(s.holder).Holding() && s.At(s.holder).InMutex();
    }
    assert s.At(t).InMutex() <==> s.owner == t;
  }

  /** No lost wakeup, after any run. While a consumer waits, every queued value has a woken
      consumer on its way or a notify about to come; likewise for producers and free places. So
      with room for at least one value, a waiting producer and a waiting consumer never coexist
      unless some thread is on its way or about to notify. */
  lemma NoLostWakeup<T>(discipline: Discipline, run: seq<Action<T>>)
    requires Legal(Init<T>(discipline), run)
    ensures var s := After(Init<T>(discipline), run);
            && (s.Waiters(Consumer) != {} ==> |s.queue| <= |s.Transit(Consumer)| + s.Owed(Consumer))
            && (s.Waiters(Producer) != {} ==>
                  && discipline.Bounded?
                  && discipline.capacity - |s.queue| <= |s.Transit(Producer)| + s.Owed(Producer))
            && (s.Waiters(Consumer) != {} && s.Waiters(Producer) != {} && discipline.capacity > 0 ==>
                  || s.Transit(Consumer) != {} || s.Transit(Producer) != {}
                  || 0 < s.Owed(Consumer) + s.Owed(Producer))
  {
    EveryRunIsSafe(discipline, run);
    RunKeepsDiscipline(Init<T>(discipline), run);
    var s := After(Init<T>(discipline), run);
    if s.Waiters(Producer) != {} {
      var t :| t in s.Waiters(Producer);
      assert CallInv(s, s.At(t));
    }
  }

  // ---------------------------------------------------------------- progress

  /** Nothing can happen any more except a new call or a spurious wakeup. */
  ghost predicate Quiescent<T>(s: State<T>) {
    forall t: Tid :: s.At(t).Idle? || s.At(t).Waiting?
  }

  predicate Internal<T>(a: Action<T>) {
    a.Run? || a.Notify?
  }

  /** After no run is the system stuck: while any thread is under way, some thread can run. */
  lemma SomeThreadRuns<T>(discipline: Discipline, run: seq<Action<T>>) returns (a: Action<T>)
    requires Legal(Init<T>(discipline), run) && !Quiescent(After(Init<T>(discipline), run))
    ensures Enabled(After(Init<T>(discipline), run), a) && Internal(a)
  {
    EveryRunIsSafe(discipline, run);
    a := NextAction(After(Init<T>(discipline), run));
  }

  lemma NextAction<T>(s: State<T>) returns (a: Action<T>)
    requires Inv(s) && !Quiescent(s)
    ensures Enabled(s, a) && Internal(a)
  {
    var t: Tid :| !(s.At(t).Idle? || s.At(t).Waiting?);
    if s.owner == 0 {
      assert !s.At(t).InMutex();
      a := Run(t);
    } else {
      var o: Tid := s.owner;
      assert s.At(o).InMutex() && CallInv(s, s.At(o));
      if s.At(o).Notifying? && s.Waiters(Notified(s.At(o).call)) != {} {
        var w :| w in s.Waiters(Notified(s.At(o).call));
        a := Notify(o, w);
      } else {
        a := Run(o);
      }
    }
  }

  /** When nothing can happen after a run, every blocked call is blocked for a reason: consumers
      because the queue is empty, producers because it is full. The mutex is free and holder_ is
      cleared. */
  lemma WaitersHaveReason<T>(discipline: Discipline, run: seq<Action<T>>, t: Tid)
    requires Legal(Init<T>(discipline), run) && Quiescent(After(Init<T>(discipline), run))
    ensures var s := After(Init<T>(discipline), run);
            && s.owner == 0 && s.holder == 0
            && (s.At(t).Waiting? ==>
                  match s.At(t).call
                  case Put(_) => discipline.Bounded? && |s.queue| == discipline.capacity
                  case Take => s.queue == []
                  case Drain => false)
            && (discipline.Bounded? && discipline.capacity > 0 ==>
                  s.Waiters(Consumer) == {} || s.Waiters(Producer) == {})
  {
    EveryRunIsSafe(discipline, run);
    NoLostWakeup(discipline, run);
    RunKeepsDiscipline(Init<T>(discipline), run);
    var s := After(Init<T>(discipline), run);
    assert s.owner != 0 ==> s.At(s.owner).InMutex();
    assert s.holder != 0 ==> s.At(s.holder).Holding();
    forall u: Tid, side: Side
      ensures u !in s.Transit(side)
    {
      Members(s, u, side);
      assert s.At(u).Idle? || s.At(u).Waiting?;
    }
    assert forall side: Side :: s.Transit(side) == {};
    assert CallInv(s, s.At(t));
    Members(s, t, Consumer);
    Members(s, t, Producer);
  }

  /** How many more statements a thread has before it changes the queue, waits or returns. */
  function Rank<T>(pc: PC<T>): nat
    ensures Rank(pc) <= 8
  {
    match pc
    case Idle => 0
    case Waiting(_) => 0
    case Acting(_, _) => 0
    case Parking(_) => 1
    case Releasing(_) => 1
    case Unassigning(_) => 2
    case Unlocking(_) => 2
    case Testing(_, _) => 3
    case Assigning(_) => 4
    case Reassigning(_) => 4
    case Locking(_) => 5
    case Woken(_) => 5
    case Notifying(_, _) => 8
  }

  /** The thread has yet to change the queue in this call. */
  predicate Unserved<T>(pc: PC<T>) {
    !(pc.Idle? || pc.Notifying? || pc.Unlocking? || pc.Releasing?)
  }

  function UnservedThreads<T>(s: State<T>): set<Tid> {
    set t | t in s.threads && Unserved(s.threads[t])
  }

  function RankedThreads<T>(s: State<T>, k: nat): set<Tid> {
    set t | t in s.threads && k <= Rank(s.threads[t])
  }

  /** The sum of the ranks of all threads, counted level by level. */
  function RankSum<T>(s: State<T>, k: nat): nat {
    if k == 0 then 0 else RankSum(s, k - 1) + |RankedThreads(s, k)|
  }

  lemma {:induction false} GotoRank<T>(s: State<T>, t: Tid, pc: PC<T>, k: nat)
    ensures RankSum(s.Goto(t, pc), k) + Min(k, Rank(s.At(t))) == RankSum(s, k) + Min(k, Rank(pc))
  {
    if k > 0 {
      GotoRank(s, t, pc, k - 1);
      GotoRanked(s, t, pc, k);
    }
  }

  lemma GotoRanked<T>(s: State<T>, t: Tid, pc: PC<T>, k: nat)
    requires 0 < k
    ensures |RankedThreads(s.Goto(t, pc), k)| + (if k <= Rank(s.At(t)) then 1 else 0)
         == |RankedThreads(s, k)| + if k <= Rank(pc) then 1 else 0
  {
    var s' := s.Goto(t, pc);
    RankedMembers(s, t, k);
    RankedMembers(s', t, k);
    assert forall u: Tid :: u != t ==> (u in RankedThreads(s, k) <==> u in RankedThreads(s', k));
    OneMember(RankedThreads(s, k), RankedThreads(s', k), t);
  }

  lemma RankedMembers<T>(s: State<T>, t: Tid, k: nat)
    requires 0 < k
    ensures t in RankedThreads(s, k) <==> k <= Rank(s.At(t))
  {
  }

  function Min(a: nat, b: nat): nat {
    if a < b then a else b
  }

  lemma GotoUnserved<T>(s: State<T>, t: Tid, pc: PC<T>)
    ensures |UnservedThreads(s.Goto(t, pc))| + (if Unserved(s.At(t)) then 1 else 0)
         == |UnservedThreads(s)| + if Unserved(pc) then 1 else 0
  {
    OneMember(UnservedThreads(s), UnservedThreads(s.Goto(t, pc)), t);
    assert t in UnservedThreads(s.Goto(t, pc)) <==> Unserved(pc);
    assert t in UnservedThreads(s) <==> Unserved(s.At(t));
  }

  /** Calls still unserved, and among states with equally many of them the sum of the ranks. */
  predicate Smaller<T>(s': State<T>, s: State<T>) {
    || |UnservedThreads(s')| < |UnservedThreads(s)|
    || (|UnservedThreads(s')| == |UnservedThreads(s)| && RankSum(s', 8) < RankSum(s, 8))
  }

  /** No livelock: each statement either serves one more call or uses up rank. */
  lemma StepDecreases<T>(s: State<T>, a: Action<T>)
    requires Enabled(s, a) && Internal(a)
    ensures Smaller(Step(s, a), s)
  {
    if a.Run? {
      RunDecreases(s, a.t);
    } else {
      NotifyDecreases(s, a.t, a.woken);
    }
  }

  lemma RunDecreases<T>(s: State<T>, t: Tid)
    requires Enabled(s, Run(t))
    ensures Smaller(Step(s, Run(t)), s)
  {
    var s' := Step(s, Run(t));
    GotoUnserved(s, t, s'.At(t));
    GotoRank(s, t, s'.At(t), 8);
    SameThreads(s', s.Goto(t, s'.At(t)), 8);
  }

  lemma NotifyDecreases<T>(s: State<T>, t: Tid, w: Tid)
    requires Enabled(s, Notify(t, w))
    ensures Smaller(Step(s, Notify(t, w)), s)
  {
    var mid := s.Goto(w, Woken(s.At(w).call));
    var pc: PC<T> := Unlocking(s.At(t).result);
    GotoUnserved(s, w, Woken(s.At(w).call));
    GotoRank(s, w, Woken(s.At(w).call), 8);
    GotoUnserved(mid, t, pc);
    GotoRank(mid, t, pc, 8);
  }

  lemma {:induction false} SameThreads<T>(s: State<T>, s': State<T>, k: nat)
    requires s.threads == s'.threads
    ensures RankSum(s, k) == RankSum(s', k) && UnservedThreads(s) == UnservedThreads(s')
  {
    if k > 0 {
      SameThreads(s, s', k - 1);
    }
  }

  /** After any run, letting the threads run on leads to a state in which every call has returned
      or waits for a reason. */
  lemma Settles<T>(discipline: Discipline, run: seq<Action<T>>) returns (more: seq<Action<T>>)
    requires Legal(Init<T>(discipline), run)
    ensures forall a :: a in more ==> Internal(a)
    ensures Legal(Init<T>(discipline), run + more) && Quiescent(After(Init<T>(discipline), run + more))
  {
    EveryRunIsSafe(discipline, run);
    more := SettlingRun(After(Init<T>(discipline), run));
    RunOn(Init<T>(discipline), run, more);
  }

  lemma {:induction false} SettlingRun<T>(s: State<T>) returns (run: seq<Action<T>>)
    requires Inv(s)
    ensures Legal(s, run) && forall a :: a in run ==> Internal(a)
    ensures Quiescent(After(s, run))
    decreases |UnservedThreads(s)|, RankSum(s, 8)
  {
    if Quiescent(s) {
      run := [];
    } else {
      var a := NextAction(s);
      StepKeepsInv(s, a);
      StepDecreases(s, a);
      var rest := SettlingRun(Step(s, a));
      run := [a] + rest;
      assert run[1..] == rest;
    }
  }

  lemma {:induction false} RunOn<T>(s: State<T>, run: seq<Action<T>>, more: seq<Action<T>>)
    requires Legal(s, run) && Legal(After(s, run), more)
    ensures Legal(s, run + more) && After(s, run + more) == After(After(s, run), more)
    decreases |run|
  {
    if run == [] {
      assert run + more == more;
    } else {
      RunOn(Step(s, run[0]), run[1..], more);
      assert (run + more)[1..] == run[1..] + more;
    }
  }
}

/**
  The blocking queues as a protocol of threads: BoundedBlockingQueue and BlockingQueue
  (thirdpart/muduo-vip/muduo/base), with every step of MutexLock and Condition visible.

  Any number of threads call put, take and drain. A thread's program counter names the next
  statement it will run; one action of the system is one such statement. Any thread that
  could run may run, a woken thread competes for the mutex with newcomers, and a waiting
  thread may wake up without being notified.
*/
module MonitorQueues {
  import opened CircularBuffers

  /** A thread id as the kernel hands it out; 0 stands for nobody. */
  type Tid = t: int | 0 < t witness 1

  /** Which of the two queue classes is meant. */
  datatype Discipline = Bounded(capacity: nat) | Unbounded

  datatype Call<T> = Put(x: T) | Take | Drain

  /** The two sides of a queue. Consumers wait on notEmpty_, producers on notFull_. */
  datatype Side = Consumer | Producer

  datatype PC<T> =
    | Idle                                       // not in a call
    | Locking(call: Call<T>)                     // lock(): pthread_mutex_lock
    | Assigning(call: Call<T>)                   // lock(): assignHolder
    | Testing(call: Call<T>, woken: bool)        // the test of the while loop
    | Unassigning(call: Call<T>)                 // wait(): UnassignGuard is constructed
    | Parking(call: Call<T>)                     // wait(): pthread_cond_wait is entered
    | Waiting(call: Call<T>)                     // blocked on the condition, mutex released
    | Woken(call: Call<T>)                       // woken, pthread_cond_wait wants the mutex back
    | Reassigning(call: Call<T>)                 // wait(): UnassignGuard is destroyed
    | Acting(call: Call<T>, woken: bool)         // the statement that changes the queue
    | Notifying(call: Call<T>, result: seq<T>)   // notify() on the other side's condition
    | Unlocking(result: seq<T>)                  // unlock(): unassignHolder
    | Releasing(result: seq<T>)                  // unlock(): pthread_mutex_unlock
  {
    /** The thread owns the pthread mutex. */
    predicate InMutex() {
      Assigning? || Testing? || Unassigning? || Parking? || Reassigning?
      || Acting? || Notifying? || Unlocking? || Releasing?
    }

    /** The thread is between its assignHolder and its unassignHolder. */
    predicate Holding() {
      Testing? || Unassigning? || Acting? || Notifying? || Unlocking?
    }

    predicate WaitsAs(side: Side) {
      Waiting? && OnSide(call, side)
    }

    /** Woken from its wait, and has neither changed the queue nor gone back to wait. */
    predicate InTransit(side: Side) {
      || ((Woken? || Reassigning?) && OnSide(call, side))
      || ((Testing? || Acting?) && woken && OnSide(call, side))
    }

    /** Has changed the queue and is about to notify this side. */
    predicate OwesNotify(side: Side) {
      Notifying? && if side.Consumer? then call.Put? else call.Take?
    }
  }

  predicate OnSide<T>(call: Call<T>, side: Side) {
    if side.Consumer? then call.Take? else call.Put?
  }

  datatype State<T> = State(
    discipline: Discipline,
    queue: seq<T>,              // queue_, front first
    owner: int,                 // who owns the pthread mutex, or 0
    holder: int,                // holder_
    threads: map<Tid, PC<T>>,
    puts: seq<T>,               // every value put so far, in the order of the pushes
    takes: seq<T>)              // every value taken or drained so far, in the order of removal
  {
    function At(t: Tid): PC<T> {
      if t in threads then threads[t] else Idle
    }

    function Goto(t: Tid, pc: PC<T>): State<T> {
      this.(threads := threads[t := pc])
    }

    /** The condition of the while loop: full() for put, empty() for take. */
    predicate Blocked(call: Call<T>) {
      match call
      case Put(_) => discipline.Bounded? && |queue| >= discipline.capacity
      case Take => |queue| == 0
      case Drain => false
    }

    predicate IsLockedByThisThread(t: Tid) {
      holder == t
    }

    function Waiters(side: Side): set<Tid> {
      set t | t in threads && threads[t].WaitsAs(side)
    }

    function Transit(side: Side): set<Tid> {
      set t | t in threads && threads[t].InTransit(side)
    }

    /** 1 while the owner of the mutex still owes this side a notify, else 0. */
    function Owed(side: Side): nat {
      if 0 < owner && At(owner).OwesNotify(side) then 1 else 0
    }

    /** How many more calls of this side the queue could serve at once. */
    function Supply(side: Side): int {
      match side
      case Consumer => |queue|
      case Producer => if discipline.Bounded? then discipline.capacity - |queue| else 0
    }
  }

  function Init<T>(discipline: Discipline): State<T> {
    State(discipline, [], 0, 0, map[], [], [])
  }

  // ---------------------------------------------------------------- actions

  datatype Action<T> =
    | Begin(t: Tid, call: Call<T>)   // a thread enters put, take or drain
    | Run(t: Tid)                    // a thread runs its next statement
    | Notify(t: Tid, woken: Tid)     // a thread's notify wakes a waiting thread
    | Spurious(t: Tid)               // a waiting thread wakes up by itself

  /** The side whose condition variable a call notifies. */
  function Notified<T>(call: Call<T>): Side {
    if call.Put? then Consumer else Producer
  }

  predicate Enabled<T>(s: State<T>, a: Action<T>) {
    match a
    case Begin(t, call) =>
      s.At(t).Idle? && (call.Drain? ==> s.discipline.Unbounded?)
    case Run(t) =>
      (match s.At(t)
       case Idle => false
       case Locking(_) => s.owner == 0
       case Woken(_) => s.owner == 0
       case Waiting(_) => false
       case Acting(call, _) => !s.Blocked(call)   // the assert before the change
       case Notifying(call, _) => s.Waiters(Notified(call)) == {}
       case _ => true)
    case Notify(t, w) =>
      s.At(t).Notifying? && s.At(w).WaitsAs(Notified(s.At(t).call))
    case Spurious(t) =>
      s.At(t).Waiting?
  }

  function Step<T>(s: State<T>, a: Action<T>): State<T>
    requires Enabled(s, a)
  {
    match a
    case Begin(t, call) => s.Goto(t, Locking(call))
    case Run(t) => RunThread(s, t)
    case Notify(t, w) =>
      var pc := s.At(t);
      s.Goto(w, Woken(s.At(w).call)).Goto(t, Unlocking(pc.result))
    case Spurious(t) => s.Goto(t, Woken(s.At(t).call))
  }

  function RunThread<T>(s: State<T>, t: Tid): State<T>
    requires Enabled(s, Run(t))
  {
    match s.At(t)
    case Locking(call) => s.(owner := t).Goto(t, Assigning(call))
    case Assigning(call) => s.(holder := t).Goto(t, Testing(call, false))
    case Testing(call, woken) =>
      s.Goto(t, if s.Blocked(call) then Unassigning(call) else Acting(call, woken))
    case Unassigning(call) => s.(holder := 0).Goto(t, Parking(call))
    case Parking(call) => s.(owner := 0).Goto(t, Waiting(call))
    case Woken(call) => s.(owner := t).Goto(t, Reassigning(call))
    case Reassigning(call) => s.(holder := t).Goto(t, Testing(call, true))
    case Acting(call, _) => Act(s, t, call)
    case Notifying(_, result) => s.Goto(t, Unlocking(result))
    case Unlocking(result) => s.(holder := 0).Goto(t, Releasing(result))
    case Releasing(_) => s.(owner := 0).Goto(t, Idle)
  }

  /** The bounded queue pushes onto a circular buffer, which would overwrite when full. */
  function Act<T>(s: State<T>, t: Tid, call: Call<T>): State<T>
    requires !s.Blocked(call)
  {
    match call
    case Put(x) =>
      var queue := if s.discipline.Unbounded? || s.discipline.capacity < |s.queue| then s.queue + [x]
                   else PushBack(s.queue, x, s.discipline.capacity);
      s.(queue := queue, puts := s.puts + [x]).Goto(t, Notifying(call, []))
    case Take =>
      var result := [s.queue[0]];
      s.(queue := s.queue[1..], takes := s.takes + result)
       .Goto(t, if s.discipline.Bounded? then Notifying(call, result) else Unlocking(result))
    case Drain =>
      s.(queue := [], takes := s.takes + s.queue).Goto(t, Unlocking(s.queue))
  }

  // ---------------------------------------------------------------- runs

  predicate Legal<T>(s: State<T>, run: seq<Action<T>>)
    decreases |run|
  {
    |run| > 0 ==> Enabled(s, run[0]) && Legal(Step(s, run[0]), run[1..])
  }

  function After<T>(s: State<T>, run: seq<Action<T>>): State<T>
    requires Legal(s, run)
    decreases |run|
  {
    if |run| == 0 then s else After(Step(s, run[0]), run[1..])
  }

  // ---------------------------------------------------------------- invariants

  /** The pthread mutex excludes, and holder_ names exactly the thread that has assigned it. */
  ghost predicate MutexInv<T>(s: State<T>) {
    && 0 <= s.owner && 0 <= s.holder
    && (forall t: Tid :: s.At(t).InMutex() <==> s.owner == t)
    && (forall t: Tid :: s.At(t).Holding() <==> s.holder == t)
  }

  /** What a thread has found out about the queue stays true until it lets go of the mutex;
      nothing is lost, repeated or reordered. */
  ghost predicate QueueInv<T>(s: State<T>) {
    && s.puts == s.takes + s.queue
    && (s.discipline.Bounded? ==> |s.queue| <= s.discipline.capacity)
    && (forall t: Tid :: CallInv(s, s.At(t)))
  }

  ghost predicate CallInv<T>(s: State<T>, pc: PC<T>) {
    && ((pc.Unassigning? || pc.Parking?) ==> s.Blocked(pc.call))
    && (pc.Acting? ==> !s.Blocked(pc.call))
    && (pc.WaitsAs(Producer) || pc.InTransit(Producer) || pc.OwesNotify(Producer) ==> s.discipline.Bounded?)
    && (pc.Waiting? || pc.Woken? || pc.Reassigning? || pc.Notifying? ==> !pc.call.Drain?)
    && (!pc.Idle? && !pc.Unlocking? && !pc.Releasing? && pc.call.Drain? ==> s.discipline.Unbounded?)
  }

  /** While anyone of a side waits, all the queue has to offer that side is spoken for: by a
      woken thread of that side on its way, or by a notify about to happen. */
  ghost predicate WakeInv<T>(s: State<T>, side: Side) {
    s.Waiters(side) != {} ==> s.Supply(side) <= |s.Transit(side)| + s.Owed(side)
  }

  ghost predicate Inv<T>(s: State<T>) {
    MutexInv(s) && QueueInv(s) && WakeInv(s, Consumer) && WakeInv(s, Producer)
  }
}

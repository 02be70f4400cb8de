/**
  What the callers of the blocking queues get: every call is served once, in the order in which its
  thread made it, and returns exactly what it removed.
*/
module MonitorResults {
  import opened Bytes
  import opened MonitorProofs
  import opened MonitorQueues

  /** A call that has been served: the queue it found, and what it took out of it. */
  datatype Served<T> = Served(call: Call<T>, found: seq<T>, removed: seq<T>) {
    /** put takes nothing, take takes the front element, and drain takes everything. */
    ghost predicate Right() {
      match call
      case Put(_) => removed == []
      case Take => found != [] && removed == [found[0]]
      case Drain => removed == found
    }
  }

  /** What left the front of the queue from one state to another. */
  function Removed<T>(before: seq<T>, after: seq<T>): seq<T> {
    if |after| < |before| then before[..|before| - |after|] else []
  }

  // ---------------------------------------------------------------- the history of one thread

  /** The calls that thread t begins, in order. */
  function Begun<T>(s: State<T>, run: seq<Action<T>>, t: Tid): seq<Call<T>>
    requires Legal(s, run)
    decreases |run|
  {
    if |run| == 0 then [] else BegunIn(run[0], t) + Begun(Step(s, run[0]), run[1..], t)
  }

  function BegunIn<T>(a: Action<T>, t: Tid): seq<Call<T>> {
    if a.Begin? && a.t == t then [a.call] else []
  }

  /** The calls of thread t that change the queue, in order. */
  function ServedTo<T>(s: State<T>, run: seq<Action<T>>, t: Tid): seq<Served<T>>
    requires Legal(s, run)
    decreases |run|
  {
    if |run| == 0 then [] else ServedIn(s, run[0], t) + ServedTo(Step(s, run[0]), run[1..], t)
  }

  function ServedIn<T>(s: State<T>, a: Action<T>, t: Tid): seq<Served<T>>
    requires Enabled(s, a)
  {
    if Acts(s, a) && a.t == t then [Served(s.At(t).call, s.queue, Removed(s.queue, Step(s, a).queue))] else []
  }

  predicate Acts<T>(s: State<T>, a: Action<T>) {
    a.Run? && s.At(a.t).Acting?
  }

  /** The results of thread t's calls, in the order in which they return. */
  function Returned<T>(s: State<T>, run: seq<Action<T>>, t: Tid): seq<seq<T>>
    requires Legal(s, run)
    decreases |run|
  {
    if |run| == 0 then [] else ReturnedIn(s, run[0], t) + Returned(Step(s, run[0]), run[1..], t)
  }

  function ReturnedIn<T>(s: State<T>, a: Action<T>, t: Tid): seq<seq<T>> {
    if a.Run? && a.t == t && s.At(t).Releasing? then [s.At(t).result] else []
  }

  /** The result that a thread is on its way to return. */
  function Carried<T>(pc: PC<T>): seq<seq<T>> {
    if pc.Notifying? || pc.Unlocking? || pc.Releasing? then [pc.result] else []
  }

  /** The call that a thread has begun and that is not yet served. */
  function Pending<T>(pc: PC<T>): seq<Call<T>> {
    if pc.Idle? || pc.Notifying? || pc.Unlocking? || pc.Releasing? then [] else [pc.call]
  }

  function Calls<T>(served: seq<Served<T>>): (r: seq<Call<T>>)
    ensures |r| == |served| && forall i :: 0 <= i < |r| ==> r[i] == served[i].call
  {
    seq(|served|, i requires 0 <= i < |served| => served[i].call)
  }

  function Removals<T>(served: seq<Served<T>>): (r: seq<seq<T>>)
    ensures |r| == |served| && forall i :: 0 <= i < |r| ==> r[i] == served[i].removed
  {
    seq(|served|, i requires 0 <= i < |served| => served[i].removed)
  }

  /** After every run, the results that a thread got, with the one it is about to get, are what its
      calls removed; these are the calls it began, but for one that is still pending. Each take
      removed just the front element of the queue it found, each drain all of it. */
  lemma CallersGetWhatTheyRemoved<T>(discipline: Discipline, run: seq<Action<T>>, t: Tid)
    requires Legal(Init<T>(discipline), run)
    ensures var s := Init<T>(discipline);
            && Returned(s, run, t) + Carried(After(s, run).At(t)) == Removals(ServedTo(s, run, t))
            && Begun(s, run, t) == Calls(ServedTo(s, run, t)) + Pending(After(s, run).At(t))
            && forall r :: r in ServedTo(s, run, t) ==> r.Right()
  {
    var s := Init<T>(discipline);
    InitIsSafe<T>(discipline);
    ResultsHandedOn(s, run, t);
    CallsHandedOn(s, run, t);
    AllRight(s, run, t);
    assert Carried(s.At(t)) == [] && Pending(s.At(t)) == [];
    assert [] + Removals(ServedTo(s, run, t)) == Removals(ServedTo(s, run, t));
    assert [] + Begun(s, run, t) == Begun(s, run, t);
  }

  // ---------------------------------------------------------------- one statement

  /** Serving a call turns it into the result that the thread will return. */
  lemma ActServes<T>(s: State<T>, t: Tid)
    requires Inv(s) && Enabled(s, Run(t)) && s.At(t).Acting?
    ensures var s', removed := Step(s, Run(t)), Removed(s.queue, Step(s, Run(t)).queue);
            && Served(s.At(t).call, s.queue, removed).Right()
            && Carried(s'.At(t)) == [removed] && Pending(s'.At(t)) == []
            && s'.takes == s.takes + removed
            && s'.puts == s.puts + (if s.At(t).call.Put? then [s.At(t).call.x] else [])
  {
    assert CallInv(s, s.At(t));
  }

  lemma OthersServeNothing<T>(s: State<T>, a: Action<T>, t: Tid)
    requires Inv(s) && Enabled(s, a) && !Acts(s, a)
    ensures Carried(s.At(t)) == ReturnedIn(s, a, t) + Carried(Step(s, a).At(t))
    ensures Pending(s.At(t)) + BegunIn(a, t) == Pending(Step(s, a).At(t))
    ensures Step(s, a).takes == s.takes && Step(s, a).puts == s.puts
  {
  }

  lemma ActIsPrivate<T>(s: State<T>, a: Action<T>, t: Tid)
    requires Enabled(s, a) && Acts(s, a) && a.t != t
    ensures Step(s, a).At(t) == s.At(t)
  {
  }

  lemma ResultsInStep<T>(s: State<T>, a: Action<T>, t: Tid)
    requires Inv(s) && Enabled(s, a)
    ensures Carried(s.At(t)) + Removals(ServedIn(s, a, t)) == ReturnedIn(s, a, t) + Carried(Step(s, a).At(t))
  {
    if !Acts(s, a) {
      OthersServeNothing(s, a, t);
    } else if a.t == t {
      ActServes(s, t);
    } else {
      ActIsPrivate(s, a, t);
    }
  }

  lemma CallsInStep<T>(s: State<T>, a: Action<T>, t: Tid)
    requires Inv(s) && Enabled(s, a)
    ensures Pending(s.At(t)) + BegunIn(a, t) == Calls(ServedIn(s, a, t)) + Pending(Step(s, a).At(t))
  {
    if !Acts(s, a) {
      OthersServeNothing(s, a, t);
    } else if a.t == t {
      ActServes(s, t);
    } else {
      ActIsPrivate(s, a, t);
    }
  }

  // ---------------------------------------------------------------- whole runs

  /** What one step hands on and what the later steps hand on, put together. */
  lemma Chain<U>(start: seq<U>, first: seq<U>, out: seq<U>, mid: seq<U>, later: seq<U>, outs: seq<U>, end: seq<U>)
    requires start + first == out + mid && mid + later == outs + end
    ensures start + (first + later) == (out + outs) + end
  {
    AppendTwice(start, first, later);
    AppendTwice(out, mid, later);
    AppendTwice(out, outs, end);
  }

  lemma RemovalsOfBoth<T>(a: seq<Served<T>>, b: seq<Served<T>>)
    ensures Removals(a + b) == Removals(a) + Removals(b) && Calls(a + b) == Calls(a) + Calls(b)
  {
  }

  lemma {:induction false} ResultsHandedOn<T>(s: State<T>, run: seq<Action<T>>, t: Tid)
    requires Inv(s) && Legal(s, run)
    ensures Carried(s.At(t)) + Removals(ServedTo(s, run, t)) == Returned(s, run, t) + Carried(After(s, run).At(t))
    decreases |run|
  {
    if |run| > 0 {
      var s', now := Step(s, run[0]), ServedIn(s, run[0], t);
      StepKeepsInv(s, run[0]);
      ResultsHandedOn(s', run[1..], t);
      ResultsInStep(s, run[0], t);
      RemovalsOfBoth(now, ServedTo(s', run[1..], t));
      Chain(Carried(s.At(t)), Removals(now), ReturnedIn(s, run[0], t), Carried(s'.At(t)),
            Removals(ServedTo(s', run[1..], t)), Returned(s', run[1..], t), Carried(After(s, run).At(t)));
    }
  }

  lemma {:induction false} CallsHandedOn<T>(s: State<T>, run: seq<Action<T>>, t: Tid)
    requires Inv(s) && Legal(s, run)
    ensures Pending(s.At(t)) + Begun(s, run, t) == Calls(ServedTo(s, run, t)) + Pending(After(s, run).At(t))
    decreases |run|
  {
    if |run| > 0 {
      var s', now := Step(s, run[0]), ServedIn(s, run[0], t);
      StepKeepsInv(s, run[0]);
      CallsHandedOn(s', run[1..], t);
      CallsInStep(s, run[0], t);
      RemovalsOfBoth(now, ServedTo(s', run[1..], t));
      Chain(Pending(s.At(t)), BegunIn(run[0], t), Calls(now), Pending(s'.At(t)),
            Begun(s', run[1..], t), Calls(ServedTo(s', run[1..], t)), Pending(After(s, run).At(t)));
    }
  }

  lemma {:induction false} AllRight<T>(s: State<T>, run: seq<Action<T>>, t: Tid)
    requires Inv(s) && Legal(s, run)
    ensures forall r :: r in ServedTo(s, run, t) ==> r.Right()
    decreases |run|
  {
    if |run| > 0 {
      StepKeepsInv(s, run[0]);
      AllRight(Step(s, run[0]), run[1..], t);
      if Acts(s, run[0]) {
        ActServes(s, run[0].t);
      }
    }
  }

  // ---------------------------------------------------------------- the history of the queue

  /** The values that calls put, in the order in which they are served. */
  function PutInAll<T>(s: State<T>, run: seq<Action<T>>): seq<T>
    requires Legal(s, run)
    decreases |run|
  {
    if |run| == 0 then [] else PutIn(s, run[0]) + PutInAll(Step(s, run[0]), run[1..])
  }

  function PutIn<T>(s: State<T>, a: Action<T>): seq<T> {
    if Acts(s, a) && s.At(a.t).call.Put? then [s.At(a.t).call.x] else []
  }

  /** The values that calls remove, in the order in which they are served. */
  function RemovedInAll<T>(s: State<T>, run: seq<Action<T>>): seq<T>
    requires Legal(s, run)
    decreases |run|
  {
    if |run| == 0 then [] else RemovedIn(s, run[0]) + RemovedInAll(Step(s, run[0]), run[1..])
  }

  function RemovedIn<T>(s: State<T>, a: Action<T>): seq<T>
    requires Enabled(s, a)
  {
    if Acts(s, a) then Removed(s.queue, Step(s, a).queue) else []
  }

  /** First in, first out, in terms of the calls: what all calls removed, in order, followed by the
      queue, is what all calls put, in order. */
  lemma FirstInFirstOut<T>(discipline: Discipline, run: seq<Action<T>>)
    requires Legal(Init<T>(discipline), run)
    ensures var s := Init<T>(discipline);
            PutInAll(s, run) == RemovedInAll(s, run) + After(s, run).queue
  {
    var s := Init<T>(discipline);
    InitIsSafe<T>(discipline);
    Recorded(s, run);
    EveryRunIsSafe(discipline, run);
    assert [] + PutInAll(s, run) == PutInAll(s, run) && [] + RemovedInAll(s, run) == RemovedInAll(s, run);
  }

  lemma {:induction false} Recorded<T>(s: State<T>, run: seq<Action<T>>)
    requires Inv(s) && Legal(s, run)
    ensures After(s, run).puts == s.puts + PutInAll(s, run)
    ensures After(s, run).takes == s.takes + RemovedInAll(s, run)
    decreases |run|
  {
    if |run| > 0 {
      var s' := Step(s, run[0]);
      StepKeepsInv(s, run[0]);
      RecordedInStep(s, run[0]);
      Recorded(s', run[1..]);
      AppendTwice(s.puts, PutIn(s, run[0]), PutInAll(s', run[1..]));
      AppendTwice(s.takes, RemovedIn(s, run[0]), RemovedInAll(s', run[1..]));
    }
  }

  lemma RecordedInStep<T>(s: State<T>, a: Action<T>)
    requires Inv(s) && Enabled(s, a)
    ensures Step(s, a).puts == s.puts + PutIn(s, a)
    ensures Step(s, a).takes == s.takes + RemovedIn(s, a)
  {
    if Acts(s, a) {
      ActServes(s, a.t);
    } else {
      OthersServeNothing(s, a, a.t);
    }
  }
}

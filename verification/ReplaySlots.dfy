/**
  The recycled vectors of a game replay (struct tagGameReplay in public/gameStruct.h). The
  vectors of players, steps and results all work alike: clear() only marks the slots as
  invalid, and adding an entry overwrites the first invalid slot before it grows the vector.
*/
module ReplaySlots {

  datatype Slot<T> = Slot(entry: T, flag: bool)

  datatype Event<T> = Clear | Add(entry: T)

  /** The entries added since the last clear, in order. */
  function Round<T>(log: seq<Event<T>>): seq<T> {
    if log == [] then []
    else
      match log[|log| - 1]
      case Clear => []
      case Add(x) => Round(log[..|log| - 1]) + [x]
  }

  function Adds<T>(xs: seq<T>): (r: seq<Event<T>>)
    ensures |r| == |xs| && forall i :: 0 <= i < |r| ==> r[i] == Add(xs[i])
  {
    seq(|xs|, i requires 0 <= i < |xs| => Add(xs[i]))
  }

  /** A round consists of what was added since the last clear, or since the beginning. */
  lemma {:induction false} RoundIsAdds<T>(log: seq<Event<T>>, xs: seq<T>)
    requires log == [] || log[|log| - 1] == Clear
    ensures Round(log + Adds(xs)) == xs
  {
    if xs == [] {
      assert log + Adds(xs) == log;
    } else {
      var shorter := xs[..|xs| - 1];
      assert Adds(xs) == Adds(shorter) + [Add(xs[|xs| - 1])];
      var whole := log + Adds(xs);
      assert whole[..|whole| - 1] == log + Adds(shorter);
      RoundIsAdds(log, shorter);
      assert xs == shorter + [xs[|xs| - 1]];
    }
  }

  /** The largest number of entries that any round has had. */
  ghost function Longest<T>(log: seq<Event<T>>): nat {
    if log == [] then 0
    else
      var before := Longest(log[..|log| - 1]);
      if before < |Round(log)| then |Round(log)| else before
  }

  /** No round has been longer, and some round was that long. */
  lemma {:induction false} LongestIsMaximum<T>(log: seq<Event<T>>)
    ensures forall k :: 0 <= k <= |log| ==> |Round(log[..k])| <= Longest(log)
    ensures exists k :: 0 <= k <= |log| && |Round(log[..k])| == Longest(log)
  {
    assert log[..|log|] == log;
    if log != [] {
      var shorter := log[..|log| - 1];
      LongestIsMaximum(shorter);
      assert forall k :: 0 <= k < |log| ==> shorter[..k] == log[..k];
      var k :| 0 <= k <= |shorter| && |Round(shorter[..k])| == Longest(shorter);
      assert |Round(log[..k])| == Longest(shorter);
    }
  }

  class Slots<T> {
    var slots: seq<Slot<T>>

    ghost var log: seq<Event<T>>

    /** The valid slots come first and hold the round's entries in order; the vector is as long
        as the longest round ever. */
    ghost predicate Valid()
      reads this
    {
      && |Round(log)| <= |slots| == Longest(log)
      && (forall i :: 0 <= i < |slots| ==> (slots[i].flag <==> i < |Round(log)|))
      && (forall i :: 0 <= i < |Round(log)| ==> slots[i].entry == Round(log)[i])
    }

    constructor ()
      ensures Valid() && log == []
    {
      slots, log := [], [];
    }

    method Clear()
      requires Valid()
      modifies this
      ensures Valid() && log == old(log) + [Event.Clear]
    {
      for i := 0 to |slots|
        invariant |slots| == |old(slots)| && log == old(log)
        invariant forall k :: 0 <= k < i ==> !slots[k].flag
      {
        slots := slots[i := slots[i].(flag := false)];
      }
      log := log + [Event.Clear];
      assert log[..|log| - 1] == old(log);
    }

    /** addPlayer, addStep and addResult. */
    method Add(entry: T)
      requires Valid()
      modifies this
      ensures Valid() && log == old(log) + [Event.Add(entry)]
    {
      var i := 0;
      while i < |slots|
        invariant 0 <= i <= |slots| && forall k :: 0 <= k < i ==> slots[k].flag
      {
        if slots[i].flag == false {
          break;
        }
        i := i + 1;
      }
      assert 0 < i ==> slots[i - 1].flag;
      assert i == |Round(log)|;
      if i == |slots| {
        slots := slots + [Slot(entry, true)];
      } else {
        slots := slots[i := Slot(entry, true)];
      }
      log := log + [Event.Add(entry)];
      assert log[..|log| - 1] == old(log);
    }
  }
}

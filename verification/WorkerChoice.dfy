/**
  The round-robin choice of a worker thread (Context::setWorker in
  Framework/game_gate/EntryPtr.h) by a 32-bit counter that wraps around, converted to a
  64-bit size before the division.
*/
module WorkerChoice {

  const TWO31: int := 0x8000_0000
  const TWO32: int := 0x1_0000_0000
  const TWO64: int := 0x1_0000_0000_0000_0000

  type int32 = v: int | -TWO31 <= v < TWO31

  /** Two's complement wrap-around. */
  function Wrap(v: int): int32 {
    (v + TWO31) % TWO32 - TWO31
  }

  /** The conversion of an int32_t operand to size_t. */
  function ToSize(v: int32): nat {
    if v < 0 then v + TWO64 else v
  }

  /** Both conversions keep the value modulo the size of their type. */
  lemma Conversions(v: int, x: int32)
    ensures -0x8000_0000 <= Wrap(v) < 0x8000_0000 && (Wrap(v) - v) % 0x1_0000_0000 == 0
    ensures ToSize(x) < 0x1_0000_0000_0000_0000 && (ToSize(x) - x) % 0x1_0000_0000_0000_0000 == 0
  {
  }

  /** The worker that a call finds when the counter stands at `v`. */
  function Pick(v: int32, n: nat): nat
    requires 0 < n
  {
    ToSize(v) % n
  }

  /** AtomicInt32, as far as a single getAndAdd or getAndSet is concerned. */
  class AtomicInt32 {
    var value: int32

    constructor ()
      ensures value == 0
    {
      value := 0;
    }

    method GetAndAdd(x: int32) returns (before: int32)
      modifies this
      ensures before == old(value) && value == Wrap(old(value) + x)
    {
      before := value;
      value := Wrap(value + x);
    }

    method GetAndSet(x: int32) returns (before: int32)
      modifies this
      ensures before == old(value) && value == x
    {
      before := value;
      value := x;
    }
  }

  /** The index is within bounds for every counter and every number of workers; up to 2^31
      workers it is the counter's remainder, and the branch that restarts the counter is never taken.
      With more workers it is, when the low 32 bits of the remainder read as a negative number. */
  method SetWorker(nextPool: AtomicInt32, n: nat) returns (index: int)
    requires 0 < n < TWO64
    modifies nextPool
    ensures 0 <= index < n
    ensures n <= TWO31 ==> index == Pick(old(nextPool.value), n) && nextPool.value == Wrap(old(nextPool.value) + 1)
    ensures var r := ToSize(old(nextPool.value)) % n % 0x1_0000_0000;
            if r < 0x8000_0000 then index == r && nextPool.value == Wrap(old(nextPool.value) + 1)
            else index == 0 && nextPool.value == 1
  {
    var counter := nextPool.GetAndAdd(1);
    LowBits(ToSize(counter) % n);
    SmallWrap(ToSize(counter) % n);
    index := Wrap(ToSize(counter) % n);
    if index < 0 {
      var _ := nextPool.GetAndSet(0);
      index := nextPool.GetAndAdd(1);
    }
  }

  /** The conversion of a size_t to int keeps the low 32 bits, read with a sign. */
  lemma LowBits(v: nat)
    ensures Wrap(v) == if v % 0x1_0000_0000 < 0x8000_0000 then v % 0x1_0000_0000
                       else v % 0x1_0000_0000 - 0x1_0000_0000
  {
  }

  lemma SmallWrap(v: nat)
    ensures v < TWO31 ==> Wrap(v) == v
    ensures Wrap(0) == 0 && Wrap(Wrap(0) + 1) == 1
  {
  }

  // ---------------------------------------------------------------- n calls in a row

  /** The worker that the k-th of a series of calls gets, the counter standing at `v` before. */
  function Choice(v: int32, n: nat, k: nat): nat
    requires 0 < n
  {
    Pick(Wrap(v + k), n)
  }

  /** A new counter serves the workers in turn, until it wraps around. */
  lemma InTurn(n: nat, k: nat)
    requires 0 < n && k < 0x8000_0000
    ensures Choice(0, n, k) == k % n
  {
  }

  /** The workers of the first so many calls. */
  function Choices(v: int32, n: nat, calls: nat): (picks: seq<nat>)
    requires 0 < n
    ensures |picks| == calls
    ensures forall k :: 0 <= k < calls ==> picks[k] == Choice(v, n, k)
  {
    seq(calls, k requires 0 <= k < calls => Choice(v, n, k))
  }

  /** Every number below the length occurs, and none twice. */
  ghost predicate Permutes(picks: seq<nat>) {
    && (forall w: nat :: w < |picks| ==> w in picks)
    && (forall j, k :: 0 <= j < k < |picks| ==> picks[j] != picks[k])
  }

  /** n calls in a row give every worker exactly one connection. */
  ghost predicate EachOnce(v: int32, n: nat)
    requires 0 < n
  {
    Permutes(Choices(v, n, n))
  }

  /** Calls in a row, as new connections arrive. */
  method SetWorkers(nextPool: AtomicInt32, n: nat, calls: nat) returns (picks: seq<nat>)
    requires 0 < n <= TWO31
    modifies nextPool
    ensures picks == Choices(old(nextPool.value), n, calls)
    ensures nextPool.value == Wrap(old(nextPool.value) + calls)
    ensures calls == n ==> (Permutes(picks) <==> Slip(old(nextPool.value), n) % n == 0)
  {
    ghost var v := nextPool.value;
    picks := [];
    WrapOnce(v, 0);
    for i := 0 to calls
      invariant nextPool.value == Wrap(v + i)
      invariant picks == Choices(v, n, i)
    {
      var pick := SetWorker(nextPool, n);
      picks := picks + [pick];
      WrapOnce(v, i);
      assert Choice(v, n, i) == pick;
    }
    if calls == n {
      EachOnceExactly(v, n);
    }
  }

  /** Counting on one by one wraps as counting on at once. */
  lemma WrapOnce(v: int32, i: nat)
    ensures Wrap(v as int) == v && Wrap(Wrap(v + i) + 1) == Wrap(v + i + 1)
  {
  }

  /** By how much a series of n calls from counter `v` falls out of step when the counter
      changes its sign on the way: from -1 to 0, or from 2^31 - 1 to -2^31. */
  function Slip(v: int32, n: nat): int {
    if v < 0 <= v + n - 1 then -TWO64
    else if v < TWO31 <= v + n - 1 then TWO64 - TWO32
    else 0
  }

  /** How many calls happen before the sign changes. */
  function CallsBeforeSlip(v: int32): nat {
    if v < 0 then 0 - v as int else TWO31 - v
  }

  lemma ChoiceByCases(v: int32, n: nat, k: nat)
    requires 0 < n <= TWO31 && k < n
    ensures Choice(v, n, k) == if k < CallsBeforeSlip(v) then (ToSize(v) + k) % n
                               else (ToSize(v) + k + Slip(v, n)) % n
  {
  }

  /** Over any n calls in a row every worker is visited exactly once, if and only if the counter
      keeps its sign during them or the slip at the change of sign is a multiple of n. */
  lemma EachOnceExactly(v: int32, n: nat)
    requires 0 < n <= TWO31
    ensures EachOnce(v, n) <==> Slip(v, n) % n == 0
  {
    if Slip(v, n) % n == 0 {
      InStep(v, n);
    } else {
      OutOfStep(v, n);
    }
  }

  /** Three calls for three workers, the counter standing at -1: the first and the second call
      get the same worker. */
  lemma WorkerServedTwice()
    ensures !EachOnce(-1, 3) && Choice(-1, 3, 0) == Choice(-1, 3, 1)
  {
    EachOnceExactly(-1, 3);
  }

  lemma InStep(v: int32, n: nat)
    requires 0 < n <= TWO31 && Slip(v, n) % n == 0
    ensures EachOnce(v, n)
  {
    var picks := Choices(v, n, n);
    forall w: nat | w < n
      ensures w in picks
    {
      var k := Reach(ToSize(v), w, n);
      ChoiceInStep(v, n, k);
      assert picks[k] == w;
    }
    forall j, k | 0 <= j < k < n
      ensures picks[j] != picks[k]
    {
      ChoiceInStep(v, n, j);
      ChoiceInStep(v, n, k);
      if picks[j] == picks[k] {
        SameRemainder(ToSize(v), j, k, n);
        assert false;
      }
    }
  }

  lemma ChoiceInStep(v: int32, n: nat, k: nat)
    requires 0 < n <= TWO31 && Slip(v, n) % n == 0 && k < n
    ensures Choice(v, n, k) == (ToSize(v) + k) % n
  {
    ChoiceByCases(v, n, k);
    AddMultiple(ToSize(v) + k, Slip(v, n), n);
  }

  /** Two of the calls meet at the same worker: before the slip the series covers an arc of the
      circle of workers, and after it an arc that overlaps the first one. */
  lemma OutOfStep(v: int32, n: nat)
    requires 0 < n <= TWO31 && Slip(v, n) % n != 0
    ensures !EachOnce(v, n)
  {
    var j, k := Collision(ToSize(v), CallsBeforeSlip(v), Slip(v, n), n);
    ChoiceByCases(v, n, j);
    ChoiceByCases(v, n, k);
    assert Choices(v, n, n)[j] == Choices(v, n, n)[k];
  }

  lemma Collision(a: int, m: int, slip: int, n: nat) returns (j: nat, k: nat)
    requires 0 < m < n && slip % n != 0
    ensures j < m <= k < n && (a + j) % n == (a + k + slip) % n
  {
    var d := slip % n;
    if m + d <= n {
      j, k := 0, n - d;
      AddMultiple(a, n, n);
    } else {
      j, k := m + d - n, m;
      AddMultiple(a + j, n, n);
    }
    SmallMod(d, n);
    ModAdd(a + k, slip, d, n);
    assert a + k + d == a + j + n;
  }

  // ---------------------------------------------------------------- remainders

  /** Going on from any point, every worker is reached within n steps. */
  lemma Reach(a: int, w: nat, n: nat) returns (k: nat)
    requires w < n
    ensures k < n && (a + k) % n == w
  {
    k := (w - a) % n;
    SmallMod(k, n);
    ModAdd(a, k, w - a, n);
    SmallMod(w, n);
  }

  lemma SmallMod(w: int, n: nat)
    requires 0 <= w < n
    ensures w % n == w
  {
  }

  lemma AddMultiple(x: int, y: int, n: nat)
    requires 0 < n && y % n == 0
    ensures (x + y) % n == x % n
  {
    SmallMod(0, n);
    ModAdd(x, y, 0, n);
  }

  lemma ModAdd(x: int, y: int, z: int, n: nat)
    requires 0 < n && y % n == z % n
    ensures (x + y) % n == (x + z) % n
  {
    var p, q := x + y, x + z;
    var m := y / n - z / n;
    assert p - q == n * m;
    assert p == n * (q / n + m) + q % n by {
      assert n * (q / n + m) == n * (q / n) + n * m;
    }
    Remainder(p, q / n + m, q % n, n);
  }

  lemma Remainder(p: int, m: int, r: int, n: nat)
    requires 0 < n && p == n * m + r && 0 <= r < n
    ensures p % n == r
  {
    var k := p / n;
    assert n * k <= p < n * k + n;
    assert m < k ==> n * (m + 1) <= n * k;
    assert k < m ==> n * (k + 1) <= n * m;
  }

  lemma SameRemainder(a: int, j: int, k: int, n: nat)
    requires 0 <= j < n && 0 <= k < n && (a + j) % n == (a + k) % n
    ensures j == k
  {
    ModAdd(-a, a + j, a + k, n);
    SmallMod(j, n);
    SmallMod(k, n);
  }
}

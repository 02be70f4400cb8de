/**
  boost::circular_buffer as a sequence, oldest element first.
  A full buffer makes room for a new element by dropping the oldest one; a buffer of
  capacity zero stores nothing.
*/
module CircularBuffers {

  function PushBack<T>(items: seq<T>, x: T, capacity: nat): (r: seq<T>)
    requires |items| <= capacity
    ensures |r| <= capacity
    ensures |items| < capacity ==> r == items + [x]
    ensures |items| == capacity > 0 ==> r == items[1..] + [x]
    ensures 0 < capacity ==> r != [] && r[|r| - 1] == x
  {
    if |items| < capacity then items + [x]
    else if capacity == 0 then []
    else items[1..] + [x]
  }
}

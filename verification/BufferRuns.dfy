/**
  Whole runs of muduo::net::Buffer against a plain byte sequence, and lists of integers sent
  through it.
*/
module BufferRuns {
  import opened Buffers
  import opened Bytes

  /** The calls on one buffer. HasWritten stands for filling the first writable bytes directly
      and then reporting it. */
  datatype Op =
    | Append(data: seq<byte>)
    | EnsureWritable(len: nat)
    | HasWritten(data: seq<byte>)
    | Prepend(data: seq<byte>)
    | Retrieve(len: nat)
    | RetrieveAll
    | Unwrite(len: nat)
    | Shrink(reserve: nat)

  /** A plain byte sequence, and how many bytes may be put before and after it. */
  datatype Bounded = Bounded(bytes: seq<byte>, front: nat, back: nat) {
    function Sizes(): Regions {
      Regions(front, |bytes|, back)
    }
  }

  type Plain = p: Bounded | CHEAP_PREPEND <= p.front + |p.bytes| + p.back witness Bounded([], CHEAP_PREPEND, 0)

  /** The asserts of the code. */
  predicate Allowed(p: Plain, op: Op) {
    match op
    case HasWritten(data) => |data| <= p.back
    case Prepend(data) => |data| <= p.front
    case Retrieve(len) => len <= |p.bytes|
    case Unwrite(len) => len <= |p.bytes|
    case _ => true
  }

  function Apply(p: Plain, op: Op): Plain
    requires Allowed(p, op)
  {
    match op
    case Append(data) =>
      var r := Reserved(p.Sizes(), |data|);
      Bounded(p.bytes + data, r.front, r.back - |data|)
    case EnsureWritable(len) =>
      var r := Reserved(p.Sizes(), len);
      Bounded(p.bytes, r.front, r.back)
    case HasWritten(data) => Bounded(p.bytes + data, p.front, p.back - |data|)
    case Prepend(data) => Bounded(data + p.bytes, p.front - |data|, p.back)
    case Retrieve(len) => if len < |p.bytes| then Bounded(p.bytes[len..], p.front + len, p.back) else Emptied(p)
    case RetrieveAll => Emptied(p)
    case Unwrite(len) => Bounded(p.bytes[..|p.bytes| - len], p.front, p.back + len)
    case Shrink(reserve) =>
      var needed := |p.bytes| + reserve;
      Bounded(p.bytes, CHEAP_PREPEND, (if needed < INITIAL_SIZE then INITIAL_SIZE else needed) - |p.bytes|)
  }

  /** Emptying restores the reserve in front. */
  function Emptied(p: Plain): Plain {
    Bounded([], CHEAP_PREPEND, p.front + |p.bytes| + p.back - CHEAP_PREPEND)
  }

  /** The buffer shows the plain bytes, with just this much room on both sides. */
  ghost predicate Shows(b: Buffer, p: Plain)
    reads b, b.buffer
  {
    b.Valid() && b.Contents() == p.bytes && b.Layout() == p.Sizes()
  }

  method Execute(b: Buffer, op: Op, ghost p: Plain)
    requires Shows(b, p) && Allowed(p, op)
    modifies b, b.buffer
    ensures Shows(b, Apply(p, op)) && (b.buffer == old(b.buffer) || fresh(b.buffer))
  {
    match op
    case Append(data) => b.Append(data);
    case EnsureWritable(len) => b.EnsureWritableBytes(len);
    case HasWritten(data) => FillDirectly(b, data);
    case Prepend(data) => b.Prepend(data);
    case Shrink(reserve) => b.Shrink(reserve);
    case _ => ExecuteTaking(b, op, p);
  }

  /** The calls that take something out leave the array as it is. */
  method ExecuteTaking(b: Buffer, op: Op, ghost p: Plain)
    requires Shows(b, p) && Allowed(p, op) && (op.Retrieve? || op.RetrieveAll? || op.Unwrite?)
    modifies b
    ensures Shows(b, Apply(p, op)) && b.buffer == old(b.buffer)
  {
    match op
    case Retrieve(len) => b.Retrieve(len);
    case RetrieveAll => b.RetrieveAll();
    case Unwrite(len) => b.Unwrite(len);
  }

  /** How readFd and its like use a buffer: they fill the writable bytes and report it. */
  method FillDirectly(b: Buffer, data: seq<byte>)
    requires b.Valid() && |data| <= b.WritableBytes()
    modifies b, b.buffer
    ensures b.Valid() && b.buffer == old(b.buffer) && b.Contents() == old(b.Contents()) + data
    ensures var r := old(b.Layout()); b.Layout() == Regions(r.front, r.readable + |data|, r.back - |data|)
  {
    ghost var contents := b.Contents();
    CopyIn(b.buffer, b.writerIndex, data);
    assert b.Contents() == contents;
    assert b.buffer[b.writerIndex..b.writerIndex + |data|] == data;
    b.HasWritten(|data|);
  }

  // ---------------------------------------------------------------- two buffers

  /** Output and input buffers of a connection are used side by side, and swapped. */
  datatype Call = OnFirst(op: Op) | OnSecond(op: Op) | Swap

  datatype Two = Two(first: Plain, second: Plain)

  predicate AllowedOn(p: Two, call: Call) {
    match call
    case OnFirst(op) => Allowed(p.first, op)
    case OnSecond(op) => Allowed(p.second, op)
    case Swap => true
  }

  function ApplyOn(p: Two, call: Call): Two
    requires AllowedOn(p, call)
  {
    match call
    case OnFirst(op) => p.(first := Apply(p.first, op))
    case OnSecond(op) => p.(second := Apply(p.second, op))
    case Swap => Two(p.second, p.first)
  }

  predicate AllAllowed(p: Two, calls: seq<Call>)
    decreases |calls|
  {
    calls != [] ==> AllowedOn(p, calls[0]) && AllAllowed(ApplyOn(p, calls[0]), calls[1..])
  }

  function ApplyAll(p: Two, calls: seq<Call>): Two
    requires AllAllowed(p, calls)
    decreases |calls|
  {
    if calls == [] then p else ApplyAll(ApplyOn(p, calls[0]), calls[1..])
  }

  /** Two buffers with arrays of their own. */
  ghost predicate Show(a: Buffer, b: Buffer, p: Two)
    reads a, a.buffer, b, b.buffer
  {
    a != b && a.buffer != b.buffer && Shows(a, p.first) && Shows(b, p.second)
  }

  method ExecuteOn(a: Buffer, b: Buffer, call: Call, ghost p: Two)
    requires Show(a, b, p) && AllowedOn(p, call)
    modifies a, b, a.buffer, b.buffer
    ensures Show(a, b, ApplyOn(p, call))
    ensures a.buffer in {old(a.buffer), old(b.buffer)} || fresh(a.buffer)
    ensures b.buffer in {old(a.buffer), old(b.buffer)} || fresh(b.buffer)
  {
    match call
    case OnFirst(op) => Execute(a, op, p.first);
    case OnSecond(op) => Execute(b, op, p.second);
    case Swap => a.Swap(b);
  }

  /** Refinement: after any run of calls that meet the asserts, the two buffers show exactly what
      the same calls make of plain byte sequences, and have exactly that much room on both
      sides, through every growth, compaction and swap. */
  method ExecuteAll(a: Buffer, b: Buffer, calls: seq<Call>, ghost p: Two)
    requires Show(a, b, p) && AllAllowed(p, calls)
    modifies a, b, a.buffer, b.buffer
    ensures Show(a, b, ApplyAll(p, calls))
    ensures a.buffer in {old(a.buffer), old(b.buffer)} || fresh(a.buffer)
    ensures b.buffer in {old(a.buffer), old(b.buffer)} || fresh(b.buffer)
    decreases |calls|
  {
    if calls != [] {
      ExecuteOn(a, b, calls[0], p);
      ExecuteAll(a, b, calls[1..], ApplyOn(p, calls[0]));
    }
  }

  /** How many bytes the run prepends. */
  function Prepended(calls: seq<Call>): nat {
    if calls == [] then 0
    else
      var n := if !calls[0].Swap? && calls[0].op.Prepend? then |calls[0].op.data| else 0;
      n + Prepended(calls[1..])
  }

  function Reserve(p: Two): nat {
    Min(CHEAP_PREPEND, Min(p.first.front, p.second.front))
  }

  function Min(a: nat, b: nat): nat {
    if a < b then a else b
  }

  /** Only prepending uses up the cheap prepend reserve: whatever else is called in between, as
      many bytes as it had room for may be prepended. */
  lemma {:induction false} ReserveLasts(p: Two, calls: seq<Call>)
    requires AllAllowed(p, calls)
    ensures Reserve(p) <= Reserve(ApplyAll(p, calls)) + Prepended(calls)
    decreases |calls|
  {
    if calls != [] {
      ReserveLasts(ApplyOn(p, calls[0]), calls[1..]);
    }
  }

  // ---------------------------------------------------------------- lists of integers

  /** An integer and the width it is sent in. */
  datatype Item = Item(width: Width, x: int)

  predicate AllFit(items: seq<Item>) {
    forall i :: 0 <= i < |items| ==> Fits(items[i].width, items[i].x)
  }

  function Encode(items: seq<Item>): seq<byte> {
    if items == [] then [] else IntBytes(items[0].width, items[0].x) + Encode(items[1..])
  }

  lemma {:induction false} EncodeAppend(items: seq<Item>, more: seq<Item>)
    ensures Encode(items + more) == Encode(items) + Encode(more)
  {
    if items == [] {
      assert items + more == more;
    } else {
      assert (items + more)[1..] == items[1..] + more;
      EncodeAppend(items[1..], more);
      AppendTwice(IntBytes(items[0].width, items[0].x), Encode(items[1..]), Encode(more));
    }
  }

  lemma EncodeOne(item: Item)
    ensures Encode([item]) == IntBytes(item.width, item.x)
  {
    assert [item][1..] == [];
  }

  lemma SplitAgain(a: seq<byte>, b: seq<byte>)
    ensures (a + b)[..|a|] == a && (a + b)[|a|..] == b
  {
  }

  /** Reading integers of the items' widths off the bytes, one after the other, gives their
      values and leaves `rest`. */
  predicate Reads(items: seq<Item>, bytes: seq<byte>, rest: seq<byte>) {
    if items == [] then bytes == rest
    else
      && items[0].width <= |bytes|
      && IntValue(bytes[..items[0].width]) == items[0].x
      && Reads(items[1..], bytes[items[0].width..], rest)
  }

  /** Any list of integers of mixed widths is read back unchanged, and what follows it is
      left as it was. */
  lemma {:induction false} ReadsUndoesEncode(items: seq<Item>, rest: seq<byte>)
    requires AllFit(items)
    ensures Reads(items, Encode(items) + rest, rest)
  {
    if items == [] {
      assert Encode(items) + rest == rest;
    } else {
      var head, tail := IntBytes(items[0].width, items[0].x), Encode(items[1..]) + rest;
      AppendTwice(head, Encode(items[1..]), rest);
      SplitAgain(head, tail);
      IntRoundTrip(items[0].width, items[0].x);
      assert AllFit(items[1..]);
      ReadsUndoesEncode(items[1..], rest);
    }
  }

  // ---------------------------------------------------------------- first in, first out

  /** A sender appends integers and a receiver reads them, in any interleaving. */
  datatype Transfer = Send(item: Item) | Receive(width: Width)

  /** The receiver reads only when there is something to read, and knows the widths. */
  predicate Agreed(pending: seq<Item>, steps: seq<Transfer>)
    decreases |steps|
  {
    steps != [] ==>
      match steps[0]
      case Send(item) => Fits(item.width, item.x) && Agreed(pending + [item], steps[1..])
      case Receive(width) => pending != [] && pending[0].width == width && Agreed(pending[1..], steps[1..])
  }

  function Sent(steps: seq<Transfer>): seq<Item> {
    if steps == [] then []
    else if steps[0].Send? then [steps[0].item] + Sent(steps[1..])
    else Sent(steps[1..])
  }

  function Receipts(steps: seq<Transfer>): nat {
    if steps == [] then 0 else Receipts(steps[1..]) + if steps[0].Receive? then 1 else 0
  }

  /** First in, first out, through every growth and compaction: the values received are the first
      ones of those that were pending or sent, in order, and the others are in the buffer. */
  method Transmit(b: Buffer, steps: seq<Transfer>, ghost pending: seq<Item>) returns (values: seq<int>)
    requires b.Valid() && AllFit(pending) && b.Contents() == Encode(pending) && Agreed(pending, steps)
    modifies b, b.buffer
    ensures b.Valid() && (b.buffer == old(b.buffer) || fresh(b.buffer))
    ensures |values| == Receipts(steps) <= |pending + Sent(steps)|
    ensures forall i :: 0 <= i < |values| ==> values[i] == (pending + Sent(steps))[i].x
    ensures b.Contents() == Encode((pending + Sent(steps))[|values|..])
    decreases |steps|
  {
    if steps == [] {
      assert pending + Sent(steps) == pending;
      return [];
    }
    ghost var rest := Sent(steps[1..]);
    match steps[0]
    case Send(item) =>
      b.AppendInt(item.width, item.x);
      EncodeAppend(pending, [item]);
      EncodeOne(item);
      values := Transmit(b, steps[1..], pending + [item]);
      AppendTwice(pending, [item], rest);
    case Receive(width) =>
      var x := Expect(b, width, pending);
      var others := Transmit(b, steps[1..], pending[1..]);
      values := [x] + others;
      WithoutFirst(pending, rest, |others|);
  }

  lemma WithoutFirst(pending: seq<Item>, more: seq<Item>, n: nat)
    requires pending != [] && n <= |pending[1..] + more|
    ensures (pending + more)[1..] == pending[1..] + more
    ensures (pending + more)[n + 1..] == (pending[1..] + more)[n..]
  {
  }

  /** Reads the first pending integer. */
  method Expect(b: Buffer, width: Width, ghost pending: seq<Item>) returns (x: int)
    requires b.Valid() && AllFit(pending) && b.Contents() == Encode(pending)
    requires pending != [] && pending[0].width == width
    modifies b
    ensures b.Valid() && b.buffer == old(b.buffer)
    ensures x == pending[0].x && b.Contents() == Encode(pending[1..])
  {
    x := b.ReadInt(width);
    SameHead(IntBytes(width, x), b.Contents(), IntBytes(width, pending[0].x), Encode(pending[1..]));
    IntRoundTrip(width, x);
    IntRoundTrip(width, pending[0].x);
  }

  lemma SameHead(a: seq<byte>, b: seq<byte>, c: seq<byte>, d: seq<byte>)
    requires |a| == |c| && a + b == c + d
    ensures a == c && b == d
  {
    SplitAgain(a, b);
    SplitAgain(c, d);
  }

  /** A list of integers appended to whatever the buffer holds is found behind it. */
  method AppendThenRead(b: Buffer, items: seq<Item>) returns (before: seq<byte>, values: seq<int>)
    requires b.Valid() && AllFit(items)
    modifies b, b.buffer
    ensures b.Valid() && b.Contents() == [] && before == old(b.Contents())
    ensures |values| == |items| && forall i :: 0 <= i < |items| ==> values[i] == items[i].x
  {
    var n := b.ReadableBytes();
    ghost var contents := b.Contents();
    AppendAll(b, items);
    before := b.RetrieveAsString(n);
    SameHead(before, b.Contents(), contents, Encode(items));
    ghost var none: seq<byte> := [];
    ReadsUndoesEncode(items, none);
    assert Encode(items) + none == Encode(items);
    values := ReadAll(b, seq(|items|, i requires 0 <= i < |items| => items[i].width), items, none);
  }

  method AppendAll(b: Buffer, items: seq<Item>)
    requires b.Valid() && AllFit(items)
    modifies b, b.buffer
    ensures b.Valid() && (b.buffer == old(b.buffer) || fresh(b.buffer))
    ensures b.Contents() == old(b.Contents()) + Encode(items)
    decreases |items|
  {
    if items == [] {
      assert b.Contents() + [] == b.Contents();
    } else {
      ghost var before := b.Contents();
      b.AppendInt(items[0].width, items[0].x);
      AppendAll(b, items[1..]);
      AppendTwice(before, IntBytes(items[0].width, items[0].x), Encode(items[1..]));
    }
  }

  method ReadAll(b: Buffer, widths: seq<Width>, ghost items: seq<Item>, ghost rest: seq<byte>)
    returns (values: seq<int>)
    requires b.Valid() && Reads(items, b.Contents(), rest)
    requires |widths| == |items| && forall i :: 0 <= i < |items| ==> widths[i] == items[i].width
    modifies b
    ensures b.Valid() && b.buffer == old(b.buffer) && b.Contents() == rest
    ensures |values| == |items| && forall i :: 0 <= i < |items| ==> values[i] == items[i].x
    decreases |widths|
  {
    if widths == [] {
      return [];
    }
    ghost var contents := b.Contents();
    var x := b.ReadInt(widths[0]);
    assert contents[..widths[0]] == IntBytes(widths[0], x) && contents[widths[0]..] == b.Contents();
    IntRoundTrip(widths[0], x);
    var others := ReadAll(b, widths[1..], items[1..], rest);
    values := [x] + others;
  }

  /** An integer put in front of the contents comes out first, and leaves them as they were. */
  method PrependThenRead(b: Buffer, width: Width, x: int) returns (y: int)
    requires b.Valid() && Fits(width, x) && width <= b.PrependableBytes()
    modifies b, b.buffer
    ensures b.Valid() && y == x && b.Contents() == old(b.Contents())
  {
    b.PrependInt(width, x);
    assert b.Contents()[..width] == IntBytes(width, x);
    y := b.ReadInt(width);
    IntRoundTrip(width, x);
    IntRoundTrip(width, y);
  }

  /** On the wire: 0x01020304 is sent as 1, 2, 3, 4, and -2 in two bytes as 255, 254; the bytes
      0, 0, 0, 1 of a peer are read as 1. A new buffer has 8 bytes in front and 1024 behind. */
  method OnTheWire() returns (sent: seq<byte>, received: int)
    ensures sent == [1, 2, 3, 4, 255, 254] && received == 1
  {
    NetworkOrder();
    var b := new Buffer();
    assert b.PrependableBytes() == 8 && b.WritableBytes() == 1024;
    b.AppendInt(4, 0x0102_0304);
    b.AppendInt(2, -2);
    sent := b.RetrieveAsString(6);
    assert sent == [1, 2, 3, 4] + [255, 254];
    b.RetrieveAll();
    var peer: seq<byte> := [0, 0, 0, 1];
    b.Append(peer);
    assert b.Contents()[..4] == peer;
    received := b.PeekInt(4);
  }
}

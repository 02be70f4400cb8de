/**
  muduo::net::Buffer (thirdpart/muduo-vip/muduo/net/Buffer.h): one array with three regions,
  compacted in place or grown, behind which a plain byte sequence is visible.
*/
module Buffers {
  import opened Bytes

  const CHEAP_PREPEND: nat := 8
  const INITIAL_SIZE: nat := 1024

  /** The widths of int8_t, int16_t, int32_t and int64_t in bytes. */
  type Width = n: nat | n == 1 || n == 2 || n == 4 || n == 8 witness 1

  /** The sizes of the three regions: prependable, readable and writable bytes. */
  datatype Regions = Regions(front: nat, readable: nat, back: nat)

  /** ... once `len` bytes have been made writable. When the free space at both ends, less the
      prepend reserve, is too small, the back grows to just `len`; otherwise all of it goes to
      the back, and the front shrinks to the reserve. */
  function Reserved(r: Regions, len: nat): (s: Regions)
    ensures s.readable == r.readable && len <= s.back
    ensures s.front == r.front || s.front == CHEAP_PREPEND < r.front
    ensures s.front + s.back == r.front + r.back || s == Regions(r.front, r.readable, len)
  {
    if len <= r.back then r
    else if r.front + r.back < len + CHEAP_PREPEND then r.(back := len)
    else Regions(CHEAP_PREPEND, r.readable, r.front + r.back - CHEAP_PREPEND)
  }

  class Buffer {
    var buffer: array<byte>
    var readerIndex: nat
    var writerIndex: nat

    ghost predicate Valid()
      reads this
    {
      CHEAP_PREPEND <= buffer.Length && readerIndex <= writerIndex <= buffer.Length
    }

    /** The readable bytes: all that a user of the buffer sees. */
    ghost function Contents(): seq<byte>
      requires Valid()
      reads this, buffer
    {
      buffer[readerIndex..writerIndex]
    }

    ghost function Layout(): Regions
      requires Valid()
      reads this
    {
      Regions(readerIndex, writerIndex - readerIndex, buffer.Length - writerIndex)
    }

    constructor (initialSize: nat := INITIAL_SIZE)
      ensures Valid() && fresh(buffer) && Contents() == []
      ensures WritableBytes() == initialSize && PrependableBytes() == 8
    {
      buffer := new byte[CHEAP_PREPEND + initialSize](_ => 0);
      readerIndex, writerIndex := CHEAP_PREPEND, CHEAP_PREPEND;
    }

    function ReadableBytes(): (n: nat)
      requires Valid()
      reads this, buffer
      ensures n == |Contents()|
    {
      writerIndex - readerIndex
    }

    function WritableBytes(): nat
      requires Valid()
      reads this
    {
      buffer.Length - writerIndex
    }

    function PrependableBytes(): nat
      reads this
    {
      readerIndex
    }

    method Swap(rhs: Buffer)
      requires Valid() && rhs.Valid()
      modifies this, rhs
      ensures Valid() && rhs.Valid()
      ensures buffer == old(rhs.buffer) && rhs.buffer == old(buffer)
      ensures Contents() == old(rhs.Contents()) && rhs.Contents() == old(Contents())
      ensures PrependableBytes() == old(rhs.PrependableBytes()) && rhs.PrependableBytes() == old(PrependableBytes())
    {
      buffer, rhs.buffer := rhs.buffer, buffer;
      readerIndex, rhs.readerIndex := rhs.readerIndex, readerIndex;
      writerIndex, rhs.writerIndex := rhs.writerIndex, writerIndex;
    }

    /** Taking everything out gives the whole array back to the writer. */
    method Retrieve(len: nat)
      requires Valid() && len <= |Contents()|
      modifies this
      ensures Valid() && buffer == old(buffer)
      ensures Contents() == old(Contents())[len..]
      ensures PrependableBytes() == if len < old(|Contents()|) then old(PrependableBytes()) + len else CHEAP_PREPEND
    {
      if len < ReadableBytes() {
        readerIndex := readerIndex + len;
      } else {
        RetrieveAll();
      }
    }

    method RetrieveAll()
      requires Valid()
      modifies this
      ensures Valid() && buffer == old(buffer) && Contents() == []
      ensures PrependableBytes() == CHEAP_PREPEND
    {
      readerIndex := CHEAP_PREPEND;
      writerIndex := CHEAP_PREPEND;
    }

    method RetrieveAsString(len: nat) returns (result: seq<byte>)
      requires Valid() && len <= |Contents()|
      modifies this
      ensures Valid() && buffer == old(buffer)
      ensures old(Contents()) == result + Contents() && |result| == len
    {
      result := buffer[readerIndex..readerIndex + len];
      assert Contents() == result + Contents()[len..];
      Retrieve(len);
    }

    method Append(data: seq<byte>)
      requires Valid()
      modifies this, buffer
      ensures Valid() && (buffer == old(buffer) || fresh(buffer))
      ensures Contents() == old(Contents()) + data
      ensures var r := Reserved(old(Layout()), |data|);
              Layout() == Regions(r.front, r.readable + |data|, r.back - |data|)
      ensures |data| <= old(WritableBytes()) ==> buffer == old(buffer)
    {
      EnsureWritableBytes(|data|);
      ghost var before := buffer[..writerIndex];
      assert Contents() == before[readerIndex..];
      CopyIn(buffer, writerIndex, data);
      assert buffer[readerIndex..writerIndex] == buffer[..writerIndex][readerIndex..];
      HasWritten(|data|);
    }

    method EnsureWritableBytes(len: nat)
      requires Valid()
      modifies this, buffer
      ensures Valid() && (buffer == old(buffer) || fresh(buffer))
      ensures Contents() == old(Contents())
      ensures WritableBytes() >= len && Layout() == Reserved(old(Layout()), len)
      ensures len <= old(WritableBytes()) ==> buffer == old(buffer)
    {
      if WritableBytes() < len {
        MakeSpace(len);
      }
    }

    /** The caller has filled the first `len` writable bytes itself. */
    method HasWritten(len: nat)
      requires Valid() && len <= WritableBytes()
      modifies this
      ensures Valid() && buffer == old(buffer) && PrependableBytes() == old(PrependableBytes())
      ensures Contents() == old(Contents()) + old(buffer[writerIndex..writerIndex + len])
    {
      writerIndex := writerIndex + len;
    }

    method Unwrite(len: nat)
      requires Valid() && len <= |Contents()|
      modifies this
      ensures Valid() && buffer == old(buffer) && PrependableBytes() == old(PrependableBytes())
      ensures Contents() == old(Contents()[..|Contents()| - len])
    {
      writerIndex := writerIndex - len;
    }

    method Prepend(data: seq<byte>)
      requires Valid() && |data| <= PrependableBytes()
      modifies this, buffer
      ensures Valid() && buffer == old(buffer)
      ensures Contents() == data + old(Contents())
      ensures PrependableBytes() == old(PrependableBytes()) - |data|
    {
      ghost var before, mid := Contents(), readerIndex;
      readerIndex := readerIndex - |data|;
      CopyIn(buffer, readerIndex, data);
      assert buffer[mid..writerIndex] == before by {
        assert forall k :: mid <= k < buffer.Length ==> buffer[k] == old(buffer[k]);
      }
      assert Contents() == buffer[readerIndex..mid] + buffer[mid..writerIndex];
    }

    /** Moves to an array just large enough for the contents and `reserve` more bytes. */
    method Shrink(reserve: nat)
      requires Valid()
      modifies this
      ensures Valid() && fresh(buffer)
      ensures Contents() == old(Contents())
      ensures WritableBytes() >= reserve && PrependableBytes() == CHEAP_PREPEND
      ensures var needed := old(|Contents()|) + reserve;
              buffer.Length == 8 + if needed < 1024 then 1024 else needed
    {
      var other := new Buffer();
      other.EnsureWritableBytes(ReadableBytes() + reserve);
      var contents := buffer[readerIndex..writerIndex];
      other.Append(contents);
      Swap(other);
    }

    /** Makes `len` bytes writable: by growing when the free space at both ends, less the
        prepend reserve, is too small; otherwise by moving the contents to the front. The
        contents then always move towards the front, even after prepends have used the reserve. */
    method MakeSpace(len: nat)
      requires Valid() && WritableBytes() < len
      modifies this, buffer
      ensures Valid() && Contents() == old(Contents()) && WritableBytes() >= len
      ensures if old(WritableBytes() + PrependableBytes()) < len + CHEAP_PREPEND
              then && fresh(buffer)
                   && PrependableBytes() == old(PrependableBytes())
                   && buffer.Length == old(writerIndex) + len
                   && old(buffer.Length) < buffer.Length < |Contents()| + 2 * len + CHEAP_PREPEND
              else && buffer == old(buffer)
                   && PrependableBytes() == CHEAP_PREPEND < old(PrependableBytes())
    {
      if WritableBytes() + PrependableBytes() < len + CHEAP_PREPEND {
        buffer := Resized(buffer, writerIndex + len);
      } else {
        assert CHEAP_PREPEND < readerIndex;
        var readable := ReadableBytes();
        MoveDown(buffer, readerIndex, CHEAP_PREPEND, readable);
        readerIndex := CHEAP_PREPEND;
        writerIndex := readerIndex + readable;
        assert readable == ReadableBytes();
      }
    }

    method AppendInt(width: Width, x: int)
      requires Valid() && Fits(width, x)
      modifies this, buffer
      ensures Valid() && (buffer == old(buffer) || fresh(buffer))
      ensures Contents() == old(Contents()) + IntBytes(width, x)
      ensures InNetworkOrder(width, x, Contents()[|old(Contents())|..])
    {
      Append(IntBytes(width, x));
      NetworkOrderOf(width, x, Contents()[|old(Contents())|..], []);
    }

    method PrependInt(width: Width, x: int)
      requires Valid() && Fits(width, x) && width <= PrependableBytes()
      modifies this, buffer
      ensures Valid() && buffer == old(buffer)
      ensures Contents() == IntBytes(width, x) + old(Contents())
      ensures InNetworkOrder(width, x, Contents())
    {
      Prepend(IntBytes(width, x));
      NetworkOrderOf(width, x, Contents(), old(Contents()));
    }

    method PeekInt(width: Width) returns (x: int)
      requires Valid() && width <= |Contents()|
      ensures x == IntValue(Contents()[..width])
      ensures Fits(width, x) && InNetworkOrder(width, x, Contents())
    {
      NetworkOrderRead(width, Contents());
      x := IntValue(buffer[readerIndex..writerIndex][..width]);
    }

    method ReadInt(width: Width) returns (x: int)
      requires Valid() && width <= |Contents()|
      modifies this
      ensures Valid() && buffer == old(buffer)
      ensures Fits(width, x) && old(Contents()) == IntBytes(width, x) + Contents()
      ensures InNetworkOrder(width, x, old(Contents()))
    {
      x := PeekInt(width);
      BytesRoundTrip(Contents()[..width]);
      Retrieve(width);
    }
  }

  /** The first bytes are those of the integer by weight, the most significant one first. */
  ghost predicate InNetworkOrder(width: Width, x: int, bytes: seq<byte>) {
    width <= |bytes| && forall i :: 0 <= i < width ==> bytes[i] == x % Pow256(width) / Pow256(width - 1 - i) % 256
  }

  lemma NetworkOrderOf(width: Width, x: int, bytes: seq<byte>, rest: seq<byte>)
    requires bytes == IntBytes(width, x) + rest
    ensures InNetworkOrder(width, x, bytes)
  {
    forall i | 0 <= i < width
      ensures bytes[i] == x % Pow256(width) / Pow256(width - 1 - i) % 256
    {
      IntBytesAt(width, x, i);
    }
  }

  lemma NetworkOrderRead(width: Width, bytes: seq<byte>)
    requires width <= |bytes|
    ensures InNetworkOrder(width, IntValue(bytes[..width]), bytes)
  {
    var front := bytes[..width];
    BytesRoundTrip(front);
    forall i | 0 <= i < width
      ensures bytes[i] == IntValue(front) % Pow256(width) / Pow256(width - 1 - i) % 256
    {
      assert bytes[i] == front[i];
      IntBytesAt(width, IntValue(front), i);
    }
  }

  // ---------------------------------------------------------------- copies of bytes

  /** std::copy from outside the array. */
  method CopyIn(a: array<byte>, at: nat, data: seq<byte>)
    requires at + |data| <= a.Length
    modifies a
    ensures a[at..at + |data|] == data && a[..at] == old(a[..at])
    ensures forall k :: 0 <= k < at || at + |data| <= k < a.Length ==> a[k] == old(a[k])
  {
    for i := 0 to |data|
      invariant a[at..at + i] == data[..i]
      invariant forall k :: 0 <= k < at || at + i <= k < a.Length ==> a[k] == old(a[k])
    {
      a[at + i] := data[i];
    }
  }

  /** std::copy within the array, front to back; the two stretches may overlap. */
  method MoveDown(a: array<byte>, from: nat, to: nat, count: nat)
    requires to <= from && from + count <= a.Length
    modifies a
    ensures a[to..to + count] == old(a[from..from + count])
  {
    for i := 0 to count
      invariant a[to..to + i] == old(a[from..from + i])
      invariant forall k :: from + i <= k < a.Length ==> a[k] == old(a[k])
    {
      a[to + i] := a[from + i];
    }
  }

  /** std::vector::resize to a larger size. */
  method Resized(a: array<byte>, size: nat) returns (b: array<byte>)
    requires a.Length <= size
    ensures fresh(b) && b.Length == size
    ensures forall lo, hi :: 0 <= lo <= hi <= a.Length ==> b[lo..hi] == a[lo..hi]
    ensures forall k :: a.Length <= k < size ==> b[k] == 0
  {
    b := new byte[size](_ => 0);
    for i := 0 to a.Length
      invariant forall k :: 0 <= k < i ==> b[k] == a[k]
      invariant forall k :: i <= k < size ==> b[k] == 0
    {
      b[i] := a[i];
    }
    forall lo, hi | 0 <= lo <= hi <= a.Length
      ensures b[lo..hi] == a[lo..hi]
    {
      assert forall k :: 0 <= k < hi - lo ==> b[lo..hi][k] == b[lo + k] == a[lo + k] == a[lo..hi][k];
    }
  }
}

/** Bytes, and integers in network byte order (thirdpart/muduo-vip/muduo/net/Endian.h). */
module Bytes {

  type byte = b: int | 0 <= b < 256

  lemma AppendTwice<T>(a: seq<T>, b: seq<T>, c: seq<T>)
    ensures (a + b) + c == a + (b + c)
  {
  }

  function Pow256(n: nat): (p: nat)
    ensures 1 <= p
  {
    if n == 0 then 1 else 256 * Pow256(n - 1)
  }

  /** The `n` low bytes of `v`, most significant byte first. */
  function BigEndian(n: nat, v: nat): (bytes: seq<byte>)
    ensures |bytes| == n
  {
    if n == 0 then [] else BigEndian(n - 1, v / 256) + [v % 256]
  }

  function Value(bytes: seq<byte>): (v: nat)
    ensures v < Pow256(|bytes|)
  {
    if bytes == [] then 0 else 256 * Value(bytes[..|bytes| - 1]) + bytes[|bytes| - 1]
  }

  /** Writing a number in enough bytes and reading it back gives the number. */
  lemma {:induction false} ValueOfBigEndian(n: nat, v: nat)
    requires v < Pow256(n)
    ensures Value(BigEndian(n, v)) == v
  {
    if n > 0 {
      ValueOfBigEndian(n - 1, v / 256);
      assert BigEndian(n, v)[..n - 1] == BigEndian(n - 1, v / 256);
    }
  }

  /** ... and no two strings of n bytes stand for the same number. */
  lemma {:induction false} BigEndianOfValue(bytes: seq<byte>)
    ensures BigEndian(|bytes|, Value(bytes)) == bytes
  {
    if bytes != [] {
      var shorter, last := bytes[..|bytes| - 1], bytes[|bytes| - 1];
      BigEndianOfValue(shorter);
      assert Value(bytes) / 256 == Value(shorter) && Value(bytes) % 256 == last;
      assert bytes == shorter + [last];
    }
  }

  /** The range of a two's complement integer of `n` bytes. */
  predicate Fits(n: nat, x: int) {
    0 < n && 0 <= 2 * x + Pow256(n) && 2 * x < Pow256(n)
  }

  /** The bytes of a two's complement integer in network order: the n low bytes of x. */
  function IntBytes(n: nat, x: int): (bytes: seq<byte>)
    ensures |bytes| == n
  {
    BigEndian(n, x % Pow256(n))
  }

  function IntValue(bytes: seq<byte>): (x: int)
    requires 0 < |bytes|
    ensures Fits(|bytes|, x)
  {
    var v := Value(bytes);
    if 2 * v < Pow256(|bytes|) then v else v - Pow256(|bytes|)
  }

  /** Both directions: reading undoes writing, and writing undoes reading. */
  lemma IntRoundTrip(n: nat, x: int)
    requires Fits(n, x)
    ensures IntValue(IntBytes(n, x)) == x
  {
    WrapsOnce(x, Pow256(n));
    ValueOfBigEndian(n, x % Pow256(n));
  }

  lemma BytesRoundTrip(bytes: seq<byte>)
    requires 0 < |bytes|
    ensures IntBytes(|bytes|, IntValue(bytes)) == bytes
  {
    WrapsOnce(IntValue(bytes), Pow256(|bytes|));
    BigEndianOfValue(bytes);
  }

  lemma WrapsOnce(x: int, m: int)
    requires 0 < m && -m <= x < m
    ensures x % m == if x < 0 then x + m else x
  {
    if x < 0 {
      assert (x + m) % m == x % m by {
        assert x + m == x + 1 * m;
      }
    }
  }

  // ---------------------------------------------------------------- which byte comes where

  /** Pow256(n) is the n-th power of 256. */
  lemma {:induction false} Pow256Sum(a: nat, b: nat)
    ensures Pow256(0) == 1 && Pow256(1) == 256
    ensures Pow256(a + b) == Pow256(a) * Pow256(b)
  {
    assert Pow256(1) == 256 * Pow256(0);
    if a > 0 {
      Pow256Sum(a - 1, b);
      assert 256 * (Pow256(a - 1) * Pow256(b)) == 256 * Pow256(a - 1) * Pow256(b);
    }
  }

  lemma DivideTwice(v: int, b: int)
    requires 0 < b
    ensures v / 256 / b == v / (256 * b)
  {
    var m := v / 256;
    var q, s := m / b, m % b;
    assert m == b * q + s;
    Reassociate(b, q);
    QuotientIs(v, 256 * b, q, 256 * s + v % 256);
  }

  lemma Reassociate(b: int, q: int)
    ensures q * (256 * b) == 256 * (b * q)
  {
  }

  lemma QuotientIs(v: int, m: int, q: int, r: int)
    requires 0 <= r < m && v == q * m + r
    ensures v / m == q
  {
    var p := v / m;
    assert p * m <= v < p * m + m;
    if p < q {
      TimesMono(p + 1, q, m);
    } else if q < p {
      TimesMono(q + 1, p, m);
    }
  }

  lemma TimesMono(a: int, b: int, m: int)
    requires a <= b && 0 <= m
    ensures a * m <= b * m
  {
  }

  /** Byte i has the weight 256^(n - 1 - i): the most significant byte comes first. */
  lemma {:induction false} BigEndianAt(n: nat, v: nat, i: nat)
    requires i < n
    ensures BigEndian(n, v)[i] == v / Pow256(n - 1 - i) % 256
  {
    if i < n - 1 {
      BigEndianAt(n - 1, v / 256, i);
      DivideTwice(v, Pow256(n - 2 - i));
      assert BigEndian(n, v)[i] == BigEndian(n - 1, v / 256)[i];
    } else {
      assert Pow256(0) == 1;
    }
  }

  /** The number is the sum of the bytes by weight. */
  lemma {:induction false} ValueOfParts(a: seq<byte>, b: seq<byte>)
    ensures Value(a + b) == Value(a) * Pow256(|b|) + Value(b)
  {
    if b == [] {
      assert a + b == a;
    } else {
      var shorter := b[..|b| - 1];
      assert (a + b)[..|a + b| - 1] == a + shorter;
      ValueOfParts(a, shorter);
      OneMoreByte(Value(a), Pow256(|shorter|), Value(shorter), b[|b| - 1]);
    }
  }

  lemma OneMoreByte(x: int, w: int, y: int, last: int)
    ensures 256 * (x * w + y) + last == x * (256 * w) + (256 * y + last)
  {
    Reassociate(w, x);
    assert w * x == x * w;
  }

  lemma ValueOfOne(b: byte)
    ensures Value([b]) == b
  {
    assert [b][..0] == [] && Value([]) == 0;
  }

  /** Byte i of an integer in network order. */
  lemma IntBytesAt(n: nat, x: int, i: nat)
    requires i < n
    ensures IntBytes(n, x)[i] == x % Pow256(n) / Pow256(n - 1 - i) % 256
  {
    BigEndianAt(n, x % Pow256(n), i);
  }

  lemma NetworkOrder()
    ensures IntBytes(4, 0x0102_0304) == [1, 2, 3, 4] && IntBytes(2, -2) == [255, 254]
    ensures IntValue([0, 0, 0, 1]) == 1 && IntValue([255, 254]) == -2
    ensures Fits(1, 127) && Fits(1, -128) && !Fits(1, 128) && !Fits(1, -129)
    ensures Fits(4, 0x7fff_ffff) && Fits(4, -0x8000_0000) && !Fits(4, 0x8000_0000)
  {
    Powers();
    var four, two: seq<byte>, one: seq<byte> := [1, 2, 3, 4], [255, 254], [0, 0, 0, 1];
    assert BigEndian(4, 0x0102_0304) == BigEndian(3, 0x01_0203) + [4];
    assert BigEndian(3, 0x01_0203) == BigEndian(2, 0x0102) + [3];
    assert BigEndian(2, 0x0102) == BigEndian(1, 1) + [2];
    assert BigEndian(1, 1) == BigEndian(0, 0) + [1];
    assert BigEndian(2, 65534) == BigEndian(1, 255) + [254];
    assert BigEndian(1, 255) == BigEndian(0, 0) + [255];
    assert one[..3][..2][..1][..0] == [] && one[..3][..2] == [0, 0] && one[..3] == [0, 0, 0];
    assert Value([0]) == 0 by {
      assert [0][..0] == [];
    }
    assert Value([0, 0]) == 0 by {
      assert [0, 0][..1] == [0];
    }
    assert Value([0, 0, 0]) == 0 by {
      assert [0, 0, 0][..2] == [0, 0];
    }
    assert Value(one) == 1;
    assert Value([255]) == 255 by {
      assert [255][..0] == [];
    }
    assert Value(two) == 65534 by {
      assert two[..1] == [255];
    }
  }

  lemma Powers()
    ensures Pow256(1) == 0x100 && Pow256(2) == 0x1_0000 && Pow256(4) == 0x1_0000_0000
  {
    assert Pow256(1) == 256 * Pow256(0);
    assert Pow256(3) == 256 * Pow256(2);
  }
}

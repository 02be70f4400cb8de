/**
  Which entity stands for which character, and what HTML::Encode and HTML::Decode make of any text,
  character by character.
*/
module HtmlEntities {
  import opened Bytes
  import opened HtmlCodec
  import opened HtmlDecoding
  import opened Replacing

  /** A character by its code point, and the name that HTML gives it. */
  datatype Named = Named(point: nat, name: string)

  const NAMED: seq<Named> := [
    Named(38, "amp"),
    Named(60, "lt"),
    Named(62, "gt"),
    Named(34, "quot"),
    Named(39, "apos"),
    Named(32, "nbsp"),
    Named(169, "copy"),
    Named(8242, "prime"),
    Named(8243, "Prime"),
    Named(8722, "minus"),
    Named(247, "divide"),
    Named(8743, "and"),
    Named(8744, "or"),
    Named(8869, "perp"),
    Named(8211, "ndash"),
    Named(8212, "mdash"),
    Named(8216, "lsquo"),
    Named(8217, "rsquo"),
    Named(8218, "sbquo"),
    Named(8220, "ldquo"),
    Named(8221, "rdquo"),
    Named(8222, "bdquo")
  ]

  /** UTF-8 for code points of at most 16 bits. */
  function Utf8(point: nat): Text {
    if point < 0x80 then [point]
    else if point < 0x800 then [0xc0 + point / 0x40, 0x80 + point % 0x40]
    else if point < 0x1_0000 then [0xe0 + point / 0x1000, 0x80 + point / 0x40 % 0x40, 0x80 + point % 0x40]
    else []
  }

  function Character(i: nat): Text
    requires i < 22
  {
    Utf8(NAMED[i].point)
  }

  /** The entity in ASCII. */
  function Entity(i: nat): (r: Text)
    requires i < 22
  {
    [38] + Rest(i)
  }

  /** ... without the ampersand. */
  function Rest(i: nat): (r: Text)
    requires i < 22
  {
    Ascii(NAMED[i].name) + [59]
  }

  lemma CodeIsNamed(i: nat)
    requires i < 22
    ensures |CODES| == 22 && CODES[i] == Code(Character(i), NAMED[i].name)
  {
  }

  lemma TableIsNamed(i: nat)
    requires i < 22
    ensures |CODES| == 22 && CODES[i].src == Character(i) && CODES[i].Dst() == Entity(i)
    ensures CODES[i].Dst()[1..] == Rest(i)
  {
    CodeIsNamed(i);
    assert [AMPERSAND] + Ascii(CODES[i].name) + [SEMICOLON] == [38] + (Ascii(NAMED[i].name) + [59]);
  }

  // ---------------------------------------------------------------- Encode

  lemma EncodedAtOnce(s: Text)
    ensures Separate(Encoding(CODES)) && Encoded(s) == AtOnce(s, Encoding(CODES))
  {
    TableIsGood();
    EncodingWorks(CODES);
    OneByOneIsAtOnce(s, Encoding(CODES));
  }

  /** A character of the table is encoded as its entity, whatever follows. */
  lemma CharacterEncoded(i: nat, rest: Text)
    requires i < 22
    ensures Encoded(Character(i) + rest) == Entity(i) + Encoded(rest)
  {
    TableIsNamed(i);
    EncodedAtOnce(rest);
    EncodedAtOnce(Character(i) + rest);
    ReplacedFirst(Character(i), rest, Encoding(CODES), i);
  }

  /** Any byte that begins no such character is copied. */
  lemma OtherByteEncoded(b: byte, rest: Text)
    requires forall i :: 0 <= i < 22 ==> !(Character(i) <= [b] + rest)
    ensures Encoded([b] + rest) == [b] + Encoded(rest) && Encoded([]) == []
  {
    EncodedAtOnce([]);
    EncodedAtOnce(rest);
    EncodedAtOnce([b] + rest);
    var k := Match([b] + rest, Encoding(CODES));
    if k < |CODES| {
      TableIsNamed(0);
      TableIsNamed(k);
      assert false;
    }
    CopiesByte(b, rest, Encoding(CODES));
  }

  // ---------------------------------------------------------------- Decode

  lemma DecodedByScans(s: Text)
    ensures Prepared(CODES) && Decoded(s) == TwoScans(s, CODES)
  {
    TableIsGood();
    GoodIsPrepared(CODES);
    DecodedInTwoScans(s, CODES);
  }

  /** An entity other than "&amp;" is decoded to its character, whatever follows, and so it is when
      its ampersand was encoded. */
  lemma EntityDecodes(i: nat, rest: Text)
    requires 1 <= i < 22
    ensures Decoded(Entity(i) + rest) == Character(i) + Decoded(rest)
    ensures Decoded(Entity(0) + (Rest(i) + rest)) == Character(i) + Decoded(rest)
  {
    TableIsNamed(0);
    TableIsNamed(i);
    DecodedByScans(rest);
    DecodedByScans(Entity(i) + rest);
    DecodedByScans(Entity(0) + (Rest(i) + rest));
    EntityBehindAmpersands(Entity(i), rest, CODES, i);
    TwoScansAtDouble(Entity(0), Rest(i), rest, CODES, i);
  }

  /** Any other "&amp;" is decoded to an ampersand. */
  lemma AmpersandDecodes(rest: Text)
    requires forall i :: 1 <= i < 22 ==> !(Rest(i) <= rest)
    ensures Decoded(Entity(0) + rest) == [38] + Decoded(rest)
  {
    TableIsNamed(0);
    DecodedByScans(rest);
    var s := Entity(0) + rest;
    DecodedByScans(s);
    assert s[|Entity(0)|..] == rest;
    forall k | 1 <= k < |CODES|
      ensures !(CODES[k].Dst()[1..] <= rest)
    {
      TableIsNamed(k);
      assert !(Rest(k) <= rest);
    }
    StepAtAmpersand(s, CODES);
  }

  /** Any byte that begins no entity is copied. */
  lemma OtherByteDecodes(b: byte, rest: Text)
    requires forall i :: 0 <= i < 22 ==> !(Entity(i) <= [b] + rest)
    ensures Decoded([b] + rest) == [b] + Decoded(rest) && Decoded([]) == []
  {
    DecodedByScans([]);
    DecodedByScans(rest);
    DecodedByScans([b] + rest);
    var k := Match([b] + rest, Decoding(CODES));
    if k < |CODES| {
      TableIsNamed(0);
      TableIsNamed(k);
      assert false;
    }
    TailOfCopy(b, rest);
    StepAtOther([b] + rest, CODES);
  }

  /** Each of the 22 characters by itself, there and back. */
  lemma ThereAndBackAlone(i: nat)
    requires i < 22
    ensures Encoded(Character(i)) == Entity(i) && Decoded(Entity(i)) == Character(i)
  {
    CharacterEncoded(i, []);
    DecodedByScans([]);
    EncodedAtOnce([]);
    WithNothing(Character(i));
    WithNothing(Entity(i));
    if i == 0 {
      forall k | 1 <= k < 22
        ensures !(Rest(k) <= [])
      {
        assert Rest(k) != [];
      }
      AmpersandDecodes([]);
    } else {
      EntityDecodes(i, []);
    }
  }

  lemma WithNothing(s: Text)
    ensures s + [] == s
  {
  }

  /** ">" is encoded as "&gt;", a quotation mark as "&quot;", and a prime as "&prime;". */
  lemma SomeByTheirBytes()
    ensures Encoded([62]) == [38, 103, 116, 59] && Decoded([38, 103, 116, 59]) == [62]
    ensures Encoded([34]) == [38, 113, 117, 111, 116, 59] && Decoded([38, 113, 117, 111, 116, 59]) == [34]
    ensures Encoded([226, 128, 178]) == [38, 112, 114, 105, 109, 101, 59]
    ensures Decoded([38, 112, 114, 105, 109, 101, 59]) == [226, 128, 178]
  {
    ThereAndBackAlone(2);
    ThereAndBackAlone(3);
    ThereAndBackAlone(7);
    SomeEntities();
  }

  lemma SomeEntities()
    ensures Character(2) == [62] && Entity(2) == [38, 103, 116, 59]
    ensures Character(3) == [34] && Entity(3) == [38, 113, 117, 111, 116, 59]
    ensures Character(7) == [226, 128, 178] && Entity(7) == [38, 112, 114, 105, 109, 101, 59]
  {
    assert Ascii("gt") == [103, 116];
    assert Ascii("quot") == [113, 117, 111, 116];
    assert Ascii("prime") == [112, 114, 105, 109, 101];
  }
}

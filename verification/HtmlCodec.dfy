/**
  The HTML entity codec (thirdpart/https/htmlcodec.h) on UTF-8 bytes: a table of symbols and
  entities, and a loop that replaces one after the other.
*/
module HtmlCodec {
  import opened Bytes
  import opened Replacing

  const AMPERSAND: byte := 38
  const SEMICOLON: byte := 59

  /** One line of the table: the symbol in UTF-8, and the entity without its "&" and ";". */
  datatype Code = Code(src: Text, name: string) {
    function Dst(): Text {
      [AMPERSAND] + Ascii(name) + [SEMICOLON]
    }
  }

  function Ascii(name: string): (r: Text)
    ensures |r| == |name| && forall i :: 0 <= i < |name| && name[i] < 128 as char ==> r[i] == name[i] as int
  {
    seq(|name|, i requires 0 <= i < |name| => if name[i] < 128 as char then name[i] as int else 0)
  }

  const CODES: seq<Code> := [
    Code([38], "amp"),
    Code([60], "lt"),
    Code([62], "gt"),
    Code([34], "quot"),
    Code([39], "apos"),
    Code([32], "nbsp"),
    Code([194, 169], "copy"),
    Code([226, 128, 178], "prime"),
    Code([226, 128, 179], "Prime"),
    Code([226, 136, 146], "minus"),
    Code([195, 183], "divide"),
    Code([226, 136, 167], "and"),
    Code([226, 136, 168], "or"),
    Code([226, 138, 165], "perp"),
    Code([226, 128, 147], "ndash"),
    Code([226, 128, 148], "mdash"),
    Code([226, 128, 152], "lsquo"),
    Code([226, 128, 153], "rsquo"),
    Code([226, 128, 154], "sbquo"),
    Code([226, 128, 156], "ldquo"),
    Code([226, 128, 157], "rdquo"),
    Code([226, 128, 158], "bdquo")
  ]

  /** The pairs as Encode uses them, and as Decode uses them. */
  function Encoding(codes: seq<Code>): (r: seq<Pair>)
    ensures |r| == |codes|
    ensures forall i :: 0 <= i < |r| ==> r[i] == Pair(codes[i].src, codes[i].Dst())
  {
    seq(|codes|, i requires 0 <= i < |codes| => Pair(codes[i].src, codes[i].Dst()))
  }

  function Decoding(codes: seq<Code>): (r: seq<Pair>)
    ensures |r| == |codes|
    ensures forall i :: 0 <= i < |r| ==> r[i] == Pair(codes[i].Dst(), codes[i].src)
  {
    seq(|codes|, i requires 0 <= i < |codes| => Pair(codes[i].Dst(), codes[i].src))
  }

  // ---------------------------------------------------------------- the shape of the table

  predicate Letters(name: string) {
    forall i :: 0 <= i < |name| ==> 'a' <= name[i] <= 'z' || 'A' <= name[i] <= 'Z'
  }

  /** The length of a UTF-8 sequence, by its first byte. */
  function Utf8Length(first: byte): nat {
    if first < 0x80 then 1 else if first < 0xe0 then 2 else if first < 0xf0 then 3 else 4
  }

  predicate Continuation(b: byte) {
    0x80 <= b < 0xc0
  }

  /** One symbol, of which no byte could be part of an entity except the ampersand itself; and
      an entity name of letters that is longer than the symbol needs. */
  ghost predicate WellFormed(c: Code) {
    && c.src != []
    && !Continuation(c.src[0]) && !(97 <= c.src[0] <= 122) && !(65 <= c.src[0] <= 90) && c.src[0] != SEMICOLON
    && |c.src| == Utf8Length(c.src[0])
    && (forall i :: 1 <= i < |c.src| ==> Continuation(c.src[i]))
    && Letters(c.name) && 2 <= |c.name| && |c.src| < |c.name| + 2
  }

  ghost predicate GoodTable(codes: seq<Code>) {
    && codes != [] && codes[0].src == [AMPERSAND]
    && (forall i :: 0 <= i < |codes| ==> WellFormed(codes[i]))
    && (forall i, j :: 0 <= i < j < |codes| ==> codes[i].src != codes[j].src && codes[i].name != codes[j].name)
  }

  function SrcKey(c: Code): int
    requires c.src != []
  {
    if |c.src| == 1 then c.src[0] else c.src[|c.src| - 2] as int * 256 + c.src[|c.src| - 1]
  }

  function NameKey(c: Code): int
    requires 2 <= |c.name|
  {
    c.name[0] as int * 256 + c.name[1] as int
  }

  const SRC_KEYS: seq<int> := [
    38, 60, 62, 34, 39, 32, 49833, 32946, 32947, 34962, 50103,
    34983, 34984, 35493, 32915, 32916, 32920, 32921, 32922, 32924, 32925, 32926
  ]
  const NAME_KEYS: seq<int> := [
    24941, 27764, 26484, 29045, 24944, 28258, 25455, 28786, 20594, 28009, 25705,
    24942, 28530, 28773, 28260, 28004, 27763, 29299, 29538, 27748, 29284, 25188
  ]

  lemma CodeIsWellFormed(i: nat)
    requires i < 22
    ensures WellFormed(CODES[i])
  {
  }

  lemma CodeKeys(i: nat)
    requires i < 22
    ensures CODES[i].src != [] && SrcKey(CODES[i]) == SRC_KEYS[i]
    ensures 2 <= |CODES[i].name| && NameKey(CODES[i]) == NAME_KEYS[i]
  {
  }

  lemma SrcKeysDiffer(i: nat, j: nat)
    requires i < j < 22
    ensures SRC_KEYS[i] != SRC_KEYS[j]
  {
  }

  lemma NameKeysDiffer(i: nat, j: nat)
    requires i < j < 22
    ensures NAME_KEYS[i] != NAME_KEYS[j]
  {
  }

  lemma CodesDiffer(i: nat, j: nat)
    requires i < j < 22
    ensures CODES[i].src != CODES[j].src && CODES[i].name != CODES[j].name
  {
    CodeKeys(i);
    CodeKeys(j);
    SrcKeysDiffer(i, j);
    NameKeysDiffer(i, j);
  }

  lemma TableIsGood()
    ensures GoodTable(CODES)
  {
    forall i | 0 <= i < 22
      ensures WellFormed(CODES[i])
    {
      CodeIsWellFormed(i);
    }
    forall i, j | 0 <= i < j < 22
      ensures CODES[i].src != CODES[j].src && CODES[i].name != CODES[j].name
    {
      CodesDiffer(i, j);
    }
  }

  // ---------------------------------------------------------------- why the loops work

  /** A table without the ampersand itself. */
  ghost predicate PlainTable(codes: seq<Code>) {
    && (forall i :: 0 <= i < |codes| ==> WellFormed(codes[i]) && codes[i].src[0] != AMPERSAND)
    && (forall i, j :: 0 <= i < j < |codes| ==> codes[i].src != codes[j].src && codes[i].name != codes[j].name)
  }

  lemma GoodTail(codes: seq<Code>)
    requires GoodTable(codes)
    ensures PlainTable(codes[1..])
    ensures Encoding(codes)[1..] == Encoding(codes[1..]) && Decoding(codes)[1..] == Decoding(codes[1..])
  {
    forall i | 1 <= i < |codes|
      ensures codes[i].src[0] != AMPERSAND
    {
      assert WellFormed(codes[i]) && codes[0].src != codes[i].src;
    }
  }

  /** An entity is an ampersand, letters, and a semicolon that ends it. */
  lemma EntityShape(c: Code)
    requires WellFormed(c)
    ensures c.Dst() != [] && c.Dst()[0] == AMPERSAND
    ensures forall b :: b in c.Dst()[1..] ==> 97 <= b <= 122 || 65 <= b <= 90 || b == SEMICOLON
    ensures forall i :: 0 <= i < |c.Dst()| ==> (c.Dst()[i] == SEMICOLON <==> i == |c.Dst()| - 1)
  {
    assert forall i :: 1 <= i < |c.Dst()| - 1 ==> c.Dst()[i] == Ascii(c.name)[i - 1];
  }

  lemma SrcPrefixFree(a: Code, b: Code)
    requires WellFormed(a) && WellFormed(b) && a.src != b.src
    ensures !(a.src <= b.src)
  {
  }

  lemma EntityPrefixFree(a: Code, b: Code)
    requires WellFormed(a) && WellFormed(b) && a.name != b.name
    ensures !(a.Dst() <= b.Dst())
  {
    EntityShape(a);
    EntityShape(b);
    if a.Dst() <= b.Dst() {
      assert b.Dst()[|a.Dst()| - 1] == SEMICOLON;
      assert Ascii(a.name) == a.Dst()[1..|a.Dst()| - 1] == Ascii(b.name);
      forall i | 0 <= i < |a.name|
        ensures a.name[i] == b.name[i]
      {
        assert Ascii(a.name)[i] == Ascii(b.name)[i];
      }
      assert false;
    }
  }

  lemma FirstByteNotInside(a: Code, b: Code)
    requires WellFormed(a) && WellFormed(b)
    ensures a.src[0] !in b.src[1..]
    ensures AMPERSAND !in b.src[1..] && AMPERSAND !in b.Dst()[1..]
    ensures a.src[0] !in b.Dst()[1..]
    ensures a.src[0] != AMPERSAND ==> a.src[0] !in b.Dst() && AMPERSAND !in a.src
  {
    EntityShape(b);
    assert forall c :: c in b.src[1..] ==> Continuation(c);
    assert forall c :: c in a.src[1..] ==> Continuation(c);
    assert b.Dst() == [AMPERSAND] + b.Dst()[1..] && a.src == [a.src[0]] + a.src[1..];
  }

  lemma EncodingWorks(codes: seq<Code>)
    requires GoodTable(codes)
    ensures Separate(Encoding(codes)) && Inert(Encoding(codes))
  {
    GoodTail(codes);
    var pairs := Encoding(codes);
    forall i, j | 0 <= i < |pairs| && 0 <= j < |pairs|
      ensures NotInside(pairs[i].from, pairs[j].from)
      ensures i != j ==> !(pairs[i].from <= pairs[j].from)
      ensures i < j ==> InertPair(pairs[i], pairs[j])
    {
      assert WellFormed(codes[i]) && WellFormed(codes[j]);
      FirstByteNotInside(codes[i], codes[j]);
      FirstByteNotInside(codes[j], codes[i]);
      EntityShape(codes[i]);
      if i != j {
        SrcPrefixFree(codes[i], codes[j]);
      }
      if i < j {
        assert codes[j] == codes[1..][j - 1];
      }
    }
  }

  lemma DecodingWorks(codes: seq<Code>)
    requires PlainTable(codes)
    ensures Separate(Decoding(codes)) && Inert(Decoding(codes)) && Separate(Encoding(codes))
    ensures Foreign(Encoding(codes), Decoding(codes)) && Foreign(Decoding(codes), Encoding(codes))
  {
    var pairs := Decoding(codes);
    forall i, j | 0 <= i < |pairs| && 0 <= j < |pairs|
      ensures NotInside(pairs[i].from, pairs[j].from) && NotInside(pairs[i].to, pairs[j].to)
      ensures i != j ==> !(pairs[i].from <= pairs[j].from) && !(pairs[i].to <= pairs[j].to)
      ensures InertPair(pairs[i], pairs[j])
      ensures pairs[i].to[0] !in pairs[j].from && pairs[i].from[0] !in pairs[j].to
    {
      assert WellFormed(codes[i]) && WellFormed(codes[j]);
      FirstByteNotInside(codes[i], codes[j]);
      FirstByteNotInside(codes[j], codes[i]);
      EntityShape(codes[i]);
      EntityShape(codes[j]);
      if i != j {
        EntityPrefixFree(codes[i], codes[j]);
        SrcPrefixFree(codes[i], codes[j]);
      }
    }
  }

  // ---------------------------------------------------------------- Encode and Decode

  ghost function Encoded(s: Text): Text {
    TableIsGood();
    EncodingWorks(CODES);
    OneByOne(s, Encoding(CODES))
  }

  ghost function Decoded(s: Text): Text
  {
    TableIsGood();
    DecodingSearchable(CODES);
    OneByOne(s, Decoding(CODES))
  }

  lemma DecodingSearchable(codes: seq<Code>)
    ensures Searchable(Decoding(codes))
  {
  }

  /** Encoding replaces every symbol of the table by its entity in one scan of the text: what one
      replacement puts in is never touched by a later one. */
  method Encode(s: Text) returns (rs: Text)
    ensures rs == Encoded(s)
    ensures Searchable(Encoding(CODES)) && rs == AtOnce(s, Encoding(CODES))
  {
    TableIsGood();
    EncodingWorks(CODES);
    OneByOneIsAtOnce(s, Encoding(CODES));
    rs := ReplaceInOrder(s, Encoding(CODES));
  }

  method Decode(s: Text) returns (rs: Text)
    ensures rs == Decoded(s)
  {
    DecodingSearchable(CODES);
    rs := ReplaceInOrder(s, Decoding(CODES));
  }

  /** The loop over the table. */
  method ReplaceInOrder(s: Text, pairs: seq<Pair>) returns (rs: Text)
    requires Searchable(pairs)
    ensures rs == OneByOne(s, pairs)
  {
    rs := s;
    assert pairs[0..] == pairs;
    for i := 0 to |pairs|
      invariant OneByOne(rs, pairs[i..]) == OneByOne(s, pairs)
    {
      assert pairs[i..][0] == pairs[i] && pairs[i..][1..] == pairs[i + 1..];
      rs := ReplaceAll(rs, pairs[i]);
    }
  }

  // ---------------------------------------------------------------- the round trip

  /** Decoding "&amp;" first takes back exactly what encoding "&" did first. */
  lemma {:induction false} AmpersandsBack(s: Text, codes: seq<Code>)
    requires GoodTable(codes)
    requires Separate(Encoding(codes)) && Separate(Encoding(codes[1..]))
    ensures ReplaceAll(AtOnce(s, Encoding(codes)), Decoding(codes)[0]) == AtOnce(s, Encoding(codes[1..]))
    decreases |s|
  {
    if s != [] {
      var enc := Encoding(codes);
      var k := Match(s, enc);
      if k < |enc| {
        AmpersandsBack(s[|enc[k].from|..], codes);
        AmpersandsBackAtMatch(s, codes, k);
      } else {
        AmpersandsBack(s[1..], codes);
        NoOther(s, codes);
        assert [AMPERSAND] == enc[0].from;
      }
    }
  }

  lemma AmpersandsBackAtMatch(s: Text, codes: seq<Code>, k: nat)
    requires GoodTable(codes) && s != [] && k == Match(s, Encoding(codes)) < |codes|
    requires Separate(Encoding(codes)) && Separate(Encoding(codes[1..]))
    requires var rest := s[|codes[k].src|..];
             ReplaceAll(AtOnce(rest, Encoding(codes)), Decoding(codes)[0]) == AtOnce(rest, Encoding(codes[1..]))
    ensures ReplaceAll(AtOnce(s, Encoding(codes)), Decoding(codes)[0]) == AtOnce(s, Encoding(codes[1..]))
  {
    var others, amp := Encoding(codes[1..]), Decoding(codes)[0];
    var rest := s[|codes[k].src|..];
    var x := AtOnce(rest, Encoding(codes));
    if k == 0 {
      NoOtherAtAmpersand(s, codes);
      ReplaceAllFirst(x, amp);
      assert s[0] == AMPERSAND && s[1..] == rest;
    } else {
      assert WellFormed(codes[0]) && WellFormed(codes[k]);
      EntityPrefixFree(codes[0], codes[k]);
      EntityPrefixFree(codes[k], codes[0]);
      FirstByteNotInside(codes[0], codes[k]);
      EntityShape(codes[k]);
      ReplaceAllCopiesOther(codes[k].Dst(), x, amp);
      assert others[k - 1] == Pair(codes[k].src, codes[k].Dst());
      MatchIsUnique(s, others, k - 1);
    }
  }

  lemma NoOtherAtAmpersand(s: Text, codes: seq<Code>)
    requires GoodTable(codes) && [AMPERSAND] <= s
    ensures Match(s, Encoding(codes[1..])) == |codes| - 1
  {
    GoodTail(codes);
  }

  lemma NoOther(s: Text, codes: seq<Code>)
    requires codes != [] && Match(s, Encoding(codes)) == |codes|
    ensures Match(s, Encoding(codes[1..])) == |codes| - 1
  {
  }

  /** The table's entities other than "&amp;". */
  ghost function OtherEntities(): seq<Pair> {
    Decoding(CODES[1..])
  }

  /** Encoding and then decoding a text is the same as decoding, in one scan, the entities other
      than "&amp;" that the text itself contained. */
  lemma RoundTripDecodesOnce(s: Text)
    ensures Searchable(OtherEntities()) && Decoded(Encoded(s)) == AtOnce(s, OtherEntities())
  {
    TableIsGood();
    RoundTripOfTable(s, CODES);
  }

  lemma RoundTripOfTable(s: Text, codes: seq<Code>)
    requires GoodTable(codes)
    ensures Searchable(Encoding(codes)) && Searchable(Decoding(codes)) && Searchable(Decoding(codes[1..]))
    ensures OneByOne(OneByOne(s, Encoding(codes)), Decoding(codes)) == AtOnce(s, Decoding(codes[1..]))
  {
    GoodTail(codes);
    EncodingWorks(codes);
    DecodingWorks(codes[1..]);
    OneByOneIsAtOnce(s, Encoding(codes));
    var t := AtOnce(s, Encoding(codes));
    AmpersandsBack(s, codes);
    var u := AtOnce(s, Encoding(codes[1..]));
    OneByOneIsAtOnce(u, Decoding(codes[1..]));
    ThereAndBack(s, Encoding(codes[1..]), Decoding(codes[1..]));
    assert OneByOne(t, Decoding(codes)) == OneByOne(u, Decoding(codes)[1..]);
  }

  /** So the text comes back if and only if it contains no entity of the table but "&amp;". */
  lemma RoundTripExactly(s: Text)
    ensures Decoded(Encoded(s)) == s <==> !AnyOccurs(OtherEntities(), s)
  {
    RoundTripDecodesOnce(s);
    TableIsGood();
    GoodTail(CODES);
    var codes := CODES[1..];
    forall m | 0 <= m < |codes|
      ensures |codes[m].src| < |codes[m].Dst()|
    {
      assert WellFormed(codes[m]);
    }
    UnchangedExactly(s, Decoding(codes));
  }

  /** The text "&lt;" does not come back: it turns into "<". */
  lemma LiteralEntityIsLost()
    ensures Decoded(Encoded([AMPERSAND, 108, 116, SEMICOLON])) == [60]
  {
    var s: Text := [AMPERSAND, 108, 116, SEMICOLON];
    RoundTripDecodesOnce(s);
    assert CODES[1..][0] == Code([60], "lt");
    assert Code([60], "lt").Dst() == s;
    assert OtherEntities()[0].from <= s;
    assert Match(s, OtherEntities()) == 0;
    assert s[4..] == [];
  }
}

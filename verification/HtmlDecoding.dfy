/**
  What HTML::Decode makes of any text: it replaces "&amp;" first, so an entity that was encoded
  twice is decoded twice.
*/
module HtmlDecoding {
  import opened Bytes
  import opened HtmlCodec
  import opened Replacing

  /** The entities of the table with their ampersand encoded, such as "&amp;lt;". */
  function DoublyEncoded(codes: seq<Code>): (r: seq<Pair>)
    requires codes != []
    ensures |r| == |codes| - 1
    ensures forall k :: 0 <= k < |r| ==> r[k].from == codes[0].Dst() + codes[k + 1].Dst()[1..]
  {
    seq(|codes| - 1, k requires 0 <= k < |codes| - 1 =>
          Pair(codes[0].Dst() + codes[k + 1].Dst()[1..], codes[k + 1].src))
  }

  /** What the proofs need to know of the table. */
  ghost predicate Prepared(codes: seq<Code>) {
    && GoodTable(codes) && Separate(Decoding(codes)) && Separate(Decoding(codes[1..]))
    && (forall k :: 0 <= k < |codes| ==> codes[k].Dst()[0] == AMPERSAND && AMPERSAND !in codes[k].Dst()[1..])
  }

  lemma GoodIsPrepared(codes: seq<Code>)
    requires GoodTable(codes)
    ensures Prepared(codes)
  {
    GoodTail(codes);
    DecodingWorks(codes[1..]);
    var pairs := Decoding(codes);
    forall i, j | 0 <= i < |pairs| && 0 <= j < |pairs|
      ensures NotInside(pairs[i].from, pairs[j].from)
      ensures i != j ==> !(pairs[i].from <= pairs[j].from)
      ensures codes[j].Dst()[0] == AMPERSAND && AMPERSAND !in codes[j].Dst()[1..]
    {
      assert WellFormed(codes[i]) && WellFormed(codes[j]);
      FirstByteNotInside(codes[i], codes[j]);
      EntityShape(codes[i]);
      EntityShape(codes[j]);
      if i != j {
        EntityPrefixFree(codes[i], codes[j]);
      }
    }
  }

  /** Decoding in two scans: the ampersands, and then everything else. */
  ghost function TwoScans(s: Text, codes: seq<Code>): Text
    requires Prepared(codes)
  {
    AtOnce(ReplaceAll(s, Decoding(codes)[0]), Decoding(codes[1..]))
  }

  ghost function OneScan(s: Text, codes: seq<Code>): Text
    requires Prepared(codes)
  {
    AtOnce(s, Decoding(codes))
  }

  // ---------------------------------------------------------------- where nothing starts

  /** A stretch at whose places nothing matches can be skipped when looking for occurrences. */
  lemma {:induction false} OccursBehind(s: Text, n: nat, pairs: seq<Pair>)
    requires Searchable(pairs) && n <= |s|
    requires forall i :: 0 <= i < n ==> Match(s[i..], pairs) == |pairs|
    ensures AnyOccurs(pairs, s) <==> AnyOccurs(pairs, s[n..])
  {
    if n == 0 {
      assert s[0..] == s;
    } else {
      OccursBehind(s, n - 1, pairs);
      OccursLater(s[n - 1..], pairs);
      assert s[n - 1..][1..] == s[n..];
    }
  }

  /** No doubly encoded entity starts inside another entity, which has no second ampersand. */
  lemma NoDoubleInside(s: Text, codes: seq<Code>, k: nat)
    requires Prepared(codes) && k < |codes| && codes[k].Dst() <= s
    requires Match(s, DoublyEncoded(codes)) == |codes| - 1
    ensures AnyOccurs(DoublyEncoded(codes), s) <==> AnyOccurs(DoublyEncoded(codes), s[|codes[k].Dst()|..])
  {
    var d, doubles := codes[k].Dst(), DoublyEncoded(codes);
    assert s[0..] == s;
    forall i | 1 <= i < |d|
      ensures Match(s[i..], doubles) == |doubles|
    {
      assert s[i] == d[i] == d[1..][i - 1];
    }
    OccursBehind(s, |d|, doubles);
  }

  /** A doubly encoded entity starts with "&amp;", so it is found only where that is. */
  lemma DoubleStartsWithAmp(s: Text, codes: seq<Code>, k: nat)
    requires Prepared(codes) && k < |codes| - 1 && DoublyEncoded(codes)[k].from <= s
    ensures Match(s, Decoding(codes)) == 0
    ensures codes[k + 1].Dst()[1..] <= s[|codes[0].Dst()|..]
  {
    var amp, w := codes[0].Dst(), codes[k + 1].Dst()[1..];
    BothPrefixes(amp, w, s);
    MatchIsUnique(s, Decoding(codes), 0);
  }

  lemma BothPrefixes(a: Text, b: Text, s: Text)
    requires a + b <= s
    ensures a <= s && b <= s[|a|..]
  {
    assert (a + b)[..|a|] == a == s[..|a|];
    assert (a + b)[|a|..] == b == s[|a|..][..|b|];
  }

  lemma DoubleFromParts(s: Text, codes: seq<Code>, k: nat)
    requires Prepared(codes) && k < |codes| - 1
    requires codes[0].Dst() <= s && codes[k + 1].Dst()[1..] <= s[|codes[0].Dst()|..]
    ensures DoublyEncoded(codes)[k].from <= s
  {
    var amp, w := codes[0].Dst(), codes[k + 1].Dst()[1..];
    assert s[..|amp|] == amp && s[|amp|..][..|w|] == w;
    assert s[..|amp| + |w|] == amp + w;
  }

  // ---------------------------------------------------------------- one step of both scans

  /** An entity other than "&amp;" is decoded by both. */
  lemma StepAtEntity(s: Text, codes: seq<Code>, k: nat)
    requires Prepared(codes) && 0 < k < |codes| && k == Match(s, Decoding(codes))
    ensures var rest := s[|codes[k].Dst()|..];
            && OneScan(s, codes) == codes[k].src + OneScan(rest, codes)
            && TwoScans(s, codes) == codes[k].src + TwoScans(rest, codes)
            && (AnyOccurs(DoublyEncoded(codes), s) <==> AnyOccurs(DoublyEncoded(codes), rest))
  {
    var d, rest := codes[k].Dst(), s[|codes[k].Dst()|..];
    assert Decoding(codes)[k].from == d;
    PrefixSplit(d, s);
    ReplacedFirst(d, rest, Decoding(codes), k);
    EntityBehindAmpersands(d, rest, codes, k);
    NoDoubleAtEntity(s, codes, k);
  }

  lemma NoDoubleAtEntity(s: Text, codes: seq<Code>, k: nat)
    requires Prepared(codes) && 0 < k < |codes| && k == Match(s, Decoding(codes))
    ensures AnyOccurs(DoublyEncoded(codes), s) <==> AnyOccurs(DoublyEncoded(codes), s[|codes[k].Dst()|..])
  {
    assert Decoding(codes)[k].from == codes[k].Dst();
    var m := Match(s, DoublyEncoded(codes));
    if m < |codes| - 1 {
      DoubleStartsWithAmp(s, codes, m);
      assert false;
    }
    NoDoubleInside(s, codes, k);
  }

  lemma EntityBehindAmpersands(d: Text, rest: Text, codes: seq<Code>, k: nat)
    requires Prepared(codes) && 0 < k < |codes| && d == codes[k].Dst()
    ensures TwoScans(d + rest, codes) == codes[k].src + TwoScans(rest, codes)
  {
    var amp := Decoding(codes)[0];
    assert Decoding(codes)[k].from == d;
    ReplaceAllCopiesOther(d, rest, amp);
    EntityDecoded(d, ReplaceAll(rest, amp), codes, k);
  }

  lemma EntityDecoded(d: Text, x: Text, codes: seq<Code>, k: nat)
    requires Prepared(codes) && 0 < k < |codes| && d == codes[k].Dst()
    ensures AtOnce(d + x, Decoding(codes[1..])) == codes[k].src + AtOnce(x, Decoding(codes[1..]))
  {
    assert Decoding(codes[1..])[k - 1] == Pair(d, codes[k].src);
    ReplacedFirst(d, x, Decoding(codes[1..]), k - 1);
  }

  /** Decoding ampersands further on does not complete an entity that was not there. */
  lemma NoEntityArises(b: byte, rest: Text, codes: seq<Code>)
    requires Prepared(codes)
    requires b == AMPERSAND ==> forall k :: 1 <= k < |codes| ==> !(codes[k].Dst()[1..] <= rest)
    ensures AtOnce([b] + ReplaceAll(rest, Decoding(codes)[0]), Decoding(codes[1..])) == [b] + TwoScans(rest, codes)
  {
    var amp, others := Decoding(codes)[0], Decoding(codes[1..]);
    var x := ReplaceAll(rest, amp);
    var k := Match([b] + x, others);
    if k < |others| {
      assert others[k].from == codes[k + 1].Dst();
      WordBehindByte(b, rest, codes[k + 1].Dst(), amp);
      assert false;
    }
    CopiesByte(b, x, others);
  }

  lemma WordBehindByte(b: byte, rest: Text, w: Text, p: Pair)
    requires w != [] && p.from != [] && p.to != [] && p.to[0] !in w[1..]
    requires w <= [b] + ReplaceAll(rest, p)
    ensures w[0] == b && w[1..] <= rest
  {
    TailPrefix(w, [b] + ReplaceAll(rest, p));
    TailOfCopy(b, ReplaceAll(rest, p));
    ReplaceAllKeepsWord(w[1..], rest, p);
  }

  lemma CopiesByte(b: byte, x: Text, pairs: seq<Pair>)
    requires Searchable(pairs) && Match([b] + x, pairs) == |pairs|
    ensures AtOnce([b] + x, pairs) == [b] + AtOnce(x, pairs)
  {
    assert ([b] + x)[1..] == x;
  }

  /** "&amp;" is decoded to an ampersand by both, unless the rest of an entity follows. */
  lemma StepAtAmpersand(s: Text, codes: seq<Code>)
    requires Prepared(codes) && codes[0].Dst() <= s
    requires forall k :: 1 <= k < |codes| ==> !(codes[k].Dst()[1..] <= s[|codes[0].Dst()|..])
    ensures var rest := s[|codes[0].Dst()|..];
            && OneScan(s, codes) == [AMPERSAND] + OneScan(rest, codes)
            && TwoScans(s, codes) == [AMPERSAND] + TwoScans(rest, codes)
            && (AnyOccurs(DoublyEncoded(codes), s) <==> AnyOccurs(DoublyEncoded(codes), rest))
  {
    var amp, rest := Decoding(codes)[0], s[|codes[0].Dst()|..];
    assert amp == Pair(codes[0].Dst(), [AMPERSAND]);
    MatchIsUnique(s, Decoding(codes), 0);
    NoEntityArises(AMPERSAND, rest, codes);
    var m := Match(s, DoublyEncoded(codes));
    if m < |codes| - 1 {
      DoubleStartsWithAmp(s, codes, m);
      assert false;
    }
    NoDoubleInside(s, codes, 0);
  }

  /** A doubly encoded entity is decoded once by one scan, and twice by two. */
  lemma StepAtDouble(s: Text, codes: seq<Code>, k: nat)
    requires Prepared(codes) && 1 <= k < |codes| && codes[0].Dst() <= s
    requires codes[k].Dst()[1..] <= s[|codes[0].Dst()|..]
    ensures var w := codes[k].Dst()[1..];
            var rest := s[|codes[0].Dst()|..][|w|..];
            && OneScan(s, codes) == [AMPERSAND] + (w + OneScan(rest, codes))
            && TwoScans(s, codes) == codes[k].src + TwoScans(rest, codes)
    ensures AnyOccurs(DoublyEncoded(codes), s)
  {
    var amp, w, behind := codes[0].Dst(), codes[k].Dst()[1..], s[|codes[0].Dst()|..];
    var rest := behind[|w|..];
    PrefixSplit(amp, s);
    PrefixSplit(w, behind);
    OneScanAtDouble(amp, w, rest, codes);
    TwoScansAtDouble(amp, w, rest, codes, k);
    DoubleFromParts(s, codes, k - 1);
    OccursHere(DoublyEncoded(codes)[k - 1].from, s);
  }

  lemma OneScanAtDouble(amp: Text, w: Text, rest: Text, codes: seq<Code>)
    requires Prepared(codes) && amp == codes[0].Dst() && AMPERSAND !in w
    ensures OneScan(amp + (w + rest), codes) == [AMPERSAND] + (w + OneScan(rest, codes))
  {
    assert Decoding(codes)[0] == Pair(amp, [AMPERSAND]);
    ReplacedFirst(amp, w + rest, Decoding(codes), 0);
    AtOnceCopies(w, rest, Decoding(codes));
  }

  lemma TwoScansAtDouble(amp: Text, w: Text, rest: Text, codes: seq<Code>, k: nat)
    requires Prepared(codes) && 1 <= k < |codes| && amp == codes[0].Dst() && w == codes[k].Dst()[1..]
    ensures TwoScans(amp + (w + rest), codes) == codes[k].src + TwoScans(rest, codes)
  {
    var p, d := Decoding(codes)[0], codes[k].Dst();
    assert p == Pair(amp, [AMPERSAND]);
    ReplaceAllFirst(w + rest, p);
    ReplaceAllCopies(w, rest, p);
    Regroup(d, ReplaceAll(rest, p));
    EntityDecoded(d, ReplaceAll(rest, p), codes, k);
  }

  /** Any other byte is copied by both. */
  lemma StepAtOther(s: Text, codes: seq<Code>)
    requires Prepared(codes) && s != [] && Match(s, Decoding(codes)) == |codes|
    ensures OneScan(s, codes) == [s[0]] + OneScan(s[1..], codes)
    ensures TwoScans(s, codes) == [s[0]] + TwoScans(s[1..], codes)
    ensures AnyOccurs(DoublyEncoded(codes), s) <==> AnyOccurs(DoublyEncoded(codes), s[1..])
  {
    forall k | 1 <= k < |codes| && s[0] == AMPERSAND
      ensures !(codes[k].Dst()[1..] <= s[1..])
    {
      assert Decoding(codes)[k].from == codes[k].Dst();
      if codes[k].Dst()[1..] <= s[1..] {
        SameHead(codes[k].Dst(), s);
        assert false;
      }
    }
    NoEntityArises(s[0], s[1..], codes);
    var m := Match(s, DoublyEncoded(codes));
    if m < |codes| - 1 {
      DoubleStartsWithAmp(s, codes, m);
      assert false;
    }
    OccursLater(s, DoublyEncoded(codes));
  }

  // ---------------------------------------------------------------- what Decode computes

  /** Two scans give the same as one exactly when nothing was encoded twice, and are shorter
      otherwise. */
  lemma {:induction false} ScansCompared(s: Text, codes: seq<Code>)
    requires Prepared(codes)
    ensures |TwoScans(s, codes)| <= |OneScan(s, codes)|
    ensures if AnyOccurs(DoublyEncoded(codes), s) then |TwoScans(s, codes)| < |OneScan(s, codes)|
            else TwoScans(s, codes) == OneScan(s, codes)
    decreases |s|
  {
    var k := Match(s, Decoding(codes));
    if s == [] {
      NothingOccursInNothing(codes);
    } else if k == |codes| {
      StepAtOther(s, codes);
      ScansCompared(s[1..], codes);
    } else if k > 0 {
      StepAtEntity(s, codes, k);
      ScansCompared(s[|codes[k].Dst()|..], codes);
    } else {
      var behind := s[|codes[0].Dst()|..];
      if m: nat :| 1 <= m < |codes| && codes[m].Dst()[1..] <= behind {
        ScansCompared(behind[|codes[m].Dst()| - 1..], codes);
        ShorterAtDouble(s, codes, m);
      } else {
        StepAtAmpersand(s, codes);
        ScansCompared(behind, codes);
      }
    }
  }

  /** At a doubly encoded entity two scans put in a symbol where one puts in a longer entity. */
  lemma ShorterAtDouble(s: Text, codes: seq<Code>, m: nat)
    requires Prepared(codes) && 1 <= m < |codes| && codes[0].Dst() <= s
    requires codes[m].Dst()[1..] <= s[|codes[0].Dst()|..]
    requires var rest := s[|codes[0].Dst()|..][|codes[m].Dst()| - 1..];
             |TwoScans(rest, codes)| <= |OneScan(rest, codes)|
    ensures AnyOccurs(DoublyEncoded(codes), s) && |TwoScans(s, codes)| < |OneScan(s, codes)|
  {
    SymbolIsShorter(codes[m]);
    StepAtDouble(s, codes, m);
    var w := codes[m].Dst()[1..];
    var rest := s[|codes[0].Dst()|..][|w|..];
    Lengths(w, OneScan(rest, codes), codes[m].src, TwoScans(rest, codes));
  }

  lemma SymbolIsShorter(c: Code)
    requires WellFormed(c)
    ensures |c.src| < |c.Dst()|
  {
  }

  lemma Lengths(w: Text, x: Text, symbol: Text, y: Text)
    requires |symbol| <= |w| && |y| <= |x|
    ensures |symbol + y| < |[AMPERSAND] + (w + x)|
  {
  }

  lemma NothingOccursInNothing(codes: seq<Code>)
    requires Prepared(codes)
    ensures !AnyOccurs(DoublyEncoded(codes), [])
  {
    forall k | 0 <= k < |codes| - 1
      ensures !Occurs(DoublyEncoded(codes)[k].from, [])
    {
      assert DoublyEncoded(codes)[k].from != [];
    }
  }

  /** Decode is two scans of the text, one for "&amp;" and one for all other entities. It is the
      same as a single scan for all of them if and only if no entity was encoded twice. */
  lemma DecodesAtOnceExactly(s: Text)
    ensures Searchable(Decoding(CODES)) && Searchable(OtherEntities())
    ensures Decoded(s) == AtOnce(ReplaceAll(s, Decoding(CODES)[0]), OtherEntities())
    ensures Decoded(s) == AtOnce(s, Decoding(CODES)) <==> !AnyOccurs(DoublyEncoded(CODES), s)
  {
    TableIsGood();
    GoodIsPrepared(CODES);
    DecodedInTwoScans(s, CODES);
    ScansCompared(s, CODES);
  }

  lemma DecodedInTwoScans(s: Text, codes: seq<Code>)
    requires Prepared(codes)
    ensures OneByOne(s, Decoding(codes)) == TwoScans(s, codes)
  {
    GoodTail(codes);
    DecodingWorks(codes[1..]);
    OneByOneIsAtOnce(ReplaceAll(s, Decoding(codes)[0]), Decoding(codes[1..]));
  }

  /** An entity that was encoded twice is decoded twice. */
  lemma DoubleAlone(codes: seq<Code>, k: nat)
    requires Prepared(codes) && 1 <= k < |codes|
    ensures TwoScans(codes[0].Dst() + codes[k].Dst()[1..], codes) == codes[k].src
  {
    var amp, w := codes[0].Dst(), codes[k].Dst()[1..];
    var s := amp + w;
    assert s[..|amp|] == amp && s[|amp|..] == w && w[|w|..] == [];
    StepAtDouble(s, codes, k);
  }

  /** So "&amp;lt;" becomes "<", while a single scan makes "&lt;" of it. */
  lemma DecodedTwice()
    ensures var s: Text := [AMPERSAND, 97, 109, 112, SEMICOLON, 108, 116, SEMICOLON];
            Decoded(s) == [60] && Decoded(s) != AtOnce(s, Decoding(CODES))
  {
    var s: Text := [AMPERSAND, 97, 109, 112, SEMICOLON, 108, 116, SEMICOLON];
    TableIsGood();
    GoodIsPrepared(CODES);
    LessThanTwice(CODES, s);
    DecodesAtOnceExactly(s);
  }

  lemma LessThanTwice(codes: seq<Code>, s: Text)
    requires Prepared(codes) && |codes| > 1
    requires codes[0] == Code([38], "amp") && codes[1] == Code([60], "lt")
    requires s == [AMPERSAND, 97, 109, 112, SEMICOLON, 108, 116, SEMICOLON]
    ensures TwoScans(s, codes) == [60] && AnyOccurs(DoublyEncoded(codes), s)
  {
    var amp, lt := codes[0].Dst(), codes[1].Dst();
    assert amp == [AMPERSAND, 97, 109, 112, SEMICOLON] && lt == [AMPERSAND, 108, 116, SEMICOLON];
    assert s == amp + lt[1..] == DoublyEncoded(codes)[0].from;
    DoubleAlone(codes, 1);
    OccursHere(s, s);
  }
}

/**
  Replacing substrings: one pair after the other, as a chain of boost::replace_all calls does,
  and all pairs at once in a single scan of the text.
*/
module Replacing {
  import opened Bytes

  type Text = seq<byte>

  datatype Pair = Pair(from: Text, to: Text)

  /** boost::replace_all: every occurrence from left to right; what was put in is not searched. */
  function ReplaceAll(s: Text, p: Pair): Text
    requires p.from != []
    decreases |s|
  {
    if p.from <= s then p.to + ReplaceAll(s[|p.from|..], p)
    else if s == [] then []
    else [s[0]] + ReplaceAll(s[1..], p)
  }

  predicate Searchable(pairs: seq<Pair>) {
    forall i :: 0 <= i < |pairs| ==> pairs[i].from != []
  }

  /** The pairs one after the other, each over the whole result of the one before. */
  function OneByOne(s: Text, pairs: seq<Pair>): Text
    requires Searchable(pairs)
    decreases |pairs|
  {
    if pairs == [] then s else OneByOne(ReplaceAll(s, pairs[0]), pairs[1..])
  }

  /** The first pair whose search string starts the text, or |pairs|. */
  function Match(s: Text, pairs: seq<Pair>): (k: nat)
    ensures k <= |pairs|
    ensures k < |pairs| ==> pairs[k].from <= s
    ensures forall i :: 0 <= i < k ==> !(pairs[i].from <= s)
  {
    if pairs == [] then 0
    else if pairs[0].from <= s then 0
    else 1 + Match(s, pairs[1..])
  }

  /** All pairs at once: one scan, which replaces what it finds and copies everything else. */
  function AtOnce(s: Text, pairs: seq<Pair>): Text
    requires Searchable(pairs)
    decreases |s|
  {
    if s == [] then []
    else
      var k := Match(s, pairs);
      if k < |pairs| then pairs[k].to + AtOnce(s[|pairs[k].from|..], pairs)
      else [s[0]] + AtOnce(s[1..], pairs)
  }

  /** `a` does not start inside `b`. */
  predicate NotInside(a: Text, b: Text) {
    a != [] && b != [] && a[0] !in b[1..]
  }

  /** The search strings cannot overlap: none starts inside or at the beginning of another. */
  ghost predicate Separate(pairs: seq<Pair>) {
    && Searchable(pairs)
    && (forall i, j :: 0 <= i < |pairs| && 0 <= j < |pairs| ==> NotInside(pairs[i].from, pairs[j].from))
    && (forall i, j :: 0 <= i < |pairs| && 0 <= j < |pairs| && i != j ==> !(pairs[i].from <= pairs[j].from))
  }

  /** What the earlier pair puts in can be no part of what the later pair searches for. */
  predicate InertPair(earlier: Pair, later: Pair) {
    NotInside(earlier.to, later.from) && later.from[0] !in earlier.to
  }

  ghost predicate Inert(pairs: seq<Pair>) {
    forall i, j :: 0 <= i < j < |pairs| ==> InertPair(pairs[i], pairs[j])
  }

  // ---------------------------------------------------------------- prefixes

  lemma PrefixesCompare(a: Text, b: Text, s: Text)
    requires a <= s && b <= s
    ensures a <= b || b <= a
  {
    if |a| <= |b| {
      assert a == s[..|a|] == b[..|a|];
    } else {
      assert b == s[..|b|] == a[..|b|];
    }
  }

  lemma PrefixOfConcat(w: Text, a: Text, b: Text)
    requires w <= a + b
    ensures w <= a || a <= w
  {
    PrefixesCompare(w, a, a + b);
  }

  lemma PrefixSplit(f: Text, s: Text)
    requires f <= s
    ensures s == f + s[|f|..]
  {
  }

  lemma TailPrefix(f: Text, s: Text)
    requires f != [] && f <= s
    ensures f[0] == s[0] && f[1..] <= s[1..]
  {
    assert f[1..] == s[..|f|][1..] == s[1..][..|f| - 1];
  }

  lemma TailOfCopy(b: byte, x: Text)
    ensures ([b] + x)[1..] == x
  {
  }

  /** At most one pair matches at any place. */
  lemma MatchIsUnique(s: Text, pairs: seq<Pair>, k: nat)
    requires Separate(pairs) && k < |pairs| && pairs[k].from <= s
    ensures Match(s, pairs) == k
  {
    PrefixesCompare(pairs[k].from, pairs[Match(s, pairs)].from, s);
  }

  // ---------------------------------------------------------------- copying

  lemma HeadAndTail(d: Text, s: Text)
    requires d != []
    ensures d + s != [] && (d + s)[0] == d[0] && (d + s)[1..] == d[1..] + s
  {
  }

  lemma Regroup(d: Text, x: Text)
    requires d != []
    ensures [d[0]] + (d[1..] + x) == d + x
  {
  }

  /** A stretch in which no search string starts is copied as it is. */
  lemma {:induction false} AtOnceCopies(d: Text, s: Text, pairs: seq<Pair>)
    requires Searchable(pairs)
    requires forall j :: 0 <= j < |pairs| ==> pairs[j].from[0] !in d
    ensures AtOnce(d + s, pairs) == d + AtOnce(s, pairs)
    decreases |d|
  {
    if d == [] {
      assert d + s == s && d + AtOnce(s, pairs) == AtOnce(s, pairs);
    } else {
      HeadAndTail(d, s);
      assert Match(d + s, pairs) == |pairs| by {
        assert d[0] in d;
      }
      AtOnceCopies(d[1..], s, pairs);
      Regroup(d, AtOnce(s, pairs));
    }
  }

  lemma {:induction false} AtOnceCopiesPrefix(s: Text, n: nat, pairs: seq<Pair>)
    requires n <= |s| && Searchable(pairs)
    requires forall j :: 0 <= j < |pairs| ==> pairs[j].from[0] !in s[..n]
    ensures AtOnce(s, pairs) == s[..n] + AtOnce(s[n..], pairs)
    decreases n
  {
    if n == 0 {
      assert s[0..] == s;
    } else {
      var d, t := s[..n], s[1..];
      assert d[0] == s[0] && d[0] in d && d[1..] == t[..n - 1] && t[n - 1..] == s[n..];
      AtOnceCopiesPrefix(t, n - 1, pairs);
      assert Match(s, pairs) == |pairs|;
      Regroup(d, AtOnce(s[n..], pairs));
    }
  }

  lemma {:induction false} ReplaceAllCopies(d: Text, s: Text, p: Pair)
    requires p.from != [] && p.from[0] !in d
    ensures ReplaceAll(d + s, p) == d + ReplaceAll(s, p)
    decreases |d|
  {
    if d == [] {
      assert d + s == s && d + ReplaceAll(s, p) == ReplaceAll(s, p);
    } else {
      HeadAndTail(d, s);
      assert d[0] in d;
      ReplaceAllCopies(d[1..], s, p);
      Regroup(d, ReplaceAll(s, p));
    }
  }

  lemma ReplaceAllFirst(x: Text, p: Pair)
    requires p.from != []
    ensures ReplaceAll(p.from + x, p) == p.to + ReplaceAll(x, p)
  {
    assert p.from <= p.from + x && (p.from + x)[|p.from|..] == x;
  }

  /** ... also when it begins like the search string but differs from it further on. */
  lemma ReplaceAllCopiesOther(d: Text, s: Text, p: Pair)
    requires NotInside(p.from, d)
    requires !(p.from <= d) && !(d <= p.from)
    ensures ReplaceAll(d + s, p) == d + ReplaceAll(s, p)
  {
    if p.from <= d + s {
      PrefixOfConcat(p.from, d, s);
      assert false;
    }
    HeadAndTail(d, s);
    ReplaceAllCopies(d[1..], s, p);
    Regroup(d, ReplaceAll(s, p));
  }

  /** A word that contains no first byte of a replacement, and starts the result, was there before. */
  lemma {:induction false} ReplaceAllKeepsWord(w: Text, s: Text, p: Pair)
    requires p.from != [] && p.to != [] && p.to[0] !in w
    requires w <= ReplaceAll(s, p)
    ensures w <= s
    decreases |s|
  {
    if w != [] {
      assert w[0] in w;
      assert w[1..] <= ReplaceAll(s[1..], p);
      ReplaceAllKeepsWord(w[1..], s[1..], p);
      SameHead(w, s);
    }
  }

  lemma {:induction false} AtOnceKeepsWord(w: Text, s: Text, pairs: seq<Pair>)
    requires Searchable(pairs)
    requires forall i :: 0 <= i < |pairs| ==> pairs[i].to != [] && pairs[i].to[0] !in w
    requires w <= AtOnce(s, pairs)
    ensures w <= s
    decreases |s|
  {
    if w != [] {
      assert w[0] in w;
      assert w[1..] <= AtOnce(s[1..], pairs);
      AtOnceKeepsWord(w[1..], s[1..], pairs);
      SameHead(w, s);
    }
  }

  lemma SameHead(w: Text, s: Text)
    requires w != [] && s != [] && w[0] == s[0] && w[1..] <= s[1..]
    ensures w <= s
  {
    assert w == [w[0]] + w[1..] && s == [s[0]] + s[1..];
  }

  // ---------------------------------------------------------------- one by one is at once

  /** Doing the first pair beforehand changes nothing for a scan. */
  lemma {:induction false} FirstPairBeforehand(s: Text, pairs: seq<Pair>)
    requires pairs != [] && Separate(pairs) && Inert(pairs)
    ensures AtOnce(s, pairs) == AtOnce(ReplaceAll(s, pairs[0]), pairs[1..])
    decreases |s|
  {
    if s != [] {
      var k := Match(s, pairs);
      if k < |pairs| {
        FirstPairBeforehand(s[|pairs[k].from|..], pairs);
        BeforehandAtMatch(s, pairs);
      } else {
        FirstPairBeforehand(s[1..], pairs);
        NoNewMatch(s, pairs);
      }
    }
  }

  lemma BeforehandAtMatch(s: Text, pairs: seq<Pair>)
    requires pairs != [] && Separate(pairs) && Inert(pairs)
    requires s != [] && Match(s, pairs) < |pairs|
    requires var rest := s[|pairs[Match(s, pairs)].from|..];
             AtOnce(rest, pairs) == AtOnce(ReplaceAll(rest, pairs[0]), pairs[1..])
    ensures AtOnce(s, pairs) == AtOnce(ReplaceAll(s, pairs[0]), pairs[1..])
  {
    var k := Match(s, pairs);
    var rest := s[|pairs[k].from|..];
    PrefixSplit(pairs[k].from, s);
    ReplacedFirst(pairs[k].from, rest, pairs, k);
    if k == 0 {
      AtOnceCopies(pairs[0].to, ReplaceAll(rest, pairs[0]), pairs[1..]);
    } else {
      OtherMatch(pairs[k].from, rest, pairs, k);
    }
  }

  lemma SeparateTail(pairs: seq<Pair>)
    requires pairs != [] && Separate(pairs)
    ensures Separate(pairs[1..])
    ensures Inert(pairs) ==> Inert(pairs[1..])
  {
    var tail := pairs[1..];
    forall i, j | 0 <= i < |tail| && 0 <= j < |tail|
      ensures NotInside(tail[i].from, tail[j].from)
      ensures i != j ==> !(tail[i].from <= tail[j].from)
      ensures Inert(pairs) && i < j ==> InertPair(tail[i], tail[j])
    {
      assert tail[i] == pairs[i + 1] && tail[j] == pairs[j + 1];
    }
  }

  /** Where another pair matches, the first one leaves its search string alone. */
  lemma OtherMatch(f: Text, rest: Text, pairs: seq<Pair>, k: nat)
    requires 0 < k < |pairs| && Separate(pairs) && pairs[k].from == f
    ensures AtOnce(ReplaceAll(f + rest, pairs[0]), pairs[1..])
         == pairs[k].to + AtOnce(ReplaceAll(rest, pairs[0]), pairs[1..])
  {
    ReplaceAllCopiesOther(f, rest, pairs[0]);
    SeparateTail(pairs);
    ReplacedFirst(f, ReplaceAll(rest, pairs[0]), pairs[1..], k - 1);
  }

  /** Replacing the first pair's string further on creates no match at the start. */
  lemma NoNewMatch(s: Text, pairs: seq<Pair>)
    requires pairs != [] && Separate(pairs) && Inert(pairs)
    requires s != [] && Match(s, pairs) == |pairs|
    ensures ReplaceAll(s, pairs[0]) == [s[0]] + ReplaceAll(s[1..], pairs[0])
    ensures Match(ReplaceAll(s, pairs[0]), pairs[1..]) == |pairs| - 1
  {
    assert !(pairs[0].from <= s);
    var after := ReplaceAll(s, pairs[0]);
    forall k | 0 < k < |pairs|
      ensures !(pairs[k].from <= after)
    {
      if pairs[k].from <= after {
        StillMatches(s, pairs, k);
        assert false;
      }
    }
    NoneOfTheTail(after, pairs);
  }

  lemma NoneOfTheTail(s: Text, pairs: seq<Pair>)
    requires pairs != [] && forall k :: 0 < k < |pairs| ==> !(pairs[k].from <= s)
    ensures Match(s, pairs[1..]) == |pairs| - 1
  {
    assert forall j :: 0 <= j < |pairs| - 1 ==> pairs[1..][j] == pairs[j + 1];
  }

  lemma StillMatches(s: Text, pairs: seq<Pair>, k: nat)
    requires 0 < k < |pairs| && Separate(pairs) && Inert(pairs)
    requires s != [] && !(pairs[0].from <= s) && pairs[k].from <= ReplaceAll(s, pairs[0])
    ensures pairs[k].from <= s
  {
    var f := pairs[k].from;
    TailPrefix(f, ReplaceAll(s, pairs[0]));
    TailOfCopy(s[0], ReplaceAll(s[1..], pairs[0]));
    ReplaceAllKeepsWord(f[1..], s[1..], pairs[0]);
    SameHead(f, s);
  }

  /** With separate search strings and inert replacements, replacing the pairs one after the
      other is the same as replacing them all at once. */
  lemma {:induction false} OneByOneIsAtOnce(s: Text, pairs: seq<Pair>)
    requires Separate(pairs) && Inert(pairs)
    ensures OneByOne(s, pairs) == AtOnce(s, pairs)
    decreases |pairs|
  {
    if pairs == [] {
      NothingToReplace(s);
    } else {
      FirstPairBeforehand(s, pairs);
      SeparateTail(pairs);
      OneByOneIsAtOnce(ReplaceAll(s, pairs[0]), pairs[1..]);
    }
  }

  lemma {:induction false} NothingToReplace(s: Text)
    ensures AtOnce(s, []) == s
    decreases |s|
  {
    if s != [] {
      NothingToReplace(s[1..]);
      assert s == [s[0]] + s[1..];
    }
  }

  // ---------------------------------------------------------------- there and back

  /** `back` undoes each pair of `there`. */
  ghost predicate Reversed(there: seq<Pair>, back: seq<Pair>) {
    |there| == |back| && forall i :: 0 <= i < |there| ==> back[i] == Pair(there[i].to, there[i].from)
  }

  /** No search string of `a` starts anywhere in one of `b`. */
  ghost predicate Foreign(a: seq<Pair>, b: seq<Pair>) {
    Searchable(a) && forall i, j :: 0 <= i < |a| && 0 <= j < |b| ==> a[i].from[0] !in b[j].from
  }

  /** Replacing all at once and then the other way round does what the second scan alone would
      have done to the text: it finds what the first one put in, what was there already, and
      nothing else. */
  lemma {:induction false} ThereAndBack(s: Text, there: seq<Pair>, back: seq<Pair>)
    requires Separate(there) && Separate(back) && Reversed(there, back)
    requires Foreign(there, back) && Foreign(back, there)
    ensures AtOnce(AtOnce(s, there), back) == AtOnce(s, back)
    decreases |s|
  {
    if s != [] {
      var k, m := Match(s, there), Match(s, back);
      if k < |there| {
        ThereAndBack(s[|there[k].from|..], there, back);
        PutInAndFound(s, there, back, k);
      } else if m < |back| {
        ThereAndBack(s[|back[m].from|..], there, back);
        ThereAlready(s, there, back, m);
      } else {
        ThereAndBack(s[1..], there, back);
        NothingElse(s, there, back);
      }
    }
  }

  lemma PutInAndFound(s: Text, there: seq<Pair>, back: seq<Pair>, k: nat)
    requires Searchable(there) && Separate(back) && Reversed(there, back) && Foreign(back, there)
    requires s != [] && k == Match(s, there) < |there|
    requires var rest := s[|there[k].from|..]; AtOnce(AtOnce(rest, there), back) == AtOnce(rest, back)
    ensures AtOnce(AtOnce(s, there), back) == AtOnce(s, back)
  {
    var n := |there[k].from|;
    assert s[..n] == there[k].from;
    AtOnceCopiesPrefix(s, n, back);
    ReplacedFirst(there[k].to, AtOnce(s[n..], there), back, k);
  }

  lemma ThereAlready(s: Text, there: seq<Pair>, back: seq<Pair>, m: nat)
    requires Searchable(there) && Separate(back) && Reversed(there, back) && Foreign(there, back)
    requires s != [] && m == Match(s, back) < |back|
    requires var rest := s[|back[m].from|..]; AtOnce(AtOnce(rest, there), back) == AtOnce(rest, back)
    ensures AtOnce(AtOnce(s, there), back) == AtOnce(s, back)
  {
    var n := |back[m].from|;
    assert s[..n] == back[m].from;
    AtOnceCopiesPrefix(s, n, there);
    ReplacedFirst(back[m].from, AtOnce(s[n..], there), back, m);
  }

  lemma ReplacedFirst(f: Text, x: Text, pairs: seq<Pair>, k: nat)
    requires Separate(pairs) && k < |pairs| && pairs[k].from == f
    ensures AtOnce(f + x, pairs) == pairs[k].to + AtOnce(x, pairs)
  {
    assert f <= f + x && (f + x)[|f|..] == x;
    MatchIsUnique(f + x, pairs, k);
  }

  lemma NothingElse(s: Text, there: seq<Pair>, back: seq<Pair>)
    requires Searchable(there) && Separate(back) && Reversed(there, back)
    requires s != [] && Match(s, there) == |there| && Match(s, back) == |back|
    ensures AtOnce(s, there) == [s[0]] + AtOnce(s[1..], there)
    ensures Match(AtOnce(s, there), back) == |back|
  {
    var k := Match(AtOnce(s, there), back);
    if k < |back| {
      FoundBefore(s, there, back, k);
      assert false;
    }
  }

  lemma FoundBefore(s: Text, there: seq<Pair>, back: seq<Pair>, k: nat)
    requires Searchable(there) && Separate(back) && Reversed(there, back) && k < |back|
    requires s != [] && Match(s, there) == |there|
    requires back[k].from <= AtOnce(s, there)
    ensures back[k].from <= s
  {
    var f := back[k].from;
    TailPrefix(f, AtOnce(s, there));
    TailOfCopy(s[0], AtOnce(s[1..], there));
    assert forall i :: 0 <= i < |there| ==> there[i].to == back[i].from;
    AtOnceKeepsWord(f[1..], s[1..], there);
    SameHead(f, s);
  }

  // ---------------------------------------------------------------- occurrences

  ghost predicate Occurs(w: Text, s: Text) {
    exists i :: 0 <= i <= |s| && w <= s[i..]
  }

  ghost predicate AnyOccurs(pairs: seq<Pair>, s: Text) {
    exists k :: 0 <= k < |pairs| && Occurs(pairs[k].from, s)
  }

  /** A scan with shorter replacements leaves a text alone exactly when nothing in it is searched for. */
  lemma {:induction false} UnchangedExactly(s: Text, pairs: seq<Pair>)
    requires Searchable(pairs)
    requires forall k :: 0 <= k < |pairs| ==> |pairs[k].to| < |pairs[k].from|
    ensures AtOnce(s, pairs) == s <==> !AnyOccurs(pairs, s)
    ensures |AtOnce(s, pairs)| <= |s|
    ensures AnyOccurs(pairs, s) ==> |AtOnce(s, pairs)| < |s|
    decreases |s|
  {
    if s == [] {
    } else {
      var k := Match(s, pairs);
      if k < |pairs| {
        UnchangedExactly(s[|pairs[k].from|..], pairs);
        OccursHere(pairs[k].from, s);
        assert |AtOnce(s, pairs)| < |s|;
      } else {
        UnchangedExactly(s[1..], pairs);
        OccursLater(s, pairs);
        assert AtOnce(s, pairs) == [s[0]] + AtOnce(s[1..], pairs);
        assert s == [s[0]] + s[1..];
      }
    }
  }

  lemma OccursHere(w: Text, s: Text)
    requires w <= s
    ensures Occurs(w, s)
  {
    assert s[0..] == s;
  }

  lemma OccursLater(s: Text, pairs: seq<Pair>)
    requires s != [] && Match(s, pairs) == |pairs|
    ensures AnyOccurs(pairs, s) <==> AnyOccurs(pairs, s[1..])
  {
    assert s[0..] == s;
    forall k | 0 <= k < |pairs|
      ensures Occurs(pairs[k].from, s) <==> Occurs(pairs[k].from, s[1..])
    {
      var w := pairs[k].from;
      if Occurs(w, s) {
        var i :| 0 <= i <= |s| && w <= s[i..];
        if i == 0 {
          assert false;
        }
        assert s[i..] == s[1..][i - 1..];
      }
      if Occurs(w, s[1..]) {
        var i :| 0 <= i <= |s[1..]| && w <= s[1..][i..];
        assert s[1..][i..] == s[i + 1..];
      }
    }
  }
}

/** Where the parser of url-encoded bodies and the parser of query strings read the same. */
module UrlAgreement {
  import opened Bytes
  import opened UrlCodec
  import opened UrlEncoder
  import opened QueryStrings
  import opened UrlBodies
  import opened Attributes

  /** Every word is a name, '=' and a value; behind the last one there may be separators. */
  predicate Regular(s: bytes)
    decreases |s|
  {
    AllSeps(s) || (Begins(s) && (var e := SepAt(s, EqualsAt(s, 0) + 1); e == |s| || Regular(s[e + 1..])))
  }

  /** The first word has a name and '='. */
  predicate Begins(s: bytes) {
    var n := EqualsAt(s, 0);
    0 < n < |s| && forall k :: 0 <= k < n ==> !IsSep(s[k])
  }

  /** On such words the two parsers read the same, also where one of them fails. */
  lemma {:induction false} BodyIsQuery(t: seq<Pair>, s: bytes)
    requires NUL !in s && Regular(s)
    ensures ReadBody(t, s) == ReadQuery(t, s)
    decreases |s|
  {
    hide DecodePair, ReadQuery, ReadBody, WordPair, EqualsAt, SepAt;
    if AllSeps(s) {
      SeparatorsOnly(t, s);
    } else {
      var e := SepAt(s, EqualsAt(s, 0) + 1);
      SameWord(t, s);
      var w := WordPair(s[..e]);
      if w.Good? && e < |s| { BodyIsQuery(t + [w.pair], s[e + 1..]); }
    }
  }

  lemma SeparatorsOnly(t: seq<Pair>, s: bytes)
    requires AllSeps(s)
    ensures ReadBody(t, s) == ReadQuery(t, s) == Done(t)
  {
    hide DecodePair, ReadQuery;
    assert s[..|s|] == s && s[|s|..] == [];
    SkipSeparators(t, s, |s|);
    ReadEmpty(t, []);
    EqualsAtIs(s, 0, |s|);
  }

  /** A word that has a name and '=' is one and the same to both. */
  lemma SameWord(t: seq<Pair>, s: bytes)
    requires NUL !in s && Begins(s)
    ensures var e := SepAt(s, EqualsAt(s, 0) + 1); var w := WordPair(s[..e]);
      && (w.Undetermined? ==> ReadBody(t, s) == ReadQuery(t, s) == Unknown)
      && (w.Refused? ==> ReadBody(t, s) == ReadQuery(t, s) == Failed(t, w.cut))
      && (w.Good? && e == |s| ==> ReadBody(t, s) == ReadQuery(t, s) == Done(t + [w.pair]))
      && (w.Good? && e < |s| ==> ReadBody(t, s) == ReadBody(t + [w.pair], s[e + 1..])
                                 && ReadQuery(t, s) == ReadQuery(t + [w.pair], s[e + 1..]))
  {
    hide DecodePair, ReadQuery, ReadBody, EqualsAt, SepAt, QueryStrings.WordEnd;
    var n := EqualsAt(s, 0);
    var e := SepAt(s, n + 1);
    QueryStrings.WordEndIs(s, 0, e);
    EqualsAtIs(s[..e], 1, n);
    ReadWord(t, s, e);
    BodyStep(t, s, n, e);
    assert s[..e][..n] == s[..n] && s[..e][n + 1..] == s[n + 1..e];
  }

  /* ---- Bodies word by word ---- */

  /** A word as it stands in a body: a name may hold separators, or nothing. */
  ghost predicate BodyWord(x: Raw, last: bool) {
    && x.value.Some? && EQUALS !in x.name && (forall k :: 0 <= k < |x.value.value| ==> !IsSep(x.value.value[k]))
    && if x.seps == [] then last else |x.seps| == 1 && IsSep(x.seps[0])
  }

  ghost predicate BodyWords(words: seq<Raw>, tail: bytes) {
    && EQUALS !in tail
    && forall i :: 0 <= i < |words| ==> BodyWord(words[i], i + 1 == |words| && tail == [])
  }

  lemma BodyEnds(x: Raw, rest: bytes, last: bool)
    requires BodyWord(x, last) && (last ==> rest == [])
    ensures var s := x.Word() + (x.seps + rest); var n, e := |x.name|, |x.Word()|;
      && n < e <= |s| && EqualsAt(s, 0) == n && SepAt(s, n + 1) == e && s[..n] == x.name && s[n + 1..e] == x.value.value
      && if x.seps == [] then e == |s| else e < |s| && s[e + 1..] == rest
  {
    var s := x.Word() + (x.seps + rest);
    var n, e := |x.name|, |x.Word()|;
    assert s[..n] == x.name && s[n] == EQUALS && s[n + 1..e] == x.value.value;
    forall k | 0 <= k < n
      ensures s[k] != EQUALS
    {
      assert s[k] == x.name[k];
    }
    forall k | n < k < e
      ensures !IsSep(s[k])
    {
      assert s[k] == x.value.value[k - n - 1];
    }
    EqualsAtIs(s, 0, n);
    SepIs(s, n + 1, e);
  }

  /** Any words, and text without '=' behind them, are read for what the words stand for; the text
      is not read at all. */
  lemma {:induction false} ReadBodyWords(t: seq<Pair>, words: seq<Raw>, tail: bytes)
    requires BodyWords(words, tail)
    ensures ReadBody(t, PrintWords(words, tail)) == Meanings(t, words)
    decreases words
  {
    hide ReadBody, DecodePair, BodyWord, EqualsAt, SepAt;
    if words == [] {
      EqualsAtIs(tail, 0, |tail|);
      BodyOver(t, tail, |tail|);
    } else {
      var x, more := words[0], words[1..];
      var rest := PrintWords(more, tail);
      forall i | 0 <= i < |more|
        ensures BodyWord(more[i], i + 1 == |more| && tail == [])
      {
        assert words[i + 1] == more[i];
      }
      BodyEnds(x, rest, more == [] && tail == []);
      var s, n, e := x.Word() + (x.seps + rest), |x.name|, |x.Word()|;
      BodyStep(t, s, n, e);
      var m := DecodePair(x.name, x.value.value);
      if m.Good? && e < |s| { ReadBodyWords(t + [m.pair], more, tail); }
      if x.seps == [] { OneMeaning(t, words, tail); }
    }
  }

  lemma OneMeaning(t: seq<Pair>, words: seq<Raw>, tail: bytes)
    requires words != [] && words[0].seps == [] && BodyWords(words, tail)
    ensures |words| == 1
  {
  }

  /** A body that ends in half an escape: an error that reads like a request for more. */
  lemma CutIsReported()
    ensures var s: bytes := [97, EQUALS, PERCENT, 52]; Regular(s) && ReadBody([], s) == Failed([], true)
  {
    hide Decode, ReadBody, Regular, EqualsAt, SepAt, DecodePair;
    var s: bytes := [97, EQUALS, PERCENT, 52];
    EqualsAtIs(s, 0, 1);
    SepIs(s, 2, 4);
    OneWord(s, 1);
    BodyStep([], s, 1, 4);
    CutWord(s[..1], s[2..4]);
  }

  lemma OneWord(s: bytes, n: nat)
    requires 0 < n < |s| && EqualsAt(s, 0) == n && SepAt(s, n + 1) == |s| && forall k :: 0 <= k < n ==> !IsSep(s[k])
    ensures Regular(s)
  {
    hide EqualsAt, SepAt;
  }

  lemma CutWord(name: bytes, value: bytes)
    requires name != [] && value == [PERCENT, 52]
    ensures DecodePair(name, value) == Refused(true)
  {
    hide Decode;
    HalfIsCut(value);
  }

  lemma HalfIsCut(w: bytes)
    requires w == [PERCENT, 52]
    ensures CutShort(Decode(w, CsAscii))
  {
    hide Decode;
    assert w[0..] == w && w[..0] == [];
    EmptyDecode(CsAscii);
    assert CutAt(w, 0);
    CutIsHalf(w);
  }

  /* ---- And only there ---- */

  lemma {:induction false} QueryGrows(t: seq<Pair>, s: bytes)
    ensures ReadQuery(t, s).Done? ==> t <= ReadQuery(t, s).pairs
    decreases |s|
  {
    hide DecodePair, ReadQuery;
    var e := QueryStrings.WordEnd(s, 0);
    if e == 0 {
      ReadEmpty(t, s);
      if s != [] { QueryGrows(t, s[1..]); }
    } else {
      ReadWord(t, s, e);
      var w := WordPair(s[..e]);
      if w.Good? && e < |s| { QueryGrows(t + [w.pair], s[e + 1..]); }
    }
  }

  lemma {:induction false} BodyGrows(t: seq<Pair>, s: bytes)
    ensures ReadBody(t, s).Done? ==> t <= ReadBody(t, s).pairs
    decreases |s|
  {
    hide DecodePair, ReadBody;
    var n := EqualsAt(s, 0);
    if n == |s| {
      BodyOver(t, s, n);
    } else {
      var e := SepAt(s, n + 1);
      BodyStep(t, s, n, e);
      var w := DecodePair(s[..n], s[n + 1..e]);
      if w.Good? && e < |s| { BodyGrows(t + [w.pair], s[e + 1..]); }
    }
  }

  /** How many separators stand in front. */
  function Seps(s: bytes): (i: nat)
    ensures i <= |s| && AllSeps(s[..i]) && (i < |s| ==> !IsSep(s[i])) && (i == |s| ==> AllSeps(s))
  {
    if s == [] || !IsSep(s[0]) then 0
    else
      var i := 1 + Seps(s[1..]);
      assert forall k :: 0 < k < i ==> s[..i][k] == s[1..][..i - 1][k - 1];
      assert i == |s| ==> s[..i] == s;
      i
  }

  /** The first word of a query string that can be read, and the text of its name. */
  lemma QueryFirst(t: seq<Pair>, s: bytes) returns (i: nat, j: nat, p: Pair)
    requires NUL !in s && ReadQuery(t, s).Done? && !AllSeps(s)
    ensures i == Seps(s) < j <= |s| && t + [p] <= ReadQuery(t, s).pairs
    ensures s[i] == EQUALS || j == Min(EqualsAt(s, i), QueryStrings.WordEnd(s, i))
    ensures var d := Decode(s[i..j], CsAscii); d.Whole? && d.out == p.name
  {
    hide Decode, ReadQuery;
    i := Seps(s);
    SkipSeparators(t, s, i);
    var q := s[i..];
    var e := QueryStrings.WordEnd(q, 0);
    assert q[0] == s[i];
    ReadWord(t, q, e);
    var n := NameEnd(q[..e]);
    j := i + n;
    assert q[..e][..n] == s[i..j];
    p := WordPair(q[..e]).pair;
    if e < |q| { QueryGrows(t + [p], q[e + 1..]); }
    if s[i] != EQUALS { FirstEnds(s, i, e, n); }
  }

  lemma FirstEnds(s: bytes, i: nat, e: nat, n: nat)
    requires i < |s| && s[i] != EQUALS && e == QueryStrings.WordEnd(s[i..], 0) > 0 && n == NameEnd(s[i..][..e])
    ensures i + n == Min(EqualsAt(s, i), QueryStrings.WordEnd(s, i))
  {
    WordEndBehind(s, i, e);
    var w := s[i..i + e];
    assert w == s[i..][..e] && w[0] == s[i];
    forall k | i <= k < i + n
      ensures s[k] != EQUALS
    {
      assert s[k] == w[k - i];
    }
    if n < e {
      assert s[i + n] == w[n];
      EqualsAtIs(s, i, i + n);
    }
  }

  lemma WordEndBehind(s: bytes, i: nat, e: nat)
    requires i <= |s| && e == QueryStrings.WordEnd(s[i..], 0)
    ensures QueryStrings.WordEnd(s, i) == i + e
  {
    forall k | i <= k < i + e
      ensures !Ends(s[k])
    {
      assert s[k] == s[i..][k - i];
    }
    assert e < |s| - i ==> s[i + e] == s[i..][e];
    QueryStrings.WordEndIs(s, i, i + e);
  }

  /** Separators decode as they are. */
  lemma {:induction false} SepsDecode(a: bytes, b: bytes)
    requires AllSeps(a)
    ensures Decode(a + b, CsAscii) == Behind(a, Decode(b, CsAscii))
  {
    if a == [] {
      assert a + b == b;
      BehindNothing(Decode(b, CsAscii));
    } else {
      assert (a + b)[1..] == a[1..] + b;
      SepsDecode(a[1..], b);
      BehindBehind([a[0]], a[1..], Decode(b, CsAscii));
      assert [a[0]] + a[1..] == a;
    }
  }

  lemma BehindNothing(r: Decoded)
    ensures Behind([], r) == r
  {
    assert !r.Unset? ==> [] + r.out == r.out;
  }

  lemma SomeOut(b: bytes, cs: Charset)
    ensures b != [] && Decode(b, cs).Whole? ==> Decode(b, cs).out != []
  {
  }

  /** Text with separators in front, or something behind, decodes to more. */
  lemma Longer(a: bytes, q: bytes, b: bytes)
    requires AllSeps(a) && a + b != []
    requires Decode(q, CsAscii).Whole? && Decode(a + (q + b), CsAscii).Whole?
    ensures |Decode(a + (q + b), CsAscii).out| > |Decode(q, CsAscii).out|
  {
    hide Decode;
    SepsDecode(a, q + b);
    DecodeInPieces(q, b, CsAscii);
    SomeOut(b, Decode(q, CsAscii).cs);
  }

  /** Another name first: with '=' in front of the first word, it begins with that; otherwise it is
      shorter than what stands in front of the first '='. */
  lemma OtherName(s: bytes, n: nat, i: nat, j: nat)
    requires n == EqualsAt(s, 0) && 0 < n < |s| && !Begins(s) && i == Seps(s) < j <= |s|
    requires s[i] == EQUALS || j == Min(EqualsAt(s, i), QueryStrings.WordEnd(s, i))
    requires Decode(s[i..j], CsAscii).Whole? && Decode(s[..n], CsAscii).Whole?
    ensures Decode(s[i..j], CsAscii).out != Decode(s[..n], CsAscii).out
    ensures s[i] != EQUALS ==> |Decode(s[i..j], CsAscii).out| < |Decode(s[..n], CsAscii).out|
  {
    hide Decode;
    if s[i] == EQUALS {
      EqualsAfter(s, i);
      SepsFirst(s[..n]);
      EqualsFirst(s[i..j]);
    } else {
      EqualsLater(s, i);
      LongerName(s, n, i, j);
    }
  }

  lemma LongerName(s: bytes, n: nat, i: nat, j: nat)
    requires i == Seps(s) && n == EqualsAt(s, i) && 0 < n < |s| && !Begins(s)
        && i < j == Min(n, QueryStrings.WordEnd(s, i))
    requires n == EqualsAt(s, 0) && Decode(s[i..j], CsAscii).Whole? && Decode(s[..n], CsAscii).Whole?
    ensures |Decode(s[i..j], CsAscii).out| < |Decode(s[..n], CsAscii).out|
  {
    hide Decode, EqualsAt, QueryStrings.WordEnd;
    assert s[..n] == s[..i] + (s[i..j] + s[j..n]);
    Longer(s[..i], s[i..j], s[j..n]);
  }

  lemma EqualsAfter(s: bytes, i: nat)
    requires i < |s| && AllSeps(s[..i]) && s[i] == EQUALS
    ensures EqualsAt(s, 0) == i
  {
    EqualsLater(s, i);
  }

  lemma EqualsLater(s: bytes, i: nat)
    requires i <= |s| && AllSeps(s[..i])
    ensures EqualsAt(s, i) == EqualsAt(s, 0)
  {
    assert forall k :: 0 <= k < i ==> s[k] == s[..i][k];
    EqualsAtIs(s, 0, EqualsAt(s, i));
  }

  lemma SepsFirst(w: bytes)
    requires w != [] && AllSeps(w)
    ensures Decode(w, CsAscii).Whole? && Decode(w, CsAscii).out == w && w[0] != EQUALS
  {
    assert w + [] == w;
    SepsDecode(w, []);
    EmptyDecode(CsAscii);
  }

  lemma EqualsFirst(w: bytes)
    requires w != [] && w[0] == EQUALS
    ensures Decode(w, CsAscii).Whole? ==> Decode(w, CsAscii).out != [] && Decode(w, CsAscii).out[0] == EQUALS
  {
  }

  /** The first word has no name or no '=' to itself, and is none or another one to the body parser. */
  lemma Disagree(t: seq<Pair>, s: bytes)
    requires NUL !in s && ReadQuery(t, s).Done? && !AllSeps(s) && !Begins(s)
    ensures ReadBody(t, s) != ReadQuery(t, s)
  {
    hide Decode, ReadQuery, ReadBody;
    var i, j, p := QueryFirst(t, s);
    var n := EqualsAt(s, 0);
    if n == |s| {
      BodyOver(t, s, n);
    } else {
      var e := SepAt(s, n + 1);
      BodyStep(t, s, n, e);
      var w := DecodePair(s[..n], s[n + 1..e]);
      if w.Good? {
        OtherName(s, n, i, j);
        if e < |s| { BodyGrows(t + [w.pair], s[e + 1..]); }
        assert ReadQuery(t, s).pairs[|t|] == p;
        assert ReadBody(t, s).Done? ==> ReadBody(t, s).pairs[|t|] == w.pair;
      }
    }
  }

  /** Where the query parser succeeds, the body parser reads the same if and only if the words are
      regular. */
  lemma {:induction false} AgreeIffRegular(t: seq<Pair>, s: bytes)
    requires NUL !in s && ReadQuery(t, s).Done?
    ensures ReadBody(t, s) == ReadQuery(t, s) <==> Regular(s)
    decreases |s|
  {
    hide DecodePair, ReadQuery, ReadBody;
    if Regular(s) {
      BodyIsQuery(t, s);
    } else if Begins(s) {
      SameWord(t, s);
      var e := SepAt(s, EqualsAt(s, 0) + 1);
      AgreeIffRegular(t + [WordPair(s[..e]).pair], s[e + 1..]);
    } else {
      Disagree(t, s);
    }
  }
}

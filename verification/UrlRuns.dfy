/** Whole runs of the url-encoded parser, and the two parsers side by side. */
module UrlRuns {
  import opened Bytes
  import opened Brigades
  import opened Statuses
  import opened UrlEncoder
  import opened QueryStrings
  import Attributes
  import opened UrlBodies
  import opened UrlAgreement

  /** What the calls made so far have left for the buckets `later`. */
  ghost predicate Halfway(p: UrlParser, r: Reading, eos: bool, s: Status, t: seq<Pair>, later: seq<Bucket>)
    reads p, p.bb
  {
    || r.Unknown?
    || (p.status == UrlError && s != Success && r.Failed? && r.pairs == t && (s == Incomplete ==> r.cut))
    || (p.status != UrlError && s == Success && eos && r == Done(t))
    || (p.status != UrlError && p.status != UrlComplete && s == Incomplete && !HasEos(p.bb.buckets)
        && (eos <==> HasEos(later))
        && Pending(Live(p.bb.buckets)) && r == ReadBody(t, Stream(p.bb.buckets, Live(later))))
  }

  lemma ReadsOn(t: seq<Pair>, w: seq<Bucket>, data: seq<Bucket>, later: seq<Bucket>)
    requires !HasEos(w)
    ensures ReadBody(t, Stream(w, Live(data + later))) == ReadBody(t, Stream(w + data, Live(later)))
    ensures HasEos(w + data) <==> HasEos(data)
    ensures Stream(w, Live(later)) == Live(w) + Live(later)
  {
    StreamStep(w, data, later);
  }

  /** Feed a fresh parser the calls, until it is done. Without EOS the table has all the words but
      what is `left`, which is less than a word and its separator. */
  method ParseBodyCalls(calls: seq<seq<Bucket>>) returns (s: Status, table: seq<Pair>, left: bytes)
    ensures var bs := Joined(calls); var r := ReadBody([], Live(bs));
      || r.Unknown?
      || (s == Success && HasEos(bs) && r == Done(table))
      || (s != Success && r.Failed? && r.pairs == table && (s == Incomplete ==> r.cut))
      || (s == Incomplete && !HasEos(bs) && Pending(left) && r == ReadBody(table, left))
  {
    hide ReadBody, Live, HasEos, Stream;
    ghost var r, eos := ReadBody([], Live(Joined(calls))), HasEos(Joined(calls));
    var t := new Table<Pair>();
    var p := new UrlParser();
    s := Incomplete;
    var n := 0;
    assert calls[0..] == calls;
    NothingYet(Joined(calls));
    while n < |calls| && s == Incomplete
      invariant n <= |calls| && fresh(t) && fresh(p) && fresh(p.bb)
      invariant Halfway(p, r, eos, s, t.elts, Joined(calls[n..]))
    {
      JoinedStep(calls, n);
      ghost var data, later, w := calls[n], Joined(calls[n + 1..]), p.bb.buckets;
      if !HasEos(w) { ReadsOn(t.elts, w, data, later); }
      var bb := new Brigade.Of(calls[n]);
      s := p.Parse(t, bb, Live(later));
      if !HasEos(p.bb.buckets) { ReadsOn(t.elts, p.bb.buckets, [], later); }
      n := n + 1;
    }
    NothingLeft(calls, n, p.bb.buckets);
    table, left := t.elts, Live(p.bb.buckets);
  }

  lemma NothingYet(later: seq<Bucket>)
    ensures Stream([], Live(later)) == Live(later) && !HasEos([]) && Pending(Live([]))
  {
  }

  lemma NothingLeft(calls: seq<seq<Bucket>>, n: nat, bs: seq<Bucket>)
    ensures n == |calls| ==> !HasEos(Joined(calls[n..]))
    ensures n == |calls| && !HasEos(bs) ==> Stream(bs, Live(Joined(calls[n..]))) == Live(bs)
  {
  }

  /** The body parser on the pieces of a body, and the query parser on the whole of it, where every
      word is a name, '=' and a value: the same table, whether they succeed or fail. */
  method ParseBothWays(calls: seq<seq<Bucket>>) returns (s: Status, body: seq<Pair>, q: Status, query: seq<Pair>)
    requires var text := Live(Joined(calls)); NUL !in text && Regular(text) && HasEos(Joined(calls))
    ensures ReadBody([], Live(Joined(calls))).Unknown? || (body == query && (s == Success <==> q == Success))
  {
    hide ReadBody, ReadQuery, Regular;
    var text := Live(Joined(calls));
    BodyIsQuery([], text);
    var left;
    s, body, left := ParseBodyCalls(calls);
    var t := new Table<Pair>();
    q := ParseQueryString(t, text);
    query := t.elts;
  }

  /** No bare names, and no empty words in between. */
  predicate Paired(items: seq<Item>) {
    forall i :: 0 <= i < |items| ==> !items[i].bare && (i + 1 < |items| ==> |items[i].seps| == 1)
  }

  lemma {:induction false} PrintedIsRegular(items: seq<Item>)
    requires ItemsLegal(items) && Paired(items)
    ensures Regular(PrintQuery(items)) && NUL !in PrintQuery(items)
  {
    hide Encode, EncodePair, WellFormed, Regular;
    if items == [] {
      NothingRegular();
    } else {
      var x, more := items[0], items[1..];
      var tail := x.seps + PrintQuery(more);
      assert Texts(items)[1..] == Texts(more);
      assert PrintQuery(items) == EncodePair(x.name, x.value) + tail by { FirstPrinted(items); }
      assert x.Legal();
      PrintedIsRegular(more);
      SepsRegular(x.seps);
      if more == [] {
        assert tail == x.seps;
      } else {
        assert tail[1..] == PrintQuery(more);
      }
      PairIsRegular(x.name, x.value, tail);
    }
  }

  lemma FirstPrinted(items: seq<Item>)
    requires items != [] && !items[0].bare
    ensures PrintQuery(items)
            == EncodePair(items[0].name, items[0].value) + (items[0].seps + PrintWords(Texts(items)[1..], []))
  {
    hide Encode;
  }

  lemma NothingRegular()
    ensures Regular([]) && PrintQuery([]) == []
  {
  }

  lemma SepsRegular(seps: bytes)
    requires AllSeps(seps)
    ensures seps != [] ==> IsSep(seps[0]) && Regular(seps[1..])
    ensures NUL !in seps
  {
  }

  lemma PairIsPlain(name: bytes, value: bytes)
    ensures var a, w := Encode(name), EncodePair(name, value);
      |a| < |w| && w[|a|] == EQUALS && forall k :: 0 <= k < |w| ==> !Ends(w[k]) && (k < |a| ==> w[k] != EQUALS)
  {
    hide Encode;
    var a, b, w := Encode(name), Encode(value), EncodePair(name, value);
    EncodedIsPlain(name);
    EncodedIsPlain(value);
    forall k | 0 <= k < |w|
      ensures !Ends(w[k]) && (k < |a| ==> w[k] != EQUALS)
    {
      assert w[k] == if k < |a| then a[k] else if k == |a| then EQUALS else b[k - |a| - 1];
    }
  }

  /** A printed pair in front of what follows. */
  lemma PairIsRegular(name: bytes, value: bytes, tail: bytes)
    requires name != [] && (tail == [] || IsSep(tail[0]))
    ensures var w := EncodePair(name, value);
      && (tail == [] || Regular(tail[1..]) ==> Regular(w + tail)) && (NUL !in tail ==> NUL !in w + tail)
  {
    hide Encode, EncodePair;
    var w := EncodePair(name, value);
    PairIsPlain(name, value);
    EncodedIsPlain(name);
    PlainRegular(w, |Encode(name)|, tail);
  }

  lemma PlainRegular(w: bytes, n: nat, tail: bytes)
    requires 0 < n < |w| && w[n] == EQUALS && (tail == [] || IsSep(tail[0]))
    requires forall k :: 0 <= k < |w| ==> !Ends(w[k]) && (k < n ==> w[k] != EQUALS)
    ensures (tail == [] || Regular(tail[1..]) ==> Regular(w + tail)) && (NUL !in tail ==> NUL !in w + tail)
  {
    var s := w + tail;
    assert forall k :: 0 <= k < |w| ==> s[k] == w[k];
    Attributes.EqualsAtIs(s, 0, n);
    SepIs(s, n + 1, |w|);
    assert tail != [] ==> s[|w| + 1..] == tail[1..];
  }

  /** Any list of pairs, printed and sent in any pieces, is parsed to that list. */
  method ParsePrinted(calls: seq<seq<Bucket>>, ghost items: seq<Item>) returns (s: Status, table: seq<Pair>)
    requires ItemsLegal(items) && Paired(items)
    requires Live(Joined(calls)) == PrintQuery(items) && HasEos(Joined(calls))
    ensures s == Success && table == ReadAll(items)
  {
    hide ReadBody, ReadQuery, Regular;
    PrintedIsRegular(items);
    BodyIsQuery([], PrintQuery(items));
    ReadPrinted(items, []);
    assert [] + ReadAll(items) == ReadAll(items);
    var left;
    s, table, left := ParseBodyCalls(calls);
  }
}

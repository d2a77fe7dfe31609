/** Url-encoded request bodies: apreq_parse_urlencoded and split_urlword. */
module UrlBodies {
  import opened Bytes
  import opened Brigades
  import opened Statuses
  import opened Sequences
  import opened UrlCodec
  import opened Memory
  import opened UrlVectors
  import opened QueryStrings
  import opened Attributes
  import Headers

  /* ---- The reference reading of a whole body ---- */

  function SepAt(s: bytes, i: nat): (j: nat)
    requires i <= |s|
    ensures i <= j <= |s| && (j < |s| ==> IsSep(s[j])) && forall k :: i <= k < j ==> !IsSep(s[k])
    decreases |s| - i
  {
    if i == |s| || IsSep(s[i]) then i else SepAt(s, i + 1)
  }

  /** A name reaches up to '=', whatever it holds; a value up to '&' or ';'. */
  function ReadBody(t: seq<Pair>, s: bytes): Reading
    decreases |s|
  {
    var n := EqualsAt(s, 0);
    if n == |s| then Done(t)
    else
      var e := SepAt(s, n + 1);
      match DecodePair(s[..n], s[n + 1..e])
      case Refused(cut) => Failed(t, cut)
      case Undetermined => Unknown
      case Good(p) => if e == |s| then Done(t + [p]) else ReadBody(t + [p], s[e + 1..])
  }

  /** Not a whole word with its separator. */
  predicate Pending(s: bytes) { EqualsAt(s, 0) == |s| || SepAt(s, EqualsAt(s, 0) + 1) == |s| }

  /* ---- The scan for one word ---- */

  /** The first pos bytes of s, as counted: the name up to '=', or name, '=' and value. */
  ghost predicate Seen(s: bytes, pos: nat, inValue: bool, nlen: nat, vlen: nat) {
    && pos <= |s| && (forall k :: 0 <= k < nlen && k < |s| ==> s[k] != EQUALS)
    && if inValue then pos == nlen + 1 + vlen && s[nlen] == EQUALS && forall k :: nlen < k < pos ==> !IsSep(s[k])
       else pos == nlen && vlen == 0
  }

  /** The cursor is at bucket e, and the bucket behind '=' is number i. */
  ghost predicate Stands(bs: seq<Bucket>, e: nat, inValue: bool, nlen: nat, vlen: nat, i: nat) {
    var pos := if inValue then nlen + 1 + vlen else nlen;
    && Headers.Aligned(bs, pos, e) && Seen(Live(bs), pos, inValue, nlen, vlen)
    && (inValue ==> i <= e && Headers.Aligned(bs, nlen + 1, i))
  }

  /** The first '=' of a bucket, or '&' or ';', or its end. */
  method Look(data: bytes, inValue: bool) returns (off: nat)
    ensures off <= |data| && (off < |data| ==> if inValue then IsSep(data[off]) else data[off] == EQUALS)
    ensures forall k :: 0 <= k < off ==> if inValue then !IsSep(data[k]) else data[k] != EQUALS
  {
    off := 0;
    while off < |data| && !(if inValue then IsSep(data[off]) else data[off] == EQUALS)
      invariant off <= |data|
      invariant forall k :: 0 <= k < off ==> if inValue then !IsSep(data[k]) else data[k] != EQUALS
    {
      off := off + 1;
    }
  }

  lemma SeenMore(s: bytes, pos: nat, inValue: bool, nlen: nat, vlen: nat, data: bytes, off: nat)
    requires Seen(s, pos, inValue, nlen, vlen) && pos + |data| <= |s| && s[pos..pos + |data|] == data && off <= |data|
    requires forall k :: 0 <= k < off ==> if inValue then !IsSep(data[k]) else data[k] != EQUALS
    ensures Seen(s, pos + off, inValue, if inValue then nlen else nlen + off, if inValue then vlen + off else vlen)
    ensures off < |data| ==> s[pos + off] == data[off]
  {
    assert forall k :: 0 <= k < |data| ==> s[pos + k] == data[k];
  }

  /** Read one bucket; it is cut behind the byte that ends name or value. */
  method ScanBucket(bb: Brigade, e: nat, inValue: bool, nlen: nat, vlen: nat, ghost i: nat)
    returns (found: bool, e': nat, inValue': bool, nlen': nat, vlen': nat, ghost i': nat)
    requires e < |bb.buckets| && bb.buckets[e].Data? && Stands(bb.buckets, e, inValue, nlen, vlen, i)
    modifies bb
    ensures Live(bb.buckets) == Live(old(bb.buckets)) && (HasEos(bb.buckets) <==> HasEos(old(bb.buckets)))
    ensures !found ==> Stands(bb.buckets, e', inValue', nlen', vlen', i') && e' <= |bb.buckets|
    ensures !found ==> (inValue ==> inValue')
                       && if inValue' == inValue then |bb.buckets| - e' < |old(bb.buckets)| - e
                          else |bb.buckets| - e' <= |old(bb.buckets)| - e
    ensures found ==> inValue' && var pos := nlen' + 1 + vlen'; var s := Live(bb.buckets);
      Seen(s, pos, true, nlen', vlen') && pos < |s| && IsSep(s[pos])
      && Headers.Aligned(bb.buckets, nlen' + 1, i') && Headers.Aligned(bb.buckets, pos + 1, e')
  {
    hide Live, HasEos;
    found, e', inValue', nlen', vlen', i' := false, e + 1, inValue, nlen, vlen, i;
    ghost var pos, bs := if inValue then nlen + 1 + vlen else nlen, bb.buckets;
    var data := bb.buckets[e].data;
    Headers.AlignedNext(bs, pos, e);
    var off := Look(data, inValue);
    SeenMore(Live(bs), pos, inValue, nlen, vlen, data, off);
    if inValue { vlen' := vlen + off; } else { nlen' := nlen + off; }
    if off < |data| {
      Headers.SplitAligned(bs, pos, e, off + 1);
      bb.Split(e, off + 1);
      if inValue {
        found := true;
        Headers.AlignedKept(bs, bb.buckets, e, nlen + 1, i);
      } else {
        inValue', i' := true, e + 1;
      }
    }
  }

  datatype Scan = Ended | AtEos | AtEnd

  /** Scan one word from the front of the brigade. */
  method ScanWord(bb: Brigade) returns (r: Scan, inValue: bool, nlen: nat, vlen: nat, ghost i: nat, ghost k: nat)
    modifies bb
    ensures Live(bb.buckets) == Live(old(bb.buckets)) && (HasEos(bb.buckets) <==> HasEos(old(bb.buckets)))
    ensures r == AtEnd ==> !HasEos(bb.buckets) && Seen(Live(bb.buckets), |Live(bb.buckets)|, inValue, nlen, vlen)
    ensures r == AtEos ==> HasEos(bb.buckets)
                           && Seen(Live(bb.buckets), |Live(bb.buckets)|, inValue, nlen, vlen)
                           && (inValue ==> Headers.Aligned(bb.buckets, nlen + 1, i))
    ensures r == Ended ==> var s := Live(bb.buckets); var pos := nlen + 1 + vlen;
      Seen(s, pos, true, nlen, vlen) && pos < |s| && IsSep(s[pos])
      && Headers.Aligned(bb.buckets, nlen + 1, i) && Headers.Aligned(bb.buckets, pos + 1, k)
  {
    hide Live, HasEos;
    var e: nat := 0;
    inValue, nlen, vlen, i, k := false, 0, 0, 0, 0;
    Headers.AlignedZero(bb.buckets);
    while e < |bb.buckets|
      invariant Live(bb.buckets) == Live(old(bb.buckets)) && (HasEos(bb.buckets) <==> HasEos(old(bb.buckets)))
      invariant e <= |bb.buckets| && Stands(bb.buckets, e, inValue, nlen, vlen, i)
      decreases !inValue, |bb.buckets| - e
    {
      if bb.buckets[e].Eos? {
        AtFirstEos(bb.buckets, e, if inValue then nlen + 1 + vlen else nlen);
        return AtEos, inValue, nlen, vlen, i, k;
      }
      var found;
      found, e, inValue, nlen, vlen, i := ScanBucket(bb, e, inValue, nlen, vlen, i);
      if found {
        k := e;
        return Ended, inValue, nlen, vlen, i, k;
      }
    }
    assert bb.buckets[..e] == bb.buckets;
    r := AtEnd;
  }

  lemma AtFirstEos(bs: seq<Bucket>, e: nat, pos: nat)
    requires Headers.Aligned(bs, pos, e) && e < |bs| && bs[e].Eos?
    ensures HasEos(bs) && pos == |Live(bs)|
  {
    LiveSplit(bs, e);
    assert bs[e..][0].Eos? && bs[e] in bs;
  }

  /* ---- The word, taken out of the brigade ---- */

  lemma FlatOne(v: seq<bytes>, d: bytes, live: bytes, a: nat, b: nat)
    requires a <= b && b + |d| <= |live| && Flat(v) == live[a..b] && live[b..b + |d|] == d
    ensures Flat(v + [d]) == live[a..b + |d|]
  {
    FlatSnoc(v, d);
  }

  /** The buckets from e on hold just `count` bytes and then their last byte, or `count` bytes and
      then EOS. */
  ghost predicate Holds(bs: seq<Bucket>, len: nat, e: nat, count: nat, j: nat) {
    && Headers.Aligned(bs, len, e) && len + count <= |Live(bs)|
    && (Headers.Aligned(bs, len + count + 1, j) || (HasEos(bs) && len + count == |Live(bs)|))
  }

  /** Collect the iovecs of `count` bytes and the byte that ends them, or up to EOS; the last
      iovec is shortened by that byte. */
  method Gather(bs: seq<Bucket>, e: nat, count: nat, ghost len: nat, ghost j: nat) returns (v: seq<bytes>, e': nat)
    requires Holds(bs, len, e, count, j)
    ensures Flat(v) == Live(bs)[len..len + count]
    ensures Headers.Aligned(bs, len + count + 1, j) ==> Headers.Aligned(bs, len + count + 1, e')
    ensures !Headers.Aligned(bs, len + count + 1, j) ==>
              e' < |bs| && bs[e'].Eos? && Headers.Aligned(bs, len + count, e')
  {
    hide Live, HasEos, Flat;
    v, e' := [], e;
    var left: int := count + 1;
    ghost var at: nat := len;
    FlatEmpty(v, Live(bs), len);
    while e' < |bs| && bs[e'].Data?
      invariant 0 < left <= count + 1 && at == len + (count + 1 - left) <= |Live(bs)|
      invariant Headers.Aligned(bs, at, e') && Flat(v) == Live(bs)[len..at]
      decreases |bs| - e'
    {
      var d := bs[e'].data;
      Headers.AlignedNext(bs, at, e');
      if Headers.Aligned(bs, len + count + 1, j) && at < len + count + 1 {
        Headers.AlignedOrder(bs, at, e', len + count + 1, j);
      }
      left := left - |d|;
      e' := e' + 1;
      if left == 0 {
        SliceInit(Live(bs), at, d);
        FlatOne(v, d[..|d| - 1], Live(bs), len, at);
        v := v + [d[..|d| - 1]];
        return;
      }
      FlatOne(v, d, Live(bs), len, at);
      v := v + [d];
      at := at + |d|;
    }
    GatherEnds(bs, e', at, len, count, j);
  }

  lemma FlatEmpty(v: seq<bytes>, live: bytes, len: nat)
    requires len <= |live| && v == []
    ensures Flat(v) == live[len..len]
  {
  }

  lemma GatherEnds(bs: seq<Bucket>, e: nat, at: nat, len: nat, count: nat, j: nat)
    requires Headers.Aligned(bs, at, e) && at <= len + count && (e < |bs| ==> bs[e].Eos?)
    requires Headers.Aligned(bs, len + count + 1, j) || (HasEos(bs) && len + count == |Live(bs)|)
    ensures at == len + count && e < |bs| && !Headers.Aligned(bs, len + count + 1, j)
  {
    if Headers.Aligned(bs, len + count + 1, j) {
      Headers.AlignedOrder(bs, at, e, len + count + 1, j);
    }
    AtSentinel(bs, at, e);
    if e < |bs| { AtFirstEos(bs, e, at); }
  }

  lemma AtSentinel(bs: seq<Bucket>, at: nat, e: nat)
    requires Headers.Aligned(bs, at, e)
    ensures e == |bs| ==> !HasEos(bs) && at == |Live(bs)|
  {
    assert e == |bs| ==> bs[..e] == bs;
  }

  lemma SliceInit(live: bytes, a: nat, d: bytes)
    requires d != [] && a + |d| <= |live| && live[a..a + |d|] == d
    ensures live[a..a + |d| - 1] == d[..|d| - 1]
  {
    assert live[a..a + |d|][..|d| - 1] == live[a..a + |d| - 1];
  }

  /** apreq_decodev of the pieces, and what it left. A cut-off escape is an error here, whose code
      has the charset added to it. */
  method DecodePieces(pieces: seq<bytes>) returns (st: Status, text: bytes, cs: Charset)
    ensures var r := Decode(Flat(pieces), CsAscii);
      r.Unset? || if st == Success then r == Whole(text, cs) else !r.Whole? && (st == Incomplete <==> CutShort(r))
  {
    hide Decode, LeftV, Flat, At, Kept;
    var all := Flat(pieces);
    var mem := Load(all, |all| + 1);
    var vs := Iovecs(pieces, 0);
    var v := new Iovec[|vs|](i requires 0 <= i < |vs| => vs[i]);
    assert v[..] == vs;
    IovecsHold(pieces, 0, mem[..]);
    var dlen;
    st, cs, dlen := DecodeV(mem, |all|, v, pieces);
    WholeOrNot(mem[..], |all|, Decode(all, CsAscii), st, dlen, cs);
    text := mem[|all|..|all| + dlen];
    assert text == mem[..][|all|..|all| + dlen];
    if st == Incomplete && cs != CsAscii { st := Truncated; }
  }

  /** split_urlword: i and k are the buckets behind '=' and behind the separator. */
  method SplitUrlWord(bb: Brigade, nlen: nat, vlen: nat, ghost i: nat, ghost k: nat) returns (st: Status, p: Pair)
    requires Headers.Aligned(bb.buckets, nlen + 1, i) && nlen <= |Live(bb.buckets)|
    requires Holds(bb.buckets, nlen + 1, i, vlen, k)
    modifies bb
    ensures var s := Live(old(bb.buckets)); var pos := nlen + 1 + vlen;
        var w := DecodePair(s[..nlen], s[nlen + 1..pos]);
      && (w.Undetermined? || if st == Success then w == Good(p) else w == Refused(st == Incomplete))
      && (st == Success ==> (HasEos(bb.buckets) <==> HasEos(old(bb.buckets)))
                            && Live(bb.buckets) == if pos < |s| then s[pos + 1..] else [])
  {
    hide Live, HasEos, Decode, Flat;
    p := Pair([], [], CsAscii);
    if nlen == 0 { return BadArg, p; }
    ghost var bs, s := bb.buckets, Live(bb.buckets);
    Headers.AlignedZero(bs);
    Headers.AlignedPrefix(bs, nlen + 1, i);
    var names, e := Gather(bb.buckets, 0, nlen, 0, i);
    var values;
    values, e := Gather(bb.buckets, e, vlen, nlen + 1, k);
    assert s[0..nlen] == s[..nlen];
    var v, n, vc, nc;
    st, v, vc := DecodePieces(values);
    if st != Success { return; }
    st, n, nc := DecodePieces(names);
    if st != Success { return; }
    p := Pair(n, v, Merge(vc, nc));
    ghost var pos := nlen + 1 + vlen;
    Headers.AlignedPrefix(bs, if Headers.Aligned(bs, pos + 1, k) then pos + 1 else pos, e);
    bb.DropFront(e);
    if !Headers.Aligned(bs, pos + 1, k) { AtFirstEos(bs, e, pos); }
  }

  lemma BodyWord(t: seq<Pair>, s: bytes, nlen: nat, vlen: nat)
    requires var pos := nlen + 1 + vlen; Seen(s, pos, true, nlen, vlen) && (pos < |s| ==> IsSep(s[pos]))
    ensures var pos := nlen + 1 + vlen; var w := DecodePair(s[..nlen], s[nlen + 1..pos]);
      && (w.Undetermined? ==> ReadBody(t, s) == Unknown)
      && (w.Refused? ==> ReadBody(t, s) == Failed(t, w.cut))
      && (w.Good? ==> ReadBody(t, s) == if pos == |s| then Done(t + [w.pair]) else ReadBody(t + [w.pair], s[pos + 1..]))
  {
    hide ReadBody, DecodePair;
    EqualsAtIs(s, 0, nlen);
    SepIs(s, nlen + 1, nlen + 1 + vlen);
    BodyStep(t, s, nlen, nlen + 1 + vlen);
  }

  lemma BodyStep(t: seq<Pair>, s: bytes, n: nat, e: nat)
    requires n < e <= |s| && EqualsAt(s, 0) == n && SepAt(s, n + 1) == e
    ensures var w := DecodePair(s[..n], s[n + 1..e]);
      && (w.Undetermined? ==> ReadBody(t, s) == Unknown)
      && (w.Refused? ==> ReadBody(t, s) == Failed(t, w.cut))
      && (w.Good? ==> ReadBody(t, s) == if e == |s| then Done(t + [w.pair]) else ReadBody(t + [w.pair], s[e + 1..]))
  {
    hide DecodePair, EqualsAt, SepAt;
  }

  lemma SepIs(s: bytes, i: nat, j: nat)
    requires i <= j <= |s| && (j < |s| ==> IsSep(s[j])) && forall k :: i <= k < j ==> !IsSep(s[k])
    ensures SepAt(s, i) == j
    decreases j - i
  {
    if i < j { SepIs(s, i + 1, j); }
  }

  lemma SeenPending(s: bytes, inValue: bool, nlen: nat, vlen: nat)
    requires Seen(s, |s|, inValue, nlen, vlen)
    ensures Pending(s)
  {
    EqualsAtIs(s, 0, nlen);
    if inValue { SepIs(s, nlen + 1, |s|); }
  }

  lemma BodyOver(t: seq<Pair>, s: bytes, nlen: nat)
    requires Seen(s, |s|, false, nlen, 0)
    ensures ReadBody(t, s) == Done(t)
  {
    EqualsAtIs(s, 0, |s|);
  }

  datatype UrlStatus = UrlName | UrlValue | UrlComplete | UrlError

  datatype Progress = Parsed | Stopped(s: Status)

  /** The parser of a url-encoded body, with the words not yet parsed in bb. */
  class UrlParser {
    const bb: Brigade
    var status: UrlStatus

    constructor ()
      ensures fresh(bb) && bb.buckets == [] && status == UrlName
    {
      bb := new Brigade();
      status := UrlName;
    }

    /** What a call may answer when the whole stream is read as r. Without EOS the parser asks for
        more, also at the end of a body, and what it keeps is less than a word. An error is reported
        as APR_INCOMPLETE if and only if the refused word was cut off in ASCII, EOS or not. */
    ghost predicate Answer(r: Reading, eos: bool, s: Status, t: seq<Pair>, rest: bytes)
      reads this, bb
    {
      r.Unknown? ||
      if status == UrlError then s != Success && r == Failed(t, s == Incomplete)
      else if s == Success then eos && r == Done(t)
      else
        && s == Incomplete && !eos && !HasEos(bb.buckets) && Pending(Live(bb.buckets))
        && r == ReadBody(t, Live(bb.buckets) + rest)
    }

    /** What is known when a word has been taken out of bb, or the parser has stopped. */
    ghost predicate Taken(r: Reading, eos: bool, o: Progress, t: seq<Pair>, back: seq<Bucket>, rest: bytes)
      reads this, bb
    {
      if o.Parsed? then
        && status != UrlError && status != UrlComplete && back == [] && (HasEos(bb.buckets) <==> eos)
        && (r.Unknown? || r == ReadBody(t, Stream(bb.buckets, rest)))
      else
        && (o.s == Incomplete && status != UrlError ==> back == [] && status != UrlComplete)
        && Answer(r, eos, o.s, t, rest)
    }

    /** The word in front is a whole one, with the separator or EOS behind it: put it in the table. */
    method TakeWord(t: Table<Pair>, bbin: Brigade, last: bool, nlen: nat, vlen: nat, ghost i: nat, ghost k: nat,
        ghost rest: bytes)
      returns (o: Progress)
      requires bbin != bb && bbin.buckets == [] && status != UrlComplete && status != UrlError
      requires var live := Live(bb.buckets); var pos := nlen + 1 + vlen;
        && Seen(live, pos, true, nlen, vlen) && Headers.Aligned(bb.buckets, nlen + 1, i)
        && if last then HasEos(bb.buckets) && pos == |live|
           else pos < |live| && IsSep(live[pos]) && Headers.Aligned(bb.buckets, pos + 1, k)
      modifies this`status, bb, t, bbin
      ensures Taken(ReadBody(old(t.elts), Stream(old(bb.buckets), rest)), HasEos(old(bb.buckets)), o, t.elts,
          bbin.buckets, rest)
      ensures o.Parsed? ==> |Live(bb.buckets)| < |Live(old(bb.buckets))|
    {
      hide ReadBody, Live, HasEos;
      ghost var live, S, pos, more := Live(bb.buckets), Stream(bb.buckets, rest), nlen + 1 + vlen,
          if HasEos(bb.buckets) then [] else rest;
      SeenStream(live, more, nlen, vlen);
      BodyWord(t.elts, S, nlen, vlen);
      var s, p := SplitUrlWord(bb, nlen, vlen, i, k);
      if s != Success {
        status := UrlError;
        if last { bbin.Concat(bb); }
        return Stopped(s);
      }
      t.Add(p);
      if last {
        status := UrlComplete;
        bbin.Concat(bb);
        return Stopped(Success);
      }
      o := Parsed;
    }

    /** Parse one word from the front of bb. */
    method ParseWord(t: Table<Pair>, bbin: Brigade, ghost rest: bytes) returns (o: Progress)
      requires bbin != bb && status != UrlComplete && status != UrlError && bbin.buckets == []
      modifies this`status, bb, t, bbin
      ensures Taken(ReadBody(old(t.elts), Stream(old(bb.buckets), rest)), HasEos(old(bb.buckets)), o, t.elts,
          bbin.buckets, rest)
      ensures o.Parsed? ==> |Live(bb.buckets)| < |Live(old(bb.buckets))|
    {
      hide ReadBody, Live, HasEos, Taken;
      status := UrlName;
      ghost var live := Live(bb.buckets);
      var r, inValue, nlen, vlen;
      ghost var i, k;
      r, inValue, nlen, vlen, i, k := ScanWord(bb);
      if r == AtEnd {
        status := if inValue then UrlValue else UrlName;
        o := Stopped(Incomplete);
        SeenPending(Live(bb.buckets), inValue, nlen, vlen);
        StoppedShort(t.elts, bbin.buckets, rest);
      } else if r == AtEos && !inValue {
        assert live + [] == live;
        BodyOver(t.elts, live, nlen);
        bbin.Concat(bb);
        o := Stopped(Success);
        StoppedWell(ReadBody(t.elts, live), t.elts, bbin.buckets, rest);
      } else {
        o := TakeWord(t, bbin, r == AtEos, nlen, vlen, i, k, rest);
      }
    }

    lemma StoppedShort(t: seq<Pair>, back: seq<Bucket>, rest: bytes)
      requires status != UrlError && status != UrlComplete && !HasEos(bb.buckets) && Pending(Live(bb.buckets))
          && back == []
      ensures Taken(ReadBody(t, Stream(bb.buckets, rest)), false, Stopped(Incomplete), t, back, rest)
    {
      hide ReadBody;
    }

    lemma StoppedWell(r: Reading, t: seq<Pair>, back: seq<Bucket>, rest: bytes)
      requires status != UrlError && r == Done(t)
      ensures Taken(r, true, Stopped(Success), t, back, rest)
    {
    }

    /** apreq_parse_urlencoded. */
    method Parse(t: Table<Pair>, bbin: Brigade, ghost rest: bytes) returns (s: Status)
      requires bbin != bb
      modifies this, bb, t, bbin
      ensures old(status) == UrlError ==> s == General && t.elts == old(t.elts) && status == UrlError
      ensures old(status) == UrlComplete ==> s == Success && t.elts == old(t.elts) && bbin.buckets == old(bbin.buckets)
      ensures old(status) != UrlError && old(status) != UrlComplete ==>
        var bs := old(bb.buckets + bbin.buckets);
        && Answer(ReadBody(old(t.elts), Stream(bs, rest)), HasEos(bs), s, t.elts, rest)
        && (s == Incomplete && status != UrlError ==> bbin.buckets == [] && status != UrlComplete)
    {
      hide ReadBody, Live, HasEos, Stream;
      if status == UrlError { return General; }
      if status == UrlComplete { return Success; }
      ghost var r, eos := ReadBody(t.elts, Stream(bb.buckets + bbin.buckets, rest)), HasEos(bb.buckets + bbin.buckets);
      bb.Concat(bbin);
      while true
        invariant bbin.buckets == [] && status != UrlError && status != UrlComplete && (HasEos(bb.buckets) <==> eos)
        invariant r.Unknown? || r == ReadBody(t.elts, Stream(bb.buckets, rest))
        decreases |Live(bb.buckets)|
      {
        var o := ParseWord(t, bbin, rest);
        if o.Stopped? { return o.s; }
      }
    }
  }

  /** A word that is seen in the buckets at hand is seen in the whole stream. */
  lemma SeenStream(live: bytes, more: bytes, nlen: nat, vlen: nat)
    requires var pos := nlen + 1 + vlen; Seen(live, pos, true, nlen, vlen) && (pos == |live| ==> more == [])
    ensures var pos := nlen + 1 + vlen; var S := live + more;
      && Seen(S, pos, true, nlen, vlen) && S[..nlen] == live[..nlen] && S[nlen + 1..pos] == live[nlen + 1..pos]
      && (pos < |live| ==> S[pos] == live[pos] && S[pos + 1..] == live[pos + 1..] + more)
  {
  }
}

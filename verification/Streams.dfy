/** What the splitter does to a stream of which only the first buckets have arrived. */
module Streams {
  import opened Bytes
  import opened Brigades
  import opened Boundary
  import opened Sequences
  import opened MultipartSpec

  lemma {:induction false} ScanEos(p: bytes, c: Cut)
    requires !HasEos(c.held)
    ensures var r := Scan(p, c);
            (HasEos(r.inn) <==> HasEos(c.rest)) && (r.More? ==> !HasEos(c.rest)) && (r.AtEos? ==> HasEos(c.rest))
    decreases Size(c.rest), |c.rest|, |c.held|
  {
    StepDecreases(p, c);
    StepEos(p, c);
    if Step(p, c).Go? { ScanEos(p, Step(p, c).c); }
  }

  lemma StepEos(p: bytes, c: Cut)
    requires !HasEos(c.held)
    ensures match Step(p, c)
            case Go(n) => !HasEos(n.held) && (HasEos(n.rest) <==> HasEos(c.rest))
            case Stop(r) =>
              (HasEos(r.inn) <==> HasEos(c.rest)) && (r.More? ==> !HasEos(c.rest)) && (r.AtEos? ==> HasEos(c.rest))
  {
    if c.rest != [] {
      assert c.rest == [c.rest[0]] + c.rest[1..];
    }
  }

  /** What a split leaves of the stream S that begins with the buckets bs. */
  ghost predicate Split(p: bytes, out: bytes, bs: seq<Bucket>, rest: bytes, r: Scanned) {
    && out <= r.out
    && var S, S', o := Stream(bs, rest), Stream(r.inn, rest), r.out[|out|..];
    && (HasEos(r.inn) <==> HasEos(bs))
    && S == o + ((if r.Found? then p else []) + S')
    && (r.More? ==> !HasEos(bs)) && (r.AtEos? ==> HasEos(bs)) && (!r.Found? ==> Live(r.inn) < p)
  }

  lemma ScanSplits(p: bytes, out: bytes, bs: seq<Bucket>, rest: bytes)
    requires p != []
    ensures Split(p, out, bs, rest, Scan(p, Cut(out, [], bs)))
  {
    hide Scan, Live, HasEos;
    NoBuckets([]);
    var c := Cut(out, [], bs);
    var r := Scan(p, c);
    ScanConserves(p, c);
    ScanEos(p, c);
    assert [] + Live(bs) == Live(bs) && c.Total() == out + Live(bs);
    SplitParts(out, Live(bs), r.out, if r.Found? then p else [], Live(r.inn), if HasEos(bs) then [] else rest);
  }

  lemma SplitParts(out: bytes, live: bytes, now: bytes, mid: bytes, left: bytes, more: bytes)
    requires out <= now && out + live == now + (mid + left)
    ensures live + more == now[|out|..] + (mid + (left + more))
  {
    var o := now[|out|..];
    assert now == out + o;
    Regroup(out, o, mid + left);
    Cancel(out, live, o + (mid + left));
    Regroup(o, mid + left, more);
    Regroup(mid, left, more);
  }

  lemma Cancel(a: bytes, b: bytes, c: bytes)
    requires a + b == a + c
    ensures b == c
  {
    assert b == (a + b)[|a|..];
    assert c == (a + c)[|a|..];
  }

  lemma NoneMore(p: bytes, live: bytes, more: bytes, n: nat)
    requires NoneBetween(p, live, 0, n)
    ensures NoneBetween(p, live + more, 0, n)
  {
    forall i | 0 <= i < n ensures !Agree(p, (live + more)[i..]) {
      assert !Agree(p, live[i..]);
      var k :| 0 <= k < |p| && k < |live[i..]| && p[k] != live[i..][k];
      DropAppend(live, more, i);
    }
  }

  lemma NoneFront(p: bytes, out: bytes, live: bytes, n: nat)
    requires NoneBetween(p, out + live, |out|, |out| + n)
    ensures NoneBetween(p, live, 0, n)
  {
    forall i | 0 <= i < n ensures !Agree(p, live[i..]) {
      assert (out + live)[|out| + i..] == live[i..];
    }
  }

  /** For a restart-safe delimiter nothing in front of the split begins a delimiter. */
  lemma ScanSplitsExactly(p: bytes, out: bytes, bs: seq<Bucket>, rest: bytes)
    requires RestartSafe(p)
    ensures var r := Scan(p, Cut(out, [], bs));
            Split(p, out, bs, rest, r) && NoneBetween(p, Stream(bs, rest), 0, |r.out| - |out|)
  {
    var c := Cut(out, [], bs);
    ScanSplits(p, out, bs, rest);
    ScanExact(p, c);
    assert c.Total() == out + Live(bs);
    NoneFront(p, out, Live(bs), |Scan(p, c).out| - |out|);
    NoneMore(p, Live(bs), if HasEos(bs) then [] else rest, |Scan(p, c).out| - |out|);
  }

  /** The first occurrence lies behind a part without one. */
  lemma CutBehind(p: bytes, s: bytes, n: nat)
    requires NoneBetween(p, s, 0, n)
    ensures FirstAgree(p, s, 0) == n + FirstAgree(p, s[n..], 0)
  {
    var i := n + FirstAgree(p, s[n..], 0);
    forall k | 0 <= k < i ensures !Agree(p, s[k..]) {
      if k >= n {
        assert !Agree(p, s[n..][k - n..]);
        DropDrop(s, n, k - n);
      }
    }
    DropDrop(s, n, i - n);
    FirstAgreeIs(p, s, i);
  }

  /** A cut of what lies behind o, seen from in front of o. */
  function Later(o: bytes, c: Cutting): Cutting {
    match c
    case NoCut => NoCut
    case Cutting(before, behind) => Cutting(o + before, behind)
  }

  /** The cut of the whole stream, from what the splitter made of the buckets at hand. */
  lemma CutOfSplit(p: bytes, out: bytes, bs: seq<Bucket>, rest: bytes)
    requires RestartSafe(p)
    ensures var r := Scan(p, Cut(out, [], bs)); var S := Stream(bs, rest); var S' := Stream(r.inn, rest);
      && Split(p, out, bs, rest, r)
      && r.out == out + r.out[|out|..]
      && (r.Found? ==> CutAtFirst(p, S) == Cutting(r.out[|out|..], S'))
      && (r.More? ==> CutAtFirst(p, Live(r.inn)).NoCut? && CutAtFirst(p, S) == Later(r.out[|out|..], CutAtFirst(p, S')))
      && (r.AtEos? ==> CutAtFirst(p, S).NoCut?)
  {
    hide Scan;
    ScanSplitsExactly(p, out, bs, rest);
    var r, S, S' := Scan(p, Cut(out, [], bs)), Stream(bs, rest), Stream(Scan(p, Cut(out, [], bs)).inn, rest);
    var o := r.out[|out|..];
    CutBehind(p, S, |o|);
    if r.Found? {
      assert S[|o|..] == p + S';
      FoundCut(p, S, o, S');
    } else {
      assert S == o + S' && S[|o|..] == S';
      if r.More? {
        ShiftCut(p, o, S');
      }
    }
  }

  lemma FoundCut(p: bytes, S: bytes, o: bytes, tail: bytes)
    requires S == o + (p + tail) && FirstAgree(p, S, 0) == |o| + FirstAgree(p, S[|o|..], 0)
    ensures CutAtFirst(p, S) == Cutting(o, tail)
  {
    assert S[|o|..] == p + tail;
    assert Agree(p, (p + tail)[0..]) by { assert (p + tail)[0..] == p + tail; }
    assert FirstAgree(p, p + tail, 0) == 0;
    assert S[..|o|] == o && S[|o| + |p|..] == tail;
  }

  lemma ShiftCut(p: bytes, o: bytes, s: bytes)
    requires FirstAgree(p, o + s, 0) == |o| + FirstAgree(p, s, 0)
    ensures CutAtFirst(p, o + s) == Later(o, CutAtFirst(p, s))
  {
    hide FirstAgree;
    var i := FirstAgree(p, s, 0);
    if i + |p| <= |s| {
      DropBehind(o, s, i + |p|);
      assert (o + s)[..|o| + i] == o + s[..i];
    }
  }

  lemma DropBehind(o: bytes, s: bytes, i: nat)
    requires i <= |s|
    ensures (o + s)[|o| + i..] == s[i..]
  {
  }

  /** Bytes without '-' in front of a first delimiter make no difference. */
  lemma InitSkips(e: Entity, pname: Option<bytes>, t: seq<Param>, pre: bytes, s: bytes)
    requires DASH !in pre
    ensures RunInit(e, pname, t, pre + s) == RunInit(e, pname, t, s)
  {
    hide RunNextLine;
    var S, i, d := pre + s, DashAt(s, 0), e.Dash();
    DashBehind(pre, s);
    assert S[|pre| + i..] == s[i..];
    if |d| <= |s| - i {
      assert S[|pre| + i + |d|..] == s[i + |d|..];
    }
  }

  lemma DashUnique(s: bytes, i: nat, j: nat)
    requires i <= j <= |s| && (j < |s| ==> s[j] == DASH) && forall k :: i <= k < j ==> s[k] != DASH
    ensures DashAt(s, i) == j
  {
  }

  lemma DashBehind(pre: bytes, s: bytes)
    requires DASH !in pre
    ensures DashAt(pre + s, 0) == |pre| + DashAt(s, 0)
  {
    var S, i := pre + s, DashAt(s, 0);
    forall k | 0 <= k < |pre| + i ensures S[k] != DASH {
      assert S[k] == if k < |pre| then pre[k] else s[k - |pre|];
    }
    assert i < |s| ==> S[|pre| + i] == s[i];
    DashUnique(S, 0, |pre| + i);
  }

  /** How far the stream at hand is a preamble. */
  lemma PreambleAtHand(p: bytes, live: bytes, more: bytes) returns (m: nat)
    requires p != [] && p[0] == DASH
    requires var i := DashAt(live + more, 0); p <= (live + more)[i..] || (live + more)[i..] <= p
    ensures m <= |live| && DASH !in live[..m] && Agree(p, live[m..]) && (m < |live| ==> live[m] == DASH)
  {
    var S := live + more;
    m := DashAt(live, 0);
    assert DASH !in live[..m];
    if m < |live| {
      forall k | 0 <= k < m ensures S[k] != DASH { assert S[k] == live[k]; }
      DashUnique(S, 0, m);
      DropAppend(live, more, m);
      AgreeLess(p, live[m..], more);
    }
  }

  /** The first delimiter, from what the splitter made of the buckets at hand. */
  lemma InitOfSplit(e: Entity, pname: Option<bytes>, t: seq<Param>, out: bytes, bs: seq<Bucket>, rest: bytes)
    requires !RunInit(e, pname, t, Stream(bs, rest)).Vague? && DASH !in out
    ensures var r := Scan(e.Dash(), Cut(out, [], bs));
      var o := RunInit(e, pname, t, Stream(bs, rest)); var S' := Stream(r.inn, rest);
      && DASH !in r.out
      && (r.Found? ==> o == RunNextLine(e, pname, [], t, S'))
      && (r.More? ==> !HasEos(r.inn) && o == RunInit(e, pname, t, S') && RunInit(e, pname, t, Live(r.inn)) == Open)
      && (r.AtEos? ==> o == Open)
  {
    hide Scan, RunNextLine, Live, HasEos, NoneBetween;
    NotVague(e, pname, t, Stream(bs, rest));
    var r, o := PreambleSplit(e.Dash(), out, bs, rest);
    var S' := Stream(r.inn, rest);
    InitSkips(e, pname, t, o, (if r.Found? then e.Dash() else []) + S');
    if r.Found? {
      InitHere(e, pname, t, S');
    } else {
      assert [] + S' == S';
      InitShort(e, pname, t, Live(r.inn));
      if r.AtEos? { StreamEnds(r.inn, rest); }
    }
  }

  lemma NotVague(e: Entity, pname: Option<bytes>, t: seq<Param>, s: bytes)
    requires !RunInit(e, pname, t, s).Vague?
    ensures CR !in e.token && (var i := DashAt(s, 0); e.Dash() <= s[i..] || s[i..] <= e.Dash())
  {
    hide RunNextLine;
  }

  lemma StreamEnds(bs: seq<Bucket>, rest: bytes)
    ensures HasEos(bs) ==> Stream(bs, rest) == Live(bs)
  {
  }

  /** The splitter goes just as far as the preamble reaches. */
  lemma PreambleSplit(p: bytes, out: bytes, bs: seq<Bucket>, rest: bytes) returns (r: Scanned, o: bytes)
    requires p != [] && p[0] == DASH && DASH !in out
    requires var S := Stream(bs, rest); var i := DashAt(S, 0); p <= S[i..] || S[i..] <= p
    ensures r == Scan(p, Cut(out, [], bs)) && Split(p, out, bs, rest, r) && DASH !in r.out && DASH !in o
    ensures Stream(bs, rest) == o + ((if r.Found? then p else []) + Stream(r.inn, rest))
  {
    hide Scan, DashAt, NoneBetween;
    var c, live, more := Cut(out, [], bs), Live(bs), if HasEos(bs) then [] else rest;
    var m := PreambleAtHand(p, live, more);
    r := Scan(p, c);
    WholeStream(out, live, m);
    assert c.Total() == out + live;
    ScanClean(p, c, |out| + m);
    ScanSplits(p, out, bs, rest);
    o := r.out[|out|..];
    FrontOf(live, more, o, (if r.Found? then p else []) + Stream(r.inn, rest), m);
    assert r.out == out + o;
  }

  lemma WholeStream(out: bytes, live: bytes, m: nat)
    requires m <= |live|
    ensures (out + live)[|out|..|out| + m] == live[..m] && (out + live)[|out| + m..] == live[m..]
  {
  }

  lemma FrontOf(live: bytes, more: bytes, o: bytes, x: bytes, m: nat)
    requires live + more == o + x && |o| == m <= |live|
    ensures o == live[..m]
  {
    assert o == (o + x)[..m] == (live + more)[..m];
  }

  lemma InitHere(e: Entity, pname: Option<bytes>, t: seq<Param>, s: bytes)
    requires CR !in e.token
    ensures RunInit(e, pname, t, e.Dash() + s) == RunNextLine(e, pname, [], t, s)
  {
    hide RunNextLine;
    var S := e.Dash() + s;
    assert S[0] == DASH && S[0..] == S && S[|e.Dash()|..] == s;
  }

  lemma InitShort(e: Entity, pname: Option<bytes>, t: seq<Param>, s: bytes)
    requires CR !in e.token && s < e.Dash()
    ensures RunInit(e, pname, t, s) == Open
  {
    hide RunNextLine;
    if s != [] {
      assert s[0] == DASH && DashAt(s, 0) == 0 && s[0..] == s;
    }
  }
}

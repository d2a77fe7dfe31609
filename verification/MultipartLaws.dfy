/** How the reference reading of a stream goes on when the buckets at hand have been split. */
module MultipartLaws {
  import opened Bytes
  import opened Brigades
  import opened Boundary
  import opened Headers
  import opened Statuses
  import opened Sequences
  import opened MultipartSpec
  import opened Streams

  /** The reading that goes on leads to outcome f, except that a bodiless part may be behind it. */
  ghost predicate Leads(now: Outcome, f: Outcome) {
    now == f || f == Mark(now, true)
  }

  /** If the outcome is settled, it is so behind a part without a body. */
  ghost predicate Delayed(o: Outcome) { o.Done? || o.Fail? ==> o.bodiless }

  /** The library stops with an error, and t is what was read before. */
  ghost predicate Fails(o: Outcome, t: seq<Param>) { o.Fail? && o.table == t }

  /** A stream that ends in r, behind bytes of preambles without '-'. */
  ghost predicate Epilogue(s: bytes, r: bytes) {
    |r| <= |s| && s[|s| - |r|..] == r && DASH !in s[..|s| - |r|]
  }

  /** The reading by states, one function a state. */
  lemma RunLaw(e: Entity, st: State, t: seq<Param>, s: bytes)
    ensures st.AtNextLine? ==>
      Run(e, st, t, s) == if CR in e.token then Vague else RunNextLine(e, st.pname, st.got, t, s)
    ensures st.AtHeader? ==>
      Run(e, st, t, s) == if CR in e.token then Vague else RunHeader(e, st.pname, st.info, t, s)
    ensures st.InField? ==>
      Run(e, st, t, s) == if CR in e.token then Vague else RunField(e, st.pname, st.info, st.got, t, s)
    ensures st.InUpload? ==>
      Run(e, st, t, s) == if CR in e.token then Vague
                          else RunUpload(e, st.pname, st.name, st.filename, st.info, st.got, t, s)
  {
  }

  /** A nested entity is over: what follows is read by the enclosing one. */
  lemma NestDone(e: Entity, pname: Option<bytes>, inner: Entity, state: State, t: seq<Param>, s: bytes,
      t': seq<Param>, back: bytes)
    requires !e.mixed && inner.mixed && !state.InNested? && CR !in e.token
    ensures var o := Run(inner, state, t, s);
      o.Done? && o.table == t' && Epilogue(back, o.rest) ==>
        Run(e, InNested(pname, inner, state), t, s) == Mark(Run(e, AtInit(pname), t', back), o.bodiless)
  {
    hide RunInit;
    var o := Run(inner, state, t, s);
    if o.Done? && o.table == t' && Epilogue(back, o.rest) {
      var pre := back[..|back| - |o.rest|];
      assert back == pre + o.rest;
      InitSkips(e, pname, t', pre, o.rest);
      NestLaw(e, pname, inner, state, t, s);
    }
  }

  /** A nested entity that does not end is all there is. */
  lemma NestLaw(e: Entity, pname: Option<bytes>, inner: Entity, state: State, t: seq<Param>, s: bytes)
    requires !e.mixed && inner.mixed && !state.InNested?
    ensures var o := Run(inner, state, t, s);
      Run(e, InNested(pname, inner, state), t, s) == if CR in e.token then Vague
                                                     else if o.Done? then Mark(RunInit(e, pname, o.table, o.rest),
                                                         o.bodiless)
                                                     else o
  {
  }

  lemma NestLeads(e: Entity, pname: Option<bytes>, inner: Entity, st: State, t: seq<Param>, s: bytes,
                  st': State, t': seq<Param>, s': bytes)
    requires !e.mixed && inner.mixed && !st.InNested? && !st'.InNested?
    ensures Leads(Run(inner, st', t', s'), Run(inner, st, t, s)) ==>
              Leads(Run(e, InNested(pname, inner, st'), t', s'), Run(e, InNested(pname, inner, st), t, s))
    ensures var o := Run(inner, st', t', s'); var n := Run(e, InNested(pname, inner, st'), t', s');
            Delayed(o) ==> Delayed(n)
  {
    hide Run, RunInit;
    NestLaw(e, pname, inner, st, t, s);
    NestLaw(e, pname, inner, st', t', s');
  }

  /** The splitter keeps EOS where it is and never makes the stream longer. */
  lemma SplitShrinks(p: bytes, out: bytes, bs: seq<Bucket>)
    requires p != []
    ensures var r := Scan(p, Cut(out, [], bs));
      && (HasEos(r.inn) <==> HasEos(bs)) && out <= r.out
      && |Live(r.inn)| + (if r.Found? then |p| else 0) <= |Live(bs)|
      && (r.More? ==> !HasEos(bs)) && (r.AtEos? ==> HasEos(bs))
  {
    var r := Scan(p, Cut(out, [], bs));
    ScanSplits(p, out, bs, []);
    assert Stream(bs, []) == Live(bs) && Stream(r.inn, []) == Live(r.inn);
  }

  /** The laws of the states that split: what the splitter makes of the buckets at hand, and how
      the reading goes on from there. */
  lemma InitLaw(e: Entity, pname: Option<bytes>, t: seq<Param>, out: bytes, bs: seq<Bucket>, rest: bytes)
    requires DASH !in out
    ensures var r := Scan(e.Dash(), Cut(out, [], bs));
      var o := Run(e, AtInit(pname), t, Stream(bs, rest)); var S' := Stream(r.inn, rest);
      o.Vague? ||
      (&& DASH !in r.out
       && (r.Found? ==> o == Run(e, AtNextLine(pname, []), t, S'))
       && (r.More? ==>
               !HasEos(r.inn) && o == Run(e, AtInit(pname), t, S') && Run(e, AtInit(pname), t, Live(r.inn)) == Open)
       && (r.AtEos? ==> o == Open))
  {
    hide Scan, RunInit, RunNextLine;
    if !Run(e, AtInit(pname), t, Stream(bs, rest)).Vague? {
      InitOfSplit(e, pname, t, out, bs, rest);
    }
  }

  lemma NextLineLaw(e: Entity, pname: Option<bytes>, out: bytes, t: seq<Param>, bs: seq<Bucket>, rest: bytes)
    ensures var r := Scan(CRLF, Cut(out, [], bs));
      var o := Run(e, AtNextLine(pname, out), t, Stream(bs, rest)); var S' := Stream(r.inn, rest);
      o.Vague? ||
      (&& (r.Found? ==> o == if r.out != [] then Done(t, S', false) else Run(e, AtHeader(pname, []), t, S'))
       && (r.More? ==> !HasEos(r.inn) && o == Run(e, AtNextLine(pname, r.out), t, S')
                       && Run(e, AtNextLine(pname, r.out), t, Live(r.inn)) == Open)
       && (r.AtEos? ==> o == Open))
  {
    hide Scan, CutAtFirst, Run, RunHeader;
    DelimiterSafety([]);
    SplitShrinks(CRLF, out, bs);
    CutOfSplit(CRLF, out, bs, rest);
    var r := Scan(CRLF, Cut(out, [], bs));
    var c := CutAtFirst(CRLF, Stream(r.inn, rest));
    RunLaw(e, AtNextLine(pname, out), t, Stream(bs, rest));
    RunLaw(e, AtHeader(pname, []), t, Stream(r.inn, rest));
    RunLaw(e, AtNextLine(pname, r.out), t, Stream(r.inn, rest));
    RunLaw(e, AtNextLine(pname, r.out), t, Live(r.inn));
    if r.More? && c.Cutting? {
      Regroup(out, r.out[|out|..], c.before);
    }
  }

  lemma FieldLaw(e: Entity, pname: Option<bytes>, info: seq<Field>, out: bytes, t: seq<Param>, bs: seq<Bucket>,
      rest: bytes)
    ensures var r := Scan(e.Delimiter(), Cut(out, [], bs));
      var o := Run(e, InField(pname, info, out), t, Stream(bs, rest)); var S' := Stream(r.inn, rest);
      o.Vague? ||
      (&& (r.Found? ==>
               pname.Some? && o == Run(e, AtNextLine(None, []), t + [Param(pname.value, r.out, None, info)], S'))
       && (r.More? ==> !HasEos(r.inn) && o == Run(e, InField(pname, info, r.out), t, S')
                       && Run(e, InField(pname, info, r.out), t, Live(r.inn)) == Open)
       && (r.AtEos? ==> o == Open))
  {
    hide Scan, CutAtFirst, Run, RunNextLine;
    RunLaw(e, InField(pname, info, out), t, Stream(bs, rest));
    if CR !in e.token {
      var p := e.Delimiter();
      DelimiterSafety(e.token);
      SplitShrinks(p, out, bs);
      CutOfSplit(p, out, bs, rest);
      var r := Scan(p, Cut(out, [], bs));
      var c := CutAtFirst(p, Stream(r.inn, rest));
      if pname.Some? {
        RunLaw(e, AtNextLine(None, []), t + [Param(pname.value, r.out, None, info)], Stream(r.inn, rest));
      }
      RunLaw(e, InField(pname, info, r.out), t, Stream(r.inn, rest));
      RunLaw(e, InField(pname, info, r.out), t, Live(r.inn));
      if r.More? && c.Cutting? {
        Regroup(out, r.out[|out|..], c.before);
      }
    }
  }

  lemma UploadLaw(e: Entity, pname: Option<bytes>, name: bytes, filename: bytes, info: seq<Field>, had: bytes,
      out: bytes,
                  t: seq<Param>, bs: seq<Bucket>, rest: bytes)
    ensures var r := Scan(e.Delimiter(), Cut(out, [], bs));
      var o := Run(e, InUpload(pname, name, filename, info, had + out), t, Stream(bs, rest));
          var S' := Stream(r.inn, rest);
      o.Vague? ||
      (&& (r.Found? ==> o == Run(e, AtNextLine(pname, []), t + [Param(name, filename, Some(had + r.out), info)], S'))
       && (r.More? ==> !HasEos(r.inn) && o == Run(e, InUpload(pname, name, filename, info, had + r.out), t, S')
                       && Run(e, InUpload(pname, name, filename, info, had + r.out), t, Live(r.inn)) == Open)
       && (r.AtEos? ==> o == Open))
  {
    hide Scan, CutAtFirst, Run, RunNextLine;
    RunLaw(e, InUpload(pname, name, filename, info, had + out), t, Stream(bs, rest));
    if CR !in e.token {
      var p := e.Delimiter();
      DelimiterSafety(e.token);
      SplitShrinks(p, out, bs);
      CutOfSplit(p, out, bs, rest);
      var r := Scan(p, Cut(out, [], bs));
      var o := r.out[|out|..];
      var c := CutAtFirst(p, Stream(r.inn, rest));
      Regroup(had, out, o);
      RunLaw(e, AtNextLine(pname, []), t + [Param(name, filename, Some(had + r.out), info)], Stream(r.inn, rest));
      RunLaw(e, InUpload(pname, name, filename, info, had + r.out), t, Stream(r.inn, rest));
      RunLaw(e, InUpload(pname, name, filename, info, had + r.out), t, Live(r.inn));
      if r.More? && c.Cutting? {
        Regroup(had + out, o, c.before);
      }
    }
  }

  lemma HeaderLaw(e: Entity, pname: Option<bytes>, info: seq<Field>, t: seq<Param>, s: bytes)
    ensures var b := ReadBlock(info, s);
      Run(e, AtHeader(pname, info), t, s) == if CR in e.token || b.Unknown? then Vague
                                             else if b.Complete? then Run(e, AtPart(pname, b.fields), t, b.rest)
                                             else if b.Bad? then Fail(t, false)
                                             else Open
  {
    hide ReadBlock, RunPart;
  }

  lemma PartLaw(e: Entity, pname: Option<bytes>, info: seq<Field>, t: seq<Param>, s: bytes)
    ensures var o, k := Run(e, AtPart(pname, info), t, s), KindOf(e, pname, info);
      o.Vague? ||
      (&& CR !in e.token
       && (s < e.Dash() ==> o == Open)
       && (e.Dash() <= s ==> o == Mark(RunKind(e, pname, info, k, t, CRLF + s), true))
       && (!(s < e.Dash()) && !(e.Dash() <= s) ==> o == RunKind(e, pname, info, k, t, s)))
  {
    hide KindOf, RunKind;
  }

  lemma KindLaw(e: Entity, pname: Option<bytes>, info: seq<Field>, k: Kind, t: seq<Param>, s: bytes)
    requires k.Nested? ==> k.inner.mixed && !e.mixed
    requires CR !in e.token
    ensures var o := RunKind(e, pname, info, k, t, s);
      && (k.Plain? ==> o == Run(e, InField(k.pname, info, []), t, s))
      && (k.File? ==> o == Run(e, InUpload(pname, k.name, k.filename, info, []), t, s))
      && (k.Nested? ==> o == Run(e, InNested(pname, k.inner, AtInit(Some(k.name))), t, s))
      && (k.Wrong? ==> o == Fail(t, false)) && (k.Undefined? ==> o == Vague)
  {
    hide RunField, RunUpload, RunNested;
  }

  /** brigade_start_string: Success needs a bucket behind the string. */
  function StartString(bs: seq<Bucket>, d: bytes): Status {
    if bs == [] then Incomplete
    else if d == [] then Success
    else if bs[0].Eos? then Eof
    else if bs[0].data == [] then StartString(bs[1..], d)
    else if !Agree(bs[0].data, d) then General
    else StartString(bs[1..], if |bs[0].data| < |d| then d[|bs[0].data|..] else [])
  }

  lemma {:induction false} StartStringLaw(bs: seq<Bucket>, d: bytes, rest: bytes)
    ensures var s := StartString(bs, d); var S := Stream(bs, rest);
      && (s == Success ==> d <= S)
      && (s == Incomplete ==> !HasEos(bs) && (Live(bs) <= d || d <= Live(bs)))
      && (s == Eof ==> HasEos(bs) && S < d)
      && (s == General ==> !(d <= S) && !(S < d))
      && (s == Success || s == Incomplete || s == Eof || s == General)
  {
    if bs == [] || d == [] || bs[0].Eos? {
    } else {
      var b, more := bs[0].data, bs[1..];
      var d' := if |b| < |d| then d[|b|..] else [];
      var S' := Stream(more, rest);
      assert Stream(bs, rest) == b + S';
      assert bs == [bs[0]] + more;
      if b == [] {
        assert b + S' == S' && b + Live(more) == Live(more);
        StartStringLaw(more, d, rest);
      } else if Agree(b, d) {
        StartStringLaw(more, d', rest);
        PrefixStep(b, d, S');
        if more != [] || |b| <= |d| { PrefixStep(b, d, Live(more)); }
      } else {
        var k :| 0 <= k < |b| && k < |d| && b[k] != d[k];
        assert (b + S')[k] == b[k];
      }
    }
  }

  lemma PrefixStep(b: bytes, d: bytes, s: bytes)
    requires Agree(b, d)
    ensures var d' := if |b| < |d| then d[|b|..] else [];
      (d' <= s ==> d <= b + s) && (s <= d' && |b| <= |d| ==> b + s <= d) && (!(d' <= s) ==> !(d <= b + s))
          && (!(s < d') ==> !(b + s < d))
      && (s < d' ==> b + s < d)
  {
    if |b| < |d| {
      assert b == d[..|b|];
      assert d == b + d[|b|..];
      if d <= b + s { assert d[|b|..] == (b + s)[..|d|][|b|..] == s[..|d| - |b|]; }
      if b + s < d { assert d[|b|..][..|s|] == d[..|b + s|][|b|..] == s; }
    } else {
      assert b[..|d|] == d;
      assert (b + s)[..|d|] == d;
    }
  }

  /** The first i buckets hold the string, and there is one more bucket. */
  ghost predicate HeldBy(bs: seq<Bucket>, d: bytes, i: nat) {
    i < |bs| && !HasEos(bs[..i]) && d <= Live(bs[..i])
  }

  lemma HeldByStep(bs: seq<Bucket>, d: bytes, i: nat)
    requires bs != [] && bs[0].Data? && Agree(bs[0].data, d) && 0 < i
    ensures HeldBy(bs, d, i) <==> HeldBy(bs[1..], if |bs[0].data| < |d| then d[|bs[0].data|..] else [], i - 1)
  {
    if i < |bs| {
      var b, more := bs[0].data, bs[1..];
      assert bs[..i] == [bs[0]] + more[..i - 1] && bs[..i][1..] == more[..i - 1];
      PrefixStep(b, d, Live(more[..i - 1]));
    }
  }

  /** The string is noticed if and only if it is there and another bucket lies behind it. */
  lemma {:induction false} StartStringExact(bs: seq<Bucket>, d: bytes)
    ensures StartString(bs, d) == Success <==> exists i: nat :: HeldBy(bs, d, i)
  {
    if bs == [] {
    } else if d == [] {
      assert bs[..0] == [] && HeldBy(bs, d, 0);
    } else if bs[0].Eos? || !Agree(bs[0].data, d) {
      forall i: nat ensures !HeldBy(bs, d, i) { NotHeld(bs, d, i); }
    } else {
      var b, more := bs[0].data, bs[1..];
      var d' := if |b| < |d| then d[|b|..] else [];
      assert b == [] ==> d' == d;
      StartStringExact(more, d');
      if i: nat :| HeldBy(bs, d, i) {
        assert i > 0 by { assert bs[..0] == []; }
        HeldByStep(bs, d, i);
      }
      if i: nat :| HeldBy(more, d', i) {
        HeldByStep(bs, d, i + 1);
      }
    }
  }

  lemma NotHeld(bs: seq<Bucket>, d: bytes, i: nat)
    requires bs != [] && d != [] && (bs[0].Eos? || !Agree(bs[0].data, d))
    ensures !HeldBy(bs, d, i)
  {
    if 0 < i < |bs| && bs[0].Data? {
      var b, tail := bs[0].data, bs[1..][..i - 1];
      assert bs[..i][1..] == tail;
      assert HasEos(bs[..i]) || Live(bs[..i]) == b + Live(tail);
      var k :| 0 <= k < |b| && k < |d| && b[k] != d[k];
      assert (b + Live(tail))[k] == b[k];
    } else if 0 < i < |bs| {
      assert bs[..i][0].Eos?;
    }
  }
}

/** Printed forms are read back as what was printed, on the reference reading of the stream. */
module MultipartRoundTrip {
  import opened Bytes
  import opened Boundary
  import opened Headers
  import opened HeaderRoundTrip
  import opened Sequences
  import opened MultipartSpec
  import opened Streams

  /** A part as a client writes it: with a body, without one, or with a nested entity. */
  datatype Part =
    | Text(lines: seq<Printed>, body: bytes)
    | Bare(lines: seq<Printed>)
    | Group(lines: seq<Printed>, inner: Entity, parts: seq<Part>, gap: bytes)

  /** What a client writes behind a delimiter of e: the parts, and then `more`, behind the delimiter
      of the last. A part without a body shares the CRLF that ends its header with the delimiter. */
  function Before(e: Entity, parts: seq<Part>, more: bytes): bytes
    decreases parts
  {
    if parts == [] then more
    else
      var rest := Before(e, parts[1..], more);
      CRLF + HeaderBlock(parts[0].lines, match parts[0]
        case Text(_, body) => body + (e.Delimiter() + rest)
        case Bare(_) => e.Dash() + rest
        case Group(_, inner, ps, gap) => inner.Dash() + Before(inner, ps, Close(gap + (e.Dash() + rest))))
  }

  /** The end of the closing delimiter. */
  function Close(end: bytes): bytes { DASHES + (CRLF + end) }

  /** The parts, and the closing delimiter. */
  function After(e: Entity, parts: seq<Part>, end: bytes): bytes { Before(e, parts, Close(end)) }

  /** A whole body, with a preamble and an epilogue. */
  function Form(e: Entity, pre: bytes, parts: seq<Part>, end: bytes): bytes {
    pre + (e.Dash() + After(e, parts, end))
  }

  /** A body the delimiters of e leave alone. */
  ghost predicate Plainly(e: Entity, body: bytes) {
    Absent(e.Delimiter(), body) && !(e.Dash() <= body)
  }

  /** What a form must be like to be written for entity e; pname is the name a nested entity
      gives its parts. */
  ghost predicate Good(e: Entity, pname: Option<bytes>, parts: seq<Part>)
    decreases parts
  {
    CR !in e.token &&
    (parts == [] ||
     (&& AllLegal(parts[0].lines)
      && Good(e, NameBehind(e, pname, parts[0]), parts[1..])
      && var k := KindOf(e, pname, Fields(parts[0].lines));
         match parts[0]
         case Text(_, body) => (k.File? || (k.Plain? && k.pname.Some?)) && Plainly(e, body)
         case Bare(_) => k.File? || (k.Plain? && k.pname.Some?)
         case Group(_, inner, ps, gap) =>
           && k.Nested? && k.inner == inner && Good(inner, Some(k.name), ps)
           && DASH !in gap && !(e.token <= inner.token + DASHES)))
  }

  /** A plain field uses up the name. */
  ghost function NameBehind(e: Entity, pname: Option<bytes>, part: Part): Option<bytes> {
    if KindOf(e, pname, Fields(part.lines)).Plain? then None else pname
  }

  /** The parameters of a form. */
  ghost function Table(e: Entity, pname: Option<bytes>, parts: seq<Part>): seq<Param>
    requires Good(e, pname, parts)
    decreases parts
  {
    if parts == [] then []
    else Params(e, pname, parts) + Table(e, NameBehind(e, pname, parts[0]), parts[1..])
  }

  /** The parameters of the first part. */
  ghost function Params(e: Entity, pname: Option<bytes>, parts: seq<Part>): seq<Param>
    requires parts != [] && Good(e, pname, parts)
    decreases parts, 0
  {
    var p, info := parts[0], Fields(parts[0].lines);
    match KindOf(e, pname, info)
    case Plain(name) => [Param(name.value, if p.Text? then p.body else [], None, info)]
    case File(name, filename) => [Param(name, filename, Some(if p.Text? then p.body else []), info)]
    case Nested(inner, name) => Table(inner, Some(name), p.parts)
    case _ => []
  }

  /** The name a nested entity still has for its parts. */
  ghost function NameAfter(e: Entity, pname: Option<bytes>, parts: seq<Part>): Option<bytes>
    decreases parts
  {
    if parts == [] then pname else NameAfter(e, NameBehind(e, pname, parts[0]), parts[1..])
  }

  predicate HasBare(parts: seq<Part>)
    decreases parts
  {
    parts != [] && (parts[0].Bare? || (parts[0].Group? && HasBare(parts[0].parts)) || HasBare(parts[1..]))
  }

  /* ---- Reading the pieces ---- */

  /** A delimiter whose first byte does not recur is found behind bytes that do not hold it. */
  lemma CutClean(p: bytes, d: bytes, more: bytes)
    requires p != [] && p[0] !in p[1..] && Absent(p, d)
    ensures CutAtFirst(p, d + (p + more)) == Cutting(d, more)
  {
    hide FirstAgree;
    var s := d + (p + more);
    forall i | 0 <= i < |d| ensures !Agree(p, s[i..]) {
      CleanAt(p, d, more, i);
    }
    assert s[|d|..] == p + more;
    FirstAgreeIs(p, s, |d|);
    assert s[..|d|] == d;
    Peel(s, |d|, p, more);
  }

  lemma CleanAt(p: bytes, d: bytes, more: bytes, i: nat)
    requires p != [] && p[0] !in p[1..] && Absent(p, d) && i < |d|
    ensures !Agree(p, (d + (p + more))[i..])
  {
    var s := d + (p + more);
    if i + |p| <= |d| {
      AgreeWhole(p, d[i..]);
      DropAppend(d, p + more, i);
      if Agree(p, s[i..]) { AgreeLess(p, d[i..], p + more); }
    } else {
      assert s[i..][|d| - i] == p[0] && p[1..][|d| - i - 1] == p[|d| - i];
    }
  }

  lemma DelimiterClean(e: Entity)
    requires CR !in e.token
    ensures var p := e.Delimiter(); p != [] && p[0] !in p[1..] && p == CRLF + e.Dash()
    ensures CRLF[0] !in CRLF[1..]
  {
    var p := e.Delimiter();
    assert p == CRLF + e.Dash();
    assert p[1..] == [LF] + (DASHES + e.token);
  }

  /** Any text behind a delimiter ends the entity; it need not be two dashes. */
  lemma TextCloses(e: Entity, pname: Option<bytes>, t: seq<Param>, text: bytes, end: bytes)
    requires text != [] && Absent(CRLF, text)
    ensures RunNextLine(e, pname, [], t, text + (CRLF + end)) == Done(t, end, false)
  {
    hide CutAtFirst;
    CutClean(CRLF, text, end);
    assert [] + text == text;
  }

  lemma CloseRead(e: Entity, pname: Option<bytes>, t: seq<Param>, end: bytes)
    ensures RunNextLine(e, pname, [], t, Close(end)) == Done(t, end, false)
  {
    hide CutAtFirst, RunNextLine;
    forall i | 0 <= i <= |DASHES| ensures !(CRLF <= DASHES[i..]) {
      if i < 2 { assert DASHES[i..][0] == DASH; }
    }
    TextCloses(e, pname, t, DASHES, end);
  }

  lemma PartRead(e: Entity, pname: Option<bytes>, lines: seq<Printed>, t: seq<Param>, s: bytes)
    requires AllLegal(lines)
    ensures RunNextLine(e, pname, [], t, CRLF + HeaderBlock(lines, s)) == RunPart(e, pname, Fields(lines), t, s)
  {
    hide CutAtFirst, RunPart, ReadBlock;
    var h := HeaderBlock(lines, s);
    CutClean(CRLF, [], h);
    assert [] + (CRLF + h) == CRLF + h && [] + Fields(lines) == Fields(lines);
    ReadBlockPrinted(lines, s, []);
    assert RunHeader(e, pname, [], t, h) == RunPart(e, pname, Fields(lines), t, s);
  }

  /** A body that is there is not taken for the next delimiter. */
  lemma BodyRead(e: Entity, pname: Option<bytes>, info: seq<Field>, t: seq<Param>, body: bytes, more: bytes)
    requires CR !in e.token && Plainly(e, body)
    ensures var s := body + (e.Delimiter() + more);
            RunPart(e, pname, info, t, s) == RunKind(e, pname, info, KindOf(e, pname, info), t, s)
  {
    hide RunKind, KindOf;
    var s, d := body + (e.Delimiter() + more), e.Dash();
    NotDash(e, body, more);
  }

  lemma NotDash(e: Entity, body: bytes, more: bytes)
    requires CR !in e.token && !(e.Dash() <= body)
    ensures var s := body + (e.Delimiter() + more); !(e.Dash() <= s) && !(s < e.Dash())
  {
    var s, n := body + (e.Delimiter() + more), |body|;
    assert s[n] == CR && s[..n] == body;
    NoCrPrefix(e.Dash(), s, n);
  }

  /** A string without CR that begins s ends in front of the CR in s. */
  lemma NoCrPrefix(d: bytes, s: bytes, n: nat)
    requires CR !in d && n < |s| && s[n] == CR
    ensures !(s < d) && (d <= s ==> d <= s[..n])
  {
    assert forall k :: 0 <= k < |d| ==> d[k] != CR;
  }

  /** The parameter a part of kind k makes of its body. */
  ghost function Made(k: Kind, body: bytes, info: seq<Field>): Param
    requires k.File? || (k.Plain? && k.pname.Some?)
  {
    if k.File? then Param(k.name, k.filename, Some(body), info) else Param(k.pname.value, body, None, info)
  }

  lemma KindRead(e: Entity, pname: Option<bytes>, info: seq<Field>, k: Kind, t: seq<Param>, body: bytes, more: bytes)
    requires CR !in e.token && Absent(e.Delimiter(), body) && (k.File? || (k.Plain? && k.pname.Some?))
    ensures RunKind(e, pname, info, k, t, body + (e.Delimiter() + more))
            == RunNextLine(e, if k.Plain? then None else pname, [], t + [Made(k, body, info)], more)
  {
    hide CutAtFirst, RunNextLine;
    DelimiterClean(e);
    CutClean(e.Delimiter(), body, more);
    assert [] + body == body;
  }

  /** The delimiter right behind the header is noticed. */
  lemma BareRead(e: Entity, pname: Option<bytes>, info: seq<Field>, t: seq<Param>, more: bytes)
    ensures RunPart(e, pname, info, t, e.Dash() + more)
            == Mark(RunKind(e, pname, info, KindOf(e, pname, info), t, [] + (e.Delimiter() + more)), true)
  {
    hide RunKind, KindOf;
    assert CRLF + (e.Dash() + more) == [] + (e.Delimiter() + more);
  }

  /** A nested entity whose reading is known. */
  lemma GroupRead(e: Entity, pname: Option<bytes>, info: seq<Field>, t: seq<Param>, s: bytes, inner: Entity,
      name: bytes,
                  t': seq<Param>, gap: bytes, more: bytes, bare: bool)
    requires CR !in e.token && CR !in inner.token && DASH !in gap && !(e.Dash() <= s) && !(s < e.Dash())
        && inner.mixed && !e.mixed
    requires KindOf(e, pname, info) == Nested(inner, name)
    requires RunInit(inner, Some(name), t, s) == Done(t', gap + (e.Dash() + more), bare)
    ensures RunPart(e, pname, info, t, s) == Mark(RunNextLine(e, pname, [], t', more), bare)
  {
    hide RunInit, RunNextLine, KindOf;
    var k := KindOf(e, pname, info);
    InitSkips(e, pname, t', gap, e.Dash() + more);
    InitHere(e, pname, t', more);
    assert Run(inner, AtInit(Some(name)), t, s) == RunInit(inner, Some(name), t, s);
    assert RunNested(e, pname, inner, AtInit(Some(name)), t, s) == Mark(RunNextLine(e, pname, [], t', more), bare);
    assert RunKind(e, pname, info, k, t, s) == RunNested(e, pname, inner, AtInit(Some(name)), t, s);
  }

  /** The delimiter of a nested entity is not taken for the one around it. */
  lemma GroupStarts(e: Entity, inner: Entity, a: bytes)
    requires CR !in e.token && !(e.token <= inner.token + DASHES)
    requires CRLF <= a || DASHES + CRLF <= a
    ensures var s := inner.Dash() + a; !(e.Dash() <= s) && !(s < e.Dash())
  {
    var mid := if CRLF <= a then [] else DASHES;
    var s, n := inner.Dash() + a, |inner.Dash() + mid|;
    assert mid <= a && a[|mid|] == CR;
    assert s[n] == CR && s[..n] == inner.Dash() + mid;
    NoCrPrefix(e.Dash(), s, n);
    DashPrefix(e.token, inner.token, mid);
  }

  lemma AfterStarts(e: Entity, parts: seq<Part>, end: bytes)
    ensures var a := After(e, parts, end); CRLF <= a || DASHES + CRLF <= a
  {
    if parts == [] { assert After(e, parts, end) == (DASHES + CRLF) + end; }
  }

  lemma DashPrefix(a: bytes, b: bytes, mid: bytes)
    requires mid <= DASHES
    ensures DASHES + a <= DASHES + b + mid ==> a <= b + DASHES
  {
    if DASHES + a <= DASHES + b + mid {
      assert a == (DASHES + a)[2..] == (DASHES + b + mid)[..2 + |a|][2..];
      assert (DASHES + b + mid)[..2 + |a|][2..] == (b + DASHES)[..|a|];
    }
  }

  lemma MarkMark(o: Outcome, a: bool, b: bool)
    ensures Mark(Mark(o, a), b) == Mark(o, a || b) && Mark(o, false) == o
  {
  }

  /** What is printed behind a delimiter is read as its parts, whatever follows them. */
  lemma {:induction false} ReadBefore(e: Entity, pname: Option<bytes>, parts: seq<Part>, t: seq<Param>, more: bytes)
    requires Good(e, pname, parts)
    ensures RunNextLine(e, pname, [], t, Before(e, parts, more))
            == Mark(RunNextLine(e, NameAfter(e, pname, parts), [], t + Table(e, pname, parts), more), HasBare(parts))
    decreases parts
  {
    hide RunNextLine, RunPart, RunKind, KindOf, HeaderBlock, AllLegal, Mark, Plainly;
    if parts == [] {
      assert t + [] == t;
      MarkMark(RunNextLine(e, pname, [], t, more), false, false);
    } else {
      var p, pname', rest := parts[0], NameBehind(e, pname, parts[0]), Before(e, parts[1..], more);
      var made := Params(e, pname, parts);
      ReadBefore(e, pname', parts[1..], t + made, more);
      Regroup(t, made, Table(e, pname', parts[1..]));
      MarkMark(RunNextLine(e, NameAfter(e, pname, parts), [], t + Table(e, pname, parts), more), HasBare(parts[1..]),
               p.Bare? || (p.Group? && HasBare(p.parts)));
      MarkMark(RunNextLine(e, pname', [], t + made, rest), false, false);
      match p {
        case Text(lines, body) => ReadText(e, pname, lines, t, body, rest);
        case Bare(lines) => ReadBare(e, pname, lines, t, rest);
        case Group(lines, inner, ps, gap) =>
          var name := KindOf(e, pname, Fields(lines)).name;
          ReadBefore(inner, Some(name), ps, t, Close(gap + (e.Dash() + rest)));
          Closed(inner, Some(name), ps, t, gap + (e.Dash() + rest));
          ReadGroup(e, pname, lines, t, inner, name, ps, gap, rest);
      }
    }
  }

  lemma Closed(e: Entity, pname: Option<bytes>, parts: seq<Part>, t: seq<Param>, end: bytes)
    requires Good(e, pname, parts)
    requires RunNextLine(e, pname, [], t, After(e, parts, end))
             == Mark(RunNextLine(e, NameAfter(e, pname, parts), [], t + Table(e, pname, parts), Close(end)),
                 HasBare(parts))
    ensures RunNextLine(e, pname, [], t, After(e, parts, end)) == Done(t + Table(e, pname, parts), end, HasBare(parts))
  {
    hide RunNextLine, Before, Good, Table;
    CloseRead(e, NameAfter(e, pname, parts), t + Table(e, pname, parts), end);
  }

  /** With the closing delimiter behind them, the bytes behind the closing line are handed on. */
  lemma ReadAfter(e: Entity, pname: Option<bytes>, parts: seq<Part>, t: seq<Param>, end: bytes)
    requires Good(e, pname, parts)
    ensures RunNextLine(e, pname, [], t, After(e, parts, end)) == Done(t + Table(e, pname, parts), end, HasBare(parts))
  {
    hide RunNextLine, Before, Good, Table;
    ReadBefore(e, pname, parts, t, Close(end));
    Closed(e, pname, parts, t, end);
  }

  lemma ReadText(e: Entity, pname: Option<bytes>, lines: seq<Printed>, t: seq<Param>, body: bytes, more: bytes)
    requires CR !in e.token && AllLegal(lines) && Plainly(e, body)
    requires var k := KindOf(e, pname, Fields(lines)); k.File? || (k.Plain? && k.pname.Some?)
    ensures var k := KindOf(e, pname, Fields(lines));
      RunNextLine(e, pname, [], t, CRLF + HeaderBlock(lines, body + (e.Delimiter() + more)))
      == RunNextLine(e, if k.Plain? then None else pname, [], t + [Made(k, body, Fields(lines))], more)
  {
    hide RunNextLine, RunPart, RunKind, KindOf;
    var info := Fields(lines);
    PartRead(e, pname, lines, t, body + (e.Delimiter() + more));
    BodyRead(e, pname, info, t, body, more);
    KindRead(e, pname, info, KindOf(e, pname, info), t, body, more);
  }

  lemma ReadBare(e: Entity, pname: Option<bytes>, lines: seq<Printed>, t: seq<Param>, more: bytes)
    requires CR !in e.token && AllLegal(lines)
    requires var k := KindOf(e, pname, Fields(lines)); k.File? || (k.Plain? && k.pname.Some?)
    ensures var k := KindOf(e, pname, Fields(lines));
      RunNextLine(e, pname, [], t, CRLF + HeaderBlock(lines, e.Dash() + more))
      == Mark(RunNextLine(e, if k.Plain? then None else pname, [], t + [Made(k, [], Fields(lines))], more), true)
  {
    hide RunNextLine, RunPart, RunKind, KindOf;
    var info := Fields(lines);
    PartRead(e, pname, lines, t, e.Dash() + more);
    BareRead(e, pname, info, t, more);
    assert Absent(e.Delimiter(), []);
    KindRead(e, pname, info, KindOf(e, pname, info), t, [], more);
  }

  lemma ReadGroup(e: Entity, pname: Option<bytes>, lines: seq<Printed>, t: seq<Param>, inner: Entity, name: bytes,
                  ps: seq<Part>, gap: bytes, more: bytes)
    requires CR !in e.token && AllLegal(lines) && DASH !in gap && !(e.token <= inner.token + DASHES)
    requires KindOf(e, pname, Fields(lines)) == Nested(inner, name) && Good(inner, Some(name), ps)
    requires RunNextLine(inner, Some(name), [], t, After(inner, ps, gap + (e.Dash() + more)))
             == Done(t + Table(inner, Some(name), ps), gap + (e.Dash() + more), HasBare(ps))
    ensures RunNextLine(e, pname, [], t,
                        CRLF + HeaderBlock(lines, inner.Dash() + After(inner, ps, gap + (e.Dash() + more))))
            == Mark(RunNextLine(e, pname, [], t + Table(inner, Some(name), ps), more), HasBare(ps))
  {
    hide RunNextLine, RunPart, KindOf, RunInit, After, Table, HeaderBlock;
    var behind := gap + (e.Dash() + more);
    var s := inner.Dash() + After(inner, ps, behind);
    PartRead(e, pname, lines, t, s);
    AfterStarts(inner, ps, behind);
    GroupStarts(e, inner, After(inner, ps, behind));
    assert KindOf(e, pname, Fields(lines)).Nested?;
    InitHere(inner, Some(name), t, After(inner, ps, behind));
    GroupRead(e, pname, Fields(lines), t, s, inner, name, t + Table(inner, Some(name), ps), gap, more, HasBare(ps));
  }

  /** A printed form, read from its first byte. */
  lemma ReadForm(e: Entity, pname: Option<bytes>, pre: bytes, parts: seq<Part>, end: bytes)
    requires Good(e, pname, parts) && DASH !in pre
    ensures Run(e, AtInit(pname), [], Form(e, pre, parts, end)) == Done(Table(e, pname, parts), end, HasBare(parts))
  {
    hide RunInit, RunNextLine, Before, Table, Good;
    ReadStart(e, pname, pre, After(e, parts, end));
    ReadAfter(e, pname, parts, [], end);
    assert [] + Table(e, pname, parts) == Table(e, pname, parts);
    GoodToken(e, pname, parts);
  }

  lemma GoodToken(e: Entity, pname: Option<bytes>, parts: seq<Part>)
    requires Good(e, pname, parts)
    ensures CR !in e.token
  {
  }

  /** The preamble and the first delimiter. */
  lemma ReadStart(e: Entity, pname: Option<bytes>, pre: bytes, s: bytes)
    requires DASH !in pre
    ensures CR !in e.token ==> Run(e, AtInit(pname), [], pre + (e.Dash() + s)) == RunNextLine(e, pname, [], [], s)
  {
    hide RunInit, RunNextLine;
    InitSkips(e, pname, [], pre, e.Dash() + s);
    if CR !in e.token { InitHere(e, pname, [], s); }
  }

  /* ---- Parts that are refused ---- */

  /** Where reading fails behind some parts, it fails behind their delimiter. */
  lemma ReadFails(e: Entity, pname: Option<bytes>, pre: bytes, parts: seq<Part>, more: bytes, t: seq<Param>, bare: bool)
    requires Good(e, pname, parts) && DASH !in pre
    requires RunNextLine(e, NameAfter(e, pname, parts), [], Table(e, pname, parts), more) == Fail(t, bare)
    ensures Run(e, AtInit(pname), [], pre + (e.Dash() + Before(e, parts, more))) == Fail(t, HasBare(parts) || bare)
  {
    hide RunInit, RunNextLine, Before, Table, Good, HasBare, NameAfter;
    GoodToken(e, pname, parts);
    ReadStart(e, pname, pre, Before(e, parts, more));
    ReadBefore(e, pname, parts, [], more);
    assert [] + Table(e, pname, parts) == Table(e, pname, parts);
  }

  /** A header that says too little of its part is an error. */
  lemma WrongPart(e: Entity, pname: Option<bytes>, lines: seq<Printed>, t: seq<Param>, s: bytes)
    requires AllLegal(lines) && KindOf(e, pname, Fields(lines)).Wrong? && !(s < e.Dash())
    ensures RunNextLine(e, pname, [], t, CRLF + HeaderBlock(lines, s)) == Fail(t, e.Dash() <= s)
  {
    hide KindOf, HeaderBlock, AllLegal, RunNextLine;
    PartRead(e, pname, lines, t, s);
  }

  /** So is a header that cannot be read. */
  lemma BadHeader(e: Entity, pname: Option<bytes>, t: seq<Param>, h: bytes)
    requires ReadBlock([], h).Bad?
    ensures RunNextLine(e, pname, [], t, CRLF + h) == Fail(t, false)
  {
    hide CutAtFirst, ReadBlock;
    CutClean(CRLF, [], h);
    assert [] + (CRLF + h) == CRLF + h;
  }

  /** And a part of a nested entity where either happens: what lies in front of it there is kept. */
  lemma GroupFails(e: Entity, pname: Option<bytes>, lines: seq<Printed>, t: seq<Param>, inner: Entity, name: bytes,
                   ps: seq<Part>, more: bytes, t': seq<Param>, bare: bool)
    requires CR !in e.token && AllLegal(lines) && !(e.token <= inner.token + DASHES) && CRLF <= more
    requires KindOf(e, pname, Fields(lines)) == Nested(inner, name) && Good(inner, Some(name), ps)
    requires RunNextLine(inner, NameAfter(inner, Some(name), ps), [], t + Table(inner, Some(name), ps), more)
             == Fail(t', bare)
    ensures RunNextLine(e, pname, [], t, CRLF + HeaderBlock(lines, inner.Dash() + Before(inner, ps, more)))
            == Fail(t', HasBare(ps) || bare)
  {
    hide RunNextLine, KindOf, RunInit, Before, Table, HeaderBlock, RunPart, Good, AllLegal, NameAfter, HasBare;
    var a := Before(inner, ps, more);
    var s := inner.Dash() + a;
    PartRead(e, pname, lines, t, s);
    BeforeStarts(inner, ps, more);
    GroupStarts(e, inner, a);
    GoodToken(inner, Some(name), ps);
    InitHere(inner, Some(name), t, a);
    ReadBefore(inner, Some(name), ps, t, more);
    GroupFailed(e, pname, Fields(lines), t, s, inner, name, t', HasBare(ps) || bare);
  }

  lemma BeforeStarts(e: Entity, parts: seq<Part>, more: bytes)
    requires CRLF <= more
    ensures CRLF <= Before(e, parts, more)
  {
  }

  lemma GroupFailed(e: Entity, pname: Option<bytes>, info: seq<Field>, t: seq<Param>, s: bytes, inner: Entity,
                    name: bytes, t': seq<Param>, bare: bool)
    requires CR !in inner.token && !(e.Dash() <= s) && !(s < e.Dash()) && inner.mixed && !e.mixed
    requires KindOf(e, pname, info) == Nested(inner, name)
    requires RunInit(inner, Some(name), t, s) == Fail(t', bare)
    ensures RunPart(e, pname, info, t, s) == Fail(t', bare)
  {
    hide RunInit, KindOf;
    assert Run(inner, AtInit(Some(name)), t, s) == RunInit(inner, Some(name), t, s);
    assert RunNested(e, pname, inner, AtInit(Some(name)), t, s) == Fail(t', bare);
    assert RunKind(e, pname, info, KindOf(e, pname, info), t, s)
        == RunNested(e, pname, inner, AtInit(Some(name)), t, s);
  }
}

/** Printed header blocks are read back, from any cut of their bytes into buckets and calls. */
module HeaderRoundTrip {
  import opened Bytes
  import opened Brigades
  import opened Statuses
  import opened Sequences
  import opened Headers

  /** A header line as written: the blanks behind the colon are the writer's choice, and where the
      value allows it, so is a line end without CR. */
  datatype Printed = Printed(field: Field, gap: bytes, bare: bool)
  {
    /** A field an unfolded line can carry: section 3.1 of RFC 822. */
    ghost predicate Legal() {
      && field.name != [] && !IsBlank(field.name[0]) && COLON !in field.name && LF !in field.name
      && LF !in field.value && (field.value != [] ==> !IsBlank(field.value[0]))
      && (forall k :: 0 <= k < |gap| ==> IsBlank(gap[k]))
      && (bare ==> field.value != [] && field.value[|field.value| - 1] != CR)
    }

    function End(): bytes { if bare then [LF] else CRLF }

    /** The line, and what follows it. */
    function Then(rest: bytes): bytes {
      field.name + ([COLON] + (gap + (field.value + (End() + rest))))
    }
  }

  /** The lines, and what follows. */
  function LinesThen(lines: seq<Printed>, more: bytes): bytes {
    if lines == [] then more else lines[0].Then(LinesThen(lines[1..], more))
  }

  /** The lines, the empty line, and what follows. */
  function HeaderBlock(lines: seq<Printed>, tail: bytes): bytes { LinesThen(lines, CRLF + tail) }

  function Fields(lines: seq<Printed>): seq<Field> {
    if lines == [] then [] else [lines[0].field] + Fields(lines[1..])
  }

  ghost predicate AllLegal(lines: seq<Printed>) {
    forall i :: 0 <= i < |lines| ==> lines[i].Legal()
  }

  /** The parts of a line at the front of s. */
  ghost predicate Laid(s: bytes, name: bytes, gap: bytes, v: bytes, rest: bytes) {
    var n := |name|; var g := n + 1 + |gap|; var e := g + |v|;
    && e < |s| && s[..n] == name && s[n] == COLON && s[n + 1..g] == gap && s[g..e] == v && s[e] == LF
    && s[e + 1..] == rest
  }

  lemma Layout(name: bytes, gap: bytes, v: bytes, rest: bytes)
    ensures Laid(name + ([COLON] + (gap + (v + ([LF] + rest)))), name, gap, v, rest)
  {
    var s3 := v + ([LF] + rest);
    var s2 := gap + s3;
    var s := name + ([COLON] + s2);
    var n := |name|;
    assert s[n + 1..] == s2;
    DropDrop(s, n + 1, |gap|);
    assert s[n + 1 + |gap|..] == s2[|gap|..] == s3;
    assert s3[..|v|] == v && s3[|v| + 1..] == rest;
    DropDrop(s, n + 1 + |gap|, |v| + 1);
  }

  lemma LaidEnds(s: bytes, name: bytes, gap: bytes, v: bytes, rest: bytes)
    requires Laid(s, name, gap, v, rest)
    requires COLON !in name && LF !in name && LF !in v && v != [] && !IsBlank(v[0])
    requires forall k :: 0 <= k < |gap| ==> IsBlank(gap[k])
    ensures var n := |name|; var g := n + 1 + |gap|;
            NameEnd(s, 0) == n && GapEnd(s, n + 1) == g && LineEnd(s, g) == g + |v| && s[g] == v[0]
  {
    var n := |name|;
    var g := n + 1 + |gap|;
    assert forall k :: 0 <= k < n ==> s[k] == name[k];
    assert forall k :: n < k < g ==> s[k] == s[n + 1..g][k - n - 1] == gap[k - n - 1];
    assert forall k :: g <= k < g + |v| ==> s[k] == s[g..g + |v|][k - g] == v[k - g];
  }

  lemma ReadLaid(s: bytes, name: bytes, gap: bytes, v: bytes, rest: bytes)
    requires Laid(s, name, gap, v, rest) && name != [] && v != [] && v[0] != LF && rest != [] && !IsBlank(rest[0])
    requires var n := |name|; var g := n + 1 + |gap|;
             NameEnd(s, 0) == n && GapEnd(s, n + 1) == g && LineEnd(s, g) == g + |v| && s[g] == v[0]
    ensures ReadLine(s) == Entry(Field(name, Chomp(v)), rest)
  {
    hide ReadLine, NameEnd, GapEnd, LineEnd, Chomp;
    var e := |name| + 1 + |gap| + |v|;
    assert s[e + 1..][0] == s[e + 1];
    ReadAt(s, |name|, |name| + 1 + |gap|, e);
  }

  /** The value as the parser counts it, with the CR that is chomped off. */
  lemma LineBreak(l: Printed, rest: bytes)
    requires l.Legal()
    ensures var v := if l.bare then l.field.value else l.field.value + [CR];
      && l.field.value + (l.End() + rest) == v + ([LF] + rest) && Chomp(v) == l.field.value
      && v != [] && !IsBlank(v[0]) && LF !in v
  {
    var v := l.field.value + [CR];
    assert v[..|v| - 1] == l.field.value;
  }

  lemma ReadParts(name: bytes, gap: bytes, v: bytes, rest: bytes)
    requires name != [] && COLON !in name && LF !in name && LF !in v && v != [] && !IsBlank(v[0])
    requires rest != [] && !IsBlank(rest[0]) && forall k :: 0 <= k < |gap| ==> IsBlank(gap[k])
    ensures ReadLine(name + ([COLON] + (gap + (v + ([LF] + rest))))) == Entry(Field(name, Chomp(v)), rest)
  {
    hide ReadLine, NameEnd, GapEnd, LineEnd, Chomp;
    var s := name + ([COLON] + (gap + (v + ([LF] + rest))));
    Layout(name, gap, v, rest);
    LaidEnds(s, name, gap, v, rest);
    ReadLaid(s, name, gap, v, rest);
  }

  lemma ReadPrinted(l: Printed, rest: bytes)
    requires l.Legal() && rest != [] && !IsBlank(rest[0])
    ensures ReadLine(l.Then(rest)) == Entry(l.field, rest)
  {
    hide ReadLine, Chomp;
    LineBreak(l, rest);
    ReadParts(l.field.name, l.gap, if l.bare then l.field.value else l.field.value + [CR], rest);
  }

  lemma LinesStart(lines: seq<Printed>, more: bytes)
    requires AllLegal(lines) && more != [] && !IsBlank(more[0])
    ensures var s := LinesThen(lines, more); s != [] && !IsBlank(s[0])
  {
    if lines != [] { assert lines[0].Legal(); }
  }

  /** Printed lines are read as their fields, and what follows them is read on. */
  lemma {:induction false} ReadLines(lines: seq<Printed>, more: bytes, before: seq<Field>)
    requires AllLegal(lines) && more != [] && !IsBlank(more[0])
    ensures ReadBlock(before, LinesThen(lines, more)) == ReadBlock(before + Fields(lines), more)
  {
    hide ReadLine;
    if lines == [] {
      assert before + [] == before;
    } else {
      var l, rest := lines[0], lines[1..];
      LinesStart(rest, more);
      ReadPrinted(l, LinesThen(rest, more));
      ReadLines(rest, more, before + [l.field]);
      Regroup(before, [l.field], Fields(rest));
    }
  }

  /** A printed block, whatever follows it, is read as its fields and what follows. */
  lemma ReadBlockPrinted(lines: seq<Printed>, tail: bytes, before: seq<Field>)
    requires AllLegal(lines)
    ensures ReadBlock(before, HeaderBlock(lines, tail)) == Complete(before + Fields(lines), tail)
  {
    hide ReadLine;
    ReadLines(lines, CRLF + tail, before);
    assert CRLF + tail == [CR] + ([LF] + tail);
    ReadStop([CR], tail);
  }

  /** Any line without a colon ends the block, whatever stands in it, and is dropped. */
  lemma ReadStop(stop: bytes, tail: bytes)
    requires COLON !in stop && LF !in stop
    ensures ReadLine(stop + ([LF] + tail)) == Blank(tail)
  {
    var s, n := stop + ([LF] + tail), |stop|;
    assert forall k :: 0 <= k < n ==> s[k] == stop[k];
    assert s[n] == LF && s[n + 1..] == tail;
    assert NameEnd(s, 0) == n;
  }

  /** A line that begins with a colon is an error; the lines in front of it are kept. */
  lemma ReadNameless(lines: seq<Printed>, gap: bytes, v: bytes, rest: bytes, before: seq<Field>)
    requires AllLegal(lines) && LF !in v && v != [] && !IsBlank(v[0])
    requires rest != [] && !IsBlank(rest[0]) && forall k :: 0 <= k < |gap| ==> IsBlank(gap[k])
    ensures ReadBlock(before, LinesThen(lines, [COLON] + (gap + (v + ([LF] + rest))))) == Bad(before + Fields(lines))
  {
    hide ReadLine, ReadBlock, LinesThen;
    var s := [COLON] + (gap + (v + ([LF] + rest)));
    ReadLines(lines, s, before);
    NamelessLine(gap, v, rest);
    BlockLaw(before + Fields(lines), s);
  }

  lemma NamelessLine(gap: bytes, v: bytes, rest: bytes)
    requires LF !in v && v != [] && !IsBlank(v[0])
    requires rest != [] && !IsBlank(rest[0]) && forall k :: 0 <= k < |gap| ==> IsBlank(gap[k])
    ensures ReadLine([COLON] + (gap + (v + ([LF] + rest)))) == Nameless
  {
    hide ReadLine, NameEnd, GapEnd, LineEnd, Laid;
    var none: bytes := [];
    var s := [COLON] + (gap + (v + ([LF] + rest)));
    NoneBefore(s);
    Layout(none, gap, v, rest);
    LaidEnds(s, none, gap, v, rest);
    NamelessAt(s, gap, v, rest);
  }

  lemma NoneBefore(s: bytes)
    ensures [] + s == s
  {
  }

  lemma NamelessAt(s: bytes, gap: bytes, v: bytes, rest: bytes)
    requires Laid(s, [], gap, v, rest) && v != [] && v[0] != LF && rest != [] && !IsBlank(rest[0])
    requires NameEnd(s, 0) == 0 && GapEnd(s, 1) == 1 + |gap| && LineEnd(s, 1 + |gap|) == 1 + |gap| + |v|
    requires s[1 + |gap|] == v[0]
    ensures ReadLine(s) == Nameless
  {
    hide ReadLine, NameEnd, GapEnd, LineEnd;
    var e := 1 + |gap| + |v|;
    assert s[e + 1..][0] == s[e + 1];
    ReadAt(s, 0, 1 + |gap|, e);
  }

  lemma NothingRead(later: seq<Bucket>)
    ensures Stream([], Live(later)) == Live(later) && Stream([], []) == [] && Live([]) == [] && !HasEos([])
    ensures ReadBlock([], []).Partial?
  {
  }

  /** Feed a fresh parser the calls, until it is done; n calls were made, and the last one
      handed `back` to the caller. */
  method ParseHeaderCalls(calls: seq<seq<Bucket>>) returns (s: Status, fields: seq<Field>, back: seq<Bucket>, n: nat)
    ensures n <= |calls|
    ensures var bs := Joined(calls); var r := ReadBlock([], Live(bs));
      || r.Unknown? || (r.Partial? && HasEos(bs))
      || match s
         case Success => r == Complete(fields, Live(back + Joined(calls[n..])))
         case Incomplete => r.Partial? && n == |calls|
         case _ => r == Bad(fields)
  {
    hide ReadBlock, Live, HasEos;
    ghost var r, eos := ReadBlock([], Live(Joined(calls))), HasEos(Joined(calls));
    var t := new Table<Field>();
    var p := new HeaderParser();
    s, n, back := Incomplete, 0, [];
    assert calls[0..] == calls;
    NothingRead(Joined(calls));
    while n < |calls| && s == Incomplete
      invariant n <= |calls| && fresh(t) && fresh(p) && fresh(p.bb)
      invariant s == Incomplete ==> p.status != HdrError && p.status != HdrComplete
      invariant r.Unknown? || (r.Partial? && eos) || if s == Incomplete then
                  && !HasEos(p.bb.buckets) && (eos <==> HasEos(Joined(calls[n..])))
                  && ReadBlock(t.elts, Live(p.bb.buckets)).Partial?
                  && r == ReadBlock(t.elts, Stream(p.bb.buckets, Live(Joined(calls[n..]))))
                else match s
                  case Success => r == Complete(t.elts, Live(back + Joined(calls[n..])))
                  case _ => r == Bad(t.elts)
    {
      JoinedStep(calls, n);
      if !HasEos(p.bb.buckets) { StreamStep(p.bb.buckets, calls[n], Joined(calls[n + 1..])); }
      var bb := new Brigade.Of(calls[n]);
      s := p.Parse(t, bb, Live(Joined(calls[n + 1..])));
      back := bb.buckets;
      n := n + 1;
      LiveAppend(back, Joined(calls[n..]));
    }
    assert n == |calls| ==> calls[n..] == [];
    assert Stream(p.bb.buckets, []) == Live(p.bb.buckets);
    fields := t.elts;
  }

  /** A printed block, however its bytes and those behind it are cut into buckets and calls, gives
      its fields, and just the bytes behind it are handed back or not asked for. */
  method ParseHeaderBlock(calls: seq<seq<Bucket>>, ghost lines: seq<Printed>, ghost tail: bytes)
    returns (s: Status, fields: seq<Field>, back: seq<Bucket>, n: nat)
    requires AllLegal(lines) && Live(Joined(calls)) == HeaderBlock(lines, tail)
    ensures s == Success && fields == Fields(lines)
    ensures n <= |calls| && Live(back + Joined(calls[n..])) == tail
  {
    ReadBlockPrinted(lines, tail, []);
    assert [] + Fields(lines) == Fields(lines);
    s, fields, back, n := ParseHeaderCalls(calls);
  }
}

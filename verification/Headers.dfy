/** The header block parser: apreq_parse_headers and split_header_line. */
module Headers {
  import opened Bytes
  import opened Brigades
  import opened Statuses
  import opened Sequences

  datatype Field = Field(name: bytes, value: bytes)

  /* ---- The reference reading of a header block, on the whole stream ---- */

  function NameEnd(s: bytes, i: nat): (j: nat)
    requires i <= |s|
    ensures i <= j <= |s| && (j < |s| ==> s[j] == COLON || s[j] == LF)
    ensures forall k :: i <= k < j ==> s[k] != COLON && s[k] != LF
    decreases |s| - i
  {
    if i == |s| || s[i] == COLON || s[i] == LF then i else NameEnd(s, i + 1)
  }

  function GapEnd(s: bytes, i: nat): (j: nat)
    requires i <= |s|
    ensures i <= j <= |s| && (j < |s| ==> !IsBlank(s[j]))
    ensures forall k :: i <= k < j ==> IsBlank(s[k])
    decreases |s| - i
  {
    if i == |s| || !IsBlank(s[i]) then i else GapEnd(s, i + 1)
  }

  function LineEnd(s: bytes, i: nat): (j: nat)
    requires i <= |s|
    ensures i <= j <= |s| && (j < |s| ==> s[j] == LF)
    ensures forall k :: i <= k < j ==> s[k] != LF
    decreases |s| - i
  {
    if i == |s| || s[i] == LF then i else LineEnd(s, i + 1)
  }

  /** A value without the CR in front of its LF. */
  function Chomp(v: bytes): bytes {
    if v != [] && v[|v| - 1] == CR then v[..|v| - 1] else v
  }

  datatype Line =
    | Entry(field: Field, rest: bytes)
    | Blank(rest: bytes)      // no colon in front of the LF: the block ends here
    | Nameless                // nothing in front of the colon
    | Unclear                 // folded, or LF right behind the gap: the library miscounts
    | Short                   // the stream ends first

  function ReadLine(s: bytes): (r: Line)
    ensures r.Entry? || r.Blank? ==> |r.rest| < |s|
  {
    var n := NameEnd(s, 0);
    if n == |s| then Short
    else if s[n] == LF then Blank(s[n + 1..])
    else
      var g := GapEnd(s, n + 1);
      if g == |s| then Short
      else if s[g] == LF then Unclear
      else
        var e := LineEnd(s, g);
        if e == |s| || e + 1 == |s| then Short
        else if IsBlank(s[e + 1]) then Unclear
        else if n == 0 then Nameless
        else Entry(Field(s[..n], Chomp(s[g..e])), s[e + 1..])
  }

  datatype Block =
    | Complete(fields: seq<Field>, rest: bytes)
    | Bad(fields: seq<Field>)
    | Unknown
    | Partial

  function ReadBlock(fields: seq<Field>, s: bytes): (r: Block)
    ensures r.Complete? ==> |r.rest| < |s|
    decreases |s|
  {
    match ReadLine(s)
    case Entry(f, rest) => ReadBlock(fields + [f], rest)
    case Blank(rest) => Complete(fields, rest)
    case Nameless => Bad(fields)
    case Unclear => Unknown
    case Short => Partial
  }

  /* ---- The parser ---- */

  datatype HdrStatus = HdrName | HdrGap | HdrValue | HdrNewline | HdrContinue | HdrComplete | HdrError

  /** The first i buckets hold just len bytes of the stream. */
  ghost predicate Aligned(bs: seq<Bucket>, len: nat, i: nat) {
    i <= |bs| && !HasEos(bs[..i]) && |Live(bs[..i])| == len
  }

  lemma AlignedZero(bs: seq<Bucket>)
    ensures Aligned(bs, 0, 0)
  {
    assert bs[..0] == [];
  }

  lemma AlignedPrefix(bs: seq<Bucket>, len: nat, i: nat)
    requires Aligned(bs, len, i)
    ensures len <= |Live(bs)| && Live(bs[..i]) == Live(bs)[..len] && Live(bs[i..]) == Live(bs)[len..]
    ensures HasEos(bs[i..]) <==> HasEos(bs)
  {
    LiveSplit(bs, i);
  }

  lemma AlignedNext(bs: seq<Bucket>, len: nat, i: nat)
    requires Aligned(bs, len, i) && i < |bs| && bs[i].Data?
    ensures Aligned(bs, len + |bs[i].data|, i + 1)
    ensures len + |bs[i].data| <= |Live(bs)| && Live(bs)[len..len + |bs[i].data|] == bs[i].data
  {
    LiveSnoc(bs[..i], bs[i]);
    assert bs[..i] + [bs[i]] == bs[..i + 1];
    AlignedPrefix(bs, len, i);
    AlignedPrefix(bs, len + |bs[i].data|, i + 1);
  }

  lemma LiveMono(bs: seq<Bucket>, i: nat, j: nat)
    requires i <= j <= |bs| && !HasEos(bs[..j])
    ensures |Live(bs[..i])| <= |Live(bs[..j])|
  {
    LiveSplit(bs[..j], i);
    assert bs[..j][..i] == bs[..i];
  }

  /** Fewer bytes lie in fewer buckets. */
  lemma AlignedOrder(bs: seq<Bucket>, len: nat, i: nat, len': nat, i': nat)
    requires Aligned(bs, len, i) && Aligned(bs, len', i') && len < len'
    ensures i < i' && bs[i].Data? && len + |bs[i].data| <= len'
  {
    if i' <= i {
      LiveMono(bs, i', i);
    } else {
      LiveSplit(bs[..i'], i + 1);
      assert bs[..i'][..i + 1] == bs[..i + 1] && bs[i] in bs[..i'];
      AlignedNext(bs, len, i);
    }
  }

  /** The data read between byte len and bucket e. */
  ghost predicate Taken(bs: seq<Bucket>, len: nat, data: bytes, e: nat) {
    Aligned(bs, len + |data|, e) && len + |data| <= |Live(bs)| && data == Live(bs)[len..len + |data|]
  }

  lemma TakeNext(bs: seq<Bucket>, len: nat, data: bytes, e: nat)
    requires Taken(bs, len, data, e) && e < |bs| && bs[e].Data?
    ensures Taken(bs, len, data + bs[e].data, e + 1)
  {
    AlignedNext(bs, len + |data|, e);
    var live, m := Live(bs), len + |data|;
    assert live[len..m] + live[m..m + |bs[e].data|] == live[len..m + |bs[e].data|];
  }

  /** Read buckets from e on until count bytes are read; an assert of the library fails when a
      bucket reaches beyond, and nothing is promised when the buckets run out. */
  method Take(bs: seq<Bucket>, e: nat, count: nat, ghost len: nat, ghost i: nat)
    returns (ok: bool, e': nat, data: bytes)
    requires Aligned(bs, len, e)
    ensures ok ==> Taken(bs, len, data, e') && |data| == count
    ensures Aligned(bs, len + count, i) ==> ok
  {
    e', data := e, [];
    var left: nat := count;
    AlignedPrefix(bs, len, e);
    while left > 0
      invariant Taken(bs, len, data, e') && |data| + left == count
      decreases |bs| - e'
    {
      if Aligned(bs, len + count, i) {
        AlignedOrder(bs, len + |data|, e', len + count, i);
      }
      if e' == |bs| || bs[e'].Eos? {
        return false, e', data;
      }
      var n := |bs[e'].data|;
      if left < n {
        return false, e', data;
      }
      TakeNext(bs, len, data, e');
      data := data + bs[e'].data;
      left := left - n;
      e' := e' + 1;
    }
    ok := true;
  }

  lemma SliceOfSlice(live: bytes, n: nat, v: nat)
    requires n + v <= |live| && v > 0
    ensures live[n..n + v][..v - 1] == live[n..n + v - 1] && live[n..n + v][v - 1] == live[n + v - 1]
  {
  }

  /** split_header_line: i, j and k are the buckets behind the name, the gap and the value. */
  method SplitHeaderLine(bb: Brigade, nlen: nat, glen: nat, vlen: nat, ghost i: nat, ghost j: nat, ghost k: nat)
    returns (s: Status, f: Field)
    modifies bb
    ensures s == BadArg <==> nlen == 0
    ensures s == Success || s == BadArg || s == Aborted
    ensures s == Success ==> (HasEos(bb.buckets) <==> HasEos(old(bb.buckets)))
    ensures s == Success ==>
              var n := nlen + glen + vlen; var was := Live(old(bb.buckets));
              n <= |was| && Live(bb.buckets) == was[n..]
    ensures var bs := old(bb.buckets); var live := Live(bs);
            nlen > 0 && vlen >= 2
            && Aligned(bs, nlen, i) && Aligned(bs, nlen + glen, j) && Aligned(bs, nlen + glen + vlen, k)
            && nlen + glen + vlen <= |live| && live[nlen + glen + vlen - 1] == LF ==>
              && s == Success
              && f == Field(live[..nlen], Chomp(live[nlen + glen..nlen + glen + vlen - 1]))
  {
    hide Live, HasEos, Chomp;
    f := Field([], []);
    if nlen == 0 {
      return BadArg, f;
    }
    var bs := bb.buckets;
    AlignedZero(bs);
    var ok, e, name := Take(bs, 0, nlen, 0, i);
    if !ok { return Aborted, f; }
    var gap;
    ok, e, gap := Take(bs, e, glen, nlen, j);
    if !ok || vlen == 0 { return Aborted, f; }
    var value;
    ok, e, value := Take(bs, e, vlen, nlen + glen, k);
    if !ok || vlen < 2 || value[vlen - 1] != LF { return Aborted, f; }
    f := Field(name, Chomp(value[..vlen - 1]));
    bb.DropFront(e);
    AlignedPrefix(bs, nlen + glen + vlen, e);
    SliceOfSlice(Live(bs), nlen + glen, vlen);
    s := Success;
  }

  /* The counters of the scan over one line. */

  datatype Count = Count(st: HdrStatus, n: nat, g: nat, v: nat)

  /** What one byte that does not end the line does to the counters. */
  function CountByte(c: Count, b: byte): Count
  {
    match c.st
    case HdrName => if b == COLON then c.(st := HdrGap, g := c.g + 1) else c.(n := c.n + 1)
    case HdrGap =>
      if IsBlank(b) then c.(g := c.g + 1)
      else if b == LF then c.(st := HdrNewline)
      else c.(st := HdrValue, v := c.v + 1)
    case HdrValue => c.(st := if b == LF then HdrNewline else HdrValue, v := c.v + 1)
    case HdrNewline => c.(st := HdrContinue, v := c.v + 2)
    case _ =>
      if IsBlank(b) then c.(v := c.v + 1)
      else if b == LF then c.(st := HdrNewline)
      else c.(st := HdrValue, v := c.v + 1)
  }

  /** The counters after all of s, none of whose bytes ended the line. */
  function CountAll(s: bytes): Count {
    if s == [] then Count(HdrName, 0, 0, 0) else CountByte(CountAll(s[..|s| - 1]), s[|s| - 1])
  }

  /** The last byte is an LF that was not counted, as it stands behind blanks and not behind text. */
  predicate Uncounted(s: bytes) {
    s != [] && CountAll(s).st == HdrNewline && CountAll(s[..|s| - 1]).st != HdrValue
  }

  /** How often text, with its LF counted, is followed by a continuation. */
  function Folds(s: bytes): nat {
    if s == [] then 0
    else
      var front := s[..|s| - 1];
      Folds(front) + if CountAll(front).st == HdrNewline && !Uncounted(front) then 1 else 0
  }

  /** Every fold behind text makes the counters one too large, for the two bytes it adds are meant
      for LF and blank; an LF behind blanks alone is missing until the next fold. */
  lemma {:induction false} CountDrift(s: bytes)
    ensures var c := CountAll(s); c.n + c.g + c.v == |s| + Folds(s) - if Uncounted(s) then 1 else 0
  {
    if s != [] { CountDrift(s[..|s| - 1]); }
  }

  /** So a line is counted right if and only if it has no such fold and does not end in such an LF,
      or one of each. */
  lemma CountedRight(s: bytes)
    ensures var c := CountAll(s);
      c.n + c.g + c.v == |s| <==> Folds(s) == if Uncounted(s) then 1 else 0
  {
    CountDrift(s);
  }

  /** The line a:b, folded in front of c, is counted as one byte longer than it is. */
  lemma FoldedIsLonger()
    ensures var s: bytes := [97, COLON, 98, LF, SPACE, 99, LF];
      CountAll(s) == Count(HdrNewline, 1, 1, 6) && Folds(s) == 1 && !Uncounted(s)
  {
    var s: bytes := [97, COLON, 98, LF, SPACE, 99, LF];
    CountNext(s, 0);
    CountNext(s, 1);
    CountNext(s, 2);
    CountNext(s, 3);
    CountNext(s, 4);
    CountNext(s, 5);
    CountNext(s, 6);
    assert s[..7] == s;
    CountDrift(s);
  }

  lemma CountNext(s: bytes, i: nat)
    requires i < |s|
    ensures CountAll(s[..i + 1]) == CountByte(CountAll(s[..i]), s[i]) && s[..i + 1][..|s[..i + 1]| - 1] == s[..i]
    ensures CountAll(s[..0]) == Count(HdrName, 0, 0, 0)
  {
    assert s[..i + 1][..i] == s[..i];
  }

  /** The counters after the first pos bytes of s, so long as the line is not folded. */
  ghost predicate Counted(s: bytes, pos: nat, c: Count) {
    && pos <= |s| && pos == c.n + c.g + c.v
    && (forall k :: 0 <= k < c.n ==> s[k] != COLON && s[k] != LF)
    && match c.st
       case HdrName => c.g == c.v == 0
       case HdrGap => c.g > 0 && c.v == 0 && s[c.n] == COLON && forall k :: c.n < k < pos ==> IsBlank(s[k])
       case HdrValue => Gapped(s, c) && forall k :: c.n + c.g <= k < pos ==> s[k] != LF
       case HdrNewline =>
         Gapped(s, c) && c.v >= 2 && s[pos - 1] == LF && forall k :: c.n + c.g <= k < pos - 1 ==> s[k] != LF
       case _ => false
  }

  ghost predicate Gapped(s: bytes, c: Count)
    requires c.n + c.g + c.v <= |s|
  {
    && c.g > 0 && c.v > 0 && s[c.n] == COLON && s[c.n + c.g] != LF && !IsBlank(s[c.n + c.g])
    && forall k :: c.n < k < c.n + c.g ==> IsBlank(s[k])
  }

  /** A byte more keeps the counters right, unless it makes the line unclear. */
  lemma CountedStep(s: bytes, pos: nat, c: Count)
    requires Counted(s, pos, c) && pos < |s|
    requires c.st == HdrName ==> s[pos] != LF
    requires c.st == HdrNewline ==> IsBlank(s[pos])
    ensures Counted(s, pos + 1, CountByte(c, s[pos])) || ReadLine(s).Unclear?
  {
    hide ReadLine;
    if c.st.HdrGap? && s[pos] == LF {
      BareUnclear(s, pos, c);
    } else if c.st.HdrNewline? {
      FoldUnclear(s, pos, c);
    }
  }

  lemma BareUnclear(s: bytes, pos: nat, c: Count)
    requires Counted(s, pos, c) && c.st.HdrGap? && pos < |s| && s[pos] == LF
    ensures ReadLine(s).Unclear?
  {
    EndsUnique(s, c, pos);
  }

  lemma FoldUnclear(s: bytes, pos: nat, c: Count)
    requires Counted(s, pos, c) && c.st.HdrNewline? && pos < |s| && IsBlank(s[pos])
    ensures ReadLine(s).Unclear?
  {
    hide ReadLine;
    EndsUnique(s, c, c.n + c.g);
    LineEndUnique(s, c.n + c.g, pos - 1);
    ReadAt(s, c.n, c.n + c.g, pos - 1);
  }

  lemma EndsUnique(s: bytes, c: Count, g: nat)
    requires c.n < g < |s| && s[c.n] == COLON && !IsBlank(s[g])
    requires forall k :: 0 <= k < c.n ==> s[k] != COLON && s[k] != LF
    requires forall k :: c.n < k < g ==> IsBlank(s[k])
    ensures NameEnd(s, 0) == c.n && GapEnd(s, c.n + 1) == g
  {
  }

  lemma LineEndUnique(s: bytes, i: nat, j: nat)
    requires i <= j < |s| && s[j] == LF && forall k :: i <= k < j ==> s[k] != LF
    ensures LineEnd(s, i) == j
  {
  }

  /** A line whose LF is followed by something other than a blank is read as counted. */
  lemma CountedLine(s: bytes, pos: nat, c: Count)
    requires Counted(s, pos, c) && c.st == HdrNewline && pos < |s| && !IsBlank(s[pos])
    ensures ReadLine(s) == if c.n == 0 then Nameless
                           else Entry(Field(s[..c.n], Chomp(s[c.n + c.g..pos - 1])), s[pos..])
  {
    hide ReadLine;
    EndsUnique(s, c, c.n + c.g);
    LineEndUnique(s, c.n + c.g, pos - 1);
    ReadAt(s, c.n, c.n + c.g, pos - 1);
  }

  lemma ReadAt(s: bytes, n: nat, g: nat, e: nat)
    requires n < g < e && e + 1 < |s| && NameEnd(s, 0) == n && GapEnd(s, n + 1) == g && LineEnd(s, g) == e
    requires s[n] != LF && s[g] != LF
    ensures ReadLine(s) == if IsBlank(s[e + 1]) then Unclear
                           else if n == 0 then Nameless
                           else Entry(Field(s[..n], Chomp(s[g..e])), s[e + 1..])
  {
  }

  lemma CountedBlank(s: bytes, pos: nat, c: Count)
    requires Counted(s, pos, c) && c.st == HdrName && pos < |s| && s[pos] == LF
    ensures ReadLine(s) == Blank(s[pos + 1..])
  {
  }

  /** A line still being read at the end of the stream is short. */
  lemma CountedShort(s: bytes, c: Count)
    requires Counted(s, |s|, c)
    ensures ReadLine(s) == Short
  {
    match c.st
    case HdrName =>
    case HdrGap => if c.n < |s| { assert NameEnd(s, 0) == c.n; }
    case HdrValue => EndsUnique(s, c, c.n + c.g);
    case HdrNewline => EndsUnique(s, c, c.n + c.g); LineEndUnique(s, c.n + c.g, |s| - 1);
    case _ =>
  }

  /** A bucket is cut where the gap and where the value begins. */
  predicate Begins(c: Count, b: byte) {
    (c.st.HdrName? && b == COLON) || (c.st.HdrGap? && !IsBlank(b) && b != LF)
  }

  lemma SplitAligned(bs: seq<Bucket>, len: nat, e: nat, point: nat)
    requires Aligned(bs, len, e) && e < |bs| && bs[e].Data? && point <= |bs[e].data|
    ensures var bs' := bs[..e] + [Data(bs[e].data[..point]), Data(bs[e].data[point..])] + bs[e + 1..];
            && Live(bs') == Live(bs) && (HasEos(bs') <==> HasEos(bs))
            && bs'[..e] == bs[..e] && bs'[e + 1] == Data(bs[e].data[point..]) && Aligned(bs', len + point, e + 1)
  {
    var d, tail := bs[e].data, bs[e + 1..];
    var one, two := Data(d[..point]), Data(d[point..]);
    var bs' := bs[..e] + [one, two] + tail;
    var mid := bs[..e] + [one] + [two];
    SplitLive(bs[..e], d, point);
    assert bs == (bs[..e] + [bs[e]]) + tail && bs' == mid + tail;
    LiveAppend(bs[..e] + [bs[e]], tail);
    LiveAppend(mid, tail);
    assert bs'[..e] == bs[..e] && bs'[..e + 1] == bs[..e] + [one];
  }

  lemma SplitLive(front: seq<Bucket>, d: bytes, point: nat)
    requires !HasEos(front) && point <= |d|
    ensures Live(front + [Data(d[..point])]) == Live(front) + d[..point]
    ensures Live(front + [Data(d[..point])] + [Data(d[point..])]) == Live(front + [Data(d)])
  {
    LiveSnoc(front, Data(d));
    LiveSnoc(front, Data(d[..point]));
    LiveSnoc(front + [Data(d[..point])], Data(d[point..]));
    Regroup(Live(front), d[..point], d[point..]);
    assert d[..point] + d[point..] == d;
  }

  /** Read the byte at offset off of bucket e, which is byte pos of the brigade. */
  method ScanByte(bb: Brigade, e: nat, off: nat, c: Count, ghost pos: nat) returns (e': nat, off': nat, c': Count)
    requires e < |bb.buckets| && bb.buckets[e].Data? && off < |bb.buckets[e].data| && off <= pos
    requires Aligned(bb.buckets, pos - off, e)
    modifies bb
    ensures Live(bb.buckets) == Live(old(bb.buckets)) && (HasEos(bb.buckets) <==> HasEos(old(bb.buckets)))
    ensures pos < |Live(bb.buckets)| && c' == CountByte(c, Live(bb.buckets)[pos])
    ensures e <= e' < |bb.buckets| && bb.buckets[..e] == old(bb.buckets[..e])
    ensures bb.buckets[e'].Data? && 0 < off' <= |bb.buckets[e'].data| && off' <= pos + 1
    ensures Aligned(bb.buckets, pos + 1 - off', e')
    ensures Begins(c, Live(bb.buckets)[pos]) ==> off' == 1
  {
    var d := bb.buckets[e].data;
    AlignedNext(bb.buckets, pos - off, e);
    assert d[off] == Live(bb.buckets)[pos - off..pos - off + |d|][off];
    c' := CountByte(c, d[off]);
    e', off' := e, off + 1;
    if Begins(c, d[off]) && off' > 1 {
      SplitAligned(bb.buckets, pos - off, e, off' - 1);
      bb.Split(e, off' - 1);
      e', off' := e + 1, 1;
    }
  }

  datatype Found = Ready | Ended | NeedMore | SawEos

  /** What is known of the line in front of the cursor, of which S is the whole stream. */
  ghost predicate Reading(S: bytes, bs: seq<Bucket>, pos: nat, c: Count, i: nat, j: nat) {
    || ReadLine(S).Unclear?
    || (&& Counted(S, pos, c)
        && (!c.st.HdrName? ==> Aligned(bs, c.n, i))
        && (c.st.HdrValue? || c.st.HdrNewline? ==> Aligned(bs, c.n + c.g, j)))
  }

  lemma AlignedKept(bs: seq<Bucket>, bs': seq<Bucket>, e: nat, len: nat, i: nat)
    requires e <= |bs| && e <= |bs'| && bs[..e] == bs'[..e] && i <= e && Aligned(bs, len, i)
    ensures Aligned(bs', len, i)
  {
    assert bs[..i] == bs[..e][..i] == bs'[..i];
  }

  /** Where the scan stands: at byte pos of the brigade, off bytes into bucket e. */
  ghost predicate Cursor(bs: seq<Bucket>, pos: nat, e: nat, off: nat) {
    off <= pos && Aligned(bs, pos - off, e) && (off == 0 || (e < |bs| && bs[e].Data? && off <= |bs[e].data|))
  }

  lemma CursorByte(bs: seq<Bucket>, rest: bytes, pos: nat, e: nat, off: nat)
    requires Cursor(bs, pos, e, off) && e < |bs| && bs[e].Data? && off <= |bs[e].data|
    ensures pos - off + |bs[e].data| <= |Live(bs)| <= |Stream(bs, rest)|
    ensures Aligned(bs, pos - off + |bs[e].data|, e + 1)
    ensures off < |bs[e].data| ==> Live(bs)[pos] == bs[e].data[off] == Stream(bs, rest)[pos]
  {
    AlignedNext(bs, pos - off, e);
    assert off < |bs[e].data| ==> Live(bs)[pos - off..pos - off + |bs[e].data|][off] == Live(bs)[pos];
  }

  /** Read one more byte of a line. */
  method ReadByte(bb: Brigade, e: nat, off: nat, c: Count, ghost rest: bytes, ghost pos: nat, ghost i: nat,
      ghost j: nat)
    returns (e': nat, off': nat, c': Count, ghost i': nat, ghost j': nat)
    requires e < |bb.buckets| && bb.buckets[e].Data? && off < |bb.buckets[e].data|
    requires Cursor(bb.buckets, pos, e, off) && i <= e && j <= e
    requires Reading(Stream(bb.buckets, rest), bb.buckets, pos, c, i, j)
    requires c.st.HdrName? ==> bb.buckets[e].data[off] != LF
    requires c.st.HdrNewline? ==> IsBlank(bb.buckets[e].data[off])
    modifies bb
    ensures Live(bb.buckets) == Live(old(bb.buckets)) && (HasEos(bb.buckets) <==> HasEos(old(bb.buckets)))
    ensures pos < |Live(bb.buckets)| && e' < |bb.buckets| && bb.buckets[e'].Data? && 0 < off' <= |bb.buckets[e'].data|
    ensures Cursor(bb.buckets, pos + 1, e', off') && i' <= e' && j' <= e'
    ensures Reading(Stream(bb.buckets, rest), bb.buckets, pos + 1, c', i', j')
  {
    ghost var bs := bb.buckets;
    CursorByte(bs, rest, pos, e, off);
    e', off', c' := ScanByte(bb, e, off, c, pos);
    i', j' := i, j;
    ghost var S := Stream(bb.buckets, rest);
    if !ReadLine(S).Unclear? {
      CountedStep(S, pos, c);
      if c.st.HdrName? && !c'.st.HdrName? {
        i' := e';
      } else if !c.st.HdrName? {
        AlignedKept(bs, bb.buckets, e, c.n, i);
        if c.st.HdrGap? && c'.st.HdrValue? {
          j' := e';
        } else if !c.st.HdrGap? {
          AlignedKept(bs, bb.buckets, e, c.n + c.g, j);
        }
      }
    }
  }

  /** The brigade begins with a counted line and the first byte of the next one. */
  ghost predicate Whole(S: bytes, bs: seq<Bucket>, c: Count, i: nat, j: nat, k: nat) {
    var pos := c.n + c.g + c.v;
    && Counted(S, pos, c) && c.st.HdrNewline? && pos < |Live(bs)| && pos < |S| && !IsBlank(S[pos])
    && Aligned(bs, c.n, i) && Aligned(bs, c.n + c.g, j) && Aligned(bs, pos, k)
  }

  /** Cut the brigade at offset off of bucket e, unless a bucket begins or ends there. */
  method CutAt(bb: Brigade, e: nat, off: nat, ghost len: nat) returns (k: nat)
    requires e < |bb.buckets| && bb.buckets[e].Data? && off <= |bb.buckets[e].data| && Aligned(bb.buckets, len, e)
    modifies bb
    ensures Live(bb.buckets) == Live(old(bb.buckets)) && (HasEos(bb.buckets) <==> HasEos(old(bb.buckets)))
    ensures Aligned(bb.buckets, len + off, k) && e <= |bb.buckets| && bb.buckets[..e] == old(bb.buckets[..e])
  {
    if off == 0 {
      k := e;
    } else if off < |bb.buckets[e].data| {
      SplitAligned(bb.buckets, len, e, off);
      bb.Split(e, off);
      k := e + 1;
    } else {
      AlignedNext(bb.buckets, len, e);
      k := e + 1;
    }
  }

  /** Delete the blank line that ends with the LF at offset off of bucket e. */
  method EndBlock(bb: Brigade, e: nat, off: nat, ghost rest: bytes, ghost pos: nat)
    requires e < |bb.buckets| && bb.buckets[e].Data? && off < |bb.buckets[e].data| && Cursor(bb.buckets, pos, e, off)
    modifies bb
    ensures pos < |Stream(old(bb.buckets), rest)| && Stream(bb.buckets, rest)
        == Stream(old(bb.buckets), rest)[pos + 1..]
    ensures |Live(bb.buckets)| <= |Live(old(bb.buckets))| && (HasEos(bb.buckets) <==> HasEos(old(bb.buckets)))
  {
    ghost var live := Live(bb.buckets);
    CursorByte(bb.buckets, rest, pos, e, off);
    var k := CutAt(bb, e, off + 1, pos - off);
    AlignedPrefix(bb.buckets, pos + 1, k);
    bb.DropFront(k);
    DropAppend(live, if HasEos(bb.buckets) then [] else rest, pos + 1);
  }

  lemma LineWhole(S: bytes, bs: seq<Bucket>, bs': seq<Bucket>, e: nat, c: Count, pos: nat, i: nat, j: nat, k: nat)
    requires Reading(S, bs, pos, c, i, j) && c.st.HdrNewline? && pos < |Live(bs')| && pos < |S| && !IsBlank(S[pos])
    requires Aligned(bs', pos, k) && e <= |bs| && e <= |bs'| && bs'[..e] == bs[..e] && i <= e && j <= e
    ensures ReadLine(S).Unclear? || Whole(S, bs', c, i, j, k)
  {
    if !ReadLine(S).Unclear? {
      AlignedKept(bs, bs', e, c.n, i);
      AlignedKept(bs, bs', e, c.n + c.g, j);
    }
  }

  lemma BlankWhole(S: bytes, bs: seq<Bucket>, c: Count, pos: nat, i: nat, j: nat)
    requires Reading(S, bs, pos, c, i, j) && c.st.HdrName? && pos < |S| && S[pos] == LF
    ensures ReadLine(S).Unclear? || ReadLine(S) == Blank(S[pos + 1..])
  {
    if !ReadLine(S).Unclear? { CountedBlank(S, pos, c); }
  }

  lemma AtEnd(S: bytes, bs: seq<Bucket>, e: nat, pos: nat, c: Count)
    requires Cursor(bs, pos, e, 0) && (e == |bs| || bs[e].Eos?) && Live(bs) <= S
    ensures pos == |Live(bs)|
    ensures Counted(S, pos, c) ==> ReadLine(Live(bs)).Short?
  {
    LiveSplit(bs, e);
    assert e == |bs| ==> bs[..e] == bs;
    if Counted(S, pos, c) {
      assert Counted(Live(bs), pos, c);
      CountedShort(Live(bs), c);
    }
  }

  /** Read one byte of a line, or end the line there. */
  method ByteTurn(bb: Brigade, e: nat, off: nat, c: Count, ghost rest: bytes, ghost pos: nat, ghost i: nat,
      ghost j: nat)
    returns (r: Found, e': nat, off': nat, c': Count, ghost i': nat, ghost j': nat, ghost k: nat)
    requires e < |bb.buckets| && bb.buckets[e].Data? && off < |bb.buckets[e].data|
    requires Cursor(bb.buckets, pos, e, off) && i <= e && j <= e
    requires Reading(Stream(bb.buckets, rest), bb.buckets, pos, c, i, j)
    modifies bb
    ensures |Live(bb.buckets)| <= |Live(old(bb.buckets))| && (HasEos(bb.buckets) <==> HasEos(old(bb.buckets)))
    ensures r != Ended ==> Live(bb.buckets) == Live(old(bb.buckets))
    ensures var S := Stream(old(bb.buckets), rest);
      match r
      case Ended => ReadLine(S).Unclear? || ReadLine(S) == Blank(Stream(bb.buckets, rest))
      case Ready => ReadLine(S).Unclear? || Whole(S, bb.buckets, c', i', j', k)
      case SawEos => false
      case NeedMore =>
        && pos < |Live(bb.buckets)|
        && e' < |bb.buckets| && bb.buckets[e'].Data? && off' <= |bb.buckets[e'].data|
        && Cursor(bb.buckets, pos + 1, e', off') && i' <= e' && j' <= e'
        && Reading(S, bb.buckets, pos + 1, c', i', j')
  {
    hide ReadLine, Counted;
    ghost var bs, S := bb.buckets, Stream(bb.buckets, rest);
    r, e', off', c', i', j', k := NeedMore, e, off, c, i, j, 0;
    CursorByte(bs, rest, pos, e, off);
    var b := bb.buckets[e].data[off];
    if c.st.HdrName? && b == LF {
      BlankWhole(S, bs, c, pos, i, j);
      EndBlock(bb, e, off, rest, pos);
      r := Ended;
    } else if c.st.HdrNewline? && !IsBlank(b) {
      k := CutAt(bb, e, off, pos - off);
      LineWhole(S, bs, bb.buckets, e, c, pos, i, j, k);
      r := Ready;
    } else {
      e', off', c', i', j' := ReadByte(bb, e, off, c, rest, pos, i, j);
    }
  }

  /** Scan the bytes of bucket e from offset 0 on; a cut moves on to the bucket behind it. */
  method ScanBucket(bb: Brigade, e: nat, c: Count, ghost rest: bytes, ghost pos: nat, ghost i: nat, ghost j: nat)
    returns (r: Found, e': nat, c': Count, ghost pos': nat, ghost i': nat, ghost j': nat, ghost k: nat)
    requires e < |bb.buckets| && bb.buckets[e].Data? && Cursor(bb.buckets, pos, e, 0) && i <= e && j <= e
    requires Reading(Stream(bb.buckets, rest), bb.buckets, pos, c, i, j)
    modifies bb
    ensures |Live(bb.buckets)| <= |Live(old(bb.buckets))| && (HasEos(bb.buckets) <==> HasEos(old(bb.buckets)))
    ensures r != Ended ==> Live(bb.buckets) == Live(old(bb.buckets))
    ensures var S := Stream(old(bb.buckets), rest);
      match r
      case Ended => ReadLine(S).Unclear? || ReadLine(S) == Blank(Stream(bb.buckets, rest))
      case Ready => ReadLine(S).Unclear? || Whole(S, bb.buckets, c', i', j', k)
      case SawEos => false
      case NeedMore =>
        && e' <= |bb.buckets|
        && pos <= pos' <= |Live(bb.buckets)| && Cursor(bb.buckets, pos', e', 0) && i' <= e' && j' <= e'
        && Reading(S, bb.buckets, pos', c', i', j')
        && (pos' == pos ==> |bb.buckets| == |old(bb.buckets)| && e' == e + 1)
  {
    hide ReadLine, Counted;
    ghost var S, live := Stream(bb.buckets, rest), Live(bb.buckets);
    var off: nat := 0;
    r, e', c', pos', i', j', k := NeedMore, e, c, pos, i, j, 0;
    CursorByte(bb.buckets, rest, pos, e, 0);
    while off < |bb.buckets[e'].data|
      invariant e' < |bb.buckets| && bb.buckets[e'].Data? && off <= |bb.buckets[e'].data|
      invariant Live(bb.buckets) == live && (HasEos(bb.buckets) <==> HasEos(old(bb.buckets)))
      invariant pos <= pos' <= |live| && Cursor(bb.buckets, pos', e', off) && i' <= e' && j' <= e'
      invariant Reading(S, bb.buckets, pos', c', i', j')
      invariant pos' == pos ==> e' == e && |bb.buckets| == |old(bb.buckets)|
      decreases |live| - pos'
    {
      r, e', off, c', i', j', k := ByteTurn(bb, e', off, c', rest, pos', i', j');
      if !r.NeedMore? {
        return;
      }
      pos' := pos' + 1;
    }
    r := NeedMore;
    CursorByte(bb.buckets, rest, pos', e', off);
    e' := e' + 1;
  }

  lemma StartOfLine(S: bytes, bs: seq<Bucket>)
    ensures Counted(S, 0, Count(HdrName, 0, 0, 0)) && Cursor(bs, 0, 0, 0)
  {
    assert bs[..0] == [];
  }

  /** Scan one line from the front of the brigade, cutting buckets as apreq_parse_headers does. */
  method ScanLine(bb: Brigade, ghost rest: bytes) returns (r: Found, c: Count, ghost i: nat, ghost j: nat, ghost k: nat)
    modifies bb
    ensures |Live(bb.buckets)| <= |Live(old(bb.buckets))| && (HasEos(bb.buckets) <==> HasEos(old(bb.buckets)))
    ensures var S := Stream(old(bb.buckets), rest); var S' := Stream(bb.buckets, rest);
      match r
      case Ended => ReadLine(S).Unclear? || ReadLine(S) == Blank(S')
      case Ready => Live(bb.buckets) == Live(old(bb.buckets))
          && (ReadLine(S).Unclear? || Whole(S, bb.buckets, c, i, j, k))
      case NeedMore => S' == S && !HasEos(bb.buckets) && (ReadLine(S).Unclear? || ReadLine(Live(bb.buckets)).Short?)
      case SawEos => S' == S && HasEos(bb.buckets) && (ReadLine(S).Unclear? || ReadLine(S).Short?)
  {
    hide ReadLine, Counted;
    c := Count(HdrName, 0, 0, 0);
    i, j, k := 0, 0, 0;
    StartOfLine(Stream(bb.buckets, rest), bb.buckets);
    ghost var S, live := Stream(bb.buckets, rest), Live(bb.buckets);
    ghost var pos: nat := 0;
    var e: nat := 0;
    while e < |bb.buckets|
      invariant e <= |bb.buckets| && Live(bb.buckets) == live && (HasEos(bb.buckets) <==> HasEos(old(bb.buckets)))
      invariant pos <= |live| && Cursor(bb.buckets, pos, e, 0) && i <= e && j <= e
          && Reading(S, bb.buckets, pos, c, i, j)
      decreases |live| - pos, |bb.buckets| - e
    {
      if bb.buckets[e].Eos? {
        AtEnd(S, bb.buckets, e, pos, c);
        assert bb.buckets[e] in bb.buckets && S == live;
        return SawEos, c, i, j, k;
      }
      r, e, c, pos, i, j, k := ScanBucket(bb, e, c, rest, pos, i, j);
      if !r.NeedMore? {
        return;
      }
    }
    AtEnd(S, bb.buckets, e, pos, c);
    assert bb.buckets[..e] == bb.buckets;
    r := NeedMore;
  }

  /** What a call of the parser may answer, when the block read from the stream S in which eos
      ends the buckets at hand is R, the fields so far are `fields`, and the buckets kept back
      and handed back are `kept` and `back`. */
  ghost predicate Answer(R: Block, eos: bool, s: Status, fields: seq<Field>, kept: seq<Bucket>, back: seq<Bucket>,
      rest: bytes)
  {
    || R.Unknown?
    || match s
       case Success => kept == [] && (R == Complete(fields, Stream(back, rest)) || (eos && R.Partial?))
       case Incomplete =>
         back == [] && !eos && !HasEos(kept) && R == ReadBlock(fields, Stream(kept, rest))
         && ReadBlock(fields, Live(kept)).Partial?
       case _ => R == Bad(fields)
  }

  lemma WholeEnds(S: bytes, bs: seq<Bucket>, rest: bytes, c: Count, i: nat, j: nat, k: nat)
    requires S == Stream(bs, rest) && Whole(S, bs, c, i, j, k)
    ensures var pos := c.n + c.g + c.v; c.v >= 2 && pos <= |Live(bs)| && Live(bs)[pos - 1] == LF
  {
  }

  lemma EntryRead(S: bytes, bs: seq<Bucket>, rest: bytes, c: Count, i: nat, j: nat, k: nat)
    requires S == Stream(bs, rest) && Whole(S, bs, c, i, j, k)
    ensures var live := Live(bs); var pos := c.n + c.g + c.v;
      && c.v >= 2 && pos <= |live| && live[pos - 1] == LF
      && ReadLine(S) == (if c.n == 0 then Nameless
                         else Entry(Field(live[..c.n], Chomp(live[c.n + c.g..pos - 1])),
                                    live[pos..] + if HasEos(bs) then [] else rest))
  {
    hide ReadLine, Counted, Chomp;
    var live, pos, tail := Live(bs), c.n + c.g + c.v, if HasEos(bs) then [] else rest;
    WholeEnds(S, bs, rest, c, i, j, k);
    CountedLine(S, pos, c);
    SliceAppend(live, tail, 0, c.n);
    SliceAppend(live, tail, c.n + c.g, pos - 1);
    DropAppend(live, tail, pos);
    assert S[..c.n] == S[0..c.n] && live[..c.n] == live[0..c.n];
  }

  /** How a block goes on behind its first line. */
  lemma BlockLaw(fields: seq<Field>, s: bytes)
    ensures var l, b := ReadLine(s), ReadBlock(fields, s);
      && (l.Entry? ==> b == ReadBlock(fields + [l.field], l.rest)) && (l.Blank? ==> b == Complete(fields, l.rest))
      && (l.Nameless? ==> b == Bad(fields)) && (l.Unclear? ==> b == Unknown) && (l.Short? ==> b == Partial)
  {
    hide ReadLine;
  }

  datatype Progress = Parsed | Failed(s: Status) | Finished | Waiting

  /** The parser of one header block, with the lines not yet parsed in bb. */
  class HeaderParser {
    const bb: Brigade
    var status: HdrStatus

    constructor ()
      ensures fresh(bb) && bb.buckets == [] && status == HdrName
    {
      bb := new Brigade();
      status := HdrName;
    }

    /** A new context for the next block: what was not parsed is dropped. */
    method Reset()
      modifies this`status, bb
      ensures status == HdrName && bb.buckets == []
    {
      status := HdrName;
      bb.Cleanup();
    }

    /** Parse one line from the front of bb. */
    method ParseLine(t: Table<Field>, ghost rest: bytes) returns (o: Progress)
      modifies this`status, bb, t
      ensures !o.Failed? ==> (HasEos(bb.buckets) <==> HasEos(old(bb.buckets)))
      ensures status == match o case Failed(_) => HdrError case Finished => HdrComplete case _ => HdrName
      ensures o.Failed? ==> o.s == BadArg || o.s == Aborted
      ensures o.Parsed? ==> |Live(bb.buckets)| < |Live(old(bb.buckets))|
      ensures !o.Failed? ==> |Live(bb.buckets)| <= |Live(old(bb.buckets))|
      ensures o.Waiting? ==> !HasEos(bb.buckets)
      ensures var S := Stream(old(bb.buckets), rest); var S' := Stream(bb.buckets, rest); var L := ReadLine(S);
        || L.Unclear?
        || match o
           case Parsed => L.Entry? && t.elts == old(t.elts) + [L.field] && S' == L.rest
           case Failed(_) => L.Nameless? && t.elts == old(t.elts)
           case Finished => t.elts == old(t.elts) && (L == Blank(S') || (L.Short? && HasEos(bb.buckets)))
           case Waiting => t.elts == old(t.elts) && S' == S && !HasEos(bb.buckets) && ReadLine(Live(bb.buckets)).Short?
    {
      hide ReadLine, Counted, Live, HasEos;
      status := HdrName;
      ghost var S := Stream(bb.buckets, rest);
      var r, c;
      ghost var i, j, k;
      r, c, i, j, k := ScanLine(bb, rest);
      match r {
        case SawEos =>
          status := HdrComplete;
          o := Finished;
        case Ended =>
          status := HdrComplete;
          o := Finished;
        case NeedMore =>
          o := Waiting;
        case Ready =>
          if !ReadLine(S).Unclear? {
            EntryRead(S, bb.buckets, rest, c, i, j, k);
          }
          var s, f := SplitHeaderLine(bb, c.n, c.g, c.v, i, j, k);
          if s == Success {
            t.Add(f);
            o := Parsed;
          } else {
            status := HdrError;
            o := Failed(s);
          }
      }
    }

    /** apreq_parse_headers. */
    method Parse(t: Table<Field>, bbin: Brigade, ghost rest: bytes) returns (s: Status)
      requires bbin != bb
      modifies this, bb, t, bbin
      ensures old(status) == HdrError ==> s == General && bbin.buckets == old(bbin.buckets)
      ensures old(status) == HdrComplete ==> s == Success && bbin.buckets == old(bbin.buckets)
      ensures old(status) != HdrError && old(status) != HdrComplete ==>
        var bs := old(bb.buckets + bbin.buckets);
        && Answer(ReadBlock(old(t.elts), Stream(bs, rest)), HasEos(bs), s, t.elts, bb.buckets, bbin.buckets, rest)
        && (s == Success <==> status == HdrComplete) && (s == Incomplete ==> status != HdrError)
        && (s == Success ==> bb.buckets == [] && (HasEos(bbin.buckets) <==> HasEos(bs)))
        && (s == Incomplete ==> bbin.buckets == [] && !HasEos(bb.buckets) && !HasEos(bs))
        && (s == Success || s == Incomplete ==> |Live(bb.buckets)| + |Live(bbin.buckets)| <= |Live(bs)|)
        && (s == Success || s == Incomplete || s == BadArg || s == Aborted)
    {
      hide ReadBlock, ReadLine, Live, HasEos;
      if status == HdrError { return General; }
      if status == HdrComplete { return Success; }
      ghost var eos, R := HasEos(bb.buckets + bbin.buckets), ReadBlock(t.elts, Stream(bb.buckets + bbin.buckets, rest));
      bb.Concat(bbin);
      NoBuckets(bbin.buckets);
      while true
        invariant bbin.buckets == [] && (HasEos(bb.buckets) <==> eos) && status != HdrError && status != HdrComplete
        invariant R.Unknown? || R == ReadBlock(t.elts, Stream(bb.buckets, rest))
        invariant |Live(bb.buckets)| <= |Live(old(bb.buckets + bbin.buckets))|
        decreases |Live(bb.buckets)|
      {
        ghost var S := Stream(bb.buckets, rest);
        BlockLaw(t.elts, S);
        var o := ParseLine(t, rest);
        BlockLaw(t.elts, Live(bb.buckets));
        ghost var bs := bb.buckets;
        NoBuckets(bbin.buckets);
        match o {
          case Finished =>
            bbin.Concat(bb);
            NoBuckets(bb.buckets);
            assert bbin.buckets == bs;
            return Success;
          case Waiting =>
            return Incomplete;
          case Failed(e) =>
            return e;
          case Parsed =>
        }
      }
    }
  }
}

/** Joining values into one string: apreq_join. */
module Joining {
  import opened Bytes
  import opened Statuses
  import opened Sequences
  import opened Memory
  import opened UrlCodec
  import opened UrlVectors
  import opened UrlEncoder
  import opened Quoting

  datatype Mode = AsIs | Encoding | Decoding | InQuotes

  /** What a value is copied as. The decoder's answer has the charset added to it, and whatever is
      not zero is taken for an error. */
  function Piece(mode: Mode, v: bytes): Option<bytes> {
    match mode
    case AsIs => Some(v)
    case Encoding => Some(Encode(v))
    case InQuotes => Some(QuoteOnce(v))
    case Decoding =>
      match Decode(v, CsAscii)
      case Whole(out, CsAscii) => Some(out)
      case _ => None
  }

  /** None: the library gives no string. */
  function JoinAll(mode: Mode, sep: bytes, values: seq<bytes>): Option<bytes> {
    if values == [] then Some([])
    else
      match JoinAll(mode, sep, values[..|values| - 1])
      case None => None
      case Some(t) =>
        match Piece(mode, values[|values| - 1])
        case None => None
        case Some(p) => Some(t + ((if |values| > 1 then sep else []) + p))
  }

  /** The first pass: every value with a separator and a NUL. */
  function Total(slen: nat, values: seq<bytes>): nat {
    if values == [] then 0 else Total(slen, values[..|values| - 1]) + |values[|values| - 1]| + slen + 1
  }

  /** The space that is allocated. */
  function Room(mode: Mode, slen: nat, values: seq<bytes>): nat {
    match mode
    case Encoding => 3 * Total(slen, values)
    case InQuotes => 2 * (Total(slen, values) + |values|)
    case _ => Total(slen, values)
  }

  /** How much may be written for a value of n bytes, but for a NUL. */
  function MostWritten(mode: Mode, n: nat): nat {
    match mode
    case Encoding => 3 * n
    case InQuotes => 2 * n + 2
    case _ => n
  }

  /** Whatever is written for a value, with the separator in front of it and a NUL behind, has room
      in what the value adds, also where it is refused. */
  lemma RoomStep(mode: Mode, slen: nat, values: seq<bytes>, j: nat)
    requires j < |values|
    ensures Room(mode, slen, values[..j]) + slen + MostWritten(mode, |values[j]|) + 1
            <= Room(mode, slen, values[..j + 1])
  {
    assert values[..j + 1][..j] == values[..j];
  }

  lemma {:induction false} RoomGrows(mode: Mode, slen: nat, values: seq<bytes>, j: nat)
    requires j <= |values|
    ensures Room(mode, slen, values[..j]) <= Room(mode, slen, values)
    decreases |values| - j
  {
    if j == |values| {
      assert values[..j] == values;
    } else {
      assert values[..j + 1][..j] == values[..j];
      RoomGrows(mode, slen, values, j + 1);
    }
  }

  lemma JoinStep(mode: Mode, sep: bytes, values: seq<bytes>, j: nat)
    requires j < |values|
    ensures var front, p := JoinAll(mode, sep, values[..j]), Piece(mode, values[j]);
      JoinAll(mode, sep, values[..j + 1])
      == if front.Some? && p.Some? then Some(front.value + ((if j > 0 then sep else []) + p.value)) else None
  {
    assert values[..j + 1][..j] == values[..j];
  }

  /** Nothing is joined to more than what failed. */
  lemma {:induction false} JoinStops(mode: Mode, sep: bytes, values: seq<bytes>, j: nat)
    requires j <= |values|
    ensures JoinAll(mode, sep, values[..j]).None? ==> JoinAll(mode, sep, values).None?
    decreases |values| - j
  {
    hide Piece;
    if j == |values| {
      assert values[..j] == values;
    } else {
      JoinStep(mode, sep, values, j);
      JoinStops(mode, sep, values, j + 1);
    }
  }

  /** The first pass. */
  method Measure(slen: nat, values: seq<bytes>, mode: Mode) returns (len: nat)
    ensures len == Room(mode, slen, values)
  {
    len := 0;
    var j := 0;
    while j < |values|
      invariant 0 <= j <= |values| && len == Total(slen, values[..j])
    {
      assert values[..j + 1][..j] == values[..j];
      len := len + |values[j]| + slen + 1;
      j := j + 1;
    }
    assert values[..j] == values;
    match mode {
      case Encoding => len := len + 2 * len;
      case InQuotes => len := 2 * (len + |values|);
      case _ =>
    }
  }

  /** One value is copied to d, as the mode says; the codecs write straight into the result. */
  method CopyPiece(mem: array<byte>, d: nat, v: Iovec, mode: Mode, ghost w: bytes) returns (ok: bool, n: nat)
    requires At(mem[..], v.base, w) && v.len == |w|
    requires var end := d + MostWritten(mode, v.len) + 1; end <= mem.Length && v.Outside(d, end)
    modifies mem
    ensures n <= MostWritten(mode, v.len) && Kept(old(mem[..]), mem[..], d, d + MostWritten(mode, v.len) + 1)
    ensures var p := Piece(mode, w);
      (ok <==> p.Some?) && (ok ==> n == |p.value| && At(mem[..], d, p.value))
  {
    hide Encode, QuoteOnce, Decode, At, Kept, LeftV;
    ghost var m := mem[..];
    ok := true;
    match mode {
      case AsIs =>
        Copy(mem, d, v.base, v.len, w);
        KeptWider(m, mem[..], d, d + v.len, d, d + v.len + 1);
        n := v.len;
      case Encoding =>
        AtIs(m, v.base, w);
        n := ApreqEncode(mem, d, v.base, v.len);
        Encoded(m, mem[..], d, n, 3 * v.len, Encode(w));
      case InQuotes =>
        n := ApreqQuoteOnce(mem, d, v.base, v.len, w);
      case Decoding =>
        var st, cs;
        st, cs, n := ApreqDecode(mem, d, v.base, v.len, w);
        ok := st == Success && cs == CsAscii;
        DecodedPiece(mem[..], d, w, st, n, cs);
    }
  }

  lemma Encoded(m: bytes, m2: bytes, d: nat, n: nat, most: nat, o: bytes)
    requires |m2| == |m| && n <= most && d + most < |m2| && m2[d..d + n] == o
    requires forall i :: 0 <= i < |m| && !(d <= i <= d + n) ==> m2[i] == m[i]
    ensures n == |o| && At(m2, d, o) && Kept(m, m2, d, d + most + 1)
  {
    var written := m2[d..d + n];
    forall i | 0 <= i < n
      ensures m2[d + i] == o[i]
    {
      assert written[i] == m2[d + i];
    }
  }

  lemma DecodedPiece(m: bytes, d: nat, w: bytes, st: Status, n: nat, cs: Charset)
    requires LeftV(m, d, Decode(w, CsAscii), st, n, cs)
    ensures var p := Piece(Decoding, w);
      (st == Success && cs == CsAscii <==> p.Some?) && (p.Some? ==> n == |p.value| && At(m, d, p.value))
  {
    hide Decode, At;
  }

  /** So far: the values in front of number j are joined in [rv, d). */
  ghost predicate JoinedSoFar(m: bytes, rv: nat, d: nat, mode: Mode, sep: bytes, texts: seq<bytes>, j: nat) {
    && j <= |texts| && rv <= d && d - rv + (if j > 0 then 1 else 0) <= Room(mode, |sep|, texts[..j])
    && var r := JoinAll(mode, sep, texts[..j]);
       r.Some? && d == rv + |r.value| && At(m, rv, r.value)
  }

  /** The separator at p, wherever it lies, is copied in front of every value but the first. */
  method CopySep(mem: array<byte>, d: nat, sep: bytes, first: bool) returns (d': nat)
    requires d + |sep| <= mem.Length
    modifies mem
    ensures d' == d + |if first then [] else sep| && At(mem[..], d, if first then [] else sep)
    ensures Kept(old(mem[..]), mem[..], d, d')
  {
    d' := d;
    if first { return; }
    var i := 0;
    while i < |sep|
      invariant 0 <= i <= |sep| && d' == d + i && forall k :: 0 <= k < i ==> mem[d + k] == sep[k]
      invariant forall k :: 0 <= k < mem.Length && !(d <= k < d') ==> mem[k] == old(mem[k])
    {
      mem[d'] := sep[i];
      d', i := d' + 1, i + 1;
    }
  }

  /** One value more. */
  method JoinOne(mem: array<byte>, rv: nat, d: nat, mode: Mode, sep: bytes, v: seq<Iovec>, j: nat,
      ghost texts: seq<bytes>)
    returns (ok: bool, d': nat)
    requires j < |texts| && JoinedSoFar(mem[..], rv, d, mode, sep, texts, j) && Lie(v, texts, mem[..])
    requires var end := rv + Room(mode, |sep|, texts); end <= mem.Length && AllOutside(v, rv, end)
    modifies mem
    ensures Kept(old(mem[..]), mem[..], rv, rv + Room(mode, |sep|, texts)) && Lie(v, texts, mem[..])
    ensures ok ==> JoinedSoFar(mem[..], rv, d', mode, sep, texts, j + 1)
    ensures !ok ==> JoinAll(mode, sep, texts).None?
  {
    hide Piece, Room, At, Kept, MostWritten, JoinAll;
    ghost var m, end, room := mem[..], rv + Room(mode, |sep|, texts), MostWritten(mode, |texts[j]|);
    RoomStep(mode, |sep|, texts, j);
    RoomGrows(mode, |sep|, texts, j + 1);
    JoinStep(mode, sep, texts, j);
    JoinStops(mode, sep, texts, j + 1);
    d' := CopySep(mem, d, sep, j == 0);
    ghost var m1, from := mem[..], d';
    KeptWider(m, m1, d, d', rv, end);
    LieKept(v, texts, m, m1, rv, end);
    var n;
    ok, n := CopyPiece(mem, d', v[j], mode, texts[j]);
    d' := d' + n;
    KeptWider(m1, mem[..], from, from + room + 1, rv, end);
    LieKept(v, texts, m1, mem[..], rv, end);
    KeptTrans(m, m1, mem[..], rv, end, rv, end);
    ghost var r, p := JoinAll(mode, sep, texts[..j]), Piece(mode, texts[j]);
    if ok { ThreeParts(m, m1, mem[..], rv, r.value, if j == 0 then [] else sep, p.value, room); }
  }

  /** What was joined, the separator and the piece lie one behind the other. */
  lemma ThreeParts(m: bytes, m1: bytes, m2: bytes, rv: nat, t: bytes, sep: bytes, p: bytes, room: nat)
    requires At(m, rv, t) && At(m1, rv + |t|, sep) && At(m2, rv + |t| + |sep|, p)
    requires Kept(m, m1, rv + |t|, rv + |t| + |sep|)
    requires Kept(m1, m2, rv + |t| + |sep|, rv + |t| + |sep| + room + 1)
    ensures At(m2, rv, t + (sep + p))
  {
    hide At, Kept;
    var d := rv + |t|;
    AtKept(m, m1, d, d + |sep|, rv, t);
    AtKept(m1, m2, d + |sep|, d + |sep| + room + 1, rv, t);
    AtKept(m1, m2, d + |sep|, d + |sep| + room + 1, d, sep);
    AtJoin(m2, d, sep, p);
    AtJoin(m2, rv, t, sep + p);
  }

  /** The second pass of apreq_join, into the `len` bytes at rv that were allocated: nothing else is
      written, whatever the values are. */
  method JoinInto(mem: array<byte>, rv: nat, len: nat, mode: Mode, sep: bytes, v: seq<Iovec>, ghost texts: seq<bytes>)
    returns (ok: bool, d: nat)
    requires texts != [] && len == Room(mode, |sep|, texts) && rv + len <= mem.Length
    requires Lie(v, texts, mem[..]) && AllOutside(v, rv, rv + len)
    modifies mem
    ensures Kept(old(mem[..]), mem[..], rv, rv + len)
    ensures var j := JoinAll(mode, sep, texts);
      (ok <==> j.Some?) && (ok ==> d == rv + |j.value| && At(mem[..], rv, j.value))
    ensures ok ==> rv <= d < rv + len && mem[d] == NUL
  {
    hide Room, At, Kept, Lie, AllOutside, JoinAll;
    ghost var m := mem[..];
    d, ok := rv, true;
    var j := 0;
    KeptSelf(m, rv, rv + len);
    NoneJoined(m, rv, mode, sep, texts);
    LieLength(v, texts, m);
    while j < |v| && ok
      invariant j <= |v| && |v| == |texts| && Lie(v, texts, mem[..]) && Kept(m, mem[..], rv, rv + len)
      invariant ok ==> JoinedSoFar(mem[..], rv, d, mode, sep, texts, j)
      invariant !ok ==> JoinAll(mode, sep, texts).None?
      decreases |v| - j, ok
    {
      ghost var m1 := mem[..];
      ok, d := JoinOne(mem, rv, d, mode, sep, v, j, texts);
      KeptTrans(m, m1, mem[..], rv, rv + len, rv, rv + len);
      j := j + 1;
    }
    if !ok { return; }
    assert texts[..j] == texts;
    ghost var m1 := mem[..];
    mem[d] := NUL;
    Finished(m, m1, mem[..], rv, len, d, JoinAll(mode, sep, texts).value);
  }

  lemma NoneJoined(m: bytes, rv: nat, mode: Mode, sep: bytes, texts: seq<bytes>)
    requires rv <= |m|
    ensures JoinedSoFar(m, rv, rv, mode, sep, texts, 0)
  {
    assert texts[..0] == [];
  }

  lemma LieLength(v: seq<Iovec>, texts: seq<bytes>, m: bytes)
    requires Lie(v, texts, m)
    ensures |v| == |texts|
  {
  }

  lemma NothingJoined(mode: Mode, sep: bytes, values: seq<bytes>)
    ensures values == [] ==> JoinAll(mode, sep, values) == Some([])
  {
  }

  lemma Finished(m: bytes, m1: bytes, m2: bytes, rv: nat, len: nat, d: nat, t: bytes)
    requires Kept(m, m1, rv, rv + len) && rv <= d < rv + len <= |m1| && m2 == m1[d := NUL]
    ensures Kept(m, m2, rv, rv + len)
    ensures At(m1, rv, t) && d == rv + |t| ==> At(m2, rv, t)
  {
  }

  /** apreq_join. */
  method ApreqJoin(sep: bytes, values: seq<bytes>, mode: Mode) returns (r: Option<bytes>)
    ensures r == JoinAll(mode, sep, values)
  {
    hide Room, At, Kept, Lie, Flat, JoinAll;
    if values == [] {
      NothingJoined(mode, sep, values);
      return Some([]);
    }
    var len := Measure(|sep|, values, mode);
    var all := Flat(values);
    var mem := Load(all, len);
    var v := Iovecs(values, 0);
    IovecsHold(values, 0, mem[..]);
    var ok, d := JoinInto(mem, |all|, len, mode, sep, v, values);
    if !ok { return None; }
    r := Some(mem[|all|..d]);
    AtIs(mem[..], |all|, JoinAll(mode, sep, values).value);
    assert mem[..][|all|..d] == mem[|all|..d];
  }

  /* ---- Taking the string apart again ---- */

  /** The pieces of a string between the bytes c. */
  function SplitAt(s: bytes, c: byte): (v: seq<bytes>)
    ensures v != []
  {
    if s == [] then [[]]
    else
      var more := SplitAt(s[1..], c);
      if s[0] == c then [[]] + more else [[s[0]] + more[0]] + more[1..]
  }

  lemma {:induction false} SplitBehind(t: bytes, v: bytes, c: byte)
    requires c !in v
    ensures SplitAt(t + ([c] + v), c) == SplitAt(t, c) + [v]
  {
    var s := t + ([c] + v);
    if t == [] {
      assert s == [c] + v && s[1..] == v;
      SplitNothing(v, c);
    } else {
      assert s[1..] == t[1..] + ([c] + v);
      SplitBehind(t[1..], v, c);
    }
  }

  lemma {:induction false} SplitNothing(v: bytes, c: byte)
    requires c !in v
    ensures SplitAt(v, c) == [v]
  {
    if v != [] {
      SplitNothing(v[1..], c);
      assert [v[0]] + v[1..] == v;
    }
  }

  /** Joined with a byte that none of them holds, the values can be told apart again, empty ones and all. */
  lemma {:induction false} SplitJoined(c: byte, values: seq<bytes>)
    requires values != [] && forall i :: 0 <= i < |values| ==> c !in values[i]
    ensures JoinAll(AsIs, [c], values).Some? && SplitAt(JoinAll(AsIs, [c], values).value, c) == values
  {
    var n := |values| - 1;
    assert values == values[..n] + [values[n]];
    if n == 0 {
      assert JoinAll(AsIs, [c], []) == Some([]);
      assert [] + ([] + values[0]) == values[0];
      SplitNothing(values[0], c);
    } else {
      SplitJoined(c, values[..n]);
      SplitBehind(JoinAll(AsIs, [c], values[..n]).value, values[n], c);
    }
  }

  /** What the values are copied as, where each of them can be. */
  ghost predicate Pieces(mode: Mode, values: seq<bytes>, p: seq<bytes>) {
    |p| == |values| && forall i :: 0 <= i < |values| ==> Piece(mode, values[i]) == Some(p[i])
  }

  /** The mode only matters for what becomes of the values. */
  lemma {:induction false} JoinPieces(mode: Mode, sep: bytes, values: seq<bytes>, p: seq<bytes>)
    requires Pieces(mode, values, p)
    ensures JoinAll(mode, sep, values) == JoinAll(AsIs, sep, p)
  {
    hide Piece;
    if values != [] {
      var n := |values| - 1;
      JoinPieces(mode, sep, values[..n], p[..n]);
      AsItIs(p[n]);
    }
  }

  /** Encoded and joined with a byte that encoding does not write, well-formed values come back, each
      from its own piece. */
  lemma EncodedApart(c: byte, values: seq<bytes>)
    requires values != [] && !Unreserved(c) && c != PERCENT && c != PLUS
    requires forall i :: 0 <= i < |values| ==> WellFormed(values[i])
    ensures var r := JoinAll(Encoding, [c], values); r.Some? && |SplitAt(r.value, c)| == |values|
    ensures var p := SplitAt(JoinAll(Encoding, [c], values).value, c);
      forall i :: 0 <= i < |values| ==> Decode(p[i], CsAscii).Whole? && Decode(p[i], CsAscii).out == values[i]
  {
    hide Encode, Decode, WellFormed, JoinAll, SplitAt;
    var e := EncodeEach(values);
    forall i | 0 <= i < |values|
      ensures c !in e[i] && Decode(e[i], CsAscii).Whole? && Decode(e[i], CsAscii).out == values[i]
    {
      assert WellFormed(values[i]);
      EncodeWrites(values[i], c);
      DecodeWellFormed(values[i], CsAscii);
    }
    SplitJoined(c, e);
    JoinPieces(Encoding, [c], values, e);
  }

  lemma {:induction false} EncodeWrites(s: bytes, c: byte)
    requires !Unreserved(c) && c != PERCENT && c != PLUS
    ensures c !in Encode(s)
  {
    if s != [] { EncodeWrites(s[1..], c); }
  }

  function QuoteEach(values: seq<bytes>): (q: seq<bytes>)
    ensures |q| == |values|
  {
    seq(|values|, i requires 0 <= i < |values| => QuoteOnce(values[i]))
  }

  /** In quote mode each value is quoted once, also where they were quoted before. */
  lemma QuotedOnce(sep: bytes, values: seq<bytes>)
    ensures var q := QuoteEach(values); var r := JoinAll(AsIs, sep, q);
            JoinAll(InQuotes, sep, values) == r && JoinAll(InQuotes, sep, q) == r
    ensures forall i :: 0 <= i < |values| && values[i] != [] ==> IsQuoted(QuoteEach(values)[i])
  {
    hide QuoteOnce, JoinAll, IsQuoted;
    var q := QuoteEach(values);
    forall i | 0 <= i < |values|
      ensures QuoteOnce(q[i]) == q[i] && (values[i] != [] ==> IsQuoted(q[i]))
    {
      QuoteOnceIdempotent(values[i]);
      if values[i] != [] { QuotedOrNot(values[i]); }
    }
    JoinPieces(InQuotes, sep, values, q);
    JoinPieces(InQuotes, sep, q, q);
  }

  lemma QuotedOrNot(s: bytes)
    requires s != []
    ensures IsQuoted(QuoteOnce(s))
  {
    hide IsQuoted, Quote;
    QuoteIsQuoted(s);
  }

  /* ---- What joining in decode mode refuses ---- */

  /** Bytes as they are, '+', and escapes of ASCII, but for %u. */
  predicate PlainText(v: bytes) {
    v == []
    || if v[0] != PERCENT then PlainText(v[1..])
       else |v| > 2 && IsXDigit(v[1]) && IsXDigit(v[2]) && Hex2(v[1], v[2]) < 0x80 && PlainText(v[3..])
  }

  /** What it stands for. */
  function Unplain(v: bytes): bytes
    requires PlainText(v)
  {
    if v == [] then []
    else if v[0] != PERCENT then [if v[0] == PLUS then SPACE else v[0]] + Unplain(v[1..])
    else [Hex2(v[1], v[2])] + Unplain(v[3..])
  }

  lemma PlainNext(v: bytes)
    requires v != []
    ensures var t := Next(v, CsAscii); var n := if v[0] == PERCENT then 3 else 1;
      if v[0] != PERCENT || (|v| > 2 && IsXDigit(v[1]) && IsXDigit(v[2]) && Hex2(v[1], v[2]) < 0x80) then
        t == Emit([if v[0] == PERCENT then Hex2(v[1], v[2]) else if v[0] == PLUS then SPACE else v[0]], n, CsAscii)
      else t.Emit? ==> t.cs != CsAscii
  {
    hide Hex2, Hex4, Utf8;
  }

  /** Text decodes whole and stays ASCII if and only if it is of that kind. */
  lemma {:induction false} PlainDecodes(v: bytes)
    ensures Piece(Decoding, v) == if PlainText(v) then Some(Unplain(v)) else None
    decreases |v|
  {
    hide Next, Hex2;
    if v == [] {
      EmptyDecode(CsAscii);
    } else {
      PlainNext(v);
      var t := Next(v, CsAscii);
      if t.Emit? {
        CharsetMonotone(v[t.n..], t.cs);
        if t.cs == CsAscii { PlainDecodes(v[t.n..]); }
      }
    }
  }

  function UnplainEach(values: seq<bytes>): (u: seq<bytes>)
    requires forall i :: 0 <= i < |values| ==> PlainText(values[i])
    ensures |u| == |values|
  {
    seq(|values|, i requires 0 <= i < |values| => Unplain(values[i]))
  }

  predicate AllPlain(values: seq<bytes>) { forall i :: 0 <= i < |values| ==> PlainText(values[i]) }

  /** Joining in decode mode gives a string if and only if every value is of that kind, whatever
      else would decode. */
  lemma {:induction false} DecodedIffPlain(sep: bytes, values: seq<bytes>)
    ensures JoinAll(Decoding, sep, values)
            == if AllPlain(values) then JoinAll(AsIs, sep, UnplainEach(values)) else None
  {
    hide Piece, PlainText;
    if values != [] {
      var n := |values| - 1;
      DecodedIffPlain(sep, values[..n]);
      PlainDecodes(values[n]);
      PlainUpTo(values, n);
      if AllPlain(values) {
        var u := UnplainEach(values);
        assert u[..n] == UnplainEach(values[..n]);
        AlwaysText(sep, u[..n]);
        AsItIs(u[n]);
      }
    }
  }

  lemma AsItIs(v: bytes)
    ensures Piece(AsIs, v) == Some(v)
  {
  }

  lemma PlainUpTo(values: seq<bytes>, n: nat)
    requires n + 1 == |values|
    ensures AllPlain(values) <==> PlainText(values[n]) && AllPlain(values[..n])
  {
    hide PlainText;
    assert forall i :: 0 <= i < n ==> values[..n][i] == values[i];
  }

  lemma {:induction false} AlwaysText(sep: bytes, values: seq<bytes>)
    ensures JoinAll(AsIs, sep, values).Some?
  {
    if values != [] { AlwaysText(sep, values[..|values| - 1]); }
  }

  function EncodeEach(values: seq<bytes>): (e: seq<bytes>)
    ensures |e| == |values|
  {
    seq(|values|, i requires 0 <= i < |values| => Encode(values[i]))
  }

  /** So well-formed values that were encoded come back joined if and only if all of them are ASCII,
      although each of them decodes. */
  lemma DecodedIffAscii(sep: bytes, values: seq<bytes>)
    requires forall i :: 0 <= i < |values| ==> WellFormed(values[i])
    ensures JoinAll(Decoding, sep, EncodeEach(values))
            == if forall i :: 0 <= i < |values| ==> AllAscii(values[i]) then JoinAll(AsIs, sep, values) else None
  {
    hide Encode, Decode, WellFormed, AllAscii, JoinAll, PlainText, Unplain;
    var e := EncodeEach(values);
    DecodedIffPlain(sep, e);
    forall i | 0 <= i < |values|
      ensures PlainText(e[i]) <==> AllAscii(values[i])
      ensures PlainText(e[i]) ==> Unplain(e[i]) == values[i]
    {
      assert WellFormed(values[i]);
      DecodeWellFormed(values[i], CsAscii);
      PlainDecodes(e[i]);
    }
    if AllPlain(e) { assert UnplainEach(e) == values; }
  }
}

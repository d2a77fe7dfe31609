/** Name/value pairs in query strings: apreq_param_decode, apreq_param_encode and
    apreq_parse_query_string. */
module QueryStrings {
  import opened Bytes
  import opened Brigades
  import opened Statuses
  import opened Sequences
  import opened UrlCodec
  import opened Memory
  import opened UrlVectors
  import opened UrlEncoder
  import opened Attributes

  datatype Pair = Pair(name: bytes, value: bytes, cs: Charset)

  /** Refused: the name is empty, or name or value does not decode; `cut` if what was not decoded is
      plain ASCII up to an escape that the end cuts off. Undetermined: a byte of the output was never
      written. */
  datatype Word = Good(pair: Pair) | Refused(cut: bool) | Undetermined

  /** Decoding ends in APR_INCOMPLETE with nothing added to it. */
  predicate CutShort(r: Decoded) { r.Cut? && r.cs == CsAscii }

  /** The charset of a pair, from those of its value and its name. */
  function Merge(value: Charset, name: Charset): Charset {
    match name
    case CsUtf8 => if value == CsAscii then CsUtf8 else value
    case CsAscii => value
    case CsLatin1 => if value != CsCp1252 then CsLatin1 else value
    case CsCp1252 => CsCp1252
  }

  /** It is the later of the two guesses. */
  lemma MergeIsLater(value: Charset, name: Charset)
    ensures Merge(value, name) == Merge(name, value)
    ensures var m := Merge(value, name);
      m.Rank() >= value.Rank() && m.Rank() >= name.Rank() && (m == value || m == name)
  {
  }

  function DecodePair(name: bytes, value: bytes): Word {
    if name == [] then Refused(false)
    else
      match Decode(value, CsAscii)
      case Unset => Undetermined
      case Whole(v, vc) =>
        (match Decode(name, CsAscii)
         case Unset => Undetermined
         case Whole(n, nc) => Good(Pair(n, v, Merge(vc, nc)))
         case r => Refused(CutShort(r)))
      case r => Refused(CutShort(r))
  }

  /** A beginning of an escape that the end cuts off. */
  predicate HalfEscape(w: bytes) {
    && 1 <= |w| <= 5 && w[0] == PERCENT
    && if |w| <= 2 then |w| == 1 || IsXDigit(w[1]) || IsU(w[1]) else IsU(w[1]) && IsXDigit(w[2])
  }

  lemma HalfIsShort(w: bytes, cs: Charset)
    requires w != []
    ensures HalfEscape(w) ==> Next(w, cs) == Short(cs)
    ensures Next(w, cs) == Short(CsAscii) ==> HalfEscape(w)
  {
    hide Utf8, Hex4;
    if |w| > 2 && IsXDigit(w[1]) && IsXDigit(w[2]) { ShortIsUtf8(Hex2(w[1], w[2]), w[3..], cs); }
  }

  /** The text in front of rest, all ASCII, and the escape that is cut off. */
  ghost predicate CutAt(w: bytes, i: nat) {
    i < |w| && HalfEscape(w[i..]) && Decode(w[..i], CsAscii).Whole? && Decode(w[..i], CsAscii).cs == CsAscii
  }

  /** Decoding is cut short in ASCII exactly on ASCII text with half an escape at its end. */
  lemma CutIsHalf(w: bytes)
    ensures CutShort(Decode(w, CsAscii)) <==> exists i: nat :: CutAt(w, i)
  {
    if i: nat :| CutAt(w, i) {
      assert w == w[..i] + w[i..];
      DecodeInPieces(w[..i], w[i..], CsAscii);
      HalfIsShort(w[i..], CsAscii);
      DecodeShort(w[i..], CsAscii);
    }
    if CutShort(Decode(w, CsAscii)) { CutHalf(w); }
  }

  /** A token that leaves the charset ASCII does not look behind itself. */
  lemma AsciiToken(w: bytes, m: nat)
    requires w != [] && Next(w, CsAscii).Emit? && Next(w, CsAscii).cs == CsAscii && Next(w, CsAscii).n <= m <= |w|
    ensures Next(w[..m], CsAscii) == Next(w, CsAscii)
  {
    hide Utf8;
  }

  lemma CutToken(w: bytes)
    requires CutShort(Decode(w, CsAscii))
    ensures w != []
    ensures var t := Next(w, CsAscii);
      if t.Emit? then t.cs == CsAscii && CutShort(Decode(w[t.n..], CsAscii))
          && Decode(w[t.n..], CsAscii).rest == Decode(w, CsAscii).rest
      else t == Short(CsAscii) && Decode(w, CsAscii).rest == w
  {
    hide Next;
    if w != [] && Next(w, CsAscii).Emit? { CharsetMonotone(w[Next(w, CsAscii).n..], Next(w, CsAscii).cs); }
  }

  lemma {:induction false} CutHalf(w: bytes)
    requires CutShort(Decode(w, CsAscii))
    ensures CutAt(w, |w| - |Decode(w, CsAscii).rest|)
    decreases |w|
  {
    hide Next, Decode, HalfEscape, CutAt;
    CutToken(w);
    var t := Next(w, CsAscii);
    if t.Emit? {
      CutHalf(w[t.n..]);
      CutLater(w, |w| - |Decode(w, CsAscii).rest|);
    } else {
      CutHere(w);
    }
  }

  lemma CutHere(w: bytes)
    requires w != [] && Next(w, CsAscii) == Short(CsAscii)
    ensures CutAt(w, 0)
  {
    hide Next, Decode, HalfEscape;
    HalfIsShort(w, CsAscii);
    assert w[..0] == [] && w[0..] == w;
    EmptyDecode(CsAscii);
  }

  lemma CutLater(w: bytes, i: nat)
    requires w != [] && Next(w, CsAscii).Emit? && Next(w, CsAscii).cs == CsAscii
    requires Next(w, CsAscii).n <= i && CutAt(w[Next(w, CsAscii).n..], i - Next(w, CsAscii).n)
    ensures CutAt(w, i)
  {
    hide Next, Decode, HalfEscape;
    var n := Next(w, CsAscii).n;
    AsciiToken(w, i);
    assert w[..i][n..] == w[n..][..i - n] && w[i..] == w[n..][i - n..];
    DecodeEmit(w[..i], CsAscii, w[n..][..i - n]);
  }

  /** Why a pair is refused: the value is judged before the name. */
  lemma WhyRefused(name: bytes, value: bytes)
    ensures name == [] ==> DecodePair(name, value) == Refused(false)
    ensures name != [] && (exists i: nat :: CutAt(value, i)) ==> DecodePair(name, value) == Refused(true)
    ensures name != [] && Decode(value, CsAscii).Bad? ==> DecodePair(name, value) == Refused(false)
    ensures Decode(value, CsAscii).Whole? && (exists i: nat :: CutAt(name, i)) ==>
              DecodePair(name, value) == Refused(true)
  {
    hide Decode, CutAt;
    CutIsHalf(value);
    CutIsHalf(name);
    EmptyDecode(CsAscii);
  }

  /* ---- The reference reading of a query string ---- */

  predicate IsSep(c: byte) { c == AMP || c == SEMI }

  predicate Ends(c: byte) { IsSep(c) || c == NUL }

  function WordEnd(s: bytes, i: nat): (j: nat)
    requires i <= |s|
    ensures i <= j <= |s| && (j < |s| ==> Ends(s[j])) && forall k :: i <= k < j ==> !Ends(s[k])
    decreases |s| - i
  {
    if i == |s| || Ends(s[i]) then i else WordEnd(s, i + 1)
  }

  /** Where the name of a word ends: an '=' at its front belongs to the name. */
  function NameEnd(w: bytes): (n: nat)
    ensures n <= |w|
  {
    if w == [] then 0 else EqualsAt(w, 1)
  }

  function WordPair(w: bytes): Word {
    var n := NameEnd(w);
    DecodePair(w[..n], if n < |w| then w[n + 1..] else [])
  }

  /** Failed: a word was refused, and why. */
  datatype Reading = Done(pairs: seq<Pair>) | Failed(pairs: seq<Pair>, cut: bool) | Unknown

  function ReadQuery(t: seq<Pair>, s: bytes): Reading
    decreases |s|
  {
    var e := WordEnd(s, 0);
    var last := e == |s| || s[e] == NUL;
    if e == 0 then (if last then Done(t) else ReadQuery(t, s[1..]))
    else
      match WordPair(s[..e])
      case Refused(cut) => Failed(t, cut)
      case Undetermined => Unknown
      case Good(p) => if last then Done(t + [p]) else ReadQuery(t + [p], s[e + 1..])
  }

  /* ---- The parser ---- */

  lemma WholeOrNot(m: bytes, dest: nat, r: Decoded, st: Status, dlen: nat, cs: Charset)
    requires LeftV(m, dest, r, st, dlen, cs)
    ensures dest + dlen <= |m| && (r.Unset? || (st == Success <==> r.Whole?))
    ensures r.Whole? ==> m[dest..dest + dlen] == r.out && cs == r.cs
    ensures r.Unset? || (st == Incomplete && cs == CsAscii <==> CutShort(r))
  {
    hide At;
    if !r.Unset? { AtIs(m, dest, r.out); }
  }

  /** apreq_decode of the text w at src, and what it left. The code of a failure has the charset
      added to it. */
  method DecodeAt(mem: array<byte>, dest: nat, src: nat, len: nat, ghost w: bytes)
      returns (st: Status, text: bytes, cs: Charset)
    requires At(mem[..], src, w) && |w| == len && src + len <= dest && dest + len < mem.Length
    modifies mem
    ensures var r := Decode(w, CsAscii);
      r.Unset? || if st == Success then r == Whole(text, cs) else !r.Whole? && (st == Incomplete <==> CutShort(r))
    ensures Kept(old(mem[..]), mem[..], dest, dest + len + 1)
  {
    hide Decode, LeftV, At, Kept;
    var dlen;
    st, cs, dlen := ApreqDecode(mem, dest, src, len, w);
    NotInPlace(src, dest, w);
    WholeOrNot(mem[..], dest, Decode(w, CsAscii), st, dlen, cs);
    text := mem[dest..dest + dlen];
    assert text == mem[..][dest..dest + dlen];
    if st == Incomplete && cs != CsAscii { st := Truncated; }
  }

  lemma NotInPlace(src: nat, dest: nat, w: bytes)
    requires src + |w| <= dest
    ensures dest == src ==> PlainEnd(w, 0) == |w|
  {
  }

  /** apreq_param_decode: value and name are decoded one behind the other into one buffer. */
  method ParamDecode(word: bytes, nlen: nat, vlen: nat) returns (st: Status, p: Pair)
    requires nlen + (if vlen > 0 then 1 + vlen else 0) <= |word|
    ensures var w := DecodePair(word[..nlen], if vlen > 0 then word[nlen + 1..nlen + 1 + vlen] else []);
      w.Undetermined? || if st == Success then w == Good(p) else w == Refused(st == Incomplete)
  {
    hide Decode, At, Kept;
    p := Pair([], [], CsAscii);
    if nlen == 0 { return BadArg, p; }
    var mem := Load(word, nlen + vlen + 2);
    var data := |word|;
    var vc, v := CsAscii, [];
    EmptyDecode(CsAscii);
    ghost var m := mem[..];
    AtPart(m, word, 0, nlen);
    if vlen > 0 {
      AtPart(m, word, nlen + 1, nlen + 1 + vlen);
      st, v, vc := DecodeAt(mem, data, nlen + 1, vlen, word[nlen + 1..nlen + 1 + vlen]);
      AtKept(m, mem[..], data, data + vlen + 1, 0, word[..nlen]);
      if st != Success { return; }
    }
    var n, nc;
    st, n, nc := DecodeAt(mem, data + vlen + 1, 0, nlen, word[..nlen]);
    if st != Success { return; }
    p := Pair(n, v, Merge(vc, nc));
  }

  lemma AtPart(m: bytes, w: bytes, i: nat, j: nat)
    requires At(m, 0, w) && i <= j <= |w|
    ensures At(m, i, w[i..j]) && (i == 0 ==> At(m, 0, w[..j]))
  {
  }

  /** The scan stands at q in the word that began at start; nlen is 0 until an '=' that is not at
      the front of the word was seen. */
  ghost predicate Scanned(qs: bytes, start: nat, q: nat, nlen: nat) {
    && start <= q <= |qs| && (forall k :: start <= k < q ==> !Ends(qs[k]))
    && if nlen == 0 then forall k :: start < k < q ==> qs[k] != EQUALS
       else start + nlen < q && qs[start + nlen] == EQUALS && forall k :: start < k < start + nlen ==> qs[k] != EQUALS
  }

  /** The word between start and q, as scanned. */
  lemma ScannedWord(qs: bytes, start: nat, q: nat, nlen: nat)
    requires Scanned(qs, start, q, nlen) && start < q && (q == |qs| || Ends(qs[q]))
    ensures var s := qs[start..]; var e := q - start; var n := if nlen == 0 then e else nlen;
      WordEnd(s, 0) == e && NameEnd(s[..e]) == n && s[..e] == qs[start..q]
  {
    var s, e := qs[start..], q - start;
    var n := if nlen == 0 then e else nlen;
    assert forall k :: 0 <= k < e ==> s[k] == qs[start + k];
    WordEndIs(s, 0, e);
    EqualsAtIs(s[..e], 1, n);
  }

  lemma WordEndIs(s: bytes, i: nat, j: nat)
    requires i <= j <= |s| && (j < |s| ==> Ends(s[j])) && forall k :: i <= k < j ==> !Ends(s[k])
    ensures WordEnd(s, i) == j
    decreases j - i
  {
    if i < j { WordEndIs(s, i + 1, j); }
  }

  /** One word more. */
  lemma ReadWord(t: seq<Pair>, s: bytes, e: nat)
    requires 0 < e == WordEnd(s, 0)
    ensures var w := WordPair(s[..e]);
      && (w.Undetermined? ==> ReadQuery(t, s) == Unknown)
      && (w.Refused? ==> ReadQuery(t, s) == Failed(t, w.cut))
      && (w.Good? ==>
            ReadQuery(t, s)
            == if e == |s| || s[e] == NUL then Done(t + [w.pair]) else ReadQuery(t + [w.pair], s[e + 1..]))
  {
  }

  lemma ReadEmpty(t: seq<Pair>, s: bytes)
    requires WordEnd(s, 0) == 0
    ensures ReadQuery(t, s) == if s == [] || s[0] == NUL then Done(t) else ReadQuery(t, s[1..])
  {
  }

  /** The word between start and q is over: decode it and put it in the table. */
  method EndWord(t: Table<Pair>, qs: bytes, start: nat, q: nat, nlen: nat) returns (st: Status)
    requires Scanned(qs, start, q, nlen) && (q == |qs| || Ends(qs[q]))
    modifies t
    ensures st != Success ==> t.elts == old(t.elts)
    ensures var r := ReadQuery(old(t.elts), qs[start..]);
      r.Unknown? ||
      if st != Success then r == Failed(t.elts, st == Incomplete)
      else r == if q == |qs| || qs[q] == NUL then Done(t.elts) else ReadQuery(t.elts, qs[q + 1..])
  {
    hide ReadQuery, DecodePair;
    ghost var s, e := qs[start..], q - start;
    if q == start {
      ReadEmpty(t.elts, s);
      return Success;
    }
    ScannedWord(qs, start, q, nlen);
    ReadWord(t.elts, s, e);
    var n, vlen := nlen, 0;
    if n == 0 { n := q - start; } else { vlen := q - start - nlen - 1; }
    ghost var w := s[..e];
    assert qs[start..q][..n] == w[..n];
    var p;
    st, p := ParamDecode(qs[start..q], n, vlen);
    assert n < e ==> w[n + 1..] == w[n + 1..n + 1 + vlen];
    if st == Success { t.Add(p); }
    assert q < |qs| ==> s[e + 1..] == qs[q + 1..];
  }

  /** apreq_parse_query_string; the end of qs, or a NUL in it, is where C finds its end. */
  method ParseQueryString(t: Table<Pair>, qs: bytes) returns (st: Status)
    modifies t
    ensures var r := ReadQuery(old(t.elts), qs);
      r.Unknown? || r == if st == Success then Done(t.elts) else Failed(t.elts, st == Incomplete)
  {
    hide ReadQuery;
    var start: nat, q: nat, nlen: nat := 0, 0, 0;
    ghost var r := ReadQuery(t.elts, qs);
    assert qs[0..] == qs;
    while true
      invariant Scanned(qs, start, q, nlen)
      invariant r.Unknown? || r == ReadQuery(t.elts, qs[start..])
      decreases |qs| - q
    {
      if q == |qs| || Ends(qs[q]) {
        st := EndWord(t, qs, start, q, nlen);
        if st != Success { return; }
        if q == |qs| || qs[q] == NUL { return Success; }
        nlen, start := 0, q + 1;
      } else if qs[q] == EQUALS && nlen == 0 {
        nlen := q - start;
      }
      q := q + 1;
    }
  }

  /* ---- Query strings word by word ---- */

  predicate AllSeps(s: bytes) { forall k :: 0 <= k < |s| ==> IsSep(s[k]) }

  lemma {:induction false} SkipSeparators(t: seq<Pair>, s: bytes, i: nat)
    requires i <= |s| && AllSeps(s[..i])
    ensures ReadQuery(t, s) == ReadQuery(t, s[i..])
  {
    hide DecodePair, ReadQuery;
    if i == 0 {
      assert s[0..] == s;
    } else {
      assert IsSep(s[..i][0]);
      ReadEmpty(t, s);
      assert s[1..][..i - 1] == s[..i][1..];
      SkipSeparators(t, s[1..], i - 1);
      assert s[1..][i - 1..] == s[i..];
    }
  }

  /** A word as it stands in a query string, with the separators behind it. A name may begin with '='
      and a value hold any number of them; a bare name has no value at all. */
  datatype Raw = Raw(name: bytes, value: Option<bytes>, seps: bytes)
  {
    function Word(): bytes { name + if value.Some? then [EQUALS] + value.value else [] }

    /** What it stands for: a bare name has the empty value. */
    function Meaning(): Word { DecodePair(name, if value.Some? then value.value else []) }

    ghost predicate Legal() {
      && name != [] && (forall k :: 0 <= k < |name| ==> !Ends(name[k]) && (k > 0 ==> name[k] != EQUALS))
      && (value.Some? ==> forall k :: 0 <= k < |value.value| ==> !Ends(value.value[k])) && AllSeps(seps)
    }
  }

  ghost predicate WordsLegal(words: seq<Raw>) {
    forall i :: 0 <= i < |words| ==> words[i].Legal() && (i + 1 < |words| ==> words[i].seps != [])
  }

  /** The words, and what follows them. */
  function PrintWords(words: seq<Raw>, stop: bytes): bytes {
    if words == [] then stop else words[0].Word() + (words[0].seps + PrintWords(words[1..], stop))
  }

  /** Word after word, up to the first that is refused. */
  function Meanings(t: seq<Pair>, words: seq<Raw>): Reading
    decreases words
  {
    if words == [] then Done(t)
    else
      match words[0].Meaning()
      case Refused(cut) => Failed(t, cut)
      case Undetermined => Unknown
      case Good(p) => Meanings(t + [p], words[1..])
  }

  /** Where a word and its name end. */
  lemma RawEnds(x: Raw, tail: bytes)
    requires x.Legal() && (tail == [] || Ends(tail[0]))
    ensures var w := x.Word(); var s := w + tail;
      && w != [] && WordEnd(s, 0) == |w| && s[..|w|] == w && s[|w|..] == tail && WordPair(w) == x.Meaning()
  {
    hide DecodePair;
    var w := x.Word();
    var s := w + tail;
    forall k | 0 <= k < |w|
      ensures !Ends(w[k]) && (0 < k < |x.name| ==> w[k] != EQUALS)
    {
      assert w[k] == if k < |x.name| then x.name[k] else if k == |x.name| then EQUALS
          else x.value.value[k - |x.name| - 1];
    }
    assert forall k :: 0 <= k < |w| ==> s[k] == w[k];
    WordEndIs(s, 0, |w|);
    EqualsAtIs(w, 1, |x.name|);
    assert w[..|x.name|] == x.name && (x.value.Some? ==> w[|x.name| + 1..] == x.value.value);
  }

  /** Behind separators the next words are read. */
  lemma SkipThese(t: seq<Pair>, seps: bytes, s: bytes)
    requires AllSeps(seps)
    ensures ReadQuery(t, seps + s) == ReadQuery(t, s)
  {
    hide ReadQuery;
    assert (seps + s)[..|seps|] == seps && (seps + s)[|seps|..] == s;
    SkipSeparators(t, seps + s, |seps|);
  }

  lemma StopEnds(t: seq<Pair>, stop: bytes)
    requires stop == [] || stop[0] == NUL
    ensures ReadQuery(t, stop) == Done(t)
  {
    ReadEmpty(t, stop);
  }

  /** Any words, up to the end or to a NUL, are read for what they stand for. */
  lemma {:induction false} ReadWords(t: seq<Pair>, words: seq<Raw>, stop: bytes)
    requires WordsLegal(words) && (stop == [] || stop[0] == NUL)
    ensures ReadQuery(t, PrintWords(words, stop)) == Meanings(t, words)
    decreases words
  {
    hide ReadQuery, DecodePair, Raw.Legal;
    if words == [] {
      StopEnds(t, stop);
    } else {
      var x, rest := words[0], PrintWords(words[1..], stop);
      var tail := x.seps + rest;
      assert WordsLegal(words[1..]) by { LaterLegal(words); }
      LegalSeps(x);
      TailEnds(words, stop);
      RawEnds(x, tail);
      var s, e := x.Word() + tail, |x.Word()|;
      ReadWord(t, s, e);
      var m := x.Meaning();
      if m.Good? {
        ReadWords(t + [m.pair], words[1..], stop);
        if x.seps == [] {
          OneWordLeft(words, stop);
          assert tail == stop;
          assert e < |s| ==> s[e] == tail[0];
        } else {
          assert s[e] == x.seps[0] && s[e + 1..] == x.seps[1..] + rest;
          SkipThese(t + [m.pair], x.seps[1..], rest);
        }
      }
    }
  }

  lemma LaterLegal(words: seq<Raw>)
    requires WordsLegal(words) && words != []
    ensures WordsLegal(words[1..])
  {
  }

  lemma LegalSeps(x: Raw)
    requires x.Legal()
    ensures AllSeps(x.seps)
  {
  }

  lemma OneWordLeft(words: seq<Raw>, stop: bytes)
    requires WordsLegal(words) && words != [] && words[0].seps == []
    ensures |words| == 1 && PrintWords(words[1..], stop) == stop
  {
  }

  lemma TailEnds(words: seq<Raw>, stop: bytes)
    requires WordsLegal(words) && words != [] && (stop == [] || stop[0] == NUL)
    ensures var tail := words[0].seps + PrintWords(words[1..], stop); tail == [] || Ends(tail[0])
  {
    if words[0].seps == [] { OneWordLeft(words, stop); }
  }

  /* ---- Query strings as a client prints them ---- */

  /** apreq_param_encode. */
  function EncodePair(name: bytes, value: bytes): bytes { Encode(name) + ([EQUALS] + Encode(value)) }

  /** A pair to print, and the separators behind it; an empty value may be left out with its '='. */
  datatype Item = Item(name: bytes, value: bytes, bare: bool, seps: bytes)
  {
    ghost predicate Legal() {
      name != [] && WellFormed(name) && WellFormed(value) && (bare ==> value == []) && AllSeps(seps)
    }

    function Text(): Raw { Raw(Encode(name), if bare then None else Some(Encode(value)), seps) }

    /** What a reader is to make of it. */
    function Read(): Pair {
      Pair(name, value, if AllAscii(name) && AllAscii(value) then CsAscii else CsUtf8)
    }
  }

  ghost predicate ItemsLegal(items: seq<Item>) {
    forall i :: 0 <= i < |items| ==> items[i].Legal() && (i + 1 < |items| ==> items[i].seps != [])
  }

  function Texts(items: seq<Item>): (w: seq<Raw>)
    ensures |w| == |items| && forall i :: 0 <= i < |items| ==> w[i] == items[i].Text()
  {
    seq(|items|, i requires 0 <= i < |items| => items[i].Text())
  }

  function PrintQuery(items: seq<Item>): bytes { PrintWords(Texts(items), []) }

  function ReadAll(items: seq<Item>): seq<Pair> {
    if items == [] then [] else [items[0].Read()] + ReadAll(items[1..])
  }

  /** Encoded text holds none of the bytes that structure a query string. */
  lemma {:induction false} EncodedIsPlain(s: bytes)
    ensures forall i :: 0 <= i < |Encode(s)| ==> !Ends(Encode(s)[i]) && Encode(s)[i] != EQUALS
    ensures s != [] ==> Encode(s) != []
  {
    if s != [] {
      EncodedIsPlain(s[1..]);
      EncIsPlain(s[0]);
      var e, w := Enc(s[0]), Encode(s);
      forall i | 0 <= i < |w| ensures !Ends(w[i]) && w[i] != EQUALS {
        assert w[i] == if i < |e| then e[i] else Encode(s[1..])[i - |e|];
      }
    }
  }

  lemma EncIsPlain(c: byte)
    ensures forall i :: 0 <= i < |Enc(c)| ==> !Ends(Enc(c)[i]) && Enc(c)[i] != EQUALS
  {
    forall i | 0 <= i < |Enc(c)| ensures !Ends(Enc(c)[i]) && Enc(c)[i] != EQUALS {
      if !Unreserved(c) && c != SPACE && i > 0 { assert IsXDigit(Enc(c)[i]); }
    }
  }

  lemma TextLegal(x: Item)
    requires x.Legal()
    ensures x.Text().Legal() && x.Text().Meaning() == Good(x.Read())
  {
    hide Decode, Encode, WellFormed;
    EncodedIsPlain(x.name);
    EncodedIsPlain(x.value);
    DecodeWellFormed(x.name, CsAscii);
    DecodeWellFormed(x.value, CsAscii);
    EmptyDecode(CsAscii);
  }

  lemma {:induction false} TextsMean(items: seq<Item>, t: seq<Pair>)
    requires ItemsLegal(items)
    ensures WordsLegal(Texts(items)) && Meanings(t, Texts(items)) == Done(t + ReadAll(items))
    decreases items
  {
    hide Item.Legal, Raw.Legal, Raw.Meaning, Item.Read, Item.Text;
    forall i | 0 <= i < |items|
      ensures items[i].Text().Legal() && items[i].Text().Meaning() == Good(items[i].Read())
    {
      TextLegal(items[i]);
    }
    TextSeps(items);
    if items == [] {
      assert t + [] == t;
    } else {
      assert Texts(items)[1..] == Texts(items[1..]);
      TextsMean(items[1..], t + [items[0].Read()]);
      Regroup(t, [items[0].Read()], ReadAll(items[1..]));
    }
  }

  lemma TextSeps(items: seq<Item>)
    ensures forall i :: 0 <= i < |items| ==> items[i].Text().seps == items[i].seps
  {
  }

  /** Any list of well-formed UTF-8 pairs with names, with '&' and ';' between them as the printer
      likes, is read back as that list, empty values and all. */
  lemma ReadPrinted(items: seq<Item>, t: seq<Pair>)
    requires ItemsLegal(items)
    ensures ReadQuery(t, PrintQuery(items)) == Done(t + ReadAll(items))
  {
    hide ReadQuery, Meanings, PrintWords, WordsLegal, ItemsLegal;
    TextsMean(items, t);
    ReadWords(t, Texts(items), []);
  }
}

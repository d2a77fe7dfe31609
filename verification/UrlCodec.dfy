/** The reference reading of url-encoded text: one token at a time, with the charset guessed from
    the escapes seen so far. */
module UrlCodec {
  import opened Bytes
  import opened Sequences

  datatype Charset = CsAscii | CsUtf8 | CsLatin1 | CsCp1252
  {
    /** The order in which the guesses are given up. */
    function Rank(): nat {
      match this
      case CsAscii => 0
      case CsUtf8 => 1
      case CsLatin1 => 2
      case CsCp1252 => 3
    }
  }

  /** The value of a hexadecimal digit, as the library computes it. */
  function HexVal(c: byte): nat
    requires IsXDigit(c)
  {
    if c >= 97 then c - 97 + 10 else if c >= 65 then c - 65 + 10 else c - 48
  }

  function Hex2(a: byte, b: byte): (c: byte)
    requires IsXDigit(a) && IsXDigit(b)
  {
    HexVal(a) * 16 + HexVal(b)
  }

  function Hex4(a: byte, b: byte, c: byte, d: byte): (u: nat)
    requires IsXDigit(a) && IsXDigit(b) && IsXDigit(c) && IsXDigit(d)
    ensures u < 0x10000
  {
    ((HexVal(a) * 16 + HexVal(b)) * 16 + HexVal(c)) * 16 + HexVal(d)
  }

  /** A code point below 0x10000 as UTF-8: section 3 of RFC 3629. */
  function Utf8(u: nat): (b: bytes)
    requires u < 0x10000
    ensures 1 <= |b| <= 3
  {
    if u < 0x80 then [u]
    else if u < 0x800 then [0xC0 + u / 64, 0x80 + u % 64]
    else [0xE0 + u / 4096, 0x80 + u / 64 % 64, 0x80 + u % 64]
  }

  predicate Is89AB(c: byte) { c == 56 || c == 57 || c == 65 || c == 66 || c == 97 || c == 98 }
  predicate IsU(c: byte) { c == 117 || c == 85 }

  /** How many continuation bytes follow a lead byte. */
  function Lead(c: byte): (k: nat)
    requires 0xC0 <= c < 0xFE
    ensures 1 <= k <= 5
  {
    if c < 0xE0 then 1 else if c < 0xF0 then 2 else if c < 0xF8 then 3 else if c < 0xFC then 4 else 5
  }

  /** n escaped continuation bytes at the front: is_enc8. */
  predicate IsEnc8(w: bytes, n: nat) {
    n == 0 || (|w| >= 3 && w[0] == PERCENT && Is89AB(w[1]) && IsXDigit(w[2]) && IsEnc8(w[3..], n - 1))
  }

  /** The n bytes they stand for. */
  function Conts(w: bytes, n: nat): (b: bytes)
    requires IsEnc8(w, n)
    ensures |b| == n && 3 * n <= |w|
  {
    if n == 0 then [] else [Hex2(w[1], w[2])] + Conts(w[3..], n - 1)
  }

  /** Text that may be the beginning of escaped continuation bytes: fragment_charset. */
  predicate Fragment(w: bytes) {
    if |w| == 0 then true
    else if |w| == 1 then w[0] == PERCENT
    else if |w| == 2 then w[0] == PERCENT && Is89AB(w[1])
    else IsEnc8(w, 1) && Fragment(w[3..])
  }

  /** Emit: n bytes of text stand for `out`. Short: the text ends inside an escape. Wrong: no
      escape. Unwritten: %FE and %FF, for which the library leaves a byte of its output unset. */
  datatype Token = Emit(out: bytes, n: nat, cs: Charset) | Short(cs: Charset) | Wrong | Unwritten

  /** An escaped byte c in front of `tail`. */
  function Escaped(c: byte, tail: bytes, cs: Charset): (t: Token)
    ensures t.Emit? ==> 1 <= |t.out| && |t.out| + 2 <= t.n <= |tail| + 3
    ensures !t.Wrong?
  {
    if c < 0x80 || cs == CsCp1252 then Emit([c], 3, cs)
    else if c < 0xA0 then Emit([c], 3, CsCp1252)
    else if c < 0xC0 || cs == CsLatin1 then Emit([c], 3, CsLatin1)
    else if c < 0xFE then
      var k := Lead(c);
      if |tail| < 3 * k then
        if Fragment(tail) then Short(CsUtf8) else Emit([c], 3, CsLatin1)
      else if IsEnc8(tail, k) then Emit([c] + Conts(tail, k), 3 + 3 * k, CsUtf8)
      else Emit([c], 3, CsLatin1)
    else Unwritten
  }

  /** The token at the front of w. */
  function Next(w: bytes, cs: Charset): (t: Token)
    requires w != []
    ensures t.Emit? ==> 1 <= |t.out| <= t.n <= |w|
    ensures t.Short? ==> w[0] == PERCENT
    ensures t.Unwritten? ==> |w| >= 3
  {
    if w[0] == PLUS then Emit([SPACE], 1, cs)
    else if w[0] != PERCENT then Emit([w[0]], 1, cs)
    else if |w| > 2 && IsXDigit(w[1]) && IsXDigit(w[2]) then Escaped(Hex2(w[1], w[2]), w[3..], cs)
    else if |w| > 5 && IsU(w[1]) && IsXDigit(w[2]) && IsXDigit(w[3]) && IsXDigit(w[4]) && IsXDigit(w[5]) then
      if cs == CsAscii || cs == CsUtf8 then Emit(Utf8(Hex4(w[2], w[3], w[4], w[5])), 6, CsUtf8) else Wrong
    else if |w| > 5 || (|w| > 2 && !IsXDigit(w[2])) || (|w| > 1 && !IsXDigit(w[1]) && !IsU(w[1])) then Wrong
    else Short(cs)
  }

  /** Whole: all was read. Cut: `rest` is the beginning of an escape. Bad: `rest` begins with
      something that is no escape. Unset: some byte of the output was never written. */
  datatype Decoded =
    | Whole(out: bytes, cs: Charset)
    | Cut(out: bytes, cs: Charset, rest: bytes)
    | Bad(out: bytes, cs: Charset, rest: bytes)
    | Unset

  function Behind(o: bytes, r: Decoded): Decoded {
    match r
    case Whole(out, cs) => Whole(o + out, cs)
    case Cut(out, cs, rest) => Cut(o + out, cs, rest)
    case Bad(out, cs, rest) => Bad(o + out, cs, rest)
    case Unset => Unset
  }

  function Decode(w: bytes, cs: Charset): (r: Decoded)
    ensures r.Whole? ==> |r.out| <= |w|
    ensures r.Cut? || r.Bad? ==> |r.out| + |r.rest| <= |w| && r.rest == w[|w| - |r.rest|..]
    decreases |w|
  {
    if w == [] then Whole([], cs)
    else
      match Next(w, cs)
      case Emit(o, n, cs') =>
        var r := Decode(w[n..], cs');
        assert r.Cut? || r.Bad? ==> w[n..][|w| - n - |r.rest|..] == w[|w| - |r.rest|..];
        Behind(o, r)
      case Short(cs') => Cut([], cs', w)
      case Wrong => Bad([], cs, w)
      case Unwritten => Unset
  }

  lemma DecodeEmit(w: bytes, cs: Charset, tail: bytes)
    requires w != [] && Next(w, cs).Emit? ==> w[Next(w, cs).n..] == tail
    ensures w != [] && Next(w, cs).Emit? ==> Decode(w, cs) == Behind(Next(w, cs).out, Decode(tail, Next(w, cs).cs))
  {
  }

  lemma DecodeShort(w: bytes, cs: Charset)
    ensures w != [] && Next(w, cs).Short? ==> Decode(w, cs) == Cut([], Next(w, cs).cs, w)
  {
  }

  /* ---- Text that arrives in pieces ---- */

  lemma {:induction false} Enc8More(w: bytes, x: bytes, n: nat)
    requires 3 * n <= |w|
    ensures IsEnc8(w + x, n) <==> IsEnc8(w, n)
    ensures IsEnc8(w, n) ==> Conts(w + x, n) == Conts(w, n)
  {
    if n > 0 {
      Enc8More(w[3..], x, n - 1);
      assert (w + x)[3..] == w[3..] + x;
    }
  }

  lemma FirstEnc8(w: bytes, n: nat)
    ensures n > 0 && IsEnc8(w, n) ==> IsEnc8(w, 1)
  {
    if |w| >= 3 { assert IsEnc8(w[3..], 0); }
  }

  /** What is no fragment does not become one, nor the escapes of n bytes. */
  lemma {:induction false} NoFragment(w: bytes, x: bytes, n: nat)
    requires !Fragment(w) && |w| < 3 * n
    ensures |w + x| < 3 * n ==> !Fragment(w + x)
    ensures !IsEnc8(w + x, n)
  {
    var v := w + x;
    if |w| >= 3 && IsEnc8(w, 1) {
      assert IsEnc8(w[3..], 0);
      NoFragment(w[3..], x, n - 1);
      assert v[3..] == w[3..] + x;
    } else if |w| >= 3 {
      assert v[0] == w[0] && v[1] == w[1] && v[2] == w[2];
      Enc8More(w, x, 1);
      FirstEnc8(v, n);
    }
  }

  lemma EscapedMore(c: byte, tail: bytes, x: bytes, cs: Charset)
    ensures !Escaped(c, tail, cs).Short? ==> Escaped(c, tail + x, cs) == Escaped(c, tail, cs)
    ensures Escaped(c, tail, cs).Short? ==> Escaped(c, tail + x, CsUtf8) == Escaped(c, tail + x, cs)
  {
    if 0xC0 <= c < 0xFE {
      var k := Lead(c);
      if 3 * k <= |tail| { Enc8More(tail, x, k); }
      else if !Fragment(tail) { NoFragment(tail, x, k); }
    }
  }

  /** A token that is there stays what it is; one cut short is read the same with the charset
      guessed meanwhile. */
  lemma NextMore(w: bytes, x: bytes, cs: Charset)
    requires w != []
    ensures var t := Next(w, cs);
      if t.Short? then Next(w + x, t.cs) == Next(w + x, cs)
          && (t.cs == cs || !Next(w + x, cs).Wrong?) else Next(w + x, cs) == t
  {
    hide Escaped, Utf8, Hex4;
    var v := w + x;
    assert forall i :: 0 <= i < |w| ==> v[i] == w[i];
    if w[0] == PERCENT && |w| > 2 && IsXDigit(w[1]) && IsXDigit(w[2]) {
      assert v[3..] == w[3..] + x;
      EscapedMore(Hex2(w[1], w[2]), w[3..], x, cs);
      assert Escaped(Hex2(w[1], w[2]), w[3..], cs).Short? ==>
            Next(w, cs).cs == CsUtf8 by { ShortIsUtf8(Hex2(w[1], w[2]), w[3..], cs); }
    }
  }

  lemma ShortIsUtf8(c: byte, tail: bytes, cs: Charset)
    ensures Escaped(c, tail, cs).Short? ==> Escaped(c, tail, cs).cs == CsUtf8
  {
  }

  lemma BehindBehind(a: bytes, b: bytes, r: Decoded)
    ensures Behind(a, Behind(b, r)) == Behind(a + b, r)
  {
    if !r.Unset? { Regroup(a, b, r.out); }
  }

  /** How decoding goes on when more text arrives. */
  function Resume(r: Decoded, b: bytes): Decoded {
    match r
    case Whole(out, cs) => Behind(out, Decode(b, cs))
    case Cut(out, cs, rest) => Behind(out, Decode(rest + b, cs))
    case Bad(out, cs, rest) => Bad(out, cs, rest + b)
    case Unset => Unset
  }

  lemma ResumeBehind(o: bytes, r: Decoded, b: bytes)
    ensures Resume(Behind(o, r), b) == Behind(o, Resume(r, b))
  {
    match r
    case Whole(out, cs) => BehindBehind(o, out, Decode(b, cs));
    case Cut(out, cs, rest) => BehindBehind(o, out, Decode(rest + b, cs));
    case _ =>
  }

  /** Decoding the pieces, with what is left of one put in front of the next, is decoding the
      whole: same bytes, same charset, same end. */
  lemma {:induction false} DecodeInPieces(a: bytes, b: bytes, cs: Charset)
    ensures Decode(a + b, cs) == Resume(Decode(a, cs), b)
    decreases |a|
  {
    hide Next;
    if a == [] {
      assert a + b == b;
      NoneBefore(Decode(b, cs));
    } else {
      NextMore(a, b, cs);
      var t := Next(a, cs);
      match t {
        case Emit(o, n, cs') =>
          DropAppend(a, b, n);
          DecodeInPieces(a[n..], b, cs');
          ResumeBehind(o, Decode(a[n..], cs'), b);
        case Short(cs') =>
          NoneBefore(Decode(a + b, cs'));
          SameToken(a + b, cs, cs');
        case Wrong =>
        case Unwritten =>
      }
    }
  }

  lemma NoneBefore(r: Decoded)
    ensures Behind([], r) == r
  {
    if !r.Unset? { assert [] + r.out == r.out; }
  }

  lemma SameToken(w: bytes, cs: Charset, cs': Charset)
    requires w != [] && Next(w, cs) == Next(w, cs') && (cs == cs' || !Next(w, cs).Wrong?)
    ensures Decode(w, cs) == Decode(w, cs')
  {
  }

  /** The guess only ever moves on from ASCII to UTF-8, Latin-1 and cp1252. */
  lemma {:induction false} CharsetMonotone(w: bytes, cs: Charset)
    ensures var r := Decode(w, cs); !r.Unset? ==> r.cs.Rank() >= cs.Rank()
    decreases |w|
  {
    if w != [] {
      NextMonotone(w, cs);
      var t := Next(w, cs);
      if t.Emit? { CharsetMonotone(w[t.n..], t.cs); }
    }
  }

  lemma NextMonotone(w: bytes, cs: Charset)
    requires w != []
    ensures var t := Next(w, cs); t.Emit? || t.Short? ==> t.cs.Rank() >= cs.Rank()
  {
  }
}

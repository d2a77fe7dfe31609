/** Escapes as other writers spell them: hexadecimal digits in either case, and %uXXXX. */
module UrlEscapes {
  import opened Bytes
  import opened UrlCodec
  import opened UrlEncoder
  import opened QueryStrings
  import opened Joining
  import Cp1252

  const LOWER_DIGITS := Ascii("0123456789abcdef")
  const UPPER_DIGITS := Ascii("0123456789ABCDEF")
  const UPPER_LETTERS := Ascii("ABCDEFGHIJKLMNOPQRSTUVWXYZ")
  const LOWER_LETTERS := Ascii("abcdefghijklmnopqrstuvwxyz")
  const DIGITS_AND_MARKS := Ascii("0123456789-._~")

  /** A digit is worth its place in either list, and the encoder writes upper-case ones. */
  lemma HexDigits(n: nat)
    requires n < 16
    ensures IsXDigit(LOWER_DIGITS[n]) && HexVal(LOWER_DIGITS[n]) == n
    ensures IsXDigit(UPPER_DIGITS[n]) && HexVal(UPPER_DIGITS[n]) == n && HexDigit(n) == UPPER_DIGITS[n]
  {
  }

  /** The encoder leaves the characters of section 2.3 of RFC 3986 as they are, and no others; a blank
      becomes '+'. */
  lemma UnreservedSet(c: byte)
    ensures Enc(c) == [c] <==> c in UPPER_LETTERS || c in LOWER_LETTERS || c in DIGITS_AND_MARKS
    ensures Enc(SPACE) == Ascii("+")
    ensures Enc(c) != [c] && c != SPACE ==> Enc(c) == [PERCENT, UPPER_DIGITS[c / 16], UPPER_DIGITS[c % 16]]
  {
    hide Ascii, HexDigit;
    assert Ascii("+") == [PLUS];
    HexDigits(c / 16);
    HexDigits(c % 16);
    Letters(c);
    Marks(c);
  }

  lemma Letters(c: byte)
    ensures c in UPPER_LETTERS <==> IsUpper(c)
    ensures c in LOWER_LETTERS <==> IsLower(c)
  {
    LetterAt();
    if IsUpper(c) { assert UPPER_LETTERS[c - 65] == c; }
    if IsLower(c) { assert LOWER_LETTERS[c - 97] == c; }
  }

  lemma LetterAt()
    ensures |UPPER_LETTERS| == 26 && forall i :: 0 <= i < 26 ==> UPPER_LETTERS[i] == 65 + i
    ensures |LOWER_LETTERS| == 26 && forall i :: 0 <= i < 26 ==> LOWER_LETTERS[i] == 97 + i
  {
  }

  lemma Marks(c: byte)
    ensures c in DIGITS_AND_MARKS <==> IsDigit(c) || c == DASH || c == 46 || c == 95 || c == 126
  {
    var s := DIGITS_AND_MARKS;
    assert |s| == 14 && s[10] == DASH && s[11] == 46 && s[12] == 95 && s[13] == 126;
    assert forall i :: 0 <= i < 10 ==> s[i] == 48 + i;
    if IsDigit(c) { assert s[c - 48] == c; }
  }

  /* ---- %uXXXX ---- */

  predicate DigitFor(c: byte, n: nat) { n < 16 && (c == LOWER_DIGITS[n] || c == UPPER_DIGITS[n]) }

  /** %u or %U, and the four digits of u, the highest first. */
  predicate Escapes(w: bytes, u: nat) {
    && |w| == 6 && w[0] == PERCENT && w[1] in Ascii("uU")
    && u < 0x10000 && DigitFor(w[2], u / 4096) && DigitFor(w[3], u / 256 % 16) && DigitFor(w[4], u / 16 % 16)
    && DigitFor(w[5], u % 16)
  }

  lemma DigitWorth(c: byte, n: nat)
    requires DigitFor(c, n)
    ensures IsXDigit(c) && HexVal(c) == n
  {
    HexDigits(n);
  }

  lemma FourDigits(w: bytes, u: nat)
    requires Escapes(w, u)
    ensures IsU(w[1]) && IsXDigit(w[2]) && IsXDigit(w[3]) && IsXDigit(w[4]) && IsXDigit(w[5])
    ensures Hex4(w[2], w[3], w[4], w[5]) == u && !IsXDigit(w[1])
  {
    hide DigitFor, HexVal;
    DigitWorth(w[2], u / 4096);
    DigitWorth(w[3], u / 256 % 16);
    DigitWorth(w[4], u / 16 % 16);
    DigitWorth(w[5], u % 16);
    Base16(u);
  }

  lemma Base16(u: nat)
    ensures ((u / 4096 * 16 + u / 256 % 16) * 16 + u / 16 % 16) * 16 + u % 16 == u
  {
    var b, c := u / 256, u / 16;
    LastDigit(b, u / 4096);
    LastDigit(c, b);
    LastDigit(u, c);
  }

  lemma LastDigit(n: nat, m: nat)
    requires 16 * m <= n < 16 * m + 16
    ensures m * 16 + n % 16 == n
  {
  }

  /** While the text may be UTF-8 such an escape is read as UTF-8 of its code point; behind Latin-1
      or cp1252 it is an error. */
  lemma UnicodeEscape(w: bytes, u: nat, tail: bytes, cs: Charset)
    requires Escapes(w, u) && !(0xD800 <= u < 0xE000)
    ensures Cp1252.ReadText(Utf8(u)) == Cp1252.WellFormed([u])
    ensures Decode(w + tail, cs) == if cs == CsAscii || cs == CsUtf8 then Behind(Utf8(u), Decode(tail, CsUtf8))
                                    else Bad([], cs, w + tail)
  {
    hide Utf8, Hex4, Escapes;
    FourDigits(w, u);
    OneChar(u);
    var s := w + tail;
    assert |w| == 6 && w[0] == PERCENT by { EscapeShape(w, u); }
    assert s[0] == w[0] && s[1] == w[1] && s[2] == w[2] && s[3] == w[3] && s[4] == w[4] && s[5] == w[5];
    assert s[6..] == tail;
  }

  lemma EscapeShape(w: bytes, u: nat)
    requires Escapes(w, u)
    ensures |w| == 6 && w[0] == PERCENT
  {
  }

  lemma OneChar(u: nat)
    requires u < 0x10000 && !(0xD800 <= u < 0xE000)
    ensures Cp1252.ReadText(Utf8(u)) == Cp1252.WellFormed([u])
  {
    hide Utf8, Cp1252.ReadChar;
    Cp1252.ReadUtf8(u, []);
    assert Utf8(u) + [] == Utf8(u);
    assert Cp1252.ReadText([]) == Cp1252.WellFormed([]);
  }

  /* ---- What is no escape ---- */

  /** An escape, and perhaps more. */
  predicate BeginsEscape(w: bytes) {
    && |w| > 2 && w[0] == PERCENT
    && if IsXDigit(w[1]) then IsXDigit(w[2])
       else w[1] in Ascii("uU") && |w| > 5 && forall i :: 2 <= i < 6 ==> IsXDigit(w[i])
  }

  /** Behind plain text, a '%' that begins neither an escape nor half of one is where decoding fails,
      and nothing else is. */
  lemma NoEscape(a: bytes, w: bytes)
    requires PlainText(a) && w != [] && w[0] == PERCENT
    ensures Decode(a + w, CsAscii) == Bad(Unplain(a), CsAscii, w) <==> !BeginsEscape(w) && !HalfEscape(w)
  {
    hide *;
    PlainIsWhole(a);
    DecodeInPieces(a, w, CsAscii);
    ResumeWhole(Unplain(a), w);
    EscapeToken(w);
    WrongToken(w);
    BadBehind(Unplain(a), Decode(w, CsAscii), w);
  }

  lemma PlainIsWhole(a: bytes)
    requires PlainText(a)
    ensures Decode(a, CsAscii) == Whole(Unplain(a), CsAscii)
  {
    hide PlainText, Unplain, Decode;
    PlainDecodes(a);
  }

  lemma ResumeWhole(o: bytes, w: bytes)
    ensures Resume(Whole(o, CsAscii), w) == Behind(o, Decode(w, CsAscii))
  {
    hide Decode;
  }

  lemma BadBehind(o: bytes, r: Decoded, w: bytes)
    ensures Behind(o, r) == Bad(o, CsAscii, w) <==> r == Bad([], CsAscii, w)
  {
    assert o + [] == o;
    assert r.Bad? && o + r.out == o ==> |r.out| == 0;
  }

  /** Only what is no token fails at its first byte. */
  lemma WrongToken(w: bytes)
    requires w != []
    ensures Decode(w, CsAscii) == Bad([], CsAscii, w) <==> Next(w, CsAscii).Wrong?
  {
    hide Next, Decode;
    var t := Next(w, CsAscii);
    if t.Emit? {
      DecodeEmit(w, CsAscii, w[t.n..]);
      ShorterRest(t.out, Decode(w[t.n..], t.cs));
    } else {
      NoEmit(w);
    }
  }

  lemma ShorterRest(o: bytes, r: Decoded)
    requires o != []
    ensures Behind(o, r).Bad? ==> Behind(o, r).out != []
  {
  }

  lemma NoEmit(w: bytes)
    requires w != [] && !Next(w, CsAscii).Emit?
    ensures Decode(w, CsAscii) == Bad([], CsAscii, w) <==> Next(w, CsAscii).Wrong?
  {
    hide Next;
  }

  lemma EscapeToken(w: bytes)
    requires w != [] && w[0] == PERCENT
    ensures Next(w, CsAscii).Wrong? <==> !BeginsEscape(w) && !HalfEscape(w)
  {
    hide Utf8, Hex4, Hex2, Escaped;
    assert Ascii("uU") == [117, 85];
    if |w| > 2 && IsXDigit(w[1]) && IsXDigit(w[2]) { EscapedIsOne(Hex2(w[1], w[2]), w[3..]); }
  }

  lemma EscapedIsOne(c: byte, tail: bytes)
    ensures !Escaped(c, tail, CsAscii).Wrong?
  {
  }

  /* ---- The beginning of an escaped sequence ---- */

  /** What makes a fragment whole. */
  function Completion(w: bytes): bytes {
    match |w|
    case 0 => []
    case 1 => [56, 48]
    case 2 => [48]
    case _ => Completion(w[3..])
  }

  /** With x behind it, w is n escaped continuation bytes. */
  predicate CompletedBy(w: bytes, x: bytes, n: nat) { |w + x| == 3 * n && IsEnc8(w + x, n) }

  /** A fragment is just what can go on to be escaped continuation bytes. */
  lemma FragmentExact(w: bytes)
    ensures Fragment(w) <==> exists x: bytes, n: nat :: CompletedBy(w, x, n)
  {
    hide Fragment, IsEnc8;
    if Fragment(w) {
      var n := Completes(w);
      assert CompletedBy(w, Completion(w), n);
    } else {
      forall x: bytes, n: nat | CompletedBy(w, x, n)
        ensures false
      {
        BeginningOf(w, x, n);
      }
    }
  }

  lemma {:induction false} Completes(w: bytes) returns (n: nat)
    requires Fragment(w)
    ensures |w + Completion(w)| == 3 * n && IsEnc8(w + Completion(w), n)
  {
    var v := w + Completion(w);
    if w == [] {
      n := 0;
    } else if |w| < 3 {
      n := 1;
      assert v[0] == PERCENT && Is89AB(v[1]) && IsXDigit(v[2]) && IsEnc8(v[3..], 0);
    } else {
      n := Completes(w[3..]);
      assert v[3..] == w[3..] + Completion(w[3..]) && v[0] == w[0] && v[1] == w[1] && v[2] == w[2];
      n := n + 1;
    }
  }

  lemma {:induction false} BeginningOf(w: bytes, x: bytes, n: nat)
    requires |w + x| == 3 * n && IsEnc8(w + x, n)
    ensures Fragment(w)
  {
    var v := w + x;
    if w != [] {
      assert v[0] == w[0] && (|w| > 1 ==> v[1] == w[1]) && (|w| > 2 ==> v[2] == w[2]);
      if |w| > 2 {
        assert v[3..] == w[3..] + x;
        BeginningOf(w[3..], x, n - 1);
        assert IsEnc8(w[3..], 0);
      }
    }
  }

  /* ---- Either case ---- */

  predicate SameDigit(a: byte, b: byte) { IsXDigit(a) && IsXDigit(b) && ToLower(a) == ToLower(b) }

  /** The same text, whose escapes are all whole, with their digits in whatever case. */
  predicate Respelled(w: bytes, x: bytes) {
    |w| == |x| &&
    (w == [] ||
     (if w[0] != PERCENT then x[0] == w[0] && Respelled(w[1..], x[1..])
      else |w| >= 3 && x[0] == PERCENT && SameDigit(w[1], x[1]) && SameDigit(w[2], x[2]) && Respelled(w[3..], x[3..])))
  }

  lemma SameWorth(a: byte, b: byte)
    requires SameDigit(a, b)
    ensures HexVal(a) == HexVal(b) && (Is89AB(a) <==> Is89AB(b))
  {
  }

  lemma {:induction false} RespelledConts(w: bytes, x: bytes, n: nat)
    requires Respelled(w, x)
    ensures IsEnc8(w, n) <==> IsEnc8(x, n)
    ensures IsEnc8(w, n) ==> Conts(w, n) == Conts(x, n) && Respelled(w[3 * n..], x[3 * n..])
  {
    if n == 0 {
      assert w[0..] == w && x[0..] == x;
    } else if w != [] && w[0] == PERCENT {
      SameWorth(w[1], x[1]);
      SameWorth(w[2], x[2]);
      RespelledConts(w[3..], x[3..], n - 1);
      if IsEnc8(w, n) { assert w[3..][3 * (n - 1)..] == w[3 * n..] && x[3..][3 * (n - 1)..] == x[3 * n..]; }
    }
  }

  lemma {:induction false} RespelledFragment(w: bytes, x: bytes)
    requires Respelled(w, x)
    ensures Fragment(w) <==> Fragment(x)
  {
    if w != [] && w[0] == PERCENT {
      SameWorth(w[1], x[1]);
      RespelledConts(w, x, 1);
      RespelledFragment(w[3..], x[3..]);
    }
  }

  /** The first token is the same, and what lies behind it is respelled. */
  lemma RespelledNext(w: bytes, x: bytes, cs: Charset)
    requires Respelled(w, x) && w != []
    ensures Next(x, cs) == Next(w, cs) && !Next(w, cs).Wrong?
    ensures Next(w, cs).Emit? ==> Respelled(w[Next(w, cs).n..], x[Next(w, cs).n..])
  {
    hide Escaped, Next, Respelled;
    SpelledFirst(w, x, cs);
    if w[0] == PERCENT {
      var t := Next(w, cs);
      RespelledEscape(Hex2(w[1], w[2]), w[3..], x[3..], cs);
      if t.Emit? { assert w[t.n..] == w[3..][t.n - 3..] && x[t.n..] == x[3..][t.n - 3..]; }
    }
  }

  lemma SpelledFirst(w: bytes, x: bytes, cs: Charset)
    requires Respelled(w, x) && w != []
    ensures |x| == |w| && x[0] == w[0]
    ensures w[0] != PERCENT ==> Next(x, cs) == Next(w, cs) && Next(w, cs).Emit? && Next(w, cs).n == 1
    ensures w[0] != PERCENT ==> Respelled(w[1..], x[1..])
    ensures w[0] == PERCENT ==>
              |w| >= 3 && SameDigit(w[1], x[1]) && SameDigit(w[2], x[2]) && Respelled(w[3..], x[3..])
              && Next(w, cs) == Escaped(Hex2(w[1], w[2]), w[3..], cs)
              && Next(x, cs) == Escaped(Hex2(w[1], w[2]), x[3..], cs)
  {
    hide Escaped, HexVal, Next, Hex2;
    if w[0] == PERCENT {
      SameWorth(w[1], x[1]);
      SameWorth(w[2], x[2]);
      SameByte(w[1], w[2], x[1], x[2]);
      EscapeIsNext(w, cs);
      EscapeIsNext(x, cs);
    } else {
      PlainIsNext(w, x, cs);
    }
  }

  lemma SameByte(a: byte, b: byte, c: byte, d: byte)
    requires IsXDigit(a) && IsXDigit(b) && IsXDigit(c) && IsXDigit(d) && HexVal(a) == HexVal(c)
        && HexVal(b) == HexVal(d)
    ensures Hex2(a, b) == Hex2(c, d)
  {
  }

  lemma EscapeIsNext(w: bytes, cs: Charset)
    requires |w| > 2 && w[0] == PERCENT && IsXDigit(w[1]) && IsXDigit(w[2])
    ensures Next(w, cs) == Escaped(Hex2(w[1], w[2]), w[3..], cs)
  {
    hide Escaped, Hex2;
  }

  lemma PlainIsNext(w: bytes, x: bytes, cs: Charset)
    requires w != [] && x != [] && x[0] == w[0] != PERCENT
    ensures Next(x, cs) == Next(w, cs) && Next(w, cs).Emit? && Next(w, cs).n == 1
  {
  }

  lemma RespelledEscape(c: byte, w: bytes, x: bytes, cs: Charset)
    requires Respelled(w, x)
    ensures Escaped(c, x, cs) == Escaped(c, w, cs) && !Escaped(c, w, cs).Wrong?
    ensures var t := Escaped(c, w, cs); t.Emit? ==> Respelled(w[t.n - 3..], x[t.n - 3..])
  {
    hide Fragment, IsEnc8, Conts, Respelled;
    assert w[0..] == w && x[0..] == x;
    SameLength(w, x);
    if 0xC0 <= c < 0xFE {
      RespelledConts(w, x, Lead(c));
      RespelledFragment(w, x);
    }
  }

  lemma SameLength(w: bytes, x: bytes)
    requires Respelled(w, x)
    ensures |w| == |x|
  {
  }

  /** Decoded the same, but for the spelling of what is left. */
  predicate Alike(a: Decoded, b: Decoded) {
    match a
    case Whole(out, cs) => b == a
    case Cut(out, cs, rest) => b.Cut? && b.out == out && b.cs == cs && Respelled(rest, b.rest)
    case Bad(_, _, _) => false
    case Unset => b == a
  }

  lemma AlikeBehind(o: bytes, a: Decoded, b: Decoded)
    requires Alike(a, b)
    ensures Alike(Behind(o, a), Behind(o, b))
  {
  }

  lemma {:induction false} RespelledDecodes(w: bytes, x: bytes, cs: Charset)
    requires Respelled(w, x)
    ensures Alike(Decode(w, cs), Decode(x, cs))
    decreases |w|
  {
    hide Next, Respelled, Alike, Decode;
    if w == [] {
      AlikeNone(w, x, cs);
    } else {
      SameLength(w, x);
      RespelledNext(w, x, cs);
      var t := Next(w, cs);
      DecodeToken(w, cs);
      DecodeToken(x, cs);
      match t {
        case Emit(o, n, c) =>
          RespelledDecodes(w[n..], x[n..], c);
          AlikeBehind(o, Decode(w[n..], c), Decode(x[n..], c));
        case Short(c) => AlikeCut(w, x, c);
        case Unwritten => AlikeUnset();
      }
    }
  }

  lemma DecodeToken(w: bytes, cs: Charset)
    requires w != []
    ensures var t := Next(w, cs);
      && (t.Emit? ==> Decode(w, cs) == Behind(t.out, Decode(w[t.n..], t.cs)))
      && (t.Short? ==> Decode(w, cs) == Cut([], t.cs, w)) && (t.Unwritten? ==> Decode(w, cs) == Unset)
  {
    hide Next;
  }

  lemma AlikeNone(w: bytes, x: bytes, cs: Charset)
    requires Respelled(w, x) && w == []
    ensures Alike(Decode(w, cs), Decode(x, cs))
  {
  }

  lemma AlikeCut(w: bytes, x: bytes, cs: Charset)
    requires Respelled(w, x)
    ensures Alike(Cut([], cs, w), Cut([], cs, x))
  {
  }

  lemma AlikeUnset()
    ensures Alike(Unset, Unset)
  {
  }

  lemma {:induction false} EncodeRespelled(s: bytes)
    ensures Respelled(Encode(s), Encode(s))
  {
    hide Enc, Hex2;
    if s != [] {
      var e, w := Encode(s[1..]), Encode(s);
      EncodeRespelled(s[1..]);
      if Unreserved(s[0]) || s[0] == SPACE {
        EncPlain(s[0]);
        assert w[0] == Enc(s[0])[0] && w[1..] == e;
      } else {
        EncHex(s[0]);
        assert w[3..] == e && w[0] == Enc(s[0])[0] && w[1] == Enc(s[0])[1] && w[2] == Enc(s[0])[2];
      }
    }
  }

  /** Encoded bytes with the digits of their escapes in whatever case decode as the bytes read by the
      charset rules. */
  lemma DecodeEitherCase(s: bytes, x: bytes, cs: Charset)
    requires Respelled(Encode(s), x)
    ensures Alike(Judge(s, cs), Decode(x, cs))
  {
    hide Respelled, Alike, Judge, Decode, Encode;
    DecodeEncoded(s, cs);
    RespelledDecodes(Encode(s), x, cs);
  }
}

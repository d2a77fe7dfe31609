/** The character classes, spelled out. */
module Characters {
  import opened Bytes
  import opened Attributes
  import opened UrlCodec
  import opened UrlEscapes
  import opened QueryStrings
  import Cp1252
  import MultipartSpec
  import MultipartRoundTrip

  /** The separators of section 2.2 of RFC 2616. */
  const SEPARATORS := Ascii("()<>@,;:\\\"/[]?={} \t")

  /** The bytes that structure what is parsed. */
  lemma Marks()
    ensures [AMP, EQUALS, PERCENT, PLUS, SEMI, COMMA, DOLLAR, DASH] == Ascii("&=%+;,$-")
    ensures [COLON, DQUOTE, BACKSLASH, SPACE, TAB, CR, LF] == Ascii(":\"\\ \t\r\n")
    ensures CRLF == Ascii("\r\n") && DASHES == Ascii("--")
  {
  }

  /** A token of RFC 2616, or bytes beyond ASCII, which the library takes for parts of one. */
  lemma TokenSet(c: byte)
    ensures IsToken(c) <==> 32 <= c != 127 && c !in SEPARATORS
  {
    assert SEPARATORS == [40, 41, 60, 62, 64, 44, 59, 58, 92, 34, 47, 91, 93, 63, 61, 123, 125, 32, 9];
  }

  /** What stands between the words of a query string, and what ends an attribute that is not quoted. */
  lemma Delimiters(c: byte)
    ensures IsSep(c) <==> c in Ascii("&;")
    ensures EndsValue(c) <==> c in Ascii(" \t\r\n;,")
  {
    assert Ascii("&;") == [38, 59] && Ascii(" \t\r\n;,") == [32, 9, 13, 10, 59, 44];
  }

  /** The blanks of C, and those of a header line. */
  lemma Blanks(c: byte)
    ensures IsSpace(c) <==> c in Ascii(" \t\n\r") + [11, 12]
    ensures IsBlank(c) <==> c in Ascii(" \t")
  {
    assert Ascii(" \t\n\r") == [32, 9, 10, 13] && Ascii(" \t") == [32, 9];
  }

  /** Only the letters have two cases. */
  lemma Cases(c: byte)
    ensures ToLower(c) != c <==> c in UPPER_LETTERS
    ensures forall n :: 0 <= n < 26 ==> ToLower(UPPER_LETTERS[n]) == LOWER_LETTERS[n]
  {
    hide Ascii;
    Letters(c);
    LetterAt();
  }

  /** The digits of an escape, and those a continuation byte begins with. */
  lemma Digits(c: byte)
    ensures IsXDigit(c) <==> c in LOWER_DIGITS || c in UPPER_DIGITS
    ensures Is89AB(c) <==> IsXDigit(c) && HexVal(c) / 4 == 2
    ensures IsU(c) <==> c in Ascii("uU")
  {
    assert LOWER_DIGITS == [48, 49, 50, 51, 52, 53, 54, 55, 56, 57, 97, 98, 99, 100, 101, 102];
    assert UPPER_DIGITS == [48, 49, 50, 51, 52, 53, 54, 55, 56, 57, 65, 66, 67, 68, 69, 70];
    assert Ascii("uU") == [117, 85];
  }

  function Pow2(n: nat): nat { if n == 0 then 1 else 2 * Pow2(n - 1) }

  /** As many continuation bytes follow a lead byte as it has one bits in front of its first zero, but
      for the first: section 3 of RFC 3629, and the sequences of five and six bytes of RFC 2279. */
  lemma LeadBits(c: byte)
    requires 0xC0 <= c < 0xFE
    ensures var k := Lead(c); c / Pow2(6 - k) == Pow2(k + 2) - 2
  {
    assert Pow2(1) == 2 && Pow2(2) == 4 && Pow2(3) == 8 && Pow2(4) == 16;
    assert Pow2(5) == 32 && Pow2(6) == 64 && Pow2(7) == 128;
  }

  /** What Windows-1252 has in place of control characters. */
  const CP1252 := "€\U{81}‚ƒ„…†‡ˆ‰Š‹Œ\U{8D}Ž\U{8F}\U{90}‘’“”•–—˜™š›œ\U{9D}žŸ"

  lemma Cp1252Table(c: byte)
    requires 0x80 <= c < 0xA0
    ensures Cp1252.ToUnicode(c) == CP1252[c - 0x80] as int
  {
  }

  /** Section 5.1.1 of RFC 2046: a delimiter, the one of the first part, and the end of the closing one. */
  lemma MultipartDelimiter(e: MultipartSpec.Entity, end: bytes)
    ensures e.Delimiter() == Ascii("\r\n--") + e.token && e.Dash() == Ascii("--") + e.token
    ensures MultipartRoundTrip.Close(end) == Ascii("--\r\n") + end
  {
    Marks();
    assert Ascii("\r\n--") == CRLF + DASHES && Ascii("--\r\n") == DASHES + CRLF;
  }
}

/** Windows-1252 text as UTF-8: cp1252_to_bmp and apreq_cp1252_to_utf8. */
module Cp1252 {
  import opened Bytes
  import opened Sequences
  import opened UrlCodec

  /** cp1252_to_bmp: only 0x80-0x9F differ from ISO 8859-1, and five of them stand for themselves. */
  function ToUnicode(c: byte): (u: nat)
    ensures u < 0x10000
  {
    if c < 0x80 || c > 0x9F then c
    else
      match c
      case 0x80 => 0x20AC
      case 0x82 => 0x201A
      case 0x83 => 0x192
      case 0x84 => 0x201E
      case 0x85 => 0x2026
      case 0x86 => 0x2020
      case 0x87 => 0x2021
      case 0x88 => 0x2C6
      case 0x89 => 0x2030
      case 0x8A => 0x160
      case 0x8B => 0x2039
      case 0x8C => 0x152
      case 0x8E => 0x17D
      case 0x91 => 0x2018
      case 0x92 => 0x2019
      case 0x93 => 0x201C
      case 0x94 => 0x201D
      case 0x95 => 0x2022
      case 0x96 => 0x2013
      case 0x97 => 0x2014
      case 0x98 => 0x2DC
      case 0x99 => 0x2122
      case 0x9A => 0x161
      case 0x9B => 0x203A
      case 0x9C => 0x153
      case 0x9E => 0x17E
      case 0x9F => 0x178
      case _ => c
  }

  /** The inverse, on the code points Windows-1252 has. */
  function FromUnicode(u: nat): (c: byte) {
    if u == 0x20AC then 0x80 else if u == 0x201A then 0x82 else if u == 0x192 then 0x83 else if u == 0x201E then 0x84
    else if u == 0x2026 then 0x85 else if u == 0x2020 then 0x86 else if u == 0x2021 then 0x87
    else if u == 0x2C6 then 0x88
    else if u == 0x2030 then 0x89 else if u == 0x160 then 0x8A else if u == 0x2039 then 0x8B
    else if u == 0x152 then 0x8C
    else if u == 0x17D then 0x8E else if u == 0x2018 then 0x91 else if u == 0x2019 then 0x92
    else if u == 0x201C then 0x93
    else if u == 0x201D then 0x94 else if u == 0x2022 then 0x95 else if u == 0x2013 then 0x96
    else if u == 0x2014 then 0x97
    else if u == 0x2DC then 0x98 else if u == 0x2122 then 0x99 else if u == 0x161 then 0x9A
    else if u == 0x203A then 0x9B
    else if u == 0x153 then 0x9C else if u == 0x17E then 0x9E else if u == 0x178 then 0x9F
    else if u < 256 then u else 0
  }

  /** No two bytes are one character. */
  lemma UnicodeInverse(c: byte)
    ensures FromUnicode(ToUnicode(c)) == c
    ensures !(0xD800 <= ToUnicode(c) < 0xE000)
  {
  }

  function CodePoints(s: bytes): (u: seq<nat>)
    ensures |u| == |s| && forall i :: 0 <= i < |s| ==> u[i] == ToUnicode(s[i])
  {
    seq(|s|, i requires 0 <= i < |s| => ToUnicode(s[i]))
  }

  function Convert(s: bytes): (d: bytes)
    ensures |s| <= |d| <= 3 * |s|
  {
    if s == [] then [] else Utf8(ToUnicode(s[0])) + Convert(s[1..])
  }

  lemma {:induction false} ConvertSnoc(s: bytes, c: byte)
    ensures Convert(s + [c]) == Convert(s) + Utf8(ToUnicode(c))
  {
    hide ToUnicode, Utf8;
    var t := s + [c];
    if s == [] {
      assert t[1..] == [];
    } else {
      assert t[1..] == s[1..] + [c];
      ConvertSnoc(s[1..], c);
      Regroup(Utf8(ToUnicode(s[0])), Convert(s[1..]), Utf8(ToUnicode(c)));
    }
  }

  /** One character of UTF-8 of at most three bytes, in its shortest form and no surrogate:
      section 4 of RFC 3629. */
  datatype Char = Char(u: nat, n: nat) | Malformed

  predicate Trails(c: byte) { 0x80 <= c < 0xC0 }

  function Bits(c: byte, tag: nat): nat
    requires tag <= c
  {
    c - tag
  }

  function ReadChar(s: bytes): (r: Char)
    requires s != []
    ensures r.Char? ==> 1 <= r.n <= |s|
  {
    if s[0] < 0x80 then Char(s[0], 1)
    else if 0xC2 <= s[0] < 0xE0 && |s| >= 2 && Trails(s[1]) then Char(Bits(s[0], 0xC0) * 64 + Bits(s[1], 0x80), 2)
    else if 0xE0 <= s[0] < 0xF0 && |s| >= 3 && Trails(s[1]) && Trails(s[2]) then
      var u := Bits(s[0], 0xE0) * 4096 + Bits(s[1], 0x80) * 64 + Bits(s[2], 0x80);
      if u < 0x800 || 0xD800 <= u < 0xE000 then Malformed else Char(u, 3)
    else Malformed
  }

  datatype Text = WellFormed(u: seq<nat>) | IllFormed

  function ReadText(s: bytes): Text
    decreases |s|
  {
    if s == [] then WellFormed([])
    else
      match ReadChar(s)
      case Malformed => IllFormed
      case Char(u, n) =>
        (match ReadText(s[n..])
         case IllFormed => IllFormed
         case WellFormed(us) => WellFormed([u] + us))
  }

  lemma ReadUtf8(u: nat, tail: bytes)
    requires u < 0x10000 && !(0xD800 <= u < 0xE000)
    ensures Utf8(u) + tail != [] && ReadChar(Utf8(u) + tail) == Char(u, |Utf8(u)|)
        && (Utf8(u) + tail)[|Utf8(u)|..] == tail
  {
    var s := Utf8(u) + tail;
    assert forall i :: 0 <= i < |Utf8(u)| ==> s[i] == Utf8(u)[i];
    if u >= 0x800 {
      assert u == u / 4096 * 4096 + u / 64 % 64 * 64 + u % 64;
    }
  }

  /** The output is well-formed UTF-8 for exactly the characters of the input. */
  lemma {:induction false} ConvertFaithful(s: bytes)
    ensures ReadText(Convert(s)) == WellFormed(CodePoints(s))
  {
    hide ReadChar, Utf8, ToUnicode;
    if s == [] {
    } else {
      UnicodeInverse(s[0]);
      ConvertFaithful(s[1..]);
      ReadUtf8(ToUnicode(s[0]), Convert(s[1..]));
      assert CodePoints(s) == [ToUnicode(s[0])] + CodePoints(s[1..]);
    }
  }

  /** So no two texts are converted to the same bytes. */
  lemma ConvertInjective(s: bytes, t: bytes)
    requires Convert(s) == Convert(t)
    ensures s == t
  {
    hide ToUnicode, FromUnicode, Convert, ReadText;
    ConvertFaithful(s);
    ConvertFaithful(t);
    assert CodePoints(s) == CodePoints(t);
    forall i | 0 <= i < |s| ensures s[i] == t[i] {
      UnicodeInverse(s[i]);
      UnicodeInverse(t[i]);
      assert CodePoints(s)[i] == CodePoints(t)[i];
    }
  }

  /** apreq_cp1252_to_utf8. */
  method ToUtf8(dest: array<byte>, src: bytes) returns (dlen: nat)
    requires dest.Length > 3 * |src|
    modifies dest
    ensures dlen < dest.Length && dest[..dlen] == Convert(src) && dest[dlen] == NUL
  {
    hide Convert, Utf8, ToUnicode;
    dlen := 0;
    var i := 0;
    assert src[..0] == [] && Convert([]) == [] by { ConvertNone(); }
    while i < |src|
      invariant 0 <= i <= |src| && dlen <= 3 * i && dest[..dlen] == Convert(src[..i])
    {
      assert src[..i + 1] == src[..i] + [src[i]];
      ConvertSnoc(src[..i], src[i]);
      dlen := PutChar(dest, dlen, ToUnicode(src[i]));
      i := i + 1;
    }
    assert src[..|src|] == src;
    dest[dlen] := NUL;
  }

  lemma ConvertNone()
    ensures Convert([]) == []
  {
  }

  method PutChar(dest: array<byte>, d: nat, u: nat) returns (d': nat)
    requires d + 3 <= dest.Length && u < 0x10000
    modifies dest
    ensures d' == d + |Utf8(u)| && dest[..d'] == old(dest[..d]) + Utf8(u)
  {
    if u < 0x80 {
      dest[d] := u;
      d' := d + 1;
    } else if u < 0x800 {
      dest[d] := 0xC0 + u / 64;
      dest[d + 1] := 0x80 + u % 64;
      d' := d + 2;
    } else {
      dest[d] := 0xE0 + u / 4096;
      dest[d + 1] := 0x80 + u / 64 % 64;
      dest[d + 2] := 0x80 + u % 64;
      d' := d + 3;
    }
    assert dest[..d'] == dest[..d] + dest[d..d'];
  }
}

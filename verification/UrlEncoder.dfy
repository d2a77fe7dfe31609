/** The encoder, and what the decoder makes of its output. */
module UrlEncoder {
  import opened Bytes
  import opened Sequences
  import opened UrlCodec

  /** Section 2.3 of RFC 3986. */
  predicate Unreserved(c: byte) { IsAlnum(c) || c == DASH || c == 46 || c == 95 || c == 126 }

  function HexDigit(n: nat): (c: byte)
    requires n < 16
    ensures IsXDigit(c) && HexVal(c) == n
  {
    if n < 10 then 48 + n else 55 + n
  }

  function Enc(c: byte): (e: bytes)
    ensures 1 <= |e| <= 3
  {
    if Unreserved(c) then [c]
    else if c == SPACE then [PLUS]
    else [PERCENT, HexDigit(c / 16), HexDigit(c % 16)]
  }

  function Encode(s: bytes): (e: bytes)
    ensures |s| <= |e| <= 3 * |s|
  {
    if s == [] then [] else Enc(s[0]) + Encode(s[1..])
  }

  lemma {:induction false} EncodeAppend(a: bytes, b: bytes)
    ensures Encode(a + b) == Encode(a) + Encode(b)
  {
    if a == [] {
      assert a + b == b;
    } else {
      assert (a + b)[1..] == a[1..] + b;
      EncodeAppend(a[1..], b);
      Regroup(Enc(a[0]), Encode(a[1..]), Encode(b));
    }
  }

  /** apreq_encode, from src to a destination elsewhere. */
  method ApreqEncode(mem: array<byte>, dest: nat, src: nat, slen: nat) returns (dlen: nat)
    requires src + slen <= mem.Length && dest + 3 * slen < mem.Length
    requires src + slen <= dest || dest + 3 * slen < src
    modifies mem
    ensures dlen <= 3 * slen && mem[dest..dest + dlen] == Encode(old(mem[src..src + slen])) && mem[dest + dlen] == NUL
    ensures forall i :: 0 <= i < mem.Length && !(dest <= i <= dest + dlen) ==> mem[i] == old(mem[i])
  {
    hide Encode, Enc;
    ghost var w := mem[src..src + slen];
    var i := 0;
    dlen := 0;
    EncodeNone(w);
    while i < slen
      invariant 0 <= i <= slen && dlen <= 3 * i
      invariant mem[dest..dest + dlen] == Encode(w[..i])
      invariant forall k :: 0 <= k < mem.Length && !(dest <= k < dest + dlen) ==> mem[k] == old(mem[k])
    {
      EncodeSnoc(w, i);
      assert mem[src + i] == w[i];
      dlen := PutByte(mem, dest, dlen, mem[src + i]);
      i := i + 1;
    }
    assert w[..slen] == w;
    mem[dest + dlen] := NUL;
  }

  method PutByte(mem: array<byte>, dest: nat, dlen: nat, c: byte) returns (dlen': nat)
    requires dest + dlen + 3 <= mem.Length
    modifies mem
    ensures dlen' == dlen + |Enc(c)| && mem[dest..dest + dlen'] == old(mem[dest..dest + dlen]) + Enc(c)
    ensures forall k :: 0 <= k < mem.Length && !(dest + dlen <= k < dest + dlen') ==> mem[k] == old(mem[k])
  {
    hide Unreserved;
    var d := dest + dlen;
    if Unreserved(c) {
      mem[d] := c;
      dlen' := dlen + 1;
    } else if c == SPACE {
      mem[d] := PLUS;
      dlen' := dlen + 1;
    } else {
      mem[d] := PERCENT;
      mem[d + 1] := HexDigit(c / 16);
      mem[d + 2] := HexDigit(c % 16);
      dlen' := dlen + 3;
    }
    assert mem[dest..dest + dlen'] == mem[dest..d] + mem[d..dest + dlen'];
  }

  lemma EncodeNone(w: bytes)
    ensures Encode(w[..0]) == []
  {
  }

  lemma EncodeSnoc(w: bytes, i: nat)
    requires i < |w|
    ensures Encode(w[..i + 1]) == Encode(w[..i]) + Enc(w[i])
  {
    assert w[..i + 1] == w[..i] + [w[i]];
    EncodeAppend(w[..i], [w[i]]);
    assert [w[i]][1..] == [];
  }

  /* ---- Decoding what was encoded ---- */

  predicate IsCont(c: byte) { 0x80 <= c < 0xC0 }

  predicate Continued(s: bytes, n: nat) { n <= |s| && forall i :: 0 <= i < n ==> IsCont(s[i]) }

  /** How the charset rules read plain bytes, with no escapes in between. */
  function Judge(s: bytes, cs: Charset): Decoded
    decreases |s|
  {
    if s == [] then Whole([], cs)
    else
      var c := s[0];
      if c < 0x80 || cs == CsCp1252 then Behind([c], Judge(s[1..], cs))
      else if c < 0xA0 then Behind([c], Judge(s[1..], CsCp1252))
      else if c < 0xC0 || cs == CsLatin1 then Behind([c], Judge(s[1..], CsLatin1))
      else if c < 0xFE then
        var k := Lead(c);
        if Continued(s[1..], k) then Behind(s[..1 + k], Judge(s[1 + k..], CsUtf8))
        else if |s| <= k && Continued(s[1..], |s| - 1) then Cut([], CsUtf8, Encode(s))
        else Behind([c], Judge(s[1..], CsLatin1))
      else Unset
  }

  lemma EncHex(c: byte)
    requires !Unreserved(c) && c != SPACE
    ensures var e := Enc(c); |e| == 3 && e[0] == PERCENT && IsXDigit(e[1]) && IsXDigit(e[2]) && Hex2(e[1], e[2]) == c
    ensures Is89AB(Enc(c)[1]) <==> IsCont(c)
  {
  }

  lemma EncPlain(c: byte)
    requires Unreserved(c) || c == SPACE
    ensures |Enc(c)| == 1 && Enc(c)[0] != PERCENT && c < 0x80 && !IsCont(c)
    ensures c == SPACE ==> Enc(c)[0] == PLUS
    ensures c != SPACE ==> Enc(c)[0] == c && c != PLUS
  {
  }

  /** Escaped continuation bytes are continuation bytes escaped. */
  lemma {:induction false} EncodedConts(s: bytes, n: nat)
    ensures IsEnc8(Encode(s), n) <==> Continued(s, n)
    ensures Continued(s, n) ==>
              Conts(Encode(s), n) == s[..n] && 3 * n <= |Encode(s)| && Encode(s)[3 * n..] == Encode(s[n..])
  {
    hide Enc, Hex2;
    if n == 0 {
      assert s[0..] == s;
    } else if s != [] {
      var e, w := Encode(s[1..]), Encode(s);
      if Unreserved(s[0]) || s[0] == SPACE {
        EncPlain(s[0]);
        assert w[0] == Enc(s[0])[0];
      } else {
        EncHex(s[0]);
        assert w[3..] == e && w[0] == Enc(s[0])[0] && w[1] == Enc(s[0])[1] && w[2] == Enc(s[0])[2];
        EncodedConts(s[1..], n - 1);
        assert Continued(s, n) <==> IsCont(s[0]) && Continued(s[1..], n - 1) by { ContinuedStep(s, n); }
        if Continued(s, n) {
          assert s[1..][n - 1..] == s[n..] && [s[0]] + s[1..][..n - 1] == s[..n];
          assert w[3..][3 * (n - 1)..] == w[3 * n..];
        }
      }
    }
  }

  lemma ContinuedStep(s: bytes, n: nat)
    requires s != [] && n > 0
    ensures Continued(s, n) <==> IsCont(s[0]) && Continued(s[1..], n - 1)
  {
    if IsCont(s[0]) && Continued(s[1..], n - 1) {
      forall i | 0 <= i < n ensures IsCont(s[i]) {
        if i > 0 { assert IsCont(s[1..][i - 1]); }
      }
    }
    if Continued(s, n) {
      forall i | 0 <= i < n - 1 ensures IsCont(s[1..][i]) { assert IsCont(s[i + 1]); }
    }
  }

  lemma {:induction false} EncodedFragment(s: bytes)
    ensures Fragment(Encode(s)) <==> Continued(s, |s|)
  {
    hide Enc;
    if s != [] {
      var e, w := Encode(s[1..]), Encode(s);
      ContinuedStep(s, |s|);
      if Unreserved(s[0]) || s[0] == SPACE {
        EncPlain(s[0]);
        assert w[0] == Enc(s[0])[0];
      } else {
        EncHex(s[0]);
        assert w[3..] == e && w[0] == Enc(s[0])[0] && w[1] == Enc(s[0])[1] && w[2] == Enc(s[0])[2];
        EncodedFragment(s[1..]);
        assert IsEnc8(w, 1) <==> Is89AB(w[1]) by { assert IsEnc8(w[3..], 0); }
      }
    }
  }

  /** An escaped lead byte, and what follows it. */
  lemma LeadEncoded(s: bytes, cs: Charset)
    requires s != [] && 0xC0 <= s[0] < 0xFE && (cs == CsAscii || cs == CsUtf8)
    ensures var t, k := Escaped(s[0], Encode(s[1..]), cs), Lead(s[0]);
      && (Continued(s[1..], k) ==>
            t == Emit(s[..1 + k], 3 + 3 * k, CsUtf8) && Encode(s[1..])[3 * k..] == Encode(s[1 + k..]))
      && (!Continued(s[1..], k) && |s| <= k && Continued(s[1..], |s| - 1) ==> t == Short(CsUtf8))
      && (!Continued(s[1..], k) && !(|s| <= k && Continued(s[1..], |s| - 1)) ==> t == Emit([s[0]], 3, CsLatin1))
  {
    hide IsEnc8, Fragment, Encode, Enc, Conts;
    var k, tail := Lead(s[0]), Encode(s[1..]);
    EncodedConts(s[1..], k);
    EncodedFragment(s[1..]);
    ContinuedLength(s[1..]);
    if Continued(s[1..], k) {
      assert [s[0]] + s[1..][..k] == s[..1 + k] && s[1..][k..] == s[1 + k..];
    }
  }

  lemma ContinuedLength(s: bytes)
    ensures Continued(s, |s|) ==> |Encode(s)| == 3 * |s|
  {
    EncodedConts(s, |s|);
  }

  /** The first token of encoded text. */
  lemma NextEncoded(s: bytes, cs: Charset)
    requires s != []
    ensures var w, tail := Encode(s), Encode(s[1..]);
      w != [] && w == Enc(s[0]) + tail
      && Next(w, cs) == if Unreserved(s[0]) || s[0] == SPACE then Emit([s[0]], 1, cs) else Escaped(s[0], tail, cs)
    ensures Encode(s)[|Enc(s[0])|..] == Encode(s[1..])
  {
    hide Enc, Escaped, Hex2;
    var w, tail := Encode(s), Encode(s[1..]);
    if Unreserved(s[0]) || s[0] == SPACE {
      EncPlain(s[0]);
      assert w[0] == Enc(s[0])[0];
    } else {
      EncHex(s[0]);
      assert w[3..] == tail && w[0] == Enc(s[0])[0] && w[1] == Enc(s[0])[1] && w[2] == Enc(s[0])[2];
    }
  }

  /** Decoding encoded bytes is reading the bytes themselves by the charset rules: the escapes
      change nothing. */
  lemma {:induction false} DecodeEncoded(s: bytes, cs: Charset)
    ensures Decode(Encode(s), cs) == Judge(s, cs)
    decreases |s|
  {
    hide Encode, Enc, Next, Continued, Decode, Judge, Escaped, Behind;
    if s == [] {
      EncodeNone(s);
      assert s[..0] == s;
      EmptyDecode(cs);
      JudgeNone(cs);
    } else {
      var c, w, tail := s[0], Encode(s), Encode(s[1..]);
      NextEncoded(s, cs);
      EncSize(c);
      if Alone(c, cs) {
        DecodeEncoded(s[1..], Guess(c, cs));
        EscapedAlone(c, tail, cs);
        JudgeAlone(s, cs);
        if Unreserved(c) || c == SPACE { EncPlain(c); }
        DecodeEmit(w, cs, tail);
      } else if c < 0xFE {
        var k := Lead(c);
        if Continued(s[1..], k) {
          ContinuedFits(s[1..], k);
          DecodeEncoded(s[1 + k..], CsUtf8);
        } else {
          DecodeEncoded(s[1..], CsLatin1);
        }
        DecodeLead(s, cs);
      } else {
        DecodeBom(s, cs);
      }
    }
  }

  /** A byte the charset rules take by itself, and the guess behind it. */
  predicate Alone(c: byte, cs: Charset) { c < 0xC0 || cs == CsLatin1 || cs == CsCp1252 }

  function Guess(c: byte, cs: Charset): Charset {
    if c < 0x80 || cs == CsCp1252 then cs else if c < 0xA0 then CsCp1252 else CsLatin1
  }

  lemma EscapedAlone(c: byte, tail: bytes, cs: Charset)
    ensures Alone(c, cs) ==> Escaped(c, tail, cs) == Emit([c], 3, Guess(c, cs))
  {
  }

  lemma JudgeAlone(s: bytes, cs: Charset)
    requires s != [] && Alone(s[0], cs)
    ensures Judge(s, cs) == Behind([s[0]], Judge(s[1..], Guess(s[0], cs)))
  {
  }

  lemma JudgeNone(cs: Charset)
    ensures Judge([], cs) == Whole([], cs)
  {
  }

  /** %FE and %FF leave a byte unset. */
  lemma DecodeBom(s: bytes, cs: Charset)
    requires s != [] && s[0] >= 0xFE && !Alone(s[0], cs)
    ensures Decode(Encode(s), cs) == Unset && Judge(s, cs) == Unset
  {
    hide Encode, Enc, Next;
    NextEncoded(s, cs);
    assert Next(Encode(s), cs) == Unwritten;
  }

  /** A lead byte is read like what stands behind it. */
  lemma DecodeLead(s: bytes, cs: Charset)
    requires s != [] && 0xC0 <= s[0] < 0xFE && (cs == CsAscii || cs == CsUtf8)
    requires var k := Lead(s[0]);
      if Continued(s[1..], k) then Decode(Encode(s[1 + k..]), CsUtf8) == Judge(s[1 + k..], CsUtf8)
      else Decode(Encode(s[1..]), CsLatin1) == Judge(s[1..], CsLatin1)
    ensures Decode(Encode(s), cs) == Judge(s, cs)
  {
    hide Encode, Enc, Next, Continued, Decode, Escaped, Judge, Lead;
    var k, w, tail := Lead(s[0]), Encode(s), Encode(s[1..]);
    NextEncoded(s, cs);
    EncSize(s[0]);
    LeadEncoded(s, cs);
    JudgeLead(s, cs);
    if Continued(s[1..], k) {
      DecodeSequence(s, cs);
    } else {
      DecodeEmit(w, cs, tail);
      DecodeShort(w, cs);
    }
  }

  lemma DecodeSequence(s: bytes, cs: Charset)
    requires s != [] && 0xC0 <= s[0] < 0xFE && Continued(s[1..], Lead(s[0]))
    requires Next(Encode(s), cs) == Emit(s[..1 + Lead(s[0])], 3 + 3 * Lead(s[0]), CsUtf8)
    ensures Decode(Encode(s), cs) == Behind(s[..1 + Lead(s[0])], Decode(Encode(s[1 + Lead(s[0])..]), CsUtf8))
  {
    hide Enc, Next, Decode, Encode;
    var k, w, tail := Lead(s[0]), Encode(s), Encode(s[1..]);
    NextEncoded(s, cs);
    EncSize(s[0]);
    EncodedConts(s[1..], k);
    assert s[1..][k..] == s[1 + k..];
    assert w[3 + 3 * k..] == tail[3 * k..];
    DecodeEmit(w, cs, tail[3 * k..]);
  }

  lemma JudgeLead(s: bytes, cs: Charset)
    requires s != [] && 0xC0 <= s[0] < 0xFE && (cs == CsAscii || cs == CsUtf8)
    ensures var k := Lead(s[0]);
      Judge(s, cs) == if Continued(s[1..], k) then Behind(s[..1 + k], Judge(s[1 + k..], CsUtf8))
                      else if |s| <= k && Continued(s[1..], |s| - 1) then Cut([], CsUtf8, Encode(s))
                      else Behind([s[0]], Judge(s[1..], CsLatin1))
  {
  }

  lemma ContinuedFits(s: bytes, n: nat)
    requires Continued(s, n)
    ensures n <= |s| && 3 * n <= |Encode(s)|
  {
    EncodedConts(s, n);
  }

  lemma EncSize(c: byte)
    ensures |Enc(c)| == if Unreserved(c) || c == SPACE then 1 else 3
  {
  }

  lemma EmptyDecode(cs: Charset)
    ensures Decode([], cs) == Whole([], cs)
  {
  }

  /** A lead byte at k, and then continuation bytes, too few, up to the end. */
  ghost predicate TruncatedAt(s: bytes, k: nat) {
    k < |s| && 0xC0 <= s[k] < 0xFE && |s| - k - 1 < Lead(s[k]) && Continued(s[k + 1..], |s| - k - 1)
  }

  /** What was read is s, or the part of s in front of a truncated sequence. */
  ghost predicate ReadsBack(s: bytes, r: Decoded) {
    || (r.Whole? && r.out == s)
    || (r.Cut? && r.out < s && r.rest == Encode(s[|r.out|..]) && TruncatedAt(s, |r.out|))
  }

  lemma ReadsBehind(s: bytes, n: nat, r: Decoded)
    requires n <= |s| && ReadsBack(s[n..], r)
    ensures ReadsBack(s, Behind(s[..n], r))
  {
    hide Encode, TruncatedAt;
    var tail, front := s[n..], s[..n];
    assert s == front + tail;
    if r.Cut? {
      var k := |r.out|;
      DropDrop(s, n, k);
      TruncatedBehind(s, n, k);
      assert tail == r.out + tail[k..];
      Regroup(front, r.out, tail[k..]);
    }
  }

  lemma TruncatedBehind(s: bytes, n: nat, k: nat)
    requires n <= |s| && TruncatedAt(s[n..], k)
    ensures TruncatedAt(s, n + k)
  {
    assert s[n..][k] == s[n + k];
    DropDrop(s, n, k + 1);
  }

  lemma {:induction false} JudgeReads(s: bytes, cs: Charset)
    requires forall i :: 0 <= i < |s| ==> s[i] < 0xFE
    ensures ReadsBack(s, Judge(s, cs))
    decreases |s|
  {
    hide ReadsBack, Encode, Judge, Behind;
    if s == [] {
      JudgeNone(cs);
      NothingBack(cs);
    } else {
      var c := s[0];
      assert s[..1] == [c];
      if Alone(c, cs) {
        JudgeReads(s[1..], Guess(c, cs));
        ReadsBehind(s, 1, Judge(s[1..], Guess(c, cs)));
        JudgeAlone(s, cs);
      } else {
        JudgeLead(s, cs);
        var k := Lead(c);
        if Continued(s[1..], k) {
          JudgeReads(s[1 + k..], CsUtf8);
          ReadsBehind(s, 1 + k, Judge(s[1 + k..], CsUtf8));
        } else if |s| <= k && Continued(s[1..], |s| - 1) {
          CutBack(s);
        } else {
          JudgeReads(s[1..], CsLatin1);
          ReadsBehind(s, 1, Judge(s[1..], CsLatin1));
        }
      }
    }
  }

  lemma NothingBack(cs: Charset)
    ensures ReadsBack([], Whole([], cs))
  {
  }

  lemma CutBack(s: bytes)
    requires s != [] && 0xC0 <= s[0] < 0xFE && |s| <= Lead(s[0]) && Continued(s[1..], |s| - 1)
    ensures ReadsBack(s, Cut([], CsUtf8, Encode(s)))
  {
    assert s[0..] == s;
    assert TruncatedAt(s, 0);
  }

  /** Decoding what was encoded gives it back, or stops in front of a UTF-8 sequence that the end
      of the text cuts short, with just that left over. */
  lemma EncodeDecode(s: bytes, cs: Charset)
    requires forall i :: 0 <= i < |s| ==> s[i] < 0xFE
    ensures ReadsBack(s, Decode(Encode(s), cs))
  {
    hide ReadsBack, Judge, Decode, Encode;
    DecodeEncoded(s, cs);
    JudgeReads(s, cs);
  }

  /** ASCII and complete UTF-8 sequences. */
  predicate WellFormed(s: bytes)
    decreases |s|
  {
    || s == []
    || (s[0] < 0x80 && WellFormed(s[1..]))
    || (0xC0 <= s[0] < 0xFE && Continued(s[1..], Lead(s[0])) && WellFormed(s[1 + Lead(s[0])..]))
  }

  predicate AllAscii(s: bytes) { forall i :: 0 <= i < |s| ==> s[i] < 0x80 }

  /** Well-formed bytes come back whole, as ASCII or UTF-8. */
  lemma {:induction false} DecodeWellFormed(s: bytes, cs: Charset)
    requires WellFormed(s) && (cs == CsAscii || cs == CsUtf8)
    ensures Decode(Encode(s), cs) == Whole(s, if AllAscii(s) then cs else CsUtf8)
  {
    hide Decode, Encode, Judge;
    DecodeEncoded(s, cs);
    JudgeWellFormed(s, cs);
  }

  lemma {:induction false} JudgeWellFormed(s: bytes, cs: Charset)
    requires WellFormed(s) && (cs == CsAscii || cs == CsUtf8)
    ensures Judge(s, cs) == Whole(s, if AllAscii(s) then cs else CsUtf8)
    decreases |s|
  {
    hide Judge;
    if s == [] {
      JudgeNone(cs);
    } else if s[0] < 0x80 {
      JudgeWellFormed(s[1..], cs);
      JudgeAlone(s, cs);
      AsciiStep(s);
      assert [s[0]] + s[1..] == s;
    } else {
      var k := Lead(s[0]);
      JudgeWellFormed(s[1 + k..], CsUtf8);
      JudgeLead(s, cs);
      assert s[..1 + k] + s[1 + k..] == s;
    }
  }

  lemma AsciiStep(s: bytes)
    requires s != [] && s[0] < 0x80
    ensures AllAscii(s) <==> AllAscii(s[1..])
  {
    if AllAscii(s[1..]) {
      forall i | 0 <= i < |s| ensures s[i] < 0x80 { if i > 0 { assert s[1..][i - 1] < 0x80; } }
    }
  }
}

/** The decoder itself: one memory, in which source and destination may be the same bytes. */
module UrlDecoder {
  import opened Bytes
  import opened Statuses
  import opened UrlCodec
  import opened Memory

  lemma {:induction false} ContsAt(w: bytes, n: nat, j: nat)
    requires IsEnc8(w, n) && j < n
    ensures 3 * j + 2 < |w| && IsXDigit(w[3 * j + 1]) && IsXDigit(w[3 * j + 2])
    ensures Conts(w, n)[j] == Hex2(w[3 * j + 1], w[3 * j + 2])
  {
    if j > 0 {
      ContsAt(w[3..], n - 1, j - 1);
      assert w[3..][3 * (j - 1) + 1] == w[3 * j + 1] && w[3..][3 * (j - 1) + 2] == w[3 * j + 2];
    }
  }

  /** is_enc8. */
  method CheckEnc8(w: bytes, n: nat) returns (ok: bool)
    requires 3 * n <= |w|
    ensures ok <==> IsEnc8(w, n)
  {
    var i: nat, left: nat := 0, n;
    assert w[0..] == w;
    while left > 0
      invariant i == 3 * (n - left) && left <= n && i + 3 * left <= |w|
      invariant IsEnc8(w, n) <==> IsEnc8(w[i..], left)
    {
      assert w[i..][3..] == w[i + 3..];
      if w[i] != PERCENT || !Is89AB(w[i + 1]) || !IsXDigit(w[i + 2]) { return false; }
      i, left := i + 3, left - 1;
    }
    ok := true;
  }

  lemma {:induction false} FragmentParts(w: bytes)
    ensures var n := |w| / 3; var t := w[3 * n..];
      Fragment(w) <==> IsEnc8(w, n) && (|t| == 2 ==> Is89AB(t[1])) && (|t| >= 1 ==> t[0] == PERCENT)
  {
    if |w| >= 3 {
      FragmentParts(w[3..]);
      assert |w| / 3 == 1 + |w[3..]| / 3;
      assert w[3 * (|w| / 3)..] == w[3..][3 * (|w[3..]| / 3)..];
      assert IsEnc8(w, 1) <==> w[0] == PERCENT && Is89AB(w[1]) && IsXDigit(w[2]) by { assert IsEnc8(w[3..], 0); }
    } else {
      assert w[0..] == w;
    }
  }

  /** fragment_charset: does the text go on like UTF-8? */
  method CheckFragment(w: bytes) returns (utf8: bool)
    ensures utf8 <==> Fragment(w)
  {
    FragmentParts(w);
    var n := |w| / 3;
    utf8 := CheckEnc8(w, n);
    if !utf8 { return; }
    var end := |w|;
    if |w| % 3 == 2 {
      end := end - 1;
      if !Is89AB(w[end]) { return false; }
    }
    if |w| % 3 != 0 {
      end := end - 1;
      if w[end] != PERCENT { return false; }
    }
  }

  /** Write the k continuation bytes whose escapes w stand at s. */
  method WriteConts(mem: array<byte>, d: nat, s: nat, end: nat, k: nat, ghost w: bytes)
    requires At(mem[..], s, w) && s + |w| == end && d + k <= mem.Length && Clear(d, s, end) && IsEnc8(w, k)
        && 3 * k <= |w|
    modifies mem
    ensures At(mem[..], d, Conts(w, k)) && Kept(old(mem[..]), mem[..], d, d + k)
  {
    hide IsEnc8, Conts, Hex2;
    var j := 0;
    while j < k
      invariant 0 <= j <= k && forall i :: 0 <= i < j ==> mem[d + i] == Conts(w, k)[i]
      invariant forall i :: 0 <= i < mem.Length && !(d <= i < d + j) ==> mem[i] == old(mem[i])
    {
      ContsAt(w, k, j);
      assert w[3 * j + 1] == mem[s + 3 * j + 1] && w[3 * j + 2] == mem[s + 3 * j + 2];
      mem[d + j] := Hex2(mem[s + 3 * j + 1], mem[s + 3 * j + 2]);
      j := j + 1;
    }
  }

  datatype Verdict = Go | StopShort | StopBad

  /** What a step from (d, s) on has done with token t. */
  ghost predicate Done(m: bytes, m2: bytes, t: Token, d: nat, s: nat, v: Verdict, d': nat, s': nat, cs: Charset,
      cs': Charset) {
    match t
    case Emit(o, n, c) => v == Go && s' == s + n && d' == d + |o| && At(m2, d, o) && cs' == c && Kept(m, m2, d, d')
    case Short(c) => v == StopShort && d' == d && s' == s && cs' == c && m2 == m
    case Wrong => v == StopBad && d' == d && s' == s && cs' == cs && m2 == m
    case Unwritten => v == Go && d' == d + 1 && s' == s + 3 && cs' == CsUtf8 && m2 == m
  }

  /** One byte written. */
  method Put(mem: array<byte>, d: nat, c: byte)
    requires d < mem.Length
    modifies mem
    ensures At(mem[..], d, [c]) && Kept(old(mem[..]), mem[..], d, d + 1) && mem[d] == c
  {
    mem[d] := c;
  }

  /** A lead byte c, escaped at s, in front of `tail`. */
  method StepLead(mem: array<byte>, d: nat, s: nat, end: nat, cs: Charset, c: byte, ghost tail: bytes)
    returns (v: Verdict, d': nat, s': nat, cs': Charset)
    requires At(mem[..], s + 3, tail) && s + 3 + |tail| == end && d + (end - s) <= mem.Length && Clear(d, s, end)
    requires 0xC0 <= c < 0xFE && cs != CsCp1252 && cs != CsLatin1
    modifies mem
    ensures Done(old(mem[..]), mem[..], Escaped(c, tail, cs), d, s, v, d', s', cs, cs')
  {
    hide Fragment, IsEnc8, Conts, Hex2, At, Kept;
    ghost var m := mem[..];
    var k := Lead(c);
    v, d', s', cs' := Go, d + 1, s + 3, CsLatin1;
    AtFits(m, s + 3, tail);
    AtIs(m, s + 3, tail);
    assert mem[s + 3..end] == m[s + 3..end];
    if end - (s + 3) < 3 * k {
      var utf8 := CheckFragment(mem[s + 3..end]);
      if utf8 { return StopShort, d, s, CsUtf8; }
      Put(mem, d, c);
      return;
    }
    var enc8 := CheckEnc8(mem[s + 3..end], k);
    Put(mem, d, c);
    if enc8 {
      ghost var m1 := mem[..];
      AtKept(m, m1, d, d + 1, s + 3, tail);
      WriteConts(mem, d + 1, s + 3, end, k, tail);
      AtKept(m1, mem[..], d + 1, d + 1 + k, d, [c]);
      AtJoin(mem[..], d, [c], Conts(tail, k));
      KeptTrans(m, m1, mem[..], d, d + 1, d + 1, d + 1 + k);
      d', s', cs' := d + 1 + k, s + 3 + 3 * k, CsUtf8;
    }
  }

  /** An escaped byte. */
  method StepEscape(mem: array<byte>, d: nat, s: nat, end: nat, cs: Charset, c: byte, ghost tail: bytes)
    returns (v: Verdict, d': nat, s': nat, cs': Charset)
    requires At(mem[..], s + 3, tail) && s + 3 + |tail| == end && d + (end - s) <= mem.Length && Clear(d, s, end)
    modifies mem
    ensures Done(old(mem[..]), mem[..], Escaped(c, tail, cs), d, s, v, d', s', cs, cs')
  {
    hide At, Kept;
    v, d', s', cs' := Go, d + 1, s + 3, cs;
    if c < 0x80 || cs == CsCp1252 {
      Put(mem, d, c);
    } else if c < 0xA0 {
      cs' := CsCp1252;
      Put(mem, d, c);
    } else if c < 0xC0 {
      cs' := CsLatin1;
      Put(mem, d, c);
    } else if cs == CsLatin1 {
      Put(mem, d, c);
    } else if c < 0xFE {
      v, d', s', cs' := StepLead(mem, d, s, end, cs, c, tail);
    } else {
      cs' := CsUtf8;
    }
  }

  /** A code point written out as UTF-8. */
  method WriteUtf8(mem: array<byte>, d: nat, u: nat) returns (d': nat)
    requires u < 0x10000 && d + 3 <= mem.Length
    modifies mem
    ensures d' == d + |Utf8(u)| && At(mem[..], d, Utf8(u)) && Kept(old(mem[..]), mem[..], d, d')
  {
    if u < 0x80 {
      mem[d] := u;
      d' := d + 1;
    } else if u < 0x800 {
      mem[d] := 0xC0 + u / 64;
      mem[d + 1] := 0x80 + u % 64;
      d' := d + 2;
    } else {
      mem[d] := 0xE0 + u / 4096;
      mem[d + 1] := 0x80 + u / 64 % 64;
      mem[d + 2] := 0x80 + u % 64;
      d' := d + 3;
    }
  }

  /** One turn of the loop of url_decode, at the text w. */
  method Step(mem: array<byte>, d: nat, s: nat, end: nat, cs: Charset, ghost w: bytes)
      returns (v: Verdict, d': nat, s': nat, cs': Charset)
    requires At(mem[..], s, w) && w != [] && s + |w| == end && d + (end - s) <= mem.Length && Clear(d, s, end)
    modifies mem
    ensures Done(old(mem[..]), mem[..], Next(w, cs), d, s, v, d', s', cs, cs')
  {
    hide Escaped, Utf8, Kept;
    assert forall i :: 0 <= i < |w| ==> w[i] == mem[s + i];
    v, d', s', cs' := Go, d + 1, s + 1, cs;
    if mem[s] == PLUS {
      Put(mem, d, SPACE);
    } else if mem[s] != PERCENT {
      Put(mem, d, mem[s]);
    } else if s + 2 < end && IsXDigit(mem[s + 1]) && IsXDigit(mem[s + 2]) {
      AtDrop(mem[..], s, w, 3);
      v, d', s', cs' := StepEscape(mem, d, s, end, cs, Hex2(mem[s + 1], mem[s + 2]), w[3..]);
    } else if s + 5 < end && IsU(mem[s + 1]) && IsXDigit(mem[s + 2]) && IsXDigit(mem[s + 3]) && IsXDigit(mem[s + 4])
              && IsXDigit(mem[s + 5]) {
      var u := Hex4(mem[s + 2], mem[s + 3], mem[s + 4], mem[s + 5]);
      if cs != CsAscii && cs != CsUtf8 { return StopBad, d, s, cs; }
      d' := WriteUtf8(mem, d, u);
      s', cs' := s + 6, CsUtf8;
    } else if s + 5 < end || (s + 2 < end && !IsXDigit(mem[s + 2])) || (s + 1 < end && !IsXDigit(mem[s + 1])
        && !IsU(mem[s + 1])) {
      v, d', s' := StopBad, d, s;
    } else {
      v, d', s' := StopShort, d, s;
    }
  }

  /** memmove, of the unread end w of the source, and the NUL behind it. */
  method MoveRest(mem: array<byte>, d: nat, s: nat, end: nat, ghost w: bytes)
    requires At(mem[..], s, w) && s + |w| == end && d + |w| < mem.Length && Clear(d, s, end)
    modifies mem
    ensures At(mem[..], d, w) && mem[d + |w|] == NUL && Kept(old(mem[..]), mem[..], d, d + |w| + 1)
  {
    var i := 0;
    while i < end - s
      invariant 0 <= i <= end - s && forall k :: 0 <= k < i ==> mem[d + k] == w[k]
      invariant forall k :: 0 <= k < mem.Length && !(d <= k < d + i) ==> mem[k] == old(mem[k])
    {
      assert w[i] == old(mem[s + i]);
      mem[d + i] := mem[s + i];
      i := i + 1;
    }
    mem[d + (end - s)] := NUL;
  }

  /** One token less to read. */
  lemma DecodeStep(w: bytes, w': bytes, cs0: Charset, w0: bytes, out: bytes, cs: Charset)
    requires w != [] && Decode(w0, cs0) == Behind(out, Decode(w, cs))
    ensures var t := Next(w, cs);
      && (t.Emit? && w' == w[t.n..] ==> Decode(w0, cs0) == Behind(out + t.out, Decode(w', t.cs)))
      && (t.Short? ==> Decode(w0, cs0) == Cut(out, t.cs, w))
      && (t.Wrong? ==> Decode(w0, cs0) == Bad(out, cs, w))
      && (t.Unwritten? ==> Decode(w0, cs0) == Unset)
  {
    hide Next;
    var t := Next(w, cs);
    if t.Emit? { BehindBehind(out, t.out, Decode(w[t.n..], t.cs)); }
    assert out + [] == out;
  }

  /** What url_decode leaves in memory when decoding gives r. */
  ghost predicate Left(m: bytes, dest: nat, len: nat, r: Decoded, st: Status, dlen: nat, slen: nat, cs: Charset) {
    && dlen <= slen <= len && dest + len < |m|
    && match r
       case Whole(out, c) =>
         st == Success && At(m, dest, out) && dlen == |out| && slen == len && cs == c && m[dest + dlen] == NUL
       case Cut(out, c, rest) =>
         && st == Incomplete && At(m, dest, out) && dlen == |out| && slen + |rest| == len && cs == c
         && At(m, dest + dlen, rest) && m[dest + dlen + |rest|] == NUL
       case Bad(out, c, rest) =>
         st == BadSeq && At(m, dest, out) && dlen == |out| && slen + |rest| == len && cs == c && m[dest + dlen] == NUL
       case Unset => cs != CsAscii && (st == Success || st == Incomplete || st == BadSeq)
  }

  /** The loop of url_decode stands at the rest w of its source, all, and has written `out`; once
      a byte was left unset, all that is known is that the charset is no longer ASCII. */
  ghost predicate Reading(m: bytes, all: bytes, cs0: Charset, dest: nat, d: nat, s: nat, w: bytes, cs: Charset,
      out: bytes, unset: bool) {
    && At(m, s, w) && dest <= d && d - dest + |w| <= |all| && dest + |all| < |m| && Clear(d, s, s + |w|)
    && if unset then Decode(all, cs0) == Unset && cs != CsAscii
       else d == dest + |out| && At(m, dest, out) && Decode(all, cs0) == Behind(out, Decode(w, cs))
  }

  /** What a step has done keeps the loop going. */
  lemma ReadOn(m: bytes, m2: bytes, all: bytes, cs0: Charset, dest: nat, d: nat, s: nat, w: bytes, cs: Charset,
      out: bytes, unset: bool,
               v: Verdict, d': nat, s': nat, cs': Charset) returns (w': bytes, out': bytes, unset': bool)
    requires Reading(m, all, cs0, dest, d, s, w, cs, out, unset) && w != []
    requires Done(m, m2, Next(w, cs), d, s, v, d', s', cs, cs')
    ensures v == Go ==> s < s' <= s + |w| && |w'| == |w| - (s' - s) && d <= d' && d' - d <= s' - s && Kept(m, m2, d, d')
    ensures v == Go ==> Reading(m2, all, cs0, dest, d', s', w', cs', out', unset')
    ensures v == StopShort ==> Decode(all, cs0) == if unset then Unset else Cut(out, cs', w)
    ensures v == StopBad ==> Decode(all, cs0) == if unset then Unset else Bad(out, cs', w)
    ensures v != Go ==> m2 == m && d' == d && s' == s && (unset ==> cs' != CsAscii)
  {
    hide Decode, Next, Kept, At, Behind;
    var t := Next(w, cs);
    NextMonotone(w, cs);
    w', out', unset' := [], [], true;
    if t.Emit? {
      w', out', unset' := w[t.n..], out + t.out, unset;
      ReadEmit(m, m2, all, cs0, dest, d, s, w, cs, out, unset, t);
      KeptSize(m, m2, d, d');
    } else if t.Unwritten? {
      w' := w[3..];
      KeptSelf(m, d, d');
      AtDrop(m, s, w, 3);
    }
    if !unset { DecodeStep(w, w', cs0, all, out, cs); }
  }

  lemma ReadEmit(m: bytes, m2: bytes, all: bytes, cs0: Charset, dest: nat, d: nat, s: nat, w: bytes, cs: Charset,
      out: bytes, unset: bool, t: Token)
    requires Reading(m, all, cs0, dest, d, s, w, cs, out, unset) && w != [] && t == Next(w, cs) && t.Emit?
    requires At(m2, d, t.out) && Kept(m, m2, d, d + |t.out|)
    ensures Reading(m2, all, cs0, dest, d + |t.out|, s + t.n, w[t.n..], t.cs, out + t.out, unset)
  {
    hide Decode, Next, Kept, At, Behind;
    var k := |t.out|;
    NextMonotone(w, cs);
    KeptSize(m, m2, d, d + k);
    AtDrop(m, s, w, t.n);
    AtKept(m, m2, d, d + k, s + t.n, w[t.n..]);
    if !unset {
      DecodeStep(w, w[t.n..], cs0, all, out, cs);
      AtKept(m, m2, d, d + k, dest, out);
      AtJoin(m2, dest, out, t.out);
    }
  }

  lemma KeptSize(m: bytes, m2: bytes, from: nat, to: nat)
    requires Kept(m, m2, from, to)
    ensures |m2| == |m|
  {
  }

  /** One turn, and what it means. */
  method Turn(mem: array<byte>, ghost all: bytes, ghost cs0: Charset, ghost dest: nat, d: nat, s: nat, end: nat,
      ghost w: bytes, cs: Charset,
              ghost out: bytes, ghost unset: bool)
    returns (v: Verdict, d': nat, s': nat, ghost w': bytes, cs': Charset, ghost out': bytes, ghost unset': bool)
    requires Reading(mem[..], all, cs0, dest, d, s, w, cs, out, unset) && s < end == s + |w|
    modifies mem
    ensures v == Go ==> s < s' <= end == s' + |w'| && Kept(old(mem[..]), mem[..], d, d') && d <= d' && d' - d <= s' - s
    ensures v == Go ==> Reading(mem[..], all, cs0, dest, d', s', w', cs', out', unset')
    ensures v == StopShort ==> Decode(all, cs0) == if unset then Unset else Cut(out, cs', w)
    ensures v == StopBad ==> Decode(all, cs0) == if unset then Unset else Bad(out, cs', w)
    ensures v != Go ==> mem[..] == old(mem[..]) && (unset ==> cs' != CsAscii)
  {
    hide Decode, Next, Done, Kept, At;
    ghost var m := mem[..];
    v, d', s', cs' := Step(mem, d, s, end, cs, w);
    w', out', unset' := ReadOn(m, mem[..], all, cs0, dest, d, s, w, cs, out, unset, v, d', s', cs');
  }

  /** The three ways the loop ends. */
  lemma WholeLeft(m: bytes, m2: bytes, all: bytes, cs0: Charset, dest: nat, d: nat, s: nat, cs: Charset, out: bytes,
      unset: bool)
    requires Reading(m, all, cs0, dest, d, s, [], cs, out, unset) && Kept(m, m2, d, d + 1) && d < |m2| && m2[d] == NUL
    ensures Left(m2, dest, |all|, Decode(all, cs0), Success, d - dest, |all|, cs)
  {
    hide Kept, Decode, At;
    KeptSize(m, m2, d, d + 1);
    DecodeNone(cs);
    if !unset { AtKept(m, m2, d, d + 1, dest, out); }
    assert out + [] == out;
  }

  lemma BadLeft(m: bytes, m2: bytes, all: bytes, cs0: Charset, dest: nat, d: nat, s: nat, w: bytes, cs: Charset,
      cs': Charset, out: bytes, unset: bool)
    requires Reading(m, all, cs0, dest, d, s, w, cs, out, unset)
    requires Decode(all, cs0) == (if unset then Unset else Bad(out, cs', w)) && (unset ==> cs' != CsAscii)
    requires Kept(m, m2, d, d + 1) && d < |m2| && m2[d] == NUL
    ensures Left(m2, dest, |all|, Decode(all, cs0), BadSeq, d - dest, |all| - |w|, cs')
  {
    hide Kept, Decode, At;
    KeptSize(m, m2, d, d + 1);
    if !unset { AtKept(m, m2, d, d + 1, dest, out); }
  }

  lemma CutLeft(m: bytes, m2: bytes, all: bytes, cs0: Charset, dest: nat, d: nat, s: nat, w: bytes, cs: Charset,
      cs': Charset, out: bytes, unset: bool)
    requires Reading(m, all, cs0, dest, d, s, w, cs, out, unset)
    requires Decode(all, cs0) == (if unset then Unset else Cut(out, cs', w)) && (unset ==> cs' != CsAscii)
    requires Kept(m, m2, d, d + |w| + 1) && At(m2, d, w) && d + |w| < |m2| && m2[d + |w|] == NUL
    ensures Left(m2, dest, |all|, Decode(all, cs0), Incomplete, d - dest, |all| - |w|, cs')
  {
    hide Kept, Decode, At, Clear;
    ReadingFits(m, all, cs0, dest, d, s, w, cs, out, unset);
    KeptSize(m, m2, d, d + |w| + 1);
    if !unset {
      WrittenAt(m, all, cs0, dest, d, s, w, cs, out);
      AtKept(m, m2, d, d + |w| + 1, dest, out);
    }
    CutIsLeft(m2, dest, |all|, Decode(all, cs0), d, w, cs', out, unset);
  }

  lemma WrittenAt(m: bytes, all: bytes, cs0: Charset, dest: nat, d: nat, s: nat, w: bytes, cs: Charset, out: bytes)
    requires Reading(m, all, cs0, dest, d, s, w, cs, out, false)
    ensures At(m, dest, out) && d == dest + |out|
  {
    hide Decode, At, Clear;
  }

  lemma CutIsLeft(m: bytes, dest: nat, len: nat, r: Decoded, d: nat, w: bytes, cs: Charset, out: bytes, unset: bool)
    requires dest <= d && d - dest + |w| <= len && dest + len < |m|
    requires r == (if unset then Unset else Cut(out, cs, w)) && (unset ==> cs != CsAscii)
    requires At(m, d, w) && m[d + |w|] == NUL && (!unset ==> At(m, dest, out) && d == dest + |out|)
    ensures Left(m, dest, len, r, Incomplete, d - dest, len - |w|, cs)
  {
    hide At;
  }

  lemma ReadingFits(m: bytes, all: bytes, cs0: Charset, dest: nat, d: nat, s: nat, w: bytes, cs: Charset,
      out: bytes, unset: bool)
    requires Reading(m, all, cs0, dest, d, s, w, cs, out, unset)
    ensures At(m, s, w) && dest <= d && d - dest + |w| <= |all| && dest + |all| < |m| && Clear(d, s, s + |w|)
  {
    hide Decode, At;
  }

  lemma ReadingStarts(m: bytes, all: bytes, cs: Charset, dest: nat, src: nat)
    requires At(m, src, all) && dest + |all| < |m| && Clear(dest, src, src + |all|)
    ensures Reading(m, all, cs, dest, dest, src, all, cs, [], false)
  {
    hide Decode;
    NoneBefore(Decode(all, cs));
  }

  /** url_decode: decode the len bytes w at src to dest, which may be the same place. */
  method UrlDecode(mem: array<byte>, dest: nat, src: nat, len: nat, cs: Charset, ghost all: bytes)
    returns (st: Status, dlen: nat, slen: nat, cs': Charset)
    requires At(mem[..], src, all) && |all| == len && dest + len < mem.Length && Clear(dest, src, src + len)
    modifies mem
    ensures Left(mem[..], dest, len, Decode(all, cs), st, dlen, slen, cs')
    ensures Kept(old(mem[..]), mem[..], dest, dest + len + 1)
  {
    hide Decode, Left, Reading, Kept, At;
    ghost var m0, w, out, unset := mem[..], all, [], false;
    var d: nat, s: nat, end: nat := dest, src, src + len;
    cs' := cs;
    ReadingStarts(m0, all, cs, dest, src);
    ReadingFits(m0, all, cs, dest, d, s, w, cs', out, unset);
    KeptSelf(m0, dest, d);
    while s < end
      invariant Reading(mem[..], all, cs, dest, d, s, w, cs', out, unset) && Kept(m0, mem[..], dest, d)
      invariant src <= s <= end == s + |w| && dest <= d && d - dest <= s - src
      decreases end - s
    {
      ghost var m, c, u, o := mem[..], cs', unset, out;
      ReadingFits(m, all, cs, dest, d, s, w, c, o, u);
      var v, d', s';
      ghost var w';
      v, d', s', w', cs', out, unset := Turn(mem, all, cs, dest, d, s, end, w, cs', out, unset);
      if v != Go {
        dlen, slen := d - dest, s - src;
        st := Stop(mem, all, cs, dest, d, s, end, w, c, cs', o, u, v, m0);
        return;
      }
      KeptTrans(m0, m, mem[..], dest, d, d, d');
      d, s, w := d', s', w';
    }
    ghost var m := mem[..];
    ReadingFits(m, all, cs, dest, d, s, w, cs', out, unset);
    Put(mem, d, NUL);
    WholeLeft(m, mem[..], all, cs, dest, d, s, cs', out, unset);
    KeptTrans(m0, m, mem[..], dest, d, d, d + 1);
    KeptWider(m0, mem[..], dest, d + 1, dest, dest + len + 1);
    st, dlen, slen := Success, d - dest, s - src;
  }

  /** The loop stops in front of w: what is left is moved, or cut off. */
  method Stop(mem: array<byte>, ghost all: bytes, ghost cs0: Charset, ghost dest: nat, d: nat, s: nat, end: nat,
      ghost w: bytes,
              ghost cs: Charset, ghost cs': Charset, ghost out: bytes, ghost unset: bool, v: Verdict,
                  ghost m0: bytes) returns (st: Status)
    requires Reading(mem[..], all, cs0, dest, d, s, w, cs, out, unset) && s + |w| == end && v != Go
        && Kept(m0, mem[..], dest, d)
    requires v == StopShort ==> Decode(all, cs0) == if unset then Unset else Cut(out, cs', w)
    requires v == StopBad ==> Decode(all, cs0) == if unset then Unset else Bad(out, cs', w)
    requires unset ==> cs' != CsAscii
    modifies mem
    ensures Left(mem[..], dest, |all|, Decode(all, cs0), st, d - dest, |all| - |w|, cs')
    ensures Kept(m0, mem[..], dest, dest + |all| + 1)
  {
    hide Decode, Left, Reading, Kept, At;
    ghost var m := mem[..];
    ReadingFits(m, all, cs0, dest, d, s, w, cs, out, unset);
    if v == StopBad {
      Put(mem, d, NUL);
      BadLeft(m, mem[..], all, cs0, dest, d, s, w, cs, cs', out, unset);
      KeptTrans(m0, m, mem[..], dest, d, d, d + 1);
      KeptWider(m0, mem[..], dest, d + 1, dest, dest + |all| + 1);
      return BadSeq;
    }
    MoveRest(mem, d, s, end, w);
    CutLeft(m, mem[..], all, cs0, dest, d, s, w, cs, cs', out, unset);
    KeptTrans(m0, m, mem[..], dest, d, d, d + |w| + 1);
    KeptWider(m0, mem[..], dest, d + |w| + 1, dest, dest + |all| + 1);
    st := Incomplete;
  }

  lemma DecodeNone(cs: Charset)
    ensures Decode([], cs) == Whole([], cs)
  {
  }
}

/** Quoting: apreq_quote, apreq_quote_once and is_quoted, and how other scanners read their output. */
module Quoting {
  import opened Bytes
  import opened Sequences
  import opened Attributes
  import opened Memory

  const ZERO: byte := 48

  /** What one byte is written as between the quotes. */
  function Escape(c: byte): (e: bytes)
    ensures 1 <= |e| <= 2
  {
    if c == NUL then [BACKSLASH, ZERO]
    else if c == BACKSLASH || c == DQUOTE then [BACKSLASH, c]
    else [c]
  }

  function Escaped(s: bytes): (e: bytes)
    ensures |s| <= |e| <= 2 * |s|
  {
    if s == [] then [] else Escape(s[0]) + Escaped(s[1..])
  }

  /** apreq_quote: the empty string stays empty. */
  function Quote(s: bytes): bytes {
    if s == [] then [] else [DQUOTE] + (Escaped(s) + [DQUOTE])
  }

  /** One byte, written at d. */
  method PutEscaped(mem: array<byte>, d: nat, c: byte) returns (d': nat)
    requires d + 2 <= mem.Length
    modifies mem
    ensures d' == d + |Escape(c)| && At(mem[..], d, Escape(c)) && Kept(old(mem[..]), mem[..], d, d')
  {
    d' := d;
    if c == NUL {
      mem[d'] := BACKSLASH;
      mem[d' + 1] := ZERO;
      d' := d' + 2;
    } else {
      if c == BACKSLASH || c == DQUOTE {
        mem[d'] := BACKSLASH;
        d' := d' + 1;
      }
      mem[d'] := c;
      d' := d' + 1;
    }
  }

  /** apreq_quote of the text s at src, to a destination elsewhere. */
  method ApreqQuote(mem: array<byte>, dest: nat, src: nat, slen: nat, ghost s: bytes) returns (dlen: nat)
    requires At(mem[..], src, s) && |s| == slen && dest + 2 * slen + 2 < mem.Length
    requires src + slen <= dest || dest + 2 * slen + 2 < src
    modifies mem
    ensures dlen == |Quote(s)| <= 2 * slen + 2 && At(mem[..], dest, Quote(s)) && mem[dest + dlen] == NUL
    ensures Kept(old(mem[..]), mem[..], dest, dest + 2 * slen + 3)
  {
    hide Escape, Escaped, At, Kept;
    ghost var m := mem[..];
    if slen == 0 {
      mem[dest] := NUL;
      QuoteEmpty(m, mem[..], dest, s);
      return 0;
    }
    mem[dest] := DQUOTE;
    var d, i := dest + 1, 0;
    Opened(m, mem[..], dest, src, s);
    while i < slen
      invariant 0 <= i <= slen && d == dest + 1 + |Escaped(s[..i])| && |Escaped(s[..i])| <= 2 * i
      invariant At(mem[..], src, s) && At(mem[..], dest, [DQUOTE] + Escaped(s[..i]))
      invariant Kept(m, mem[..], dest, dest + 2 * slen + 3)
      invariant d == dest + |[DQUOTE] + Escaped(s[..i])|
    {
      ghost var m1 := mem[..];
      AtByte(m1, src, s, i);
      EscapedSnoc(s, i);
      ghost var from := d;
      d := PutEscaped(mem, d, mem[src + i]);
      Written(m, m1, mem[..], dest, src, slen, from, s, [DQUOTE] + Escaped(s[..i]), Escape(s[i]));
      Regroup([DQUOTE], Escaped(s[..i]), Escape(s[i]));
      i := i + 1;
    }
    assert s[..slen] == s;
    ghost var m1 := mem[..];
    mem[d] := DQUOTE;
    mem[d + 1] := NUL;
    Closing(m, m1, mem[..], dest, slen, d, [DQUOTE] + Escaped(s));
    Regroup([DQUOTE], Escaped(s), [DQUOTE]);
    dlen := d + 1 - dest;
  }

  lemma QuoteEmpty(m: bytes, m2: bytes, dest: nat, s: bytes)
    requires dest < |m| && m2 == m[dest := NUL] && s == []
    ensures Quote(s) == [] && At(m2, dest, Quote(s)) && m2[dest] == NUL && Kept(m, m2, dest, dest + 3)
  {
  }

  lemma Opened(m: bytes, m2: bytes, dest: nat, src: nat, s: bytes)
    requires dest < |m| && m2 == m[dest := DQUOTE] && At(m, src, s) && (src + |s| <= dest || dest < src)
    ensures s[..0] == [] && At(m2, dest, [DQUOTE] + Escaped(s[..0])) && Escaped(s[..0]) == []
    ensures At(m2, src, s) && Kept(m, m2, dest, dest + 2 * |s| + 3)
  {
  }

  lemma AtByte(m: bytes, src: nat, s: bytes, i: nat)
    requires At(m, src, s) && i < |s|
    ensures src + i < |m| && m[src + i] == s[i]
  {
  }

  /** One escaped byte more, behind what was written. */
  lemma Written(m: bytes, m1: bytes, m2: bytes, dest: nat, src: nat, slen: nat, d: nat, s: bytes, o: bytes, e: bytes)
    requires Kept(m, m1, dest, dest + 2 * slen + 3) && Kept(m1, m2, d, d + |e|) && |s| == slen
    requires At(m1, src, s) && At(m1, dest, o) && At(m2, d, e) && d == dest + |o| && d + |e| <= dest + 2 * slen + 3
    requires src + slen <= dest || dest + 2 * slen + 2 < src
    ensures At(m2, src, s) && At(m2, dest, o + e) && Kept(m, m2, dest, dest + 2 * slen + 3)
  {
  }

  lemma Closing(m: bytes, m1: bytes, m2: bytes, dest: nat, slen: nat, d: nat, o: bytes)
    requires Kept(m, m1, dest, dest + 2 * slen + 3) && At(m1, dest, o) && d == dest + |o|
    requires d + 1 < dest + 2 * slen + 3 <= |m1| && m2 == m1[d := DQUOTE][d + 1 := NUL]
    ensures At(m2, dest, o + [DQUOTE]) && Kept(m, m2, dest, dest + 2 * slen + 3)
  {
  }

  /** apreq_quote_once. */
  method ApreqQuoteOnce(mem: array<byte>, dest: nat, src: nat, slen: nat, ghost s: bytes) returns (dlen: nat)
    requires At(mem[..], src, s) && |s| == slen && dest + 2 * slen + 2 < mem.Length
    requires src + slen <= dest || dest + 2 * slen + 2 < src
    modifies mem
    ensures dlen == |QuoteOnce(s)| <= 2 * slen + 2 && At(mem[..], dest, QuoteOnce(s)) && mem[dest + dlen] == NUL
    ensures Kept(old(mem[..]), mem[..], dest, dest + 2 * slen + 3)
  {
    hide IsQuoted, Quote, At, Kept;
    ghost var m := mem[..];
    AtIs(m, src, s);
    var quoted := ApreqIsQuoted(mem[src..src + slen]);
    if quoted {
      Copy(mem, dest, src, slen, s);
      ghost var m1 := mem[..];
      mem[dest + slen] := NUL;
      Ended(m, m1, mem[..], dest, slen, s);
      dlen := slen;
    } else {
      dlen := ApreqQuote(mem, dest, src, slen, s);
    }
  }

  lemma Ended(m: bytes, m1: bytes, m2: bytes, dest: nat, slen: nat, s: bytes)
    requires Kept(m, m1, dest, dest + slen) && At(m1, dest, s) && |s| == slen && dest + slen < |m1|
    requires m2 == m1[dest + slen := NUL]
    ensures At(m2, dest, s) && Kept(m, m2, dest, dest + 2 * slen + 3)
  {
  }

  lemma {:induction false} EscapedAppend(a: bytes, b: bytes)
    ensures Escaped(a + b) == Escaped(a) + Escaped(b)
  {
    if a == [] {
      assert a + b == b;
    } else {
      assert (a + b)[1..] == a[1..] + b;
      EscapedAppend(a[1..], b);
      Regroup(Escape(a[0]), Escaped(a[1..]), Escaped(b));
    }
  }

  lemma EscapedSnoc(s: bytes, i: nat)
    requires i < |s|
    ensures Escaped(s[..i + 1]) == Escaped(s[..i]) + Escape(s[i])
  {
    assert s[..i + 1] == s[..i] + [s[i]];
    EscapedAppend(s[..i], [s[i]]);
    assert [s[i]][1..] == [];
  }

  /** The text between two quotes holds no NUL, no quote that is not escaped, and does not end in
      the middle of an escape. */
  predicate Closed(s: bytes, backslash: bool) {
    if s == [] then !backslash
    else if s[0] == BACKSLASH then Closed(s[1..], !backslash)
    else s[0] != NUL && (s[0] != DQUOTE || backslash) && Closed(s[1..], false)
  }

  /** is_quoted. */
  predicate IsQuoted(p: bytes) {
    |p| > 1 && p[0] == DQUOTE && p[|p| - 1] == DQUOTE && Closed(p[1..|p| - 1], false)
  }

  method ApreqIsQuoted(p: bytes) returns (r: bool)
    ensures r <==> IsQuoted(p)
  {
    if |p| > 1 && p[0] == DQUOTE && p[|p| - 1] == DQUOTE {
      var inner := p[1..|p| - 1];
      var backslash := false;
      var i := 0;
      assert inner[0..] == inner;
      while i < |inner|
        invariant 0 <= i <= |inner| && (Closed(inner, false) <==> Closed(inner[i..], backslash))
      {
        assert inner[i..][1..] == inner[i + 1..];
        if inner[i] == BACKSLASH { backslash := !backslash; }
        else if inner[i] == NUL || (inner[i] == DQUOTE && !backslash) { return false; }
        else { backslash := false; }
        i := i + 1;
      }
      return !backslash;
    }
    r := false;
  }

  /** What is quoted already stays as it is. */
  function QuoteOnce(s: bytes): bytes { if IsQuoted(s) then s else Quote(s) }

  lemma {:induction false} EscapedIsClosed(s: bytes)
    ensures Closed(Escaped(s), false) && QuoteSafe(Escaped(s))
  {
    if s != [] {
      EscapedIsClosed(s[1..]);
      ClosedEscape(s[0], Escaped(s[1..]));
    }
  }

  lemma ClosedEscape(c: byte, t: bytes)
    requires Closed(t, false) && QuoteSafe(t)
    ensures Closed(Escape(c) + t, false) && QuoteSafe(Escape(c) + t)
  {
    var e := Escape(c) + t;
    if |Escape(c)| == 1 {
      assert e[1..] == t;
    } else {
      assert e[1..][1..] == t && e[2..] == t;
    }
  }

  lemma QuoteIsQuoted(s: bytes)
    requires s != []
    ensures IsQuoted(Quote(s))
  {
    hide Closed, Escaped;
    EscapedIsClosed(s);
    var q := Quote(s);
    assert q[1..|q| - 1] == Escaped(s);
  }

  /** What was quoted is quoted, so quoting once more is quoting once. */
  lemma QuoteOnceIdempotent(s: bytes)
    ensures QuoteOnce(QuoteOnce(s)) == QuoteOnce(s)
  {
    hide IsQuoted, Quote;
    if s == [] { QuoteNothing(); } else { QuoteIsQuoted(s); }
  }

  lemma QuoteNothing()
    ensures Quote([]) == [] && !IsQuoted([])
  {
  }

  /** A string between quotes is quoted if and only if it holds no NUL and the scan for a closing quote
      stops at its last byte. */
  lemma QuotedWhenScanned(p: bytes)
    requires |p| > 1 && p[0] == DQUOTE && p[|p| - 1] == DQUOTE
    ensures IsQuoted(p) <==> NUL !in p && QuoteEnd(p, 1) == |p| - 1
  {
    var t := p[1..|p| - 1];
    assert p == [DQUOTE] + (t + [DQUOTE]);
    ClosedClean(t, false);
    if NUL !in p { ScanClosed(p, 1); }
  }

  lemma {:induction false} ClosedClean(s: bytes, backslash: bool)
    ensures Closed(s, backslash) ==> NUL !in s
  {
    if s != [] { ClosedClean(s[1..], if s[0] == BACKSLASH then !backslash else false); }
  }

  lemma {:induction false} ScanClosed(p: bytes, i: nat)
    requires 1 <= i < |p| && p[|p| - 1] == DQUOTE && NUL !in p
    ensures Closed(p[i..|p| - 1], false) <==> QuoteEnd(p, i) == |p| - 1
    decreases |p| - i
  {
    var t := p[i..|p| - 1];
    if i == |p| - 1 {
    } else if p[i] == BACKSLASH {
      assert t[1..] == p[i + 1..|p| - 1];
      if i + 1 == |p| - 1 {
        assert t[1..] == [];
        PastEnd(p, i + 2);
      } else {
        assert t[1..][1..] == p[i + 2..|p| - 1] && t[1..][0] == p[i + 1];
        ScanClosed(p, i + 2);
      }
    } else if p[i] != DQUOTE {
      assert t[1..] == p[i + 1..|p| - 1];
      ScanClosed(p, i + 1);
    }
  }

  lemma PastEnd(p: bytes, i: nat)
    requires i == |p|
    ensures QuoteEnd(p, i) == |p|
  {
  }

  /** How get_pair takes the backslashes out of a quoted value. */
  function Unescape(s: bytes): bytes {
    if s == [] then []
    else if s[0] == BACKSLASH && |s| > 1 then [s[1]] + Unescape(s[2..])
    else [s[0]] + Unescape(s[1..])
  }

  /** The text with the digit in place of NUL. */
  function NulAsDigit(s: bytes): bytes { seq(|s|, i requires 0 <= i < |s| => if s[i] == NUL then ZERO else s[i]) }

  /** What was quoted comes back, but a NUL as the digit it was written as. */
  lemma {:induction false} UnescapeEscaped(s: bytes)
    ensures Unescape(Escaped(s)) == NulAsDigit(s)
  {
    if s != [] {
      UnescapeEscaped(s[1..]);
      UnescapeOne(s[0], Escaped(s[1..]));
      assert NulAsDigit(s) == [if s[0] == NUL then ZERO else s[0]] + NulAsDigit(s[1..]);
    }
  }

  /** So quoting is undone on just the strings without NUL. */
  lemma {:induction false} UnescapeExact(s: bytes)
    ensures Unescape(Escaped(s)) == s <==> NUL !in s
  {
    UnescapeEscaped(s);
    if NUL in s {
      var i :| 0 <= i < |s| && s[i] == NUL;
      assert NulAsDigit(s)[i] == ZERO;
    }
  }

  lemma UnescapeOne(c: byte, t: bytes)
    ensures Unescape(Escape(c) + t) == [if c == NUL then ZERO else c] + Unescape(t)
  {
    var e := Escape(c) + t;
    assert |Escape(c)| == 1 ==> e[1..] == t;
    assert |Escape(c)| == 2 ==> e[2..] == t;
  }

  lemma {:induction false} UnescapePlain(s: bytes)
    requires BACKSLASH !in s
    ensures Unescape(s) == s
  {
    if s != [] {
      UnescapePlain(s[1..]);
      assert [s[0]] + s[1..] == s;
    }
  }
}

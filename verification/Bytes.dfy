/** Bytes, the C character classes the library uses, and prefix comparison. */
module Bytes {
  type byte = b: int | 0 <= b < 256
  type bytes = seq<byte>

  datatype Option<+T> = None | Some(value: T)

  const NUL: byte := 0
  const TAB: byte := 9
  const LF: byte := 10
  const CR: byte := 13
  const SPACE: byte := 32
  const DQUOTE: byte := 34
  const DOLLAR: byte := 36
  const PERCENT: byte := 37
  const AMP: byte := 38
  const PLUS: byte := 43
  const COMMA: byte := 44
  const DASH: byte := 45
  const COLON: byte := 58
  const SEMI: byte := 59
  const EQUALS: byte := 61
  const BACKSLASH: byte := 92

  const CRLF: bytes := [13, 10]
  const DASHES: bytes := [45, 45]

  /** The bytes of an ASCII literal. */
  function Ascii(s: string): (b: bytes)
    requires forall i :: 0 <= i < |s| ==> s[i] < 128 as char
    ensures |b| == |s| && forall i :: 0 <= i < |s| ==> b[i] == s[i] as int
  {
    seq(|s|, i requires 0 <= i < |s| => s[i] as int)
  }

  predicate IsSpace(c: byte) { 9 <= c <= 13 || c == 32 }
  predicate IsBlank(c: byte) { c == SPACE || c == TAB }
  predicate IsDigit(c: byte) { 48 <= c <= 57 }
  predicate IsUpper(c: byte) { 65 <= c <= 90 }
  predicate IsLower(c: byte) { 97 <= c <= 122 }
  predicate IsAlnum(c: byte) { IsDigit(c) || IsUpper(c) || IsLower(c) }
  predicate IsXDigit(c: byte) { IsDigit(c) || 65 <= c <= 70 || 97 <= c <= 102 }
  predicate IsCntrl(c: byte) { c < 32 || c == 127 }

  function ToLower(c: byte): byte { if IsUpper(c) then c + 32 else c }

  /** strncasecmp == 0 on strings of equal length. */
  predicate EqualNoCase(a: bytes, b: bytes) {
    |a| == |b| && forall i :: 0 <= i < |a| ==> ToLower(a[i]) == ToLower(b[i])
  }

  function Min(a: nat, b: nat): nat { if a < b then a else b }

  /** strncmp/memcmp over the shorter of the two lengths is zero. */
  predicate Agree(a: bytes, b: bytes) {
    forall k :: 0 <= k < |a| && k < |b| ==> a[k] == b[k]
  }
}

/** Facts about concatenation that the solver is better told than left to find. */
module Sequences {
  lemma Regroup<T>(a: seq<T>, b: seq<T>, c: seq<T>)
    ensures a + b + c == a + (b + c)
  {
  }

  lemma TakeDrop<T>(a: seq<T>, i: nat, t: seq<T>)
    requires i <= |a|
    ensures a[..i] + (a[i..] + t) == a + t
  {
  }

  lemma DropAppend<T>(a: seq<T>, t: seq<T>, i: nat)
    requires i <= |a|
    ensures (a + t)[i..] == a[i..] + t
  {
  }

  lemma SliceAppend<T>(a: seq<T>, t: seq<T>, i: nat, j: nat)
    requires i <= j <= |a|
    ensures (a + t)[i..j] == a[i..j]
  {
  }

  lemma DropDrop<T>(a: seq<T>, i: nat, j: nat)
    requires i + j <= |a|
    ensures a[i..][j..] == a[i + j..]
  {
  }

  /** Take a known part off the front of what lies behind p. */
  lemma Peel<T>(h: seq<T>, p: nat, a: seq<T>, b: seq<T>)
    requires p <= |h| && h[p..] == a + b
    ensures p + |a| + |b| == |h| && h[p..p + |a|] == a && h[p + |a|..] == b
  {
    assert h[p..p + |a|] == h[p..][..|a|];
    assert h[p + |a|..] == h[p..][|a|..];
  }

  /** Just t stands at p, up to the end of h. */
  ghost predicate Suffix<T>(h: seq<T>, p: nat, t: seq<T>) { p <= |h| && h[p..] == t }

  lemma SuffixPeel<T>(h: seq<T>, p: nat, a: seq<T>, b: seq<T>)
    requires Suffix(h, p, a + b)
    ensures Suffix(h, p + |a|, b) && p + |a| + |b| == |h| && h[p..p + |a|] == a
    ensures b != [] ==> p + |a| < |h| && h[p + |a|] == b[0]
  {
    Peel(h, p, a, b);
    assert b != [] ==> h[p + |a|..][0] == h[p + |a|];
  }

  lemma SuffixFits<T>(h: seq<T>, p: nat, t: seq<T>)
    requires Suffix(h, p, t)
    ensures p + |t| == |h| && (t != [] ==> h[p] == t[0])
  {
    assert t != [] ==> h[p..][0] == h[p];
  }

  lemma SuffixSame<T>(h: seq<T>, p: nat, t: seq<T>, t2: seq<T>)
    requires Suffix(h, p, t) && t == t2
    ensures Suffix(h, p, t2)
  {
  }

  /** The pieces, one behind the other. */
  function Flat<T>(pieces: seq<seq<T>>): seq<T> {
    if pieces == [] then [] else pieces[0] + Flat(pieces[1..])
  }

  lemma {:induction false} FlatAppend<T>(a: seq<seq<T>>, b: seq<seq<T>>)
    ensures Flat(a + b) == Flat(a) + Flat(b)
  {
    if a == [] {
      assert a + b == b;
    } else {
      assert (a + b)[1..] == a[1..] + b;
      FlatAppend(a[1..], b);
      Regroup(a[0], Flat(a[1..]), Flat(b));
    }
  }

  lemma FlatSnoc<T>(v: seq<seq<T>>, d: seq<T>)
    ensures Flat(v + [d]) == Flat(v) + d
  {
    FlatAppend(v, [d]);
    assert Flat([d]) == d + Flat([d][1..]);
  }

  lemma FlatStep<T>(pieces: seq<seq<T>>, n: nat)
    requires n < |pieces|
    ensures Flat(pieces[n..]) == pieces[n] + Flat(pieces[n + 1..])
  {
    assert pieces[n..][1..] == pieces[n + 1..];
  }
}

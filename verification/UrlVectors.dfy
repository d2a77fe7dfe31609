/** Decoding text that lies in several pieces of memory: apreq_decodev, and apreq_decode. */
module UrlVectors {
  import opened Bytes
  import opened Statuses
  import opened Sequences
  import opened UrlCodec
  import opened UrlDecoder
  import opened Memory

  lemma FlatNone()
    ensures Flat<byte>([]) == [] && Decode([], CsAscii) == Whole([], CsAscii)
  {
  }

  /** What apreq_decodev leaves when decoding gives r. */
  ghost predicate LeftV(m: bytes, dest: nat, r: Decoded, st: Status, dlen: nat, cs: Charset) {
    match r
    case Whole(out, c) => st == Success && dlen == |out| && At(m, dest, out) && cs == c
    case Cut(out, c, rest) => st == Incomplete && dlen == |out| && At(m, dest, out) && At(m, dest + dlen, rest)
        && cs == c
    case Bad(out, _, _) => st == BadSeq && dlen == |out| && At(m, dest, out)
    case Unset => dest + dlen <= |m| && cs != CsAscii && (st == Success || st == Incomplete || st == BadSeq)
  }

  /** The pieces are read up to here: `out` is written, and the text `left` remains. */
  ghost predicate Read(m: bytes, dest: nat, dlen: nat, all: bytes, left: bytes, cs: Charset, out: bytes, unset: bool) {
    dest + dlen <= |m| &&
    if unset then Decode(all, CsAscii) == Unset && cs != CsAscii
    else dlen == |out| && At(m, dest, out) && Decode(all, CsAscii) == Behind(out, Decode(left, cs))
  }

  /** Where the piece w and the pieces behind it lie, and that there is room for what they give. */
  ghost predicate Roomy(m: bytes, dest: nat, room: nat, dlen: nat, cur: Iovec, w: bytes, later: seq<Iovec>,
      pieces: seq<bytes>) {
    && At(m, cur.base, w) && cur.len == |w| && Lie(later, pieces, m) && AllOutside(later, dest, dest + room + 1)
    && (cur.base == dest + dlen || cur.Outside(dest, dest + room + 1))
    && dlen + |w| + |Flat(pieces)| <= room && dest + room < |m|
  }

  /** A piece w is decoded; the text `later` lies behind it. */
  lemma PieceDone(all: bytes, out: bytes, w: bytes, later: bytes, cs: Charset)
    requires Decode(all, CsAscii) == Behind(out, Decode(w + later, cs))
    ensures var r := Decode(w, cs);
      && (r.Whole? ==> Decode(all, CsAscii) == Behind(out + r.out, Decode(later, r.cs)))
      && (r.Cut? ==> Decode(all, CsAscii) == Behind(out + r.out, Decode(r.rest + later, r.cs)))
      && (r.Cut? && later == [] ==> Decode(all, CsAscii) == Cut(out + r.out, r.cs, r.rest))
      && (r.Bad? ==> Decode(all, CsAscii) == Bad(out + r.out, r.cs, r.rest + later))
      && (r.Unset? ==> Decode(all, CsAscii) == Unset)
  {
    hide Decode;
    var r := Decode(w, cs);
    DecodeInPieces(w, later, cs);
    if r.Whole? { BehindBehind(out, r.out, Decode(later, r.cs)); }
    if r.Cut? {
      BehindBehind(out, r.out, Decode(r.rest + later, r.cs));
      if later == [] { assert w + later == w; }
    }
  }

  /** The outcome of a piece, for the run over all of them; carry is what it left unread. */
  ghost predicate PieceResult(m: bytes, dest: nat, total: nat, k: nat, st: Status, cs: Charset, all: bytes,
      later: bytes, out: bytes,
                              unset: bool, carry: bytes) {
    && (st == Success || st == Incomplete || st == BadSeq)
    && (st == Success ==> Read(m, dest, total, all, later, cs, out, unset))
    && (st == Incomplete ==>
          && |carry| == k && At(m, dest + total, carry) && Read(m, dest, total, all, carry + later, cs, out, unset)
          && (later == [] ==> LeftV(m, dest, Decode(all, CsAscii), Incomplete, total, cs)))
    && (st == BadSeq ==> LeftV(m, dest, Decode(all, CsAscii), BadSeq, total, cs))
  }

  lemma LeftBounds(m: bytes, dest: nat, len: nat, r: Decoded, st: Status, dlen: nat, slen: nat, cs: Charset)
    requires Left(m, dest, len, r, st, dlen, slen, cs)
    ensures dlen <= slen <= len && dest + len < |m| && (st == Success || st == Incomplete || st == BadSeq)
    ensures !r.Unset? ==> dlen == |r.out| && r.cs == cs && At(m, dest, r.out)
    ensures !r.Unset? ==> (st == Success <==> r.Whole?) && (st == Incomplete <==> r.Cut?) && (st == BadSeq <==> r.Bad?)
    ensures r.Cut? ==> slen + |r.rest| == len && At(m, dest + dlen, r.rest)
    ensures r.Unset? ==> cs != CsAscii
  {
    hide At;
  }

  lemma PieceEnds(m: bytes, dest: nat, dlen: nat, w: bytes, cs: Charset, st: Status, len: nat, slen: nat, cs': Charset,
                  all: bytes, later: bytes, out: bytes, unset: bool) returns (out': bytes, unset': bool, carry: bytes)
    requires Left(m, dest + dlen, |w|, Decode(w, cs), st, len, slen, cs')
    requires Read(m, dest, dlen, all, w + later, cs, out, unset)
    ensures PieceResult(m, dest, dlen + len, |w| - slen, st, cs', all, later, out', unset', carry)
  {
    hide Decode, Left, At, Behind;
    LeftBounds(m, dest + dlen, |w|, Decode(w, cs), st, len, slen, cs');
    var r := Decode(w, cs);
    CharsetMonotone(w, cs);
    carry, out', unset' := [], out, true;
    if !unset && !r.Unset? {
      PieceDone(all, out, w, later, cs);
      out', unset' := out + r.out, false;
      AtJoin(m, dest, out, r.out);
      AtFits(m, dest, out');
      if r.Cut? { carry := r.rest; }
    } else {
      if !unset { PieceDone(all, out, w, later, cs); }
      carry := AtSome(m, dest + dlen + len, |w| - slen);
    }
  }

  lemma AtSome(m: bytes, a: nat, k: nat) returns (o: bytes)
    requires a + k <= |m|
    ensures |o| == k && At(m, a, o)
  {
    o := m[a..a + k];
  }

  /** Decode one piece to where the output ends. */
  method DecodePiece(mem: array<byte>, dest: nat, dlen: nat, cur: Iovec, ghost w: bytes, cs: Charset,
      ghost room: nat, ghost all: bytes,
                     ghost later: seq<Iovec>, ghost pieces: seq<bytes>, ghost out: bytes, ghost unset: bool)
    returns (st: Status, len: nat, slen: nat, cs': Charset, ghost out': bytes, ghost unset': bool, ghost carry: bytes)
    requires Roomy(mem[..], dest, room, dlen, cur, w, later, pieces)
    requires Read(mem[..], dest, dlen, all, w + Flat(pieces), cs, out, unset)
    modifies mem
    ensures Kept(old(mem[..]), mem[..], dest, dest + room + 1) && Lie(later, pieces, mem[..])
    ensures len <= slen <= cur.len
    ensures PieceResult(mem[..], dest, dlen + len, cur.len - slen, st, cs', all, Flat(pieces), out', unset', carry)
  {
    hide Decode, Left, PieceResult, Lie, Kept, At, Flat, Behind;
    ghost var m := mem[..];
    st, len, slen, cs' := UrlDecode(mem, dest + dlen, cur.base, cur.len, cs, w);
    LeftBounds(mem[..], dest + dlen, cur.len, Decode(w, cs), st, len, slen, cs');
    KeptSize(m, mem[..], dest + dlen, dest + dlen + cur.len + 1);
    if !unset { AtKept(m, mem[..], dest + dlen, dest + dlen + cur.len + 1, dest, out); }
    KeptWider(m, mem[..], dest + dlen, dest + dlen + cur.len + 1, dest, dest + room + 1);
    LieKept(later, pieces, m, mem[..], dest, dest + room + 1);
    out', unset', carry := PieceEnds(mem[..], dest, dlen, w, cs, st, len, slen, cs', all, Flat(pieces), out, unset);
  }

  /** Put the bytes carried over and the next piece together, where the output ends. */
  method CarryNext(mem: array<byte>, dest: nat, dlen: nat, k: nat, piece: Iovec, ghost carry: bytes, ghost w: bytes,
      ghost room: nat,
                   ghost all: bytes, ghost later: seq<Iovec>, ghost pieces: seq<bytes>, cs: Charset,
                       ghost out: bytes, ghost unset: bool)
    returns (next: Iovec)
    requires At(mem[..], piece.base, w) && piece.len == |w| && Lie(later, pieces, mem[..])
    requires piece.Outside(dest, dest + room + 1) && AllOutside(later, dest, dest + room + 1)
    requires At(mem[..], dest + dlen, carry) && |carry| == k
    requires dlen + k + piece.len + |Flat(pieces)| <= room && dest + room < mem.Length
    requires Read(mem[..], dest, dlen, all, carry + (w + Flat(pieces)), cs, out, unset)
    modifies mem
    ensures Kept(old(mem[..]), mem[..], dest, dest + room + 1)
    ensures Roomy(mem[..], dest, room, dlen, next, carry + w, later, pieces)
    ensures Read(mem[..], dest, dlen, all, (carry + w) + Flat(pieces), cs, out, unset)
  {
    hide Decode, Flat, At, Kept, Lie, Behind;
    ghost var m := mem[..];
    var d := dest + dlen;
    Copy(mem, d + k, piece.base, piece.len, w);
    next := Iovec(d, k + piece.len);
    KeptSize(m, mem[..], d + k, d + k + piece.len);
    AtKept(m, mem[..], d + k, d + k + piece.len, d, carry);
    AtJoin(mem[..], d, carry, w);
    if !unset { AtKept(m, mem[..], d + k, d + k + piece.len, dest, out); }
    KeptWider(m, mem[..], d + k, d + k + piece.len, dest, dest + room + 1);
    LieKept(later, pieces, m, mem[..], dest, dest + room + 1);
    Regroup(carry, w, Flat(pieces));
  }

  /** Before piece n. */
  ghost predicate Ready(m: bytes, dest: nat, room: nat, dlen: nat, all: bytes, v: seq<Iovec>, v0: seq<Iovec>,
      pieces: seq<bytes>, n: nat,
                        w: bytes, cs: Charset, out: bytes, unset: bool) {
    && |v| == |v0| == |pieces| && n <= |v|
    && if n == |v| then Read(m, dest, dlen, all, [], cs, out, unset)
       else v[n + 1..] == v0[n + 1..] && Roomy(m, dest, room, dlen, v[n], w, v0[n + 1..], pieces[n + 1..])
            && Read(m, dest, dlen, all, w + Flat(pieces[n + 1..]), cs, out, unset)
  }

  lemma ReadyNext(m: bytes, dest: nat, room: nat, dlen: nat, all: bytes, v: seq<Iovec>, v0: seq<Iovec>,
      pieces: seq<bytes>, n: nat,
                  cs: Charset, out: bytes, unset: bool)
    requires |v| == |v0| == |pieces| && n <= |v| && v[n..] == v0[n..]
    requires Lie(v0[n..], pieces[n..], m) && AllOutside(v0[n..], dest, dest + room + 1)
    requires dlen + |Flat(pieces[n..])| <= room && dest + room < |m|
    requires Read(m, dest, dlen, all, Flat(pieces[n..]), cs, out, unset)
    ensures Ready(m, dest, room, dlen, all, v, v0, pieces, n, if n < |v| then pieces[n] else [], cs, out, unset)
  {
    hide Decode, At, Read;
    if n < |v| {
      FlatStep(pieces, n);
      LieStep(v0, pieces, m, n);
      assert v[n] == v[n..][0] && v0[n] == v0[n..][0] && v[n + 1..] == v[n..][1..] && v0[n + 1..] == v0[n..][1..];
    } else {
      FlatNone();
    }
  }

  lemma LieStep(v: seq<Iovec>, pieces: seq<bytes>, m: bytes, n: nat)
    requires n < |v| == |pieces| && Lie(v[n..], pieces[n..], m)
    ensures Lie(v[n + 1..], pieces[n + 1..], m) && v[n].len == |pieces[n]| && At(m, v[n].base, pieces[n])
  {
    hide At;
    assert v[n] == v[n..][0] && pieces[n] == pieces[n..][0];
    assert v[n + 1..] == v[n..][1..] && pieces[n + 1..] == pieces[n..][1..];
  }

  /** apreq_decodev: what a piece leaves unread is put in front of the next one, in the
      destination, and decoded again in place. */
  method DecodeV(mem: array<byte>, dest: nat, v: array<Iovec>, ghost pieces: seq<bytes>)
      returns (st: Status, cs: Charset, dlen: nat)
    requires Lie(v[..], pieces, mem[..]) && dest + |Flat(pieces)| < mem.Length
        && AllOutside(v[..], dest, dest + |Flat(pieces)| + 1)
    modifies mem, v
    ensures LeftV(mem[..], dest, Decode(Flat(pieces), CsAscii), st, dlen, cs)
    ensures Kept(old(mem[..]), mem[..], dest, dest + |Flat(pieces)| + 1)
  {
    hide Decode, Flat, LeftV, Read, PieceResult, Roomy, At, Kept, Lie;
    ghost var m0, all, v0, room, out, unset := mem[..], Flat(pieces), v[..], |Flat(pieces)|, [], false;
    cs, dlen := CsAscii, 0;
    var n := 0;
    LieSize(v0, pieces, m0);
    assert v0[0..] == v0 && pieces[0..] == pieces;
    ReadNone(m0, dest, all);
    ReadyNext(m0, dest, room, 0, all, v0, v0, pieces, 0, cs, out, unset);
    ghost var w := if v.Length > 0 then pieces[0] else [];
    KeptSelf(m0, dest, dest + room + 1);
    while n < v.Length
      invariant 0 <= n <= v.Length && Kept(m0, mem[..], dest, dest + room + 1)
      invariant AllOutside(v0, dest, dest + room + 1) && |v0| == v.Length
      invariant Ready(mem[..], dest, room, dlen, all, v[..], v0, pieces, n, w, cs, out, unset)
    {
      ghost var m1 := mem[..];
      var slen, len;
      ghost var carry;
      st, len, slen, cs, out, unset, carry :=
        DecodePiece(mem, dest, dlen, v[n], w, cs, room, all, v0[n + 1..], pieces[n + 1..], out, unset);
      KeptTrans(m0, m1, mem[..], dest, dest + room + 1, dest, dest + room + 1);
      PieceCases(mem[..], dest, dlen + len, v[n].len - slen, st, cs, all, Flat(pieces[n + 1..]), out, unset, carry);
      RoomyRoom(m1, dest, room, dlen, v[n], w, v0[n + 1..], pieces[n + 1..]);
      KeptSize(m1, mem[..], dest, dest + room + 1);
      dlen := dlen + len;
      n := n + 1;
      if st == Success {
        ReadyNext(mem[..], dest, room, dlen, all, v[..], v0, pieces, n, cs, out, unset);
        w := if n < v.Length then pieces[n] else [];
      } else if st == Incomplete {
        if n == v.Length {
          FlatNone();
          assert pieces[n..] == [];
          return;
        }
        ghost var m2 := mem[..];
        LieStep(v0, pieces, m2, n);
        FlatStep(pieces, n);
        assert v[n] == v[n..][0] == v0[n];
        v[n] := CarryNext(mem, dest, dlen, v[n - 1].len - slen, v[n], carry, pieces[n], room, all, v0[n + 1..],
            pieces[n + 1..], cs, out, unset);
        KeptTrans(m0, m2, mem[..], dest, dest + room + 1, dest, dest + room + 1);
        w := carry + pieces[n];
        assert v[n + 1..] == v0[n + 1..];
      } else {
        return;
      }
    }
    EndsWhole(mem[..], dest, dlen, all, cs, out, unset);
    st := Success;
  }

  lemma LieSize(v: seq<Iovec>, pieces: seq<bytes>, m: bytes)
    requires Lie(v, pieces, m)
    ensures |v| == |pieces|
  {
  }

  lemma RoomyRoom(m: bytes, dest: nat, room: nat, dlen: nat, cur: Iovec, w: bytes, later: seq<Iovec>,
      pieces: seq<bytes>)
    requires Roomy(m, dest, room, dlen, cur, w, later, pieces)
    ensures cur.len == |w| && dlen + |w| + |Flat(pieces)| <= room && dest + room < |m|
  {
  }

  lemma ReadNone(m: bytes, dest: nat, all: bytes)
    requires dest <= |m|
    ensures Read(m, dest, 0, all, all, CsAscii, [], false)
  {
    hide Decode;
    NoneBefore(Decode(all, CsAscii));
  }

  lemma PieceCases(m: bytes, dest: nat, total: nat, k: nat, st: Status, cs: Charset, all: bytes, later: bytes,
      out: bytes, unset: bool, carry: bytes)
    requires PieceResult(m, dest, total, k, st, cs, all, later, out, unset, carry)
    ensures st == Success || st == Incomplete || st == BadSeq
    ensures st == Success ==> Read(m, dest, total, all, later, cs, out, unset)
    ensures st == Incomplete ==>
              |carry| == k && At(m, dest + total, carry) && Read(m, dest, total, all, carry + later, cs, out, unset)
    ensures st == Incomplete && later == [] ==> LeftV(m, dest, Decode(all, CsAscii), Incomplete, total, cs)
    ensures st == BadSeq ==> LeftV(m, dest, Decode(all, CsAscii), BadSeq, total, cs)
  {
    hide Decode, LeftV, Read, At;
  }

  lemma EndsWhole(m: bytes, dest: nat, dlen: nat, all: bytes, cs: Charset, out: bytes, unset: bool)
    requires Read(m, dest, dlen, all, [], cs, out, unset)
    ensures LeftV(m, dest, Decode(all, CsAscii), Success, dlen, cs)
  {
    hide At;
    DecodeNone(cs);
    assert out + [] == out;
  }

  /** The first byte that is '%', '+' or NUL, or the end. */
  function PlainEnd(w: bytes, i: nat): (j: nat)
    requires i <= |w|
    ensures i <= j <= |w| && (j < |w| ==> w[j] == PERCENT || w[j] == PLUS || w[j] == NUL)
    ensures forall k :: i <= k < j ==> w[k] != PERCENT && w[k] != PLUS && w[k] != NUL
    decreases |w| - i
  {
    if i == |w| || w[i] == PERCENT || w[i] == PLUS || w[i] == NUL then i else PlainEnd(w, i + 1)
  }

  lemma {:induction false} PlainDecode(w: bytes, n: nat, cs: Charset)
    requires n <= |w| && forall k :: 0 <= k < n ==> w[k] != PERCENT && w[k] != PLUS
    ensures Decode(w, cs) == Behind(w[..n], Decode(w[n..], cs))
  {
    hide Next, Behind, Decode;
    if n == 0 {
      NoneBefore(Decode(w, cs));
      assert w[0..] == w;
    } else {
      PlainDecode(w[1..], n - 1, cs);
      NextPlain(w, cs);
      DecodeEmit(w, cs, w[1..]);
      assert w[1..][n - 1..] == w[n..] && [w[0]] + w[1..][..n - 1] == w[..n];
      BehindBehind([w[0]], w[1..][..n - 1], Decode(w[n..], cs));
    }
  }

  lemma NextPlain(w: bytes, cs: Charset)
    requires w != [] && w[0] != PERCENT && w[0] != PLUS
    ensures Next(w, cs) == Emit([w[0]], 1, cs)
  {
  }

  /** Decode, when the first n bytes stand for themselves and are where they belong. */
  method DecodeFrom(mem: array<byte>, dest: nat, src: nat, slen: nat, n: nat, ghost w: bytes)
      returns (st: Status, cs: Charset, dlen: nat)
    requires At(mem[..], src, w) && |w| == slen && dest + slen < mem.Length && Clear(dest, src, src + slen)
    requires n <= slen && (n == 0 || dest == src) && forall k :: 0 <= k < n ==> w[k] != PERCENT && w[k] != PLUS
    modifies mem
    ensures Kept(old(mem[..]), mem[..], dest, dest + slen + 1) && dlen <= slen
    ensures LeftV(mem[..], dest, Decode(w, CsAscii), st, dlen, cs)
  {
    hide Decode, Left, LeftV, At, Kept;
    ghost var m := mem[..];
    PlainDecode(w, n, CsAscii);
    AtDrop(m, src, w, n);
    AtTake(m, dest, w, n, src);
    var len, used;
    st, len, used, cs := UrlDecode(mem, dest + n, src + n, slen - n, CsAscii, w[n..]);
    dlen := n + len;
    LeftBounds(mem[..], dest + n, slen - n, Decode(w[n..], CsAscii), st, len, used, cs);
    AtKept(m, mem[..], dest + n, dest + slen + 1, dest, w[..n]);
    KeptWider(m, mem[..], dest + n, dest + slen + 1, dest, dest + slen + 1);
    PieceBehind(mem[..], dest, w[..n], slen - n, Decode(w[n..], CsAscii), st, len, used, cs);
  }

  lemma AtTake(m: bytes, a: nat, w: bytes, n: nat, src: nat)
    requires At(m, src, w) && n <= |w| && (n == 0 || a == src) && a <= |m|
    ensures At(m, a, w[..n])
  {
  }

  /** apreq_decode of the text w at src. Only in place is a NUL in front of the first escape an
      error. */
  method ApreqDecode(mem: array<byte>, dest: nat, src: nat, slen: nat, ghost w: bytes)
      returns (st: Status, cs: Charset, dlen: nat)
    requires At(mem[..], src, w) && |w| == slen && dest + slen < mem.Length && Clear(dest, src, src + slen)
    modifies mem
    ensures Kept(old(mem[..]), mem[..], dest, dest + slen + 1) && dlen <= slen
    ensures var i := PlainEnd(w, 0);
      if dest == src && i < |w| && w[i] == NUL then st == BadChar && dlen == i && mem[..] == old(mem[..])
      else LeftV(mem[..], dest, Decode(w, CsAscii), st, dlen, cs)
  {
    hide Decode, LeftV;
    var n := 0;
    if dest == src {
      while n < slen && mem[src + n] != PERCENT && mem[src + n] != PLUS
        invariant 0 <= n <= slen && PlainEnd(w, n) == PlainEnd(w, 0) && forall k :: 0 <= k < n ==>
                  w[k] != PERCENT && w[k] != PLUS
      {
        assert w[n] == mem[src + n];
        if mem[src + n] == NUL { return BadChar, CsAscii, n; }
        n := n + 1;
      }
      assert n < slen ==> w[n] == mem[src + n];
    }
    st, cs, dlen := DecodeFrom(mem, dest, src, slen, n, w);
  }

  lemma PieceBehind(m: bytes, dest: nat, front: bytes, len: nat, r: Decoded, st: Status, dlen: nat, slen: nat,
      cs: Charset)
    requires At(m, dest, front) && Left(m, dest + |front|, len, r, st, dlen, slen, cs)
    ensures LeftV(m, dest, Behind(front, r), st, |front| + dlen, cs)
  {
    hide At, Left;
    LeftBounds(m, dest + |front|, len, r, st, dlen, slen, cs);
    if !r.Unset? { AtJoin(m, dest, front, r.out); }
  }
}

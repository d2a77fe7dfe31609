/** One memory: what lies where in it, and which of its bytes an operation may change. */
module Memory {
  import opened Bytes
  import opened Sequences

  /** Memory m has become m2, and at most the bytes in [from, to) differ. */
  ghost predicate Kept(m: bytes, m2: bytes, from: nat, to: nat) {
    |m2| == |m| && forall i :: 0 <= i < |m| && !(from <= i < to) ==> m2[i] == m[i]
  }

  /** The bytes o lie at address a. */
  ghost predicate At(m: bytes, a: nat, o: bytes) {
    a + |o| <= |m| && forall i :: 0 <= i < |o| ==> m[a + i] == o[i]
  }

  lemma AtIs(m: bytes, a: nat, o: bytes)
    requires At(m, a, o)
    ensures a + |o| <= |m| && m[a..a + |o|] == o
  {
  }

  lemma AtKept(m: bytes, m2: bytes, from: nat, to: nat, a: nat, o: bytes)
    requires Kept(m, m2, from, to) && At(m, a, o) && (a + |o| <= from || to <= a)
    ensures At(m2, a, o)
  {
  }

  lemma AtJoin(m: bytes, a: nat, o: bytes, o2: bytes)
    requires At(m, a, o) && At(m, a + |o|, o2)
    ensures At(m, a, o + o2)
  {
  }

  lemma AtDrop(m: bytes, a: nat, o: bytes, n: nat)
    requires At(m, a, o) && n <= |o|
    ensures At(m, a + n, o[n..])
  {
    assert forall i :: 0 <= i < |o| - n ==> o[n..][i] == o[n + i];
  }

  lemma AtFits(m: bytes, a: nat, o: bytes)
    requires At(m, a, o)
    ensures a + |o| <= |m|
  {
  }

  lemma KeptTrans(m: bytes, m2: bytes, m3: bytes, from: nat, to: nat, from2: nat, to2: nat)
    requires Kept(m, m2, from, to) && Kept(m2, m3, from2, to2)
    ensures Kept(m, m3, Min(from, from2), if to < to2 then to2 else to)
  {
  }

  lemma KeptWider(m: bytes, m2: bytes, from: nat, to: nat, from2: nat, to2: nat)
    requires Kept(m, m2, from, to) && from2 <= from && to <= to2
    ensures Kept(m, m2, from2, to2)
  {
  }

  lemma KeptSelf(m: bytes, from: nat, to: nat)
    ensures Kept(m, m, from, to)
  {
  }

  /** The destination does not run into source bytes still to be read. */
  predicate Clear(d: nat, s: nat, end: nat) { d <= s || end <= d }

  /** struct iovec, with an address in the one memory. */
  datatype Iovec = Iovec(base: nat, len: nat)
  {
    /** Not one byte lies in [from, to). */
    predicate Outside(from: nat, to: nat) { base + len <= from || to <= base }
  }

  /** The pieces lie where v says. */
  ghost predicate Lie(v: seq<Iovec>, pieces: seq<bytes>, m: bytes) {
    |v| == |pieces| && forall i :: 0 <= i < |v| ==> v[i].len == |pieces[i]| && At(m, v[i].base, pieces[i])
  }

  predicate AllOutside(v: seq<Iovec>, from: nat, to: nat) { forall i :: 0 <= i < |v| ==> v[i].Outside(from, to) }

  lemma LieKept(v: seq<Iovec>, pieces: seq<bytes>, m: bytes, m2: bytes, from: nat, to: nat)
    requires Lie(v, pieces, m) && Kept(m, m2, from, to) && AllOutside(v, from, to)
    ensures Lie(v, pieces, m2)
  {
    hide Kept, At;
    forall i | 0 <= i < |v| ensures At(m2, v[i].base, pieces[i]) {
      assert v[i].Outside(from, to);
      AtKept(m, m2, from, to, v[i].base, pieces[i]);
    }
  }

  /** The iovecs of pieces that lie one behind the other from base on. */
  function Iovecs(pieces: seq<bytes>, base: nat): (v: seq<Iovec>)
    ensures |v| == |pieces|
  {
    if pieces == [] then [] else [Iovec(base, |pieces[0]|)] + Iovecs(pieces[1..], base + |pieces[0]|)
  }

  lemma {:induction false} IovecsHold(pieces: seq<bytes>, base: nat, m: bytes)
    requires At(m, base, Flat(pieces))
    ensures var v := Iovecs(pieces, base); var end := base + |Flat(pieces)|;
      Lie(v, pieces, m) && forall i :: 0 <= i < |v| ==> v[i].base + v[i].len <= end
  {
    hide At;
    if pieces != [] {
      var d, more, all := pieces[0], pieces[1..], Flat(pieces);
      assert all == d + Flat(more);
      AtDrop(m, base, all, |d|);
      AtFront(m, base, all, |d|);
      assert all[|d|..] == Flat(more) && all[..|d|] == d;
      IovecsHold(more, base + |d|, m);
      assert Iovecs(pieces, base)[1..] == Iovecs(more, base + |d|);
    }
  }

  lemma AtFront(m: bytes, a: nat, o: bytes, n: nat)
    requires At(m, a, o) && n <= |o|
    ensures At(m, a, o[..n])
  {
  }

  /** A memory with the text at 0, and room for what is decoded behind it. */
  method Load(text: bytes, room: nat) returns (mem: array<byte>)
    ensures fresh(mem) && mem.Length == |text| + room && At(mem[..], 0, text)
  {
    mem := new byte[|text| + room](_ => 0);
    var i := 0;
    while i < |text|
      invariant 0 <= i <= |text| && forall k :: 0 <= k < i ==> mem[k] == text[k]
    {
      mem[i] := text[i];
      i := i + 1;
    }
  }

  /** memcpy of the text w at src, to a place that does not overlap it. */
  method Copy(mem: array<byte>, dest: nat, src: nat, len: nat, ghost w: bytes)
    requires At(mem[..], src, w) && |w| == len && dest + len <= mem.Length
    requires src + len <= dest || dest + len <= src
    modifies mem
    ensures At(mem[..], dest, w) && Kept(old(mem[..]), mem[..], dest, dest + len)
  {
    var i := 0;
    while i < len
      invariant 0 <= i <= len && forall k :: 0 <= k < i ==> mem[dest + k] == w[k]
      invariant forall k :: 0 <= k < mem.Length && !(dest <= k < dest + i) ==> mem[k] == old(mem[k])
    {
      assert mem[src + i] == old(mem[..])[src + i] == w[i];
      mem[dest + i] := mem[src + i];
      i := i + 1;
    }
  }
}

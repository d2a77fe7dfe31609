/** Writing brigades to files in the face of short writes, and upload brigades that move to a
    temporary file when they grow: apreq_fwritev, apreq_brigade_fwrite, apreq_brigade_concat. */
module Spooling {
  import opened Bytes
  import opened Brigades
  import opened Sequences
  import opened Statuses

  const NELTS := 8

  /** All the bytes of a brigade; an EOS bucket reads as no bytes. */
  function AllBytes(bs: seq<Bucket>): (s: bytes)
    ensures !HasEos(bs) ==> s == Live(bs)
  {
    if bs == [] then [] else Read(bs[0]) + AllBytes(bs[1..])
  }

  function Read(b: Bucket): bytes { if b.Data? then b.data else [] }

  lemma {:induction false} AllBytesAppend(a: seq<Bucket>, b: seq<Bucket>)
    ensures AllBytes(a + b) == AllBytes(a) + AllBytes(b)
  {
    if a == [] {
      assert a + b == b;
    } else {
      assert (a + b)[1..] == a[1..] + b;
      AllBytesAppend(a[1..], b);
      Regroup(Read(a[0]), AllBytes(a[1..]), AllBytes(b));
    }
  }

  /** A file and its position. Writes may be short on any disk; on a reliable one they do not
      fail, and get at least one byte through. */
  class File {
    const reliable: bool
    var contents: bytes
    var pos: nat

    constructor (reliable: bool)
      ensures contents == [] && pos == 0 && this.reliable == reliable
    {
      this.reliable := reliable;
      contents, pos := [], 0;
    }

    ghost predicate Valid() reads this { pos <= |contents| }

    /** What lies in front of the position. */
    ghost function Front(): bytes
      requires Valid()
      reads this
    {
      contents[..pos]
    }

    ghost predicate AtEnd() reads this { pos == |contents| }

    /** apr_file_seek, from the start of the file. */
    method Seek(to: nat)
      requires to <= |contents|
      modifies this`pos
      ensures pos == to
    {
      pos := to;
    }

    /** apr_file_writev: writes some front part of the vector, as the system pleases. */
    method Writev(v: seq<bytes>) returns (s: Status, len: nat)
      requires Valid()
      modifies this
      ensures Valid() && (s == Success || s == IoError)
      ensures len <= |Flat(v)| && Front() == old(Front()) + Flat(v)[..len] && (old(AtEnd()) ==> AtEnd())
      ensures reliable ==> s == Success && (Flat(v) != [] ==> len > 0)
    {
      assert reliable && Flat(v) != [] ==> |Flat(v)| > 0;
      len :| 0 <= len <= |Flat(v)| && (reliable && Flat(v) != [] ==> len > 0);
      var fails: bool :| reliable ==> !fails;
      s := if fails then IoError else Success;
      contents := contents[..pos] + Flat(v)[..len] + (if pos + len < |contents| then contents[pos + len..] else []);
      pos := pos + len;
    }
  }

  /** f holds what it held, and some front part of todo. */
  ghost predicate WrittenPart(before: bytes, now: bytes, todo: bytes) {
    before <= now <= before + todo
  }

  /** apreq_fwritev: at least the first element of the vector is written, or an error returned;
      `left` is what remains of the vector. */
  method Fwritev(f: File, v: seq<bytes>) returns (s: Status, left: seq<bytes>, written: nat)
    requires v != [] && f.Valid()
    modifies f
    ensures f.Valid() && (old(f.AtEnd()) ==> f.AtEnd())
    ensures WrittenPart(old(f.Front()), f.Front(), Flat(v)) && f.pos == old(f.pos) + written
    ensures s == Success ==> |left| < |v| && f.Front() + Flat(left) == old(f.Front()) + Flat(v)
    ensures s == Success || s == IoError || s == General
    ensures f.reliable ==> s == Success
  {
    left, written := v, 0;
    while true
      invariant f.Valid() && f.Front() + Flat(left) == old(f.Front()) + Flat(v) && old(f.Front()) <= f.Front()
      invariant f.pos == old(f.pos) + written && |left| == |v| && (old(f.AtEnd()) ==> f.AtEnd())
      decreases |Flat(left)|
    {
      var len: nat;
      ghost var before := f.Front();
      s, len := f.Writev(left);
      written := written + len;
      TakeDrop(Flat(left), len, []);
      Regroup(before, Flat(left)[..len], Flat(left)[len..]);
      assert Flat(left)[..len] + Flat(left)[len..] == Flat(left);
      assert f.Front() + Flat(left)[len..] == old(f.Front()) + Flat(v);
      assert f.Front() == (old(f.Front()) + Flat(v))[..f.pos];
      if s != Success {
        return;
      }
      var n, off := Shift(left, len);
      if n == |left| {
        left := [];
        return;
      }
      if n == 0 && off == 0 {
        return General, left, written;
      }
      left := Remaining(left, n, off);
      if n > 0 {
        return;
      }
    }
  }

  /** How far len bytes reach: into element n, at offset off. */
  method Shift(v: seq<bytes>, len: nat) returns (n: nat, off: nat)
    requires len <= |Flat(v)|
    ensures n <= |v| && (n < |v| ==> off < |v[n]|) && (n == |v| ==> off == 0)
    ensures Flat(v)[len..] == if n == |v| then [] else v[n][off..] + Flat(v[n + 1..])
  {
    n, off := 0, len;
    assert v[0..] == v;
    while n < |v| && off >= |v[n]|
      invariant n <= |v| && off <= |Flat(v[n..])| && Flat(v)[len..] == Flat(v[n..])[off..]
    {
      assert v[n..][1..] == v[n + 1..];
      DropFlat(v[n], Flat(v[n + 1..]), off);
      off := off - |v[n]|;
      n := n + 1;
    }
    if n < |v| {
      assert v[n..][1..] == v[n + 1..];
      DropAppend(v[n], Flat(v[n + 1..]), off);
    }
  }

  lemma DropFlat(a: bytes, b: bytes, off: nat)
    requires |a| <= off <= |a| + |b|
    ensures (a + b)[off..] == b[off - |a|..]
  {
  }

  /** The vector with n elements and off bytes of the next one gone. */
  function Remaining(v: seq<bytes>, n: nat, off: nat): (r: seq<bytes>)
    requires n <= |v| && (n < |v| ==> off <= |v[n]|)
    ensures |r| == |v| - n
    ensures Flat(r) == if n == |v| then [] else v[n][off..] + Flat(v[n + 1..])
  {
    if n == |v| then []
    else var r := [v[n][off..]] + v[n + 1..]; assert r[1..] == v[n + 1..]; r
  }

  /** The bytes in the file, in the vector and still to come make up `all`. */
  ghost predicate Writing(before: bytes, now: bytes, v: seq<bytes>, more: bytes, all: bytes) {
    before <= now && now + (Flat(v) + more) == all
  }

  /** apreq_fwritev in the middle of a brigade. */
  method Flush(f: File, v: seq<bytes>, ghost before: bytes, ghost more: bytes, ghost all: bytes)
    returns (s: Status, left: seq<bytes>, len: nat)
    requires v != [] && f.Valid() && Writing(before, f.Front(), v, more, all)
    modifies f
    ensures f.Valid() && (old(f.AtEnd()) ==> f.AtEnd())
    ensures f.pos == old(f.pos) + len && before <= f.Front() <= all
    ensures s == Success ==> |left| < |v| && Writing(before, f.Front(), left, more, all)
    ensures s == Success || s == IoError || s == General
    ensures f.reliable ==> s == Success
  {
    s, left, len := Fwritev(f, v);
    Regroup(old(f.Front()), Flat(v), more);
    assert old(f.Front()) + Flat(v) <= all;
    if s == Success { Regroup(f.Front(), Flat(left), more); }
  }

  lemma NextRead(before: bytes, now: bytes, v: seq<bytes>, bs: seq<Bucket>, e: nat, all: bytes)
    requires e < |bs| && Writing(before, now, v, AllBytes(bs[e..]), all)
    ensures Writing(before, now, v + [Read(bs[e])], AllBytes(bs[e + 1..]), all)
  {
    assert bs[e..][1..] == bs[e + 1..];
    FlatSnoc(v, Read(bs[e]));
    Regroup(Flat(v), Read(bs[e]), AllBytes(bs[e + 1..]));
  }

  lemma WritingStarts(before: bytes, v: seq<bytes>, more: bytes)
    requires v == []
    ensures Writing(before, before, v, more, before + more)
  {
    assert Flat(v) + more == more;
  }

  lemma WritingEnds(before: bytes, now: bytes, v: seq<bytes>, all: bytes)
    requires v == [] && Writing(before, now, v, [], all)
    ensures now == all
  {
    assert Flat(v) + [] == [] && now + [] == now;
  }

  lemma NoneToRead(bs: seq<Bucket>, e: nat)
    ensures e == |bs| ==> AllBytes(bs[e..]) == []
  {
  }

  /** apreq_brigade_fwrite: the iovecs are written eight at a time. */
  method BrigadeFwrite(f: File, bs: seq<Bucket>) returns (s: Status, wlen: nat)
    requires f.Valid()
    modifies f
    ensures f.Valid() && (old(f.AtEnd()) ==> f.AtEnd())
    ensures s == Success ==> f.Front() == old(f.Front()) + AllBytes(bs) && wlen == |AllBytes(bs)|
    ensures WrittenPart(old(f.Front()), f.Front(), AllBytes(bs))
    ensures s == Success || s == IoError || s == General
    ensures f.reliable ==> s == Success
  {
    hide AllBytes, Flat, Writing;
    var v: seq<bytes> := [];
    wlen := 0;
    var e := 0;
    ghost var before, all := f.Front(), f.Front() + AllBytes(bs);
    assert bs[0..] == bs;
    WritingStarts(before, v, AllBytes(bs));
    while e < |bs|
      invariant e <= |bs| && |v| <= NELTS
      invariant f.Valid() && Writing(before, f.Front(), v, AllBytes(bs[e..]), all)
      invariant f.pos == |before| + wlen && (old(f.AtEnd()) ==> f.AtEnd())
    {
      if |v| == NELTS {
        var len;
        s, v, len := Flush(f, v, before, AllBytes(bs[e..]), all);
        if s != Success { return; }
        wlen := wlen + len;
      }
      NextRead(before, f.Front(), v, bs, e, all);
      v := v + [Read(bs[e])];
      e := e + 1;
    }
    NoneToRead(bs, e);
    while |v| > 0
      invariant f.Valid() && Writing(before, f.Front(), v, [], all)
      invariant f.pos == |before| + wlen && (old(f.AtEnd()) ==> f.AtEnd())
      decreases |v|
    {
      var len;
      s, v, len := Flush(f, v, before, [], all);
      if s != Success { return; }
      wlen := wlen + len;
    }
    WritingEnds(before, f.Front(), v, all);
    s := Success;
  }

  /** An upload brigade: buckets in memory and then, once it has grown to the limit, a spool
      bucket onto the bytes [start, start + length) of a temporary file, and then perhaps EOS. */
  class Spool {
    const limit: nat
    const file: File
    var mem: seq<Bucket>
    var spooled: bool
    var start: nat
    var length: nat
    var eos: bool

    constructor (limit: nat, reliable: bool)
      ensures Valid() && Contents() == [] && !spooled && mem == [] && this.limit == limit && fresh(file)
          && file.reliable == reliable
    {
      this.limit := limit;
      file := new File(reliable);
      mem, spooled, start, length, eos := [], false, 0, 0, false;
    }

    /** Either nothing is spooled and all is in memory and below the limit, or the file holds
        just the whole contents, of which the spool bucket shows what is not in memory. */
    ghost predicate Valid()
      reads this, file
    {
      && file.Valid()
      && (!spooled ==> !eos && (mem == [] || |AllBytes(mem)| < limit))
      && (spooled ==>
            start + length == |file.contents| && file.contents[..start] == AllBytes(mem) && start + length >= limit)
    }

    /** What a reader of the brigade sees. */
    function Contents(): bytes
      requires Valid()
      reads this, file
    {
      AllBytes(mem) + if spooled then file.contents[start..start + length] else []
    }

    /** apr_brigade_length. */
    function Length(): nat
      reads this
    {
      |AllBytes(mem)| + if spooled then length else 0
    }

    /** The last bucket is EOS. */
    predicate Ended()
      reads this
    {
      if spooled then eos else mem != [] && mem[|mem| - 1].Eos?
    }

    /** Start a new upload. */
    method Reset()
      modifies this, file
      ensures Valid() && Contents() == [] && !spooled && mem == []
    {
      mem, spooled, start, length, eos := [], false, 0, 0, false;
      file.contents, file.pos := [], 0;
    }

    /** The temporary file holds what is in memory and in the spool bucket, up to its position. */
    ghost predicate Spooling()
      reads this, file
    {
      && spooled && file.Valid() && file.pos == start + length && file.AtEnd()
      && start <= file.pos && file.contents[..start] == AllBytes(mem)
    }

    /** Make the temporary file and write out what is in memory. */
    method StartSpool() returns (s: Status)
      requires Valid() && !spooled
      modifies file, this`spooled, this`start, this`length
      ensures s == Success || s == IoError || s == General
      ensures s == Success ==> Spooling() && length == 0
      ensures file.reliable ==> s == Success
    {
      var fails: bool :| file.reliable ==> !fails;
      if fails { return IoError; }
      file.contents, file.pos := [], 0;
      var wlen;
      s, wlen := BrigadeFwrite(file, mem);
      if s != Success { return; }
      spooled, start, length := true, wlen, 0;
      assert file.Front() == AllBytes(mem);
    }

    /** Write a brigade behind the spool bucket, and extend the bucket over it. */
    method Append(inn: Brigade) returns (s: Status)
      requires Spooling() && !eos
      modifies this`length, this`eos, file, inn
      ensures s == Success || s == IoError || s == General
      ensures file.reliable ==> s == Success
      ensures s == Success ==>
        var bs := old(inn.buckets);
        && Spooling() && inn.buckets == [] && eos == EndsInEos(bs)
        && file.contents[start..start + length] == old(file.contents[start..start + length]) + AllBytes(bs)
    {
      hide AllBytes;
      var bs, ended := inn.buckets, EndsInEos(inn.buckets);
      if ended {
        bs := bs[..|bs| - 1];
        DropEos(inn.buckets);
      }
      inn.buckets := [];
      ghost var front := file.Front();
      assert front[..start] == file.contents[..start] && front[start..] == file.contents[start..start + length];
      var wlen;
      s, wlen := BrigadeFwrite(file, bs);
      if s == Success {
        Extended(file.contents, file.pos, front, AllBytes(bs), start);
        length := length + wlen;
        eos := ended;
      }
    }

    /** The spool file holds the whole contents and nothing else. */
    lemma FileHoldsAll()
      requires Valid() && spooled
      ensures file.contents == Contents()
    {
      assert file.contents == file.contents[..start] + file.contents[start..start + length];
    }

    /** What a successful concatenation of bs has done. */
    twostate predicate Grown(bs: seq<Bucket>)
      requires old(Valid())
      reads this, file
    {
      && Valid() && Contents() == old(Contents()) + AllBytes(bs)
      && (old(spooled) ==> spooled) && (spooled <==> |Contents()| >= limit) && Ended() == EndsInEos(bs)
    }

    /** The in-memory half of apreq_brigade_concat. */
    method Keep(inn: Brigade)
      requires Valid() && !spooled && !Ended() && |AllBytes(mem)| + |AllBytes(inn.buckets)| < limit
      modifies this`mem, inn
      ensures Grown(old(inn.buckets)) && inn.buckets == []
    {
      AllBytesAppend(mem, inn.buckets);
      mem := mem + inn.buckets;
      inn.buckets := [];
    }

    /** The other half: everything goes to the file. */
    method Spill(inn: Brigade) returns (s: Status)
      requires Valid() && !Ended() && Length() + |AllBytes(inn.buckets)| >= limit
      modifies this, file, inn
      ensures s == Success || s == IoError || s == General
      ensures file.reliable ==> s == Success
      ensures s == Success ==> Grown(old(inn.buckets)) && inn.buckets == []
    {
      hide AllBytes;
      ghost var bs, shown := inn.buckets, if spooled then file.contents[start..start + length] else [];
      if !spooled {
        s := StartSpool();
        if s != Success { return; }
      } else {
        file.Seek(start + length);
      }
      assert file.contents[start..start + length] == shown;
      s := Append(inn);
      Regroup(AllBytes(mem), shown, AllBytes(bs));
    }

    /** apreq_brigade_concat. */
    method Concat(inn: Brigade) returns (s: Status)
      requires Valid()
      modifies this, file, inn
      ensures s == Success || s == Eof || s == IoError || s == General
      ensures s == Eof <==> old(Ended())
      ensures file.reliable && !old(Ended()) ==> s == Success
      ensures s == Eof ==> Valid() && Contents() == old(Contents()) && spooled == old(spooled)
      ensures s == Eof ==> Ended() && inn.buckets == old(inn.buckets)
      ensures s == Success ==> Grown(old(inn.buckets)) && inn.buckets == []
    {
      if Ended() { return Eof; }
      var outLen := Length();
      if outLen < limit && |AllBytes(inn.buckets)| < limit - outLen {
        Keep(inn);
        return Success;
      }
      s := Spill(inn);
    }
  }

  /** A call behind one that ended in EOS. */
  ghost predicate BehindEos(calls: seq<seq<Bucket>>) {
    exists i :: 0 <= i < |calls| - 1 && EndsInEos(calls[i])
  }

  lemma {:induction false} AllJoined(calls: seq<seq<Bucket>>, n: nat)
    requires n < |calls|
    ensures AllBytes(Joined(calls[..n + 1])) == AllBytes(Joined(calls[..n])) + AllBytes(calls[n])
  {
    if n == 0 {
      assert calls[..1] == [calls[0]] && calls[..0] == [] && [calls[0]][1..] == [];
      assert Joined(calls[..1]) == calls[0] + Joined([]) == calls[0];
      assert [] + AllBytes(calls[0]) == AllBytes(calls[0]);
    } else {
      AllJoined(calls[1..], n - 1);
      assert calls[..n + 1][1..] == calls[1..][..n] && calls[..n][1..] == calls[1..][..n - 1];
      AllBytesAppend(calls[0], Joined(calls[1..][..n]));
      AllBytesAppend(calls[0], Joined(calls[1..][..n - 1]));
      Regroup(AllBytes(calls[0]), AllBytes(Joined(calls[1..][..n - 1])), AllBytes(calls[n]));
    }
  }

  /** An upload over any calls: what is added is what is there, in the file alone from the moment
      it has reached the limit. Only EOS ends it, or a disk that fails. */
  method SpoolCalls(limit: nat, reliable: bool, calls: seq<seq<Bucket>>)
    returns (s: Status, contents: bytes, spooled: bool, filed: bytes, done: nat)
    ensures s == Success || s == Eof || (!reliable && (s == IoError || s == General))
    ensures s == Success ==> done == |calls| && !BehindEos(calls)
    ensures s == Eof ==> 0 < done < |calls| && EndsInEos(calls[done - 1])
    ensures s == Success || s == Eof ==> contents == AllBytes(Joined(calls[..done])) && !BehindEos(calls[..done])
    ensures s == Success || s == Eof ==> spooled == (done > 0 && |contents| >= limit) && (spooled ==> filed == contents)
  {
    hide AllBytes, Joined, BehindEos, EndsInEos, Gone, Spool.Valid, Spool.Ended;
    var spool := new Spool(limit, reliable);
    done, contents, spooled, filed, s := 0, [], false, [], Success;
    NoneGone(spool, limit, calls);
    while done < |calls| && s == Success
      invariant done <= |calls| && fresh(spool) && fresh(spool.file) && spool.file.reliable == reliable
      invariant s == Success || s == Eof || (!reliable && (s == IoError || s == General))
      invariant s == Success || s == Eof ==> Gone(spool, limit, calls, done)
      invariant s == Eof ==> 0 < done < |calls| && EndsInEos(calls[done - 1])
      decreases |calls| - done, s == Success
    {
      s := SpoolCall(spool, limit, calls, done);
      if s == Success { done := done + 1; }
    }
    if s == Success || s == Eof {
      GoneSays(spool, limit, calls, done);
      contents, spooled := spool.Contents(), spool.spooled;
      if spooled {
        spool.FileHoldsAll();
        filed := spool.file.contents;
      }
    }
    assert calls[..|calls|] == calls;
  }

  /** One more call. */
  method SpoolCall(spool: Spool, limit: nat, calls: seq<seq<Bucket>>, done: nat) returns (s: Status)
    requires done < |calls| && Gone(spool, limit, calls, done)
    modifies spool, spool.file
    ensures s == Success || s == Eof || (!spool.file.reliable && (s == IoError || s == General))
    ensures s == Success ==> Gone(spool, limit, calls, done + 1)
    ensures s == Eof ==> Gone(spool, limit, calls, done) && 0 < done && EndsInEos(calls[done - 1])
  {
    hide AllBytes, Joined, BehindEos, EndsInEos;
    var bb := new Brigade.Of(calls[done]);
    s := spool.Concat(bb);
    if s == Success {
      AllJoined(calls, done);
      NotBehind(calls, done);
    }
  }

  lemma NoneGone(spool: Spool, limit: nat, calls: seq<seq<Bucket>>)
    requires spool.Valid() && spool.limit == limit && spool.Contents() == [] && !spool.spooled && spool.mem == []
    ensures Gone(spool, limit, calls, 0)
  {
    NoCalls(calls[..0]);
  }

  lemma GoneSays(spool: Spool, limit: nat, calls: seq<seq<Bucket>>, done: nat)
    requires Gone(spool, limit, calls, done)
    ensures spool.Valid() && spool.Contents() == AllBytes(Joined(calls[..done])) && !BehindEos(calls[..done])
    ensures spool.spooled <==> done > 0 && |spool.Contents()| >= limit
  {
  }

  /** The first `done` calls are in the spool, and none of them stands behind EOS. */
  ghost predicate Gone(spool: Spool, limit: nat, calls: seq<seq<Bucket>>, done: nat)
    reads spool, spool.file
  {
    && done <= |calls| && spool.limit == limit && spool.Valid()
    && spool.Contents() == AllBytes(Joined(calls[..done])) && !BehindEos(calls[..done])
    && (spool.spooled <==> done > 0 && |spool.Contents()| >= limit)
    && (spool.Ended() <==> done > 0 && EndsInEos(calls[done - 1]))
  }

  lemma NoCalls(calls: seq<seq<Bucket>>)
    ensures calls == [] ==> AllBytes(Joined(calls)) == [] && !BehindEos(calls)
  {
  }

  lemma NotBehind(calls: seq<seq<Bucket>>, n: nat)
    requires n < |calls| && !BehindEos(calls[..n]) && !(n > 0 && EndsInEos(calls[n - 1]))
    ensures !BehindEos(calls[..n + 1])
  {
    var now, was := calls[..n + 1], calls[..n];
    forall i | 0 <= i < n
      ensures !EndsInEos(now[i])
    {
      assert now[i] == calls[i] && (i < n - 1 ==> was[i] == calls[i]);
    }
  }

  lemma Extended(c: bytes, p: nat, front: bytes, d: bytes, start: nat)
    requires p <= |c| && c[..p] == front + d && start <= |front|
    ensures c[..start] == front[..start] && c[start..p] == front[start..] + d
  {
    assert c[start..p] == c[..p][start..];
    assert c[..start] == c[..p][..start];
  }

  predicate EndsInEos(bs: seq<Bucket>) { bs != [] && bs[|bs| - 1].Eos? }

  lemma DropEos(bs: seq<Bucket>)
    requires EndsInEos(bs)
    ensures AllBytes(bs[..|bs| - 1]) == AllBytes(bs)
  {
    var last: seq<Bucket> := [Eos];
    assert bs == bs[..|bs| - 1] + last;
    AllBytesAppend(bs[..|bs| - 1], last);
    assert last[1..] == [] && AllBytes(last) == [];
  }
}

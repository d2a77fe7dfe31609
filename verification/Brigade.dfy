/** Bucket brigades: a stream of bytes cut into buckets, possibly ended by EOS. */
module Brigades {
  import opened Bytes
  import opened Sequences

  datatype Bucket = Data(data: bytes) | Eos

  /** The bytes in front of the first EOS bucket. */
  function Live(bs: seq<Bucket>): (s: bytes)
  {
    if bs == [] || bs[0].Eos? then [] else bs[0].data + Live(bs[1..])
  }

  predicate HasEos(bs: seq<Bucket>) { Eos in bs }

  lemma LiveAppend(a: seq<Bucket>, b: seq<Bucket>)
    ensures Live(a + b) == if HasEos(a) then Live(a) else Live(a) + Live(b)
  {
    if a == [] {
      assert a + b == b;
    } else {
      assert (a + b)[1..] == a[1..] + b;
      LiveAppend(a[1..], b);
    }
  }

  /** The stream whose buckets bs have arrived and whose bytes `rest` are still to come. */
  function Stream(bs: seq<Bucket>, rest: bytes): bytes {
    Live(bs) + (if HasEos(bs) then [] else rest)
  }

  lemma LiveSplit(bs: seq<Bucket>, i: nat)
    requires i <= |bs|
    ensures HasEos(bs) <==> HasEos(bs[..i]) || HasEos(bs[i..])
    ensures !HasEos(bs[..i]) ==> Live(bs) == Live(bs[..i]) + Live(bs[i..])
  {
    assert bs == bs[..i] + bs[i..];
    LiveAppend(bs[..i], bs[i..]);
  }

  lemma LiveSnoc(held: seq<Bucket>, b: Bucket)
    requires !HasEos(held) && b.Data?
    ensures Live(held + [b]) == Live(held) + b.data
  {
    LiveAppend(held, [b]);
    assert [b][1..] == [] && Live([b]) == b.data + Live([b][1..]);
  }

  /** The buckets of all the calls, in order. */
  function Joined(calls: seq<seq<Bucket>>): seq<Bucket> {
    if calls == [] then [] else calls[0] + Joined(calls[1..])
  }

  lemma StreamStep(w: seq<Bucket>, c: seq<Bucket>, later: seq<Bucket>)
    requires !HasEos(w)
    ensures Stream(w + c, Live(later)) == Stream(w, Live(c + later))
    ensures HasEos(w + c) <==> HasEos(c)
  {
    LiveAppend(w, c);
    LiveAppend(c, later);
    Regroup(Live(w), Live(c), Live(later));
  }

  lemma JoinedStep(calls: seq<seq<Bucket>>, i: nat)
    requires i < |calls|
    ensures Joined(calls[i..]) == calls[i] + Joined(calls[i + 1..])
    ensures HasEos(Joined(calls[i..])) <==> HasEos(calls[i]) || HasEos(Joined(calls[i + 1..]))
  {
    assert calls[i..][1..] == calls[i + 1..];
  }

  lemma NoBuckets(bs: seq<Bucket>)
    ensures bs == [] ==> Live(bs) == [] && !HasEos(bs)
  {
  }

  /** Data buckets with something in them. */
  ghost predicate Solid(bs: seq<Bucket>) {
    forall i :: 0 <= i < |bs| ==> bs[i].Data? && bs[i].data != []
  }

  lemma SolidEmpty(bs: seq<Bucket>)
    requires Solid(bs)
    ensures Live(bs) == [] <==> bs == []
    ensures !HasEos(bs)
  {
  }

  class Brigade {
    var buckets: seq<Bucket>

    constructor ()
      ensures buckets == []
    {
      buckets := [];
    }

    constructor Of(bs: seq<Bucket>)
      ensures buckets == bs
    {
      buckets := bs;
    }

    /** APR_BRIGADE_CONCAT: move every bucket of b to the tail. */
    method Concat(b: Brigade)
      requires b != this
      modifies this, b
      ensures buckets == old(buckets) + old(b.buckets) && b.buckets == []
    {
      buckets := buckets + b.buckets;
      b.buckets := [];
    }

    method InsertHead(e: Bucket)
      modifies this
      ensures buckets == [e] + old(buckets)
    {
      buckets := [e] + buckets;
    }

    /** Move the first bucket to the tail of b. */
    method MoveFirst(b: Brigade)
      requires b != this && buckets != []
      modifies this, b
      ensures buckets == old(buckets)[1..] && b.buckets == old(b.buckets) + [old(buckets)[0]]
    {
      b.buckets := b.buckets + [buckets[0]];
      buckets := buckets[1..];
    }

    /** Delete the first n buckets. */
    method DropFront(n: nat)
      requires n <= |buckets|
      modifies this
      ensures buckets == old(buckets)[n..]
    {
      var i := n;
      while i > 0
        invariant 0 <= i <= n && buckets == old(buckets)[n - i..]
      {
        buckets := buckets[1..];
        i := i - 1;
      }
    }

    /** Move the first n buckets to the tail of b. */
    method MoveFront(b: Brigade, n: nat)
      requires b != this && n <= |buckets|
      modifies this, b
      ensures buckets == old(buckets)[n..] && b.buckets == old(b.buckets) + old(buckets)[..n]
    {
      var i := n;
      while i > 0
        invariant 0 <= i <= n && buckets == old(buckets)[n - i..]
        invariant b.buckets == old(b.buckets) + old(buckets)[..n - i]
      {
        MoveFirst(b);
        i := i - 1;
      }
    }

    method DeleteAt(i: nat)
      requires i < |buckets|
      modifies this
      ensures buckets == old(buckets)[..i] + old(buckets)[i + 1..]
    {
      buckets := buckets[..i] + buckets[i + 1..];
    }

    /** apr_bucket_split: the bucket becomes two; either half may be empty. */
    method Split(i: nat, point: nat)
      requires i < |buckets| && buckets[i].Data? && point <= |buckets[i].data|
      modifies this
      ensures |buckets| == |old(buckets)| + 1
      ensures buckets == old(buckets)[..i] + [Data(old(buckets)[i].data[..point]), Data(old(buckets)[i].data[point..])]
                         + old(buckets)[i + 1..]
    {
      var d := buckets[i].data;
      buckets := buckets[..i] + [Data(d[..point]), Data(d[point..])] + buckets[i + 1..];
    }

    method Cleanup()
      modifies this
      ensures buckets == []
    {
      buckets := [];
    }
  }

  /** An apr_table_t used as an ordered list of entries. */
  class Table<T> {
    var elts: seq<T>

    constructor ()
      ensures elts == []
    {
      elts := [];
    }

    method Add(x: T)
      modifies this
      ensures elts == old(elts) + [x]
    {
      elts := elts + [x];
    }
  }
}

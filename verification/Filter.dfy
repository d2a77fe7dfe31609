/** The Apache input filter: it shows the request body to a parser, and hands the same bytes on to
    the filters downstream. */
module Filters {
  import opened Bytes
  import opened Brigades
  import opened Sequences
  import opened Statuses
  import opened Spooling

  /** body_status: Einit before the first use, Parsing while the parser asks for more. */
  datatype Body = Einit | Parsing | Stopped(code: Status)

  /** What the request says of its body. A GET request has none to parse; `preset` is a parser the
      handler has set, without which the Content-Type has to be there and `known`. */
  datatype Length = Absent | Invalid | Declared(n: nat)
  datatype Request = Request(get: bool, length: Length, preset: bool, typed: bool, known: bool)

  /** What the next filter upstream answers to a read. */
  datatype Answer = Fails(code: Status) | Gives(buckets: seq<Bucket>)

  /** What is done with the filter: the handler prefetches, or a filter downstream reads. */
  datatype Op = Prefetch(n: nat) | Read(n: nat)

  /** A body whose length, if any is given, can be read and is within the limit. */
  predicate Sized(r: Request, limit: nat) { !r.length.Invalid? && (r.length.Declared? ==> r.length.n <= limit) }

  /** Where the filter's first use leads, and why. */
  function FirstStatus(r: Request, limit: nat): (b: Body)
    ensures b != Einit && (b == Stopped(NoData) <==> r.get)
    ensures b == Stopped(BadHeader) <==> !r.get && r.length.Invalid?
    ensures b == Stopped(OverLimit) <==> !r.get && r.length.Declared? && r.length.n > limit
    ensures b == Stopped(NoHeader) <==> !r.get && Sized(r, limit) && !r.preset && !r.typed
    ensures b == Stopped(NoParser) <==> !r.get && Sized(r, limit) && !r.preset && r.typed && !r.known
    ensures b == Parsing <==> !r.get && Sized(r, limit) && (r.preset || (r.typed && r.known))
  {
    if r.get then Stopped(NoData)
    else if r.length.Invalid? then Stopped(BadHeader)
    else if r.length.Declared? && r.length.n > limit then Stopped(OverLimit)
    else if r.preset || (r.typed && r.known) then Parsing
    else Stopped(if r.typed then NoParser else NoHeader)
  }

  /** The answer to read number i; at the end there is nothing more to give. */
  function Answered(answers: seq<Answer>, i: nat): Answer {
    if i < |answers| then answers[i] else Gives([])
  }

  function Carried(a: Answer): bytes { if a.Gives? then AllBytes(a.buckets) else [] }

  /** The bytes of the first k answers. */
  function Brought(answers: seq<Answer>, k: nat): bytes {
    if k == 0 then [] else Brought(answers, k - 1) + Carried(Answered(answers, k - 1))
  }

  /** The brigades among the first k answers. */
  function Gave(answers: seq<Answer>, k: nat): seq<seq<Bucket>> {
    if k == 0 then []
    else Gave(answers, k - 1) + (if Answered(answers, k - 1).Gives? then [Answered(answers, k - 1).buckets] else [])
  }

  predicate EosAt(answers: seq<Answer>, i: nat) {
    Answered(answers, i).Gives? && HasEos(Answered(answers, i).buckets)
  }

  /** EOS is among the first k answers. */
  ghost predicate Over(answers: seq<Answer>, k: nat) { exists i: nat :: i < k && EosAt(answers, i) }

  /** Nothing comes behind EOS. */
  ghost predicate Legal(answers: seq<Answer>) {
    forall i: nat, j: nat :: i < j && EosAt(answers, i) ==> Carried(Answered(answers, j)) == []
  }

  class Upstream {
    const answers: seq<Answer>
    var used: nat

    constructor (answers: seq<Answer>)
      ensures this.answers == answers && used == 0
    {
      this.answers, used := answers, 0;
    }

    method Get() returns (a: Answer)
      modifies this
      ensures a == Answered(answers, old(used)) && used == old(used) + 1
    {
      a := if used < |answers| then answers[used] else Gives([]);
      used := used + 1;
    }
  }

  /** Any body parser: it says what it likes, and leaves what it likes of what it is handed. */
  class Parser {
    var limit: nat
    ghost var handed: seq<seq<Bucket>>
    ghost var said: seq<Status>

    constructor (limit: nat)
      ensures this.limit == limit && handed == [] && said == []
    {
      this.limit, handed, said := limit, [], [];
    }

    method Run(bb: Brigade) returns (s: Status)
      modifies this`handed, this`said, bb
      ensures handed == old(handed) + [old(bb.buckets)] && said == old(said) + [s]
    {
      s := *;
      handed, said := handed + [bb.buckets], said + [s];
      bb.buckets := *;
    }
  }

  /** What the parser was handed and has said, and what became of the body. */
  datatype Watch = Watch(handed: seq<seq<Bucket>>, said: seq<Status>, status: Body)

  /** Answer number k arrives while the body is being parsed: if it passes the limit the parser does
      not see it, otherwise it is handed the very brigade, and what it says is what becomes of the body. */
  ghost predicate Judged(answers: seq<Answer>, k: nat, limit: nat, a: Watch, b: Watch) {
    if |Brought(answers, k + 1)| > limit then b == a.(status := Stopped(OverLimit))
    else Answered(answers, k).Gives? && exists s :: Told(a, Answered(answers, k).buckets, s, b)
  }

  predicate Told(a: Watch, bs: seq<Bucket>, s: Status, b: Watch) {
    b == Watch(a.handed + [bs], a.said + [s], if s == Incomplete then Parsing else Stopped(s))
  }

  /** The parser was handed the brigades of the first `shown` answers, in their order, and asked for
      more after each of them but perhaps the last. While it does, no answer is kept from it. It
      stops where it says so, where an answer passes the limit, and where reading fails. */
  ghost predicate Saw(answers: seq<Answer>, used: nat, shown: nat, limit: nat, first: Body, error: Option<Status>,
      w: Watch) {
    && shown <= used && |w.said| == |w.handed| && w.handed == Gave(answers, shown) && |Brought(answers, shown)| <= limit
    && (forall i :: 0 <= i < |w.said| - 1 ==> w.said[i] == Incomplete)
    && (w.status == Einit ==> used == 0 && w.said == [])
    && (w.status == Parsing ==> shown == used && first == Parsing && forall i :: 0 <= i < |w.said| ==>
          w.said[i] == Incomplete)
    && (w.status.Stopped? ==>
          || (w.status == first && w.said == [])
          || (w.said != [] && w.said[|w.said| - 1] != Incomplete && w.status.code == w.said[|w.said| - 1])
          || (w.status.code == OverLimit && shown < used && |Brought(answers, shown + 1)| > limit)
          || error.Some?)
  }

  /** All that upstream gave went downstream or lies in the spool, in its order; only the last answer
      is missing if the disk has failed. */
  ghost predicate Conserved(answers: seq<Answer>, used: nat, lost: bool, delivered: bytes, spool: seq<Bucket>) {
    delivered + AllBytes(spool) == Brought(answers, if lost && used > 0 then used - 1 else used)
  }

  /** apr_brigade_partition: how many buckets it takes to reach n bytes. */
  function Reach(bs: seq<Bucket>, n: nat): (e: nat)
    ensures e <= |bs|
  {
    if n == 0 || bs == [] then 0
    else if n <= |Spooling.Read(bs[0])| then 1
    else 1 + Reach(bs[1..], n - |Spooling.Read(bs[0])|)
  }

  /** How many buckets a read of n bytes takes off the spool. The partition splits the bucket that
      holds the n-th byte, but apreq_brigade_move takes the bucket it is told to stop at along. */
  function Takes(bs: seq<Bucket>, n: nat): (k: nat)
    ensures k <= |bs|
  {
    var e := Reach(bs, n);
    if e > 0 && |AllBytes(bs[..e])| > n then e
    else Min(if e < |bs| && bs[e].Eos? then e + 2 else e + 1, |bs|)
  }

  class Filter {
    const request: Request
    const readLimit: nat
    const brigadeLimit: nat
    const reliable: bool
    const up: Upstream
    const parser: Parser
    const inner: Brigade    // ctx->bb
    const bbtmp: Brigade
    const spool: Brigade
    var status: Body
    var error: Option<Status>
    var bytesRead: nat
    var removed: bool
    /** All that went downstream, how many answers were shown to the parser, and whether spooling
        one of them has failed. */
    ghost var delivered: bytes
    ghost var shown: nat
    ghost var lost: bool

    constructor (request: Request, readLimit: nat, brigadeLimit: nat, reliable: bool, up: Upstream, parser: Parser)
      requires up.used == 0 && parser.handed == [] && parser.said == []
      ensures Valid() && fresh(spool) && fresh(bbtmp) && fresh(inner)
      ensures this.request == request && this.readLimit == readLimit && this.reliable == reliable
      ensures this.up == up && this.parser == parser && delivered == [] && error == None
      ensures spool.buckets == []
    {
      this.request, this.readLimit, this.brigadeLimit, this.reliable := request, readLimit, brigadeLimit, reliable;
      this.up, this.parser := up, parser;
      inner := new Brigade();
      bbtmp := new Brigade();
      spool := new Brigade();
      status, error, bytesRead, removed, delivered, shown, lost := Einit, None, 0, false, [], 0, false;
    }

    ghost function Watched(): Watch
      reads this, parser
    {
      Watch(parser.handed, parser.said, status)
    }

    /** body_status after the first use. */
    function Begun(): Body
      reads this
    {
      if status == Einit then FirstStatus(request, readLimit) else status
    }

    ghost predicate Valid()
      reads this, up, parser, inner, bbtmp, spool
    {
      && Distinct() && Gathered(up.used, lost)
      && (lost ==> !reliable && status.Stopped? && error.Some? && up.used > 0)
      && Saw(up.answers, up.used, shown, readLimit, FirstStatus(request, readLimit), error, Watched())
      && (status == Parsing ==> inner.buckets == [] && bytesRead == |Brought(up.answers, shown)|)
      && (status == Einit ==> inner.buckets == [] && bytesRead == 0)
      && (!status.Stopped? ==> error == None)
      && (removed ==> status.Stopped? && error == None && spool.buckets == [])
    }

    /** apreq_filter_init_context. */
    method InitContext()
      requires Valid() && status == Einit
      modifies this`status, parser`limit
      ensures Valid() && status == old(Begun())
      ensures status == Parsing ==>
                parser.limit <= brigadeLimit && (request.preset ==> parser.limit <= old(parser.limit))
    {
      if request.get {
        status := Stopped(NoData);
        return;
      }
      if request.length == Invalid {
        status := Stopped(BadHeader);
        return;
      } else if request.length.Declared? && request.length.n > readLimit {
        status := Stopped(OverLimit);
        return;
      }
      if !request.preset {
        if !request.typed {
          status := Stopped(NoHeader);
          return;
        } else if !request.known {
          status := Stopped(NoParser);
          return;
        }
        parser.limit := brigadeLimit;
      } else if parser.limit > brigadeLimit {
        parser.limit := brigadeLimit;
      }
      status := Parsing;
    }

    /** apreq_brigade_concat of bbtmp onto the spool, of which other buckets than the last may be gone. */
    method SpoolUp() returns (rv: Status)
      requires spool != bbtmp
      modifies spool, bbtmp
      ensures rv == Success || rv == Eof || rv == IoError
      ensures rv == Eof <==> EndsInEos(old(spool.buckets))
      ensures rv == Eof ==> spool.buckets == old(spool.buckets) && bbtmp.buckets == old(bbtmp.buckets)
      ensures rv != Eof ==> bbtmp.buckets == []
      ensures rv == Success ==> AllBytes(spool.buckets) == AllBytes(old(spool.buckets)) + AllBytes(old(bbtmp.buckets))
      ensures rv == Success ==> (HasEos(spool.buckets) ==> HasEos(old(spool.buckets)) || HasEos(old(bbtmp.buckets)))
      ensures rv == IoError ==> !reliable && spool.buckets == old(spool.buckets)
    {
      if EndsInEos(spool.buckets) { return Eof; }
      var all := AllBytes(bbtmp.buckets);
      var outLen := |AllBytes(spool.buckets)|;
      AllBytesAppend(spool.buckets, bbtmp.buckets);
      if outLen < brigadeLimit && |all| < brigadeLimit - outLen {
        spool.Concat(bbtmp);
        return Success;
      }
      var fails: bool := *;
      if fails && !reliable {
        bbtmp.Cleanup();
        return IoError;
      }
      var tail := if EndsInEos(bbtmp.buckets) then [Data(all), Eos] else [Data(all)];
      FileBucket(all, EndsInEos(bbtmp.buckets));
      AllBytesAppend(spool.buckets, tail);
      spool.buckets := spool.buckets + tail;
      bbtmp.Cleanup();
      rv := Success;
    }

    /** The body is being parsed, and upstream has just given bs. */
    ghost predicate Arrived(bs: seq<Bucket>)
      reads this, up, parser
    {
      && status == Parsing && up.used == shown + 1 && error == None
      && Answered(up.answers, shown) == Gives(bs)
      && Saw(up.answers, shown, shown, readLimit, FirstStatus(request, readLimit), error, Watched())
      && bytesRead == |Brought(up.answers, shown)|
    }

    /** Show the parser what has arrived, if the limit allows. */
    method Show(len: nat)
      requires Arrived(inner.buckets) && len == |AllBytes(inner.buckets)|
      modifies this`status, this`bytesRead, this`shown, parser`handed, parser`said, inner
      ensures Judged(up.answers, old(shown), readLimit, old(Watched()), Watched())
      ensures Saw(up.answers, up.used, shown, readLimit, FirstStatus(request, readLimit), error, Watched())
      ensures status != Einit
      ensures status == Parsing ==> inner.buckets == [] && bytesRead == |Brought(up.answers, shown)|
    {
      hide AllBytes, HasEos, Saw;
      ghost var w := Watched();
      SawLimit(up.answers, shown, readLimit, FirstStatus(request, readLimit), error, w);
      bytesRead := bytesRead + len;
      if bytesRead > readLimit {
        status := Stopped(OverLimit);
        return;
      }
      var s := parser.Run(inner);
      inner.Cleanup();
      status := if s == Incomplete then Parsing else Stopped(s);
      shown := shown + 1;
      assert Told(w, Answered(up.answers, shown - 1).buckets, s, Watched());
      SawAnswer(up.answers, shown - 1, readLimit, FirstStatus(request, readLimit), error, w, s, Watched());
    }

    /** apreq_filter_prefetch. */
    method DoPrefetch(n: nat) returns (rv: Body)
      requires Valid() && Legal(up.answers)
      modifies this, up, parser, inner, bbtmp, spool
      ensures Valid() && rv == status && delivered == old(delivered) && removed == old(removed)
      ensures up.used == old(up.used) + (if old(Begun()) == Parsing && n > 0 then 1 else 0)
      ensures up.used == old(up.used) ==>
                status == old(Begun()) && spool.buckets == old(spool.buckets) && parser.handed == old(parser.handed)
                && error == old(error) && lost == old(lost)
      ensures up.used != old(up.used) ==> Fetched(old(up.used), old(Watched()), old(AllBytes(spool.buckets)))
    {
      hide AllBytes, HasEos, Saw, Conserved, Judged, Over;
      if status == Einit { InitContext(); }
      if status != Parsing || n == 0 { return status; }
      SawParsing(up.answers, up.used, shown, readLimit, FirstStatus(request, readLimit), error, Watched());
      SawFailure(up.answers, up.used, shown, readLimit, FirstStatus(request, readLimit), error, Watched());
      OverLater(up.answers, up.used);
      ConservedSpool(up.answers, up.used, delivered, spool.buckets, spool.buckets);
      var a := up.Get();
      if a.Fails? {
        error, status := Some(a.code), Stopped(General);
        return status;
      }
      Absorb(a.buckets);
      rv := status;
    }

    /** Answer number k has been fetched by the handler. */
    ghost predicate Fetched(k: nat, w: Watch, spooled: bytes)
      reads this, up, parser, spool
    {
      var a := Answered(up.answers, k);
      if a.Fails? then
        Watched() == w.(status := Stopped(General)) && error == Some(a.code) && !lost
            && AllBytes(spool.buckets) == spooled
      else if lost then
        Watched() == w.(status := Stopped(IoError)) && error == Some(General) && AllBytes(spool.buckets) == spooled
      else
        Judged(up.answers, k, readLimit, w.(status := Parsing), Watched()) && error == None
        && AllBytes(spool.buckets) == spooled + AllBytes(a.buckets)
    }

    /** Spool what upstream gave, then show it. */
    method Absorb(bs: seq<Bucket>)
      requires Distinct() && Legal(up.answers) && inner.buckets == [] && Arrived(bs) && !removed && !lost
      requires Gathered(up.used - 1, false)
      modifies this, parser, inner, bbtmp, spool
      ensures Valid() && delivered == old(delivered) && removed == old(removed)
      ensures Fetched(old(shown), old(Watched()), old(AllBytes(spool.buckets)))
    {
      hide AllBytes, HasEos, Saw, Conserved, Judged, Over, Legal;
      inner.buckets := inner.buckets + bs;
      assert inner.buckets == bs;
      SawFailure(up.answers, shown, shown, readLimit, FirstStatus(request, readLimit), error, Watched());
      var rv := SpoolCopy(up.used - 1);
      if rv != Success && rv != Eof {
        error, status, lost := Some(General), Stopped(rv), true;
        return;
      }
      Show(|AllBytes(inner.buckets)|);
    }

    /** All of the first k answers has gone downstream or lies in the spool, but a lost one. */
    ghost predicate Gathered(k: nat, lost: bool)
      reads this, up, bbtmp, spool
    {
      && AllBytes(bbtmp.buckets) == []
      && Conserved(up.answers, k, lost, delivered, spool.buckets)
      && (HasEos(spool.buckets) || HasEos(bbtmp.buckets) ==> Over(up.answers, k))
    }

    /** A copy of answer number k goes into the spool; a failure loses it. */
    method SpoolCopy(ghost k: nat) returns (rv: Status)
      requires Distinct() && Legal(up.answers) && Gathered(k, false) && Answered(up.answers, k) == Gives(inner.buckets)
      modifies bbtmp, spool
      ensures rv == Success || rv == Eof || (rv == IoError && !reliable)
      ensures Gathered(k + 1, rv == IoError)
      ensures AllBytes(spool.buckets)
              == old(AllBytes(spool.buckets)) + (if rv == IoError then [] else AllBytes(inner.buckets))
    {
      hide AllBytes, HasEos, Conserved, Over, Legal;
      AllBytesAppend(bbtmp.buckets, inner.buckets);
      EosAppend(bbtmp.buckets, inner.buckets);
      bbtmp.buckets := bbtmp.buckets + inner.buckets;
      EndsEos(spool.buckets);
      OverLater(up.answers, k);
      rv := SpoolUp();
      NoBytes(bbtmp.buckets);
      ConservedSpool(up.answers, k, delivered, old(spool.buckets), spool.buckets);
      NoMore(AllBytes(spool.buckets));
    }

    ghost predicate Distinct() { inner != bbtmp && inner != spool && bbtmp != spool }

    /** Will a read be passed on to upstream? */
    ghost predicate Asks()
      reads this, spool
    {
      spool.buckets == [] && (Begun() == Parsing || error.None?)
    }

    /** Read number k of upstream was made for a read of n bytes. */
    ghost predicate PassedOn(k: nat, w: Watch, given: seq<Bucket>, rv: Status)
      reads this, up, parser
    {
      var a := Answered(up.answers, k);
      && rv == (if a.Fails? then a.code else Success)
      && given == (if a.Fails? then [] else a.buckets)
      && (if a.Gives? && w.status == Parsing then Judged(up.answers, k, readLimit, w, Watched()) else Watched() == w)
    }

    /** apreq_filter in its one mode of its own, AP_MODE_READBYTES; `bb` is the caller's. */
    method DoRead(bb: Brigade, n: nat) returns (rv: Status)
      requires Valid() && Legal(up.answers) && bb != spool && bb != bbtmp && bb != inner && bb.buckets == [] && !removed
      modifies this, up, parser, inner, spool, bb
      ensures Valid() && delivered == old(delivered) + AllBytes(bb.buckets) && lost == old(lost) && error == old(error)
      ensures up.used == old(up.used) + (if old(Asks()) then 1 else 0)
      ensures !old(Asks()) ==> Watched() == old(Watched()).(status := old(Begun()))
      ensures old(spool.buckets) != [] ==> rv == Success && Spooled(old(spool.buckets), n, bb.buckets)
      ensures old(spool.buckets) == [] && !old(Asks()) ==>
                old(error) == Some(rv) && bb.buckets == [] && spool.buckets == []
      ensures old(Asks()) ==>
                spool.buckets == [] && PassedOn(old(up.used), old(Watched()).(status := old(Begun())), bb.buckets, rv)
    {
      hide AllBytes, HasEos, Saw, Conserved, Judged, Over, Takes;
      NoBytes(bb.buckets);
      if status == Einit { InitContext(); }
      if spool.buckets != [] {
        MoveSpooled(bb, n);
        ConservedMove(up.answers, up.used, lost, delivered, bb.buckets, old(spool.buckets),
            Takes(old(spool.buckets), n));
        delivered := delivered + AllBytes(bb.buckets);
        return Success;
      }
      if status != Parsing {
        if error.Some? { return error.value; }
        rv := PassOn(bb);
        removed := true;
        return;
      }
      rv := Overhear(bb);
    }

    /** Upstream's answer goes through. */
    method PassOn(bb: Brigade) returns (rv: Status)
      requires Valid() && Legal(up.answers) && bb != spool && bb != bbtmp && bb != inner && bb.buckets == []
      requires status.Stopped? && error == None && spool.buckets == []
      modifies this`delivered, up, bb
      ensures Valid() && delivered == old(delivered) + AllBytes(bb.buckets) && up.used == old(up.used) + 1
      ensures PassedOn(old(up.used), old(Watched()), bb.buckets, rv)
    {
      hide AllBytes, HasEos, Saw, Conserved, Over;
      NoBytes(bb.buckets);
      NoBytes(spool.buckets);
      SawMore(up.answers, up.used, shown, readLimit, FirstStatus(request, readLimit), error, Watched());
      OverLater(up.answers, up.used);
      ConservedDirect(up.answers, up.used, delivered, spool.buckets);
      var a := up.Get();
      if a.Fails? { return a.code; }
      bb.buckets := a.buckets;
      delivered := delivered + AllBytes(bb.buckets);
      rv := Success;
    }

    /** Upstream's answer goes through, and is shown to the parser. */
    method Overhear(bb: Brigade) returns (rv: Status)
      requires Valid() && Legal(up.answers) && bb != spool && bb != bbtmp && bb != inner && bb.buckets == []
      requires status == Parsing && spool.buckets == []
      modifies this, up, parser, inner, bb
      ensures Valid() && delivered == old(delivered) + AllBytes(bb.buckets) && up.used == old(up.used) + 1
      ensures PassedOn(old(up.used), old(Watched()), bb.buckets, rv)
      ensures lost == old(lost) && error == old(error)
    {
      hide AllBytes, HasEos, Saw, Conserved, Over, Judged;
      NoBytes(bb.buckets);
      NoBytes(spool.buckets);
      SawParsing(up.answers, up.used, shown, readLimit, FirstStatus(request, readLimit), error, Watched());
      if Answered(up.answers, up.used).Fails? {
        SawNothing(up.answers, up.used, readLimit, FirstStatus(request, readLimit), error, Watched());
      }
      OverLater(up.answers, up.used);
      ConservedDirect(up.answers, up.used, delivered, spool.buckets);
      var a := up.Get();
      if a.Fails? {
        shown := shown + 1;
        return a.code;
      }
      bb.buckets := a.buckets;
      delivered := delivered + AllBytes(bb.buckets);
      inner.buckets := inner.buckets + bb.buckets;
      assert inner.buckets == a.buckets;
      Show(|AllBytes(bb.buckets)|);
      rv := Success;
    }

    /** A read of a filter downstream, whether this one is still in the chain or not. */
    method Pull(bb: Brigade, n: nat) returns (rv: Status)
      requires Valid() && Legal(up.answers) && bb != spool && bb != bbtmp && bb != inner && bb.buckets == []
      modifies this, up, parser, inner, spool, bb
      ensures Valid() && delivered == old(delivered) + AllBytes(bb.buckets) && lost == old(lost) && error == old(error)
      ensures up.used == old(up.used) + (if old(Asks()) then 1 else 0)
      ensures !old(Asks()) ==> Watched() == old(Watched()).(status := old(Begun()))
      ensures old(spool.buckets) != [] ==> rv == Success && Spooled(old(spool.buckets), n, bb.buckets)
      ensures old(spool.buckets) == [] && !old(Asks()) ==>
                old(error) == Some(rv) && bb.buckets == [] && spool.buckets == []
      ensures old(Asks()) ==>
                spool.buckets == [] && PassedOn(old(up.used), old(Watched()).(status := old(Begun())), bb.buckets, rv)
    {
      if removed {
        rv := PassOn(bb);
      } else {
        rv := DoRead(bb, n);
      }
    }

    /** What a read of n bytes makes of the spool: whole buckets, up to the one Takes says. */
    ghost predicate Spooled(was: seq<Bucket>, n: nat, given: seq<Bucket>)
      reads this, spool
    {
      spool.buckets == was[Takes(was, n)..] && AllBytes(given) == AllBytes(was[..Takes(was, n)])
    }

    method MoveSpooled(bb: Brigade, n: nat)
      requires bb != spool && spool.buckets != [] && bb.buckets == []
      modifies spool, bb
      ensures Spooled(old(spool.buckets), n, bb.buckets)
    {
      hide AllBytes, HasEos;
      ghost var was := spool.buckets;
      var e := Partition(n);
      var past := if e < |spool.buckets| && spool.buckets[e].Eos? then e + 1 else e;
      var k := if past < |spool.buckets| then past + 1 else |spool.buckets|;
      MovedFront(was, n, spool.buckets, e, k);
      spool.MoveFront(bb, k);
    }

    /** apr_brigade_partition: e is the bucket in front of which n bytes lie. */
    method Partition(n: nat) returns (e: nat)
      modifies spool
      ensures Parted(old(spool.buckets), n, spool.buckets, e)
    {
      hide AllBytes;
      e := 0;
      var point := n;
      if point == 0 { return; }
      while e < |spool.buckets|
        invariant e <= |spool.buckets| && spool.buckets == old(spool.buckets) && point > 0
        invariant |AllBytes(spool.buckets[..e])| + point == n
        invariant Reach(spool.buckets, n) == e + Reach(spool.buckets[e..], point)
      {
        var d := spool.buckets[e];
        PrefixBytes(spool.buckets, e);
        assert spool.buckets[e..][1..] == spool.buckets[e + 1..];
        if d.Data? && point < |d.data| {
          spool.Split(e, point);
          assert Halved(old(spool.buckets), e, point, spool.buckets);
          return e + 1;
        }
        if |Spooling.Read(d)| == point { return e + 1; }
        point := point - |Spooling.Read(d)|;
        e := e + 1;
      }
    }
  }

  /** The partition: either n bytes end with bucket number e, or the brigade does before, or the
      bucket they end in was split. */
  ghost predicate Parted(was: seq<Bucket>, n: nat, now: seq<Bucket>, e: nat) {
    && e == Reach(was, n) <= |now|
    && if e > 0 && |AllBytes(was[..e])| > n then
         Halves(was, e - 1, now)
       else now == was
  }

  ghost predicate Halves(was: seq<Bucket>, i: nat, now: seq<Bucket>) { exists p: nat :: Halved(was, i, p, now) }

  predicate Halved(was: seq<Bucket>, i: nat, p: nat, now: seq<Bucket>) {
    && i < |was| && was[i].Data? && p < |was[i].data|
    && now == was[..i] + [Data(was[i].data[..p]), Data(was[i].data[p..])] + was[i + 1..]
  }

  /** Two reads at most for each answer that is still to come, and one for the last buckets spooled. */
  function Work(answers: seq<Answer>, used: nat, spooled: bool): nat {
    2 * (if used < |answers| then |answers| - used else 0) + (if spooled then 1 else 0)
  }

  /** How many of the operations are reads, of whatever size. */
  function Reads(ops: seq<Op>): nat {
    if ops == [] then 0
    else Reads(ops[..|ops| - 1]) + (var op := ops[|ops| - 1]; if op.Read? && op.n > 0 then 1 else 0)
  }

  predicate AllGive(answers: seq<Answer>) { forall i :: 0 <= i < |answers| ==> answers[i].Gives? }

  /** Either everything has gone downstream, or each read has done its part of the work or taken
      a byte at least. */
  ghost predicate Settled(answers: seq<Answer>, made: nat, used: nat, delivered: bytes, spool: seq<Bucket>) {
    var all := Brought(answers, |answers|);
    || delivered == all
    || (|delivered| <= |all|
        && made + Work(answers, used, spool != []) + (|all| - |delivered|) <= 2 * |answers| + |all|)
  }

  /** Any interleaving of prefetches and downstream reads. */
  method RunFilter(request: Request, readLimit: nat, brigadeLimit: nat, reliable: bool, up: Upstream,
      parser: Parser, ops: seq<Op>)
    returns (out: seq<Bucket>, spooled: seq<Bucket>, status: Body, error: Option<Status>, ghost lost: bool,
        ghost shown: nat)
    requires up.used == 0 && parser.handed == [] && parser.said == [] && Legal(up.answers)
    modifies up, parser
    ensures Conserved(up.answers, up.used, lost, AllBytes(out), spooled)
        && (lost ==> !reliable && up.used > 0 && error.Some?)
    ensures Saw(up.answers, up.used, shown, readLimit, FirstStatus(request, readLimit), error,
        Watch(parser.handed, parser.said, status))
    ensures var all := Brought(up.answers, |up.answers|);
      reliable && AllGive(up.answers) && Reads(ops) >= 2 * |up.answers| + |all| ==> AllBytes(out) == all
  {
    hide AllBytes, HasEos, Conserved, Saw, Over;
    var f := new Filter(request, readLimit, brigadeLimit, reliable, up, parser);
    out := [];
    var n := 0;
    NoBytes(out);
    assert ops[..0] == [];
    while n < |ops|
      invariant 0 <= n <= |ops| && fresh(f) && fresh(f.spool) && fresh(f.bbtmp) && fresh(f.inner)
      invariant f.up == up && f.parser == parser && f.request == request && f.readLimit == readLimit
          && f.reliable == reliable
      invariant f.Valid() && f.delivered == AllBytes(out)
      invariant reliable && AllGive(up.answers) ==> f.error == None
      invariant reliable && AllGive(up.answers) ==>
                  Settled(up.answers, Reads(ops[..n]), up.used, f.delivered, f.spool.buckets)
    {
      var op := ops[n];
      ghost var used, was, delivered := up.used, f.spool.buckets, f.delivered;
      assert ops[..n + 1][..n] == ops[..n];
      if op.Prefetch? {
        var rv := f.DoPrefetch(op.n);
        if reliable && AllGive(up.answers) {
          SettledFetch(up.answers, Reads(ops[..n]), used, delivered, was, up.used, f.spool.buckets);
        }
      } else {
        var bb := new Brigade();
        var rv := f.Pull(bb, op.n);
        if reliable && AllGive(up.answers) {
          SettledRead(up.answers, Reads(ops[..n]), op.n, used, delivered, was, up.used, f.delivered,
              f.spool.buckets);
        }
        AllBytesAppend(out, bb.buckets);
        out := out + bb.buckets;
      }
      n := n + 1;
    }
    assert ops[..n] == ops;
    if reliable && AllGive(up.answers) { Drained(up.answers, up.used, f.delivered, f.spool.buckets); }
    spooled, status, error, lost, shown := f.spool.buckets, f.status, f.error, f.lost, f.shown;
  }

  /* ---- what the methods need to know of the laws ---- */

  lemma SawParsing(answers: seq<Answer>, used: nat, shown: nat, limit: nat, first: Body, error: Option<Status>,
      w: Watch)
    requires Saw(answers, used, shown, limit, first, error, w) && w.status == Parsing
    ensures shown == used
  {
  }

  lemma SawFailure(answers: seq<Answer>, used: nat, shown: nat, limit: nat, first: Body, error: Option<Status>,
      w: Watch)
    requires Saw(answers, used, shown, limit, first, error, w)
    ensures forall c, e :: Saw(answers, used + 1, shown, limit, first, Some(e), w.(status := Stopped(c)))
  {
  }

  lemma SawLimit(answers: seq<Answer>, k: nat, limit: nat, first: Body, error: Option<Status>, w: Watch)
    requires Saw(answers, k, k, limit, first, error, w)
    ensures |Brought(answers, k + 1)| > limit ==>
              Saw(answers, k + 1, k, limit, first, error, w.(status := Stopped(OverLimit)))
  {
  }

  lemma SawAnswer(answers: seq<Answer>, k: nat, limit: nat, first: Body, error: Option<Status>, a: Watch, s: Status,
      b: Watch)
    requires Saw(answers, k, k, limit, first, error, a) && a.status == Parsing && |Brought(answers, k + 1)| <= limit
    requires Answered(answers, k).Gives? && Told(a, Answered(answers, k).buckets, s, b)
    ensures Saw(answers, k + 1, k + 1, limit, first, error, b)
  {
  }

  lemma SawMore(answers: seq<Answer>, used: nat, shown: nat, limit: nat, first: Body, error: Option<Status>, w: Watch)
    requires Saw(answers, used, shown, limit, first, error, w) && w.status.Stopped?
    ensures Saw(answers, used + 1, shown, limit, first, error, w)
  {
  }

  /** A read that fails shows the parser nothing. */
  lemma SawNothing(answers: seq<Answer>, used: nat, limit: nat, first: Body, error: Option<Status>, w: Watch)
    requires Saw(answers, used, used, limit, first, error, w) && w.status == Parsing && Answered(answers, used).Fails?
    ensures Saw(answers, used + 1, used + 1, limit, first, error, w)
    ensures Brought(answers, used + 1) == Brought(answers, used)
  {
    assert Brought(answers, used + 1) == Brought(answers, used) + [];
    assert Gave(answers, used + 1) == Gave(answers, used) + [];
  }

  lemma OverLater(answers: seq<Answer>, used: nat)
    ensures Over(answers, used) ==> Over(answers, used + 1)
    ensures EosAt(answers, used) ==> Over(answers, used + 1)
    ensures Legal(answers) && Over(answers, used) ==> Carried(Answered(answers, used)) == []
  {
  }

  lemma ConservedMove(answers: seq<Answer>, used: nat, lost: bool, delivered: bytes, given: seq<Bucket>,
      was: seq<Bucket>, k: nat)
    requires Conserved(answers, used, lost, delivered, was) && k <= |was| && AllBytes(given) == AllBytes(was[..k])
    ensures Conserved(answers, used, lost, delivered + AllBytes(given), was[k..])
    ensures HasEos(was[k..]) ==> HasEos(was)
  {
    hide AllBytes;
    assert was == was[..k] + was[k..];
    AllBytesAppend(was[..k], was[k..]);
    Regroup(delivered, AllBytes(given), AllBytes(was[k..]));
  }

  /** With nothing spooled the next answer may go straight downstream. */
  lemma ConservedDirect(answers: seq<Answer>, used: nat, delivered: bytes, spool: seq<Bucket>)
    requires Conserved(answers, used, false, delivered, spool) && spool == []
    ensures Conserved(answers, used + 1, false, delivered + Carried(Answered(answers, used)), spool)
    ensures Carried(Answered(answers, used)) == [] ==> Conserved(answers, used + 1, false, delivered, spool)
  {
    var d := delivered + Carried(Answered(answers, used));
    assert d + [] == d && delivered + [] == delivered;
  }

  /** The next answer may go behind what is spooled, or be lost. */
  lemma ConservedSpool(answers: seq<Answer>, used: nat, delivered: bytes, was: seq<Bucket>, now: seq<Bucket>)
    requires Conserved(answers, used, false, delivered, was)
    ensures AllBytes(now) == AllBytes(was) + Carried(Answered(answers, used)) ==>
              Conserved(answers, used + 1, false, delivered, now)
    ensures AllBytes(now) == AllBytes(was) && Carried(Answered(answers, used)) == [] ==>
              Conserved(answers, used + 1, false, delivered, now)
    ensures now == was ==> Conserved(answers, used + 1, true, delivered, now)
  {
    Regroup(delivered, AllBytes(was), Carried(Answered(answers, used)));
    assert AllBytes(was) + [] == AllBytes(was);
  }

  /** The brigades the parser is handed hold just the bytes of the answers they came with. */
  lemma {:induction false} GaveBytes(answers: seq<Answer>, k: nat)
    ensures AllBytes(Joined(Gave(answers, k))) == Brought(answers, k)
  {
    hide AllBytes, Joined, Answered;
    NoCalls([]);
    if k > 0 {
      GaveBytes(answers, k - 1);
      var was, a := Gave(answers, k - 1), Answered(answers, k - 1);
      NoMore(Brought(answers, k - 1));
      assert was + [] == was;
      if a.Gives? { JoinedSnoc(was, a.buckets); }
    }
  }

  lemma JoinedSnoc(calls: seq<seq<Bucket>>, bs: seq<Bucket>)
    ensures AllBytes(Joined(calls + [bs])) == AllBytes(Joined(calls)) + AllBytes(bs)
  {
    hide AllBytes, Joined;
    var all, n := calls + [bs], |calls|;
    assert all[..n] == calls && all[..n + 1] == all;
    AllJoined(all, n);
  }

  lemma {:induction false} BroughtAll(answers: seq<Answer>, k: nat)
    ensures k <= |answers| ==> Brought(answers, k) <= Brought(answers, |answers|)
    ensures k >= |answers| ==> Brought(answers, k) == Brought(answers, |answers|)
    decreases if k <= |answers| then |answers| - k else k
  {
    hide Carried;
    if k < |answers| {
      BroughtAll(answers, k + 1);
    } else if k > |answers| {
      BroughtAll(answers, k - 1);
      NothingLeft(answers, k - 1);
    }
  }

  lemma NothingLeft(answers: seq<Answer>, k: nat)
    requires k >= |answers|
    ensures Carried(Answered(answers, k)) == []
  {
  }

  /** Nothing goes downstream that upstream does not give, and with no work left all of it has gone. */
  lemma Drained(answers: seq<Answer>, used: nat, delivered: bytes, spool: seq<Bucket>)
    requires Conserved(answers, used, false, delivered, spool)
    ensures delivered <= Brought(answers, |answers|) && |AllBytes(spool)| <= |Brought(answers, |answers|)|
    ensures Work(answers, used, spool != []) == 0 ==> delivered == Brought(answers, |answers|)
  {
    BroughtAll(answers, used);
    assert delivered + [] == delivered;
  }

  lemma SettledFetch(answers: seq<Answer>, made: nat, used: nat, delivered: bytes, was: seq<Bucket>, later: nat,
      now: seq<Bucket>)
    requires Settled(answers, made, used, delivered, was) && Conserved(answers, used, false, delivered, was)
    requires later == used + 1 || (later == used && now == was)
    ensures Settled(answers, made, later, delivered, now)
  {
    Drained(answers, used, delivered, was);
  }

  lemma SettledRead(answers: seq<Answer>, made: nat, n: nat, used: nat, delivered: bytes, was: seq<Bucket>,
                    later: nat, more: bytes, now: seq<Bucket>)
    requires Settled(answers, made, used, delivered, was) && Conserved(answers, used, false, delivered, was)
    requires Conserved(answers, later, false, more, now) && delivered <= more
    requires if was == [] then later == used + 1 && now == [] else later == used && now == was[Takes(was, n)..]
    ensures Settled(answers, made + (if n > 0 then 1 else 0), later, more, now)
  {
    hide AllBytes, Takes;
    Drained(answers, used, delivered, was);
    Drained(answers, later, more, now);
    if was != [] {
      var k := Takes(was, n);
      BytesCut(was, k, |was|);
      if n > 0 && AllBytes(was) == [] { ReadAll(was, n); }
      ReadIsExact(was, n);
    }
  }

  lemma {:induction false} ReachAll(bs: seq<Bucket>, n: nat)
    requires n > |AllBytes(bs)|
    ensures Reach(bs, n) == |bs|
  {
    if bs != [] { ReachAll(bs[1..], n - |Spooling.Read(bs[0])|); }
  }

  /** A read of more than is spooled empties the spool. */
  lemma ReadAll(bs: seq<Bucket>, n: nat)
    requires n > |AllBytes(bs)|
    ensures Takes(bs, n) == |bs|
  {
    ReachAll(bs, n);
    assert bs[..|bs|] == bs;
  }

  lemma BytesCut(bs: seq<Bucket>, i: nat, j: nat)
    requires i <= j <= |bs|
    ensures AllBytes(bs[..j]) == AllBytes(bs[..i]) + AllBytes(bs[i..j])
    ensures j == |bs| ==> AllBytes(bs) == AllBytes(bs[..i]) + AllBytes(bs[i..])
  {
    assert bs[..j] == bs[..i] + bs[i..j];
    AllBytesAppend(bs[..i], bs[i..j]);
    assert bs[..|bs|] == bs && bs[i..|bs|] == bs[i..];
  }

  lemma FirstBytes(bs: seq<Bucket>, e: nat)
    requires e < |bs|
    ensures AllBytes(bs[..e + 1]) == Spooling.Read(bs[0]) + AllBytes(bs[1..][..e])
  {
    assert bs[..e + 1][1..] == bs[1..][..e];
  }

  lemma {:induction false} ReachEnough(bs: seq<Bucket>, n: nat)
    ensures |AllBytes(bs[..Reach(bs, n)])| >= Min(n, |AllBytes(bs)|)
  {
    hide AllBytes;
    assert bs[..|bs|] == bs;
    NoBytes(bs);
    if n > 0 && bs != [] {
      var r := |Spooling.Read(bs[0])|;
      FirstBytes(bs, |bs| - 1);
      assert bs[1..][..|bs| - 1] == bs[1..];
      if n <= r {
        FirstBytes(bs, 0);
      } else {
        ReachEnough(bs[1..], n - r);
        FirstBytes(bs, Reach(bs[1..], n - r));
      }
    }
  }

  /** The bucket that n bytes reach to is the first one. */
  lemma {:induction false} ReachFirst(bs: seq<Bucket>, n: nat)
    requires n > 0 && bs != []
    ensures Reach(bs, n) > 0 && |AllBytes(bs[..Reach(bs, n) - 1])| < n
  {
    hide AllBytes;
    var r := |Spooling.Read(bs[0])|;
    if n <= r || bs[1..] == [] {
      NoBytes(bs[..0]);
    } else {
      ReachFirst(bs[1..], n - r);
      FirstBytes(bs, Reach(bs[1..], n - r) - 1);
    }
  }

  /** The n-th byte is the last of a bucket, and neither the bucket behind it nor, where that is EOS,
      the one behind EOS has any bytes. */
  predicate EndsThere(bs: seq<Bucket>, n: nat) {
    var e := Reach(bs, n);
    && |AllBytes(bs[..e])| <= n
    && (e < |bs| ==> Spooling.Read(bs[e]) == [])
    && (e + 1 < |bs| && bs[e].Eos? ==> Spooling.Read(bs[e + 1]) == [])
  }

  /** A read of the spool gives at least the n bytes asked for, or all there are. It gives no more
      if and only if a bucket ends there and nothing is in the bucket behind. */
  lemma ReadIsExact(bs: seq<Bucket>, n: nat)
    ensures |AllBytes(bs[..Takes(bs, n)])| >= Min(n, |AllBytes(bs)|)
    ensures |AllBytes(bs[..Takes(bs, n)])| == Min(n, |AllBytes(bs)|) <==> EndsThere(bs, n)
  {
    hide AllBytes, Reach;
    var e, k := Reach(bs, n), Takes(bs, n);
    ReachEnough(bs, n);
    BytesCut(bs, e, |bs|);
    TakesAll(bs, n);
    BytesCut(bs, e, k);
    BytesCut(bs, k, |bs|);
    TakenAlong(bs, e, k);
  }

  lemma TakesAll(bs: seq<Bucket>, n: nat)
    ensures Reach(bs, n) <= Takes(bs, n)
    ensures |AllBytes(bs[..Reach(bs, n)])| > n ==> Takes(bs, n) == Reach(bs, n)
  {
    NoBytes(bs[..0]);
  }

  /** The bytes of the bucket that is taken along, or of EOS and the one behind it. */
  lemma TakenAlong(bs: seq<Bucket>, e: nat, k: nat)
    requires e <= k <= |bs|
    ensures k == e ==> AllBytes(bs[e..k]) == []
    ensures k == e + 1 ==> AllBytes(bs[e..k]) == Spooling.Read(bs[e])
    ensures k == e + 2 ==> AllBytes(bs[e..k]) == Spooling.Read(bs[e]) + Spooling.Read(bs[e + 1])
  {
    hide AllBytes;
    NoBytes(bs[e..e]);
    if k == e + 1 {
      assert bs[e..k] == [bs[e]];
      OneBytes(bs[e]);
    } else if k == e + 2 {
      assert bs[e..k] == [bs[e]] + [bs[e + 1]];
      AllBytesAppend([bs[e]], [bs[e + 1]]);
      OneBytes(bs[e]);
      OneBytes(bs[e + 1]);
    }
  }

  /** Of a brigade without empty buckets a read of less than everything always gives too much. */
  lemma ReadOverruns(bs: seq<Bucket>, n: nat)
    requires Solid(if EndsInEos(bs) then bs[..|bs| - 1] else bs)
    ensures |AllBytes(bs[..Takes(bs, n)])| == Min(n, |AllBytes(bs)|) <==> n >= |AllBytes(bs)|
  {
    hide AllBytes, Reach, Takes, EndsThere, Solid, EndsInEos;
    ReadIsExact(bs, n);
    BytesCut(bs, Takes(bs, n), |bs|);
    if n < |AllBytes(bs)| { SolidBehind(bs, n); }
  }

  lemma SolidBehind(bs: seq<Bucket>, n: nat)
    requires Solid(if EndsInEos(bs) then bs[..|bs| - 1] else bs) && n < |AllBytes(bs)|
    ensures !EndsThere(bs, n)
  {
    hide AllBytes, Reach;
    var e := Reach(bs, n);
    BytesCut(bs, e, |bs|);
    if e + 1 < |bs| { SolidAt(bs, e); } else { LastBytes(bs, e); }
  }

  lemma SolidAt(bs: seq<Bucket>, e: nat)
    requires Solid(if EndsInEos(bs) then bs[..|bs| - 1] else bs) && e + 1 < |bs|
    ensures Spooling.Read(bs[e]) != []
  {
    assert bs[..|bs| - 1][e] == bs[e];
  }

  lemma LastBytes(bs: seq<Bucket>, e: nat)
    requires e <= |bs| <= e + 1
    ensures AllBytes(bs[e..]) == if e < |bs| then Spooling.Read(bs[e]) else []
  {
    hide AllBytes;
    if e == |bs| {
      NoBytes(bs[e..]);
    } else {
      assert bs[e..] == bs[e..e + 1];
      TakenAlong(bs, e, e + 1);
    }
  }

  lemma NoMore(s: bytes)
    ensures s + [] == s
  {
  }

  lemma OneBytes(b: Bucket)
    ensures AllBytes([b]) == Spooling.Read(b)
  {
    assert [b][1..] == [];
  }

  lemma NoBytes(bs: seq<Bucket>)
    ensures bs == [] ==> AllBytes(bs) == [] && !HasEos(bs)
  {
  }

  lemma EndsEos(bs: seq<Bucket>)
    ensures EndsInEos(bs) ==> HasEos(bs)
  {
  }

  lemma EosAppend(a: seq<Bucket>, b: seq<Bucket>)
    ensures HasEos(a + b) <==> HasEos(a) || HasEos(b)
  {
  }

  lemma PrefixBytes(bs: seq<Bucket>, e: nat)
    requires e < |bs|
    ensures AllBytes(bs[..e + 1]) == AllBytes(bs[..e]) + Spooling.Read(bs[e])
  {
    assert bs[..e + 1] == bs[..e] + [bs[e]];
    AllBytesAppend(bs[..e], [bs[e]]);
    OneBytes(bs[e]);
  }

  lemma FileBucket(all: bytes, eos: bool)
    ensures AllBytes(if eos then [Data(all), Eos] else [Data(all)]) == all
  {
    assert [Data(all), Eos][1..] == [Eos] && [Data(all)][1..] == [];
    var e: seq<Bucket> := [Eos];
    assert e[1..] == [];
    assert all + [] == all;
  }

  /** What a read takes behind the partition. */
  lemma MovedFront(was: seq<Bucket>, n: nat, now: seq<Bucket>, e: nat, k: nat)
    requires Parted(was, n, now, e)
    requires k == Min(if e < |now| && now[e].Eos? then e + 2 else e + 1, |now|)
    ensures now[k..] == was[Takes(was, n)..] && AllBytes([] + now[..k]) == AllBytes(was[..Takes(was, n)])
  {
    assert [] + now[..k] == now[..k];
    if e > 0 && |AllBytes(was[..e])| > n {
      var p: nat :| Halved(was, e - 1, p, now);
      HalvedBytes(was, e - 1, p, now);
    }
  }

  /** The bytes of a bucket are those of its halves. */
  lemma HalvedBytes(was: seq<Bucket>, i: nat, p: nat, now: seq<Bucket>)
    requires Halved(was, i, p, now)
    ensures AllBytes(now[..i + 2]) == AllBytes(was[..i + 1]) && now[i + 2..] == was[i + 1..]
  {
    hide AllBytes;
    var d, front := was[i].data, was[..i];
    var one, two := Data(d[..p]), Data(d[p..]);
    assert now[..i + 2] == front + ([one] + [two]) && was[..i + 1] == front + [was[i]];
    AllBytesAppend(front, [one] + [two]);
    AllBytesAppend(front, [was[i]]);
    AllBytesAppend([one], [two]);
    OneBytes(one);
    OneBytes(two);
    OneBytes(was[i]);
    assert d == d[..p] + d[p..];
  }
}

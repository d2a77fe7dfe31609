/** Whole runs of the multipart parser: a request body fed to it in any number of calls. */
module MultipartRuns {
  import opened Bytes
  import opened Brigades
  import opened Statuses
  import opened MultipartSpec
  import opened MultipartLaws
  import opened Multipart
  import opened Streams
  import opened MultipartRoundTrip
  import FormRoundTrip

  /** What a run over all the calls may answer when the bytes are to be read as o. */
  ghost predicate Answers(o: Outcome, eos: bool, s: Status, table: seq<Param>) {
    match s
    case Success => o.Done? && table == o.table
    case Incomplete => !eos && Delayed(o)
    case Eof => false
    case _ => Fails(o, table)
  }

  lemma NothingYet(e: Entity, pname: Option<bytes>, later: seq<Bucket>)
    ensures Stream([], Live(later)) == Live(later) && Stream([], []) == [] && !HasEos([])
    ensures Delayed(Run(e, AtInit(pname), [], []))
  {
    if CR !in e.token { InitShort(e, pname, [], []); }
  }

  /** The parser has taken in some calls, and waits for the buckets `later`. */
  ghost predicate Halfway(p: MultipartParser, t: seq<Param>, later: seq<Bucket>, o: Outcome, eos: bool)
    requires p.Valid()
    reads p, p.All()
  {
    Unclaimed(o, eos) ||
    (&& p.Neat() && !HasEos(p.Waiting()) && Leads(p.Future(t, Live(later)), o)
     && Delayed(p.Future(t, [])))
  }

  lemma Starts(p: MultipartParser, later: seq<Bucket>, eos: bool)
    requires p.Valid() && p.status == MfdInit && p.mix == null && p.bb.buckets == []
        && p.HereAlone() == AtInit(p.pname) && p.WaitingAlone() == []
    ensures p.Running() && Halfway(p, [], later, Run(p.e, AtInit(p.pname), [], Live(later)), eos)
  {
    hide Run;
    NothingYet(p.e, p.pname, later);
  }

  lemma Ends(p: MultipartParser, t: seq<Param>, o: Outcome, eos: bool)
    requires p.Valid() && Halfway(p, t, [], o, eos) && (eos ==> HasEos([]))
    ensures Unclaimed(o, eos) || Answers(o, eos, Incomplete, t)
  {
    hide Run;
  }

  /** What the parser answers to a call, seen from the whole run. */
  lemma AfterCall(p: MultipartParser, now: Outcome, o: Outcome, more: bool, eos: bool, s: Status, t: seq<Param>,
                  back: seq<Bucket>, later: seq<Bucket>)
    requires p.Valid() && Leads(now, o) && !Unclaimed(o, eos) && (more ==> eos)
    requires Unclaimed(now, more) || (p.Replies(now, s, t, back, Live(later)) && (s == Incomplete ==> !more))
    ensures if s == Incomplete then !more && p.Running() && Halfway(p, t, later, o, eos) else Answers(o, eos, s, t)
  {
    hide Run, Live, HasEos, Stream, Epilogue, p.Here, p.Waiting, p.Valid, p.Neat;
  }

  /** One more call. */
  method Call(p: MultipartParser, t: Table<Param>, bb: Brigade, ghost later: seq<Bucket>, ghost o: Outcome,
      ghost eos: bool)
    returns (s: Status, ghost io: bool)
    requires p.Valid() && p.Running() && t !in p.All() && bb !in p.All()
    requires Halfway(p, t.elts, bb.buckets + later, o, eos) && (HasEos(bb.buckets) ==> eos)
    modifies p, p.All(), t, bb
    ensures io ==> s != Incomplete && s != Success && !p.Reliable()
    ensures !io ==> p.Valid() && (p.mix == old(p.mix) || (p.mix != null && fresh(p.mix.Own())))
    ensures !io && s == Incomplete ==> p.Running() && Halfway(p, t.elts, later, o, eos)
    ensures io || Unclaimed(o, eos) || if s == Incomplete then !HasEos(old(bb.buckets)) else Answers(o, eos, s, t.elts)
  {
    hide Run, Live, HasEos, Stream, p.Replies, p.Here, p.Waiting, p.Valid, p.Neat, p.HereAlone, p.WaitingAlone,
        p.ValidAlone, p.Reliable, Answers;
    ghost var data, now := bb.buckets, p.Future(t.elts, Live(bb.buckets + later));
    if !Unclaimed(o, eos) { StreamStep(p.Waiting(), data, later); }
    s, io := p.Parse(t, bb, Live(later));
    if !io && !Unclaimed(o, eos) {
      AfterCall(p, now, o, HasEos(data), eos, s, t.elts, bb.buckets, later);
    }
  }

  method Feed(p: MultipartParser, t: Table<Param>, data: seq<Bucket>, ghost later: seq<Bucket>, ghost o: Outcome,
      ghost eos: bool)
    returns (s: Status, ghost io: bool)
    requires p.Valid() && p.Running() && t !in p.All()
    requires Halfway(p, t.elts, data + later, o, eos) && (HasEos(data) ==> eos)
    modifies p, p.All(), t
    ensures io ==> s != Incomplete && s != Success && !p.Reliable()
    ensures !io ==> p.Valid() && (p.mix == old(p.mix) || (p.mix != null && fresh(p.mix.Own())))
    ensures !io && s == Incomplete ==> p.Running() && Halfway(p, t.elts, later, o, eos)
    ensures io || Unclaimed(o, eos) || if s == Incomplete then !HasEos(data) else Answers(o, eos, s, t.elts)
  {
    hide Live, HasEos, Halfway, MultipartParser.Valid, MultipartParser.Reliable, Answers, MultipartParser.Running,
        Joined;
    var bb := new Brigade.Of(data);
    s, io := Call(p, t, bb, later, o, eos);
  }

  /** Feed a fresh parser the calls, until it is done. */
  method ParseCalls(e: Entity, limit: nat, reliable: bool, calls: seq<seq<Bucket>>)
      returns (s: Status, table: seq<Param>)
    ensures var bs := Joined(calls); var o := Run(e, AtInit(None), [], Live(bs));
      reliable || s == Success || s == Incomplete ==> Unclaimed(o, HasEos(bs)) || Answers(o, HasEos(bs), s, table)
  {
    hide Run, Live, HasEos, Stream, Halfway, MultipartParser.Valid, MultipartParser.ValidAlone,
        MultipartParser.HereAlone, MultipartParser.WaitingAlone, MultipartParser.Here, MultipartParser.Waiting;
    ghost var o, eos := Run(e, AtInit(None), [], Live(Joined(calls))), HasEos(Joined(calls));
    var t := new Table<Param>();
    var p := new MultipartParser(e, None, limit, reliable);
    s := Incomplete;
    ghost var io := false;
    var i := 0;
    Starts(p, Joined(calls), eos);
    assert calls[0..] == calls;
    while i < |calls| && s == Incomplete
      invariant i <= |calls| && (io ==> s != Incomplete && s != Success && !reliable) && p.Reliable() == reliable
      invariant !io ==> p.Valid() && t !in p.All() && fresh(p.All()) && fresh(t)
      invariant HasEos(Joined(calls[i..])) ==> eos
      invariant s == Incomplete ==> p.Running() && Halfway(p, t.elts, Joined(calls[i..]), o, eos)
      invariant io || Unclaimed(o, eos) || if s == Incomplete then eos ==>
                HasEos(Joined(calls[i..])) else Answers(o, eos, s, t.elts)
    {
      JoinedStep(calls, i);
      s, io := Feed(p, t, calls[i], Joined(calls[i + 1..]), o, eos);
      i := i + 1;
    }
    if s == Incomplete && !Unclaimed(o, eos) {
      assert calls[i..] == [];
      Ends(p, t.elts, o, eos);
    }
    table := t.elts;
  }

  /** Any form in any cut: parts with any header lines a part can be recognised by, with a body,
      without one, or with nested entities of their own, behind a preamble without dashes. When it
      is over the table has just the parameters of its parts, in their order. Only a disk that fails
      stands in the way, and behind a part without a body, a stream that goes on without EOS. */
  method ParseAnyForm(token: bytes, limit: nat, reliable: bool, calls: seq<seq<Bucket>>, ghost pre: bytes,
                      ghost parts: seq<Part>, ghost end: bytes)
    returns (s: Status, table: seq<Param>)
    requires Good(Entity(token, false), None, parts) && DASH !in pre
    requires Live(Joined(calls)) == Form(Entity(token, false), pre, parts, end)
    ensures reliable && (!HasBare(parts) || HasEos(Joined(calls))) ==> s == Success
    ensures s == Success ==> table == MultipartRoundTrip.Table(Entity(token, false), None, parts)
    ensures s == Incomplete ==> HasBare(parts) && !HasEos(Joined(calls))
  {
    hide Run, Live, HasEos, Good, Form, MultipartRoundTrip.Table, HasBare;
    ReadForm(Entity(token, false), None, pre, parts, end);
    s, table := ParseCalls(Entity(token, false), limit, reliable, calls);
  }

  /** Forms as browsers write them say what they say: fields, uploads, lists of files and parts with
      a Content-ID, with further header lines, in any cut. */
  method ParseForm(token: bytes, limit: nat, reliable: bool, calls: seq<seq<Bucket>>, ghost pre: bytes,
                   ghost form: seq<FormRoundTrip.Entry>, ghost end: bytes)
    returns (s: Status, table: seq<Param>)
    requires CR !in token && DASH !in pre && forall i :: 0 <= i < |form| ==> FormRoundTrip.Legal(token, form[i])
    requires Live(Joined(calls)) == FormRoundTrip.Print(token, pre, form, end)
    ensures reliable ==> s == Success
    ensures s == Success ==> table == FormRoundTrip.Says(form)
    ensures s != Incomplete
  {
    hide Run, Live, HasEos, Good, Form, MultipartRoundTrip.Table, HasBare, FormRoundTrip.Legal;
    FormRoundTrip.FormGood(token, None, form);
    s, table := ParseAnyForm(token, limit, reliable, calls, pre, FormRoundTrip.Parts(form), end);
  }

  /** A form with a part that is refused, in any cut: an error, with what lies in front of it in the
      table. Where the delimiter follows at once, it may be waited for. */
  method ParseRefused(token: bytes, limit: nat, reliable: bool, calls: seq<seq<Bucket>>, ghost pre: bytes,
                      ghost form: seq<FormRoundTrip.Entry>, ghost r: FormRoundTrip.Refused, ghost more: bytes)
    returns (s: Status, table: seq<Param>)
    requires CR !in token && DASH !in pre && forall i :: 0 <= i < |form| ==> FormRoundTrip.Legal(token, form[i])
    requires r.Legal(token) && r.Apart(token, more)
    requires Live(Joined(calls)) == FormRoundTrip.PrintRefused(token, pre, form, r, more)
    ensures s != Success
    ensures reliable && s != Incomplete ==> table == FormRoundTrip.Says(form) + r.Kept()
    ensures s == Incomplete ==> r.AtOnce(token, more) && !HasEos(Joined(calls))
  {
    hide Run, Live, HasEos, FormRoundTrip.Legal, FormRoundTrip.Refused.Legal, FormRoundTrip.Refused.Apart,
        FormRoundTrip.Refused.AtOnce, FormRoundTrip.Refused.Kept;
    FormRoundTrip.ReadRefused(token, pre, form, r, more);
    s, table := ParseCalls(Entity(token, false), limit, reliable, calls);
  }
}

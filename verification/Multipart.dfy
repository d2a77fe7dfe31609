/** The resumable multipart parser: apreq_parse_multipart. */
module Multipart {
  import opened Bytes
  import opened Brigades
  import opened Boundary
  import opened Headers
  import opened Attributes
  import opened Spooling
  import opened Statuses
  import opened Sequences
  import opened MultipartSpec
  import opened Streams
  import opened MultipartLaws

  datatype MfdStatus =
    | MfdInit | MfdNextLine | MfdHeader | MfdPostHeader | MfdParam | MfdUpload | MfdMixed | MfdComplete | MfdError

  /** A stream on which nothing is claimed. */
  ghost predicate Unclaimed(f: Outcome, eos: bool) { f.Vague? || (eos && f.Open?) }

  /** KindOf, with the scans of the header values as the library makes them. */
  method FindKind(e: Entity, pname: Option<bytes>, info: seq<Field>) returns (k: Kind)
    ensures k == KindOf(e, pname, info)
  {
    var cd := Get(info, CONTENT_DISPOSITION);
    if cd.None? {
      var id := Get(info, CONTENT_ID);
      return if id.Some? then Kind.File(id.value, []) else Wrong;
    }
    if !e.mixed {
      var n := HeaderAttribute(cd.value, NAME);
      if !n.Found? {
        return if n.OutOfBounds? then Undefined else Wrong;
      }
      var f := HeaderAttribute(cd.value, FILENAME);
      match f {
        case OutOfBounds => return Undefined;
        case Found(fn) => return Kind.File(n.value, fn);
        case _ =>
          var ct := Get(info, CONTENT_TYPE);
          if ct.Some? && MULTIPART_MIXED <= ct.value {
            var b := FindBoundary(ct.value);
            match b {
              case Found(token) => return Nested(Entity(token, true), n.value);
              case OutOfBounds => return Undefined;
              case _ => return Wrong;
            }
          }
          return Plain(Some(n.value));
      }
    }
    var f := HeaderAttribute(cd.value, FILENAME);
    match f {
      case OutOfBounds => return Undefined;
      case Found(fn) => return if pname.Some? then Kind.File(pname.value, fn) else Undefined;
      case _ => return Plain(pname);
    }
  }

  /** The boundary of a content type, as create_multipart_context finds it. */
  method FindBoundary(ct: bytes) returns (b: Attr)
    ensures b == BoundaryOf(ct)
  {
    var i := SemiAt(ct, 0);
    if i == |ct| { return Missing; }
    b := HeaderAttribute(ct[i + 1..], BOUNDARY);
  }

  class MultipartParser {
    const e: Entity
    const inn: Brigade
    const bb: Brigade
    const hdr: HeaderParser
    const info: Table<Field>
    const upload: Spool
    var status: MfdStatus
    var haveInfo: bool
    var pname: Option<bytes>
    var uname: bytes
    var ufile: bytes
    var mix: MultipartParser?

    constructor (e: Entity, pname: Option<bytes>, limit: nat, reliable: bool)
      ensures Valid() && this.e == e && this.pname == pname
      ensures fresh(inn) && fresh(bb) && fresh(hdr) && fresh(hdr.bb) && fresh(info) && fresh(upload)
          && fresh(upload.file)
      ensures status == MfdInit && mix == null && inn.buckets == [] && bb.buckets == []
      ensures HereAlone() == AtInit(pname) && WaitingAlone() == [] && Bulk() == 0 && Reliable() == reliable
    {
      this.e := e;
      inn := new Brigade();
      bb := new Brigade();
      hdr := new HeaderParser();
      info := new Table();
      upload := new Spool(limit, reliable);
      status, haveInfo, this.pname, uname, ufile, mix := MfdInit, false, pname, [], [], null;
    }

    /** Temporary files can be written. */
    function Reliable(): bool { upload.file.reliable }

    /** The objects of this parser alone. */
    ghost function Own(): set<object> { {this, inn, bb, hdr, hdr.bb, info, upload, upload.file} }

    ghost function All(): set<object>
      reads this
    {
      Own() + if mix == null then {} else mix.Own()
    }

    ghost predicate ValidAlone()
      reads Own()
    {
      && inn != bb && inn != hdr.bb && bb != hdr.bb
      && Solid(bb.buckets)
      && (status in {MfdHeader, MfdPostHeader, MfdMixed} ==> bb.buckets == [])
      && (status == MfdHeader && haveInfo ==> hdr.status != HdrComplete && hdr.status != HdrError)
      && (status == MfdUpload ==> upload.Valid() && !upload.Ended())
    }

    ghost predicate Valid()
      reads this, All()
    {
      && ValidAlone()
      && (e.mixed ==> mix == null)
      && (mix != null ==>
            mix.e.mixed && mix.mix == null && mix.status != MfdMixed && mix.ValidAlone() && Own() !! mix.Own()
            && mix.Reliable() == Reliable())
      && (status == MfdMixed ==> mix != null && mix.status != MfdComplete && mix.status != MfdError)
    }

    /** The state of this parser alone; what lies in bb is part of it. */
    ghost function HereAlone(): State
      requires status != MfdMixed && (status == MfdUpload ==> upload.Valid())
      reads this, bb, info, upload, upload.file
    {
      match status
      case MfdInit => AtInit(pname)
      case MfdNextLine => AtNextLine(pname, Live(bb.buckets))
      case MfdHeader => AtHeader(pname, if haveInfo then info.elts else [])
      case MfdPostHeader => AtPart(pname, info.elts)
      case MfdParam => InField(pname, info.elts, Live(bb.buckets))
      case MfdUpload => InUpload(pname, uname, ufile, info.elts, upload.Contents() + Live(bb.buckets))
      case MfdComplete => Over
      case MfdError => Broken
    }

    ghost function Here(): (st: State)
      requires Valid()
      reads this, All()
      ensures Fits(e, st)
    {
      if status == MfdMixed then InNested(pname, mix.e, mix.HereAlone()) else HereAlone()
    }

    /** The buckets taken in and not yet read. */
    ghost function WaitingAlone(): seq<Bucket>
      reads this, inn, hdr.bb
    {
      if status == MfdHeader && haveInfo then hdr.bb.buckets + inn.buckets else inn.buckets
    }

    ghost function Waiting(): seq<Bucket>
      requires Valid()
      reads this, All()
    {
      if status == MfdMixed then mix.WaitingAlone() + inn.buckets else WaitingAlone()
    }

    /** What becomes of the stream of which the buckets waiting are the beginning. */
    ghost function Future(t: seq<Param>, rest: bytes): Outcome
      requires Valid()
      reads this, All()
    {
      Run(e, Here(), t, Stream(Waiting(), rest))
    }

    ghost function FutureAlone(t: seq<Param>, rest: bytes): Outcome
      requires ValidAlone() && status != MfdMixed
      reads Own()
    {
      Run(e, HereAlone(), t, Stream(WaitingAlone(), rest))
    }

    /** The stream is not over yet, and what is known of it leads where it led: only a part
        without a body can be all there without the parser having noticed. */
    ghost predicate Waits(o: Outcome, t: seq<Param>, rest: bytes)
      requires ValidAlone() && status != MfdMixed
      reads Own()
    {
      && FutureAlone(t, rest) == o && !HasEos(WaitingAlone())
      && Delayed(FutureAlone(t, []))
    }

    /** The bytes this parser still has to deal with, and what its state makes of them. */
    ghost function Bulk(): nat
      requires ValidAlone() && status != MfdMixed
      reads Own()
    {
      |Live(WaitingAlone())| + Weight(HereAlone()) + if status == MfdInit then |Live(bb.buckets)| else 0
    }

    ghost function TotalBulk(): nat
      requires Valid()
      reads this, All()
    {
      if status == MfdMixed then mix.Bulk() + |Live(inn.buckets)| else Bulk()
    }

    ghost predicate NeatAlone()
      reads this, bb
    {
      status == MfdInit ==> DASH !in Live(bb.buckets)
    }

    /** No byte of a preamble still to be handed back is a '-'. */
    ghost predicate Neat()
      requires Valid()
      reads this, All()
    {
      NeatAlone() && (status == MfdMixed ==> mix.NeatAlone())
    }

    /** MFD_INIT; the preamble goes back to the caller. */
    method DoInit(bbin: Brigade, ghost t: seq<Param>, ghost rest: bytes) returns (s: Status)
      requires ValidAlone() && status == MfdInit && bbin !in Own() && Solid(bbin.buckets)
      modifies this`status, inn, bb, bbin
      ensures ValidAlone() && Solid(bbin.buckets) && status == if s == Success then MfdNextLine else MfdInit
      ensures s == Success || s == Incomplete || s == Eof
      ensures |Live(bbin.buckets)| + Bulk() <= old(|Live(bbin.buckets)| + Bulk())
      ensures s == Success ==> Bulk() < old(Bulk()) && bb.buckets == []
      ensures HasEos(inn.buckets) <==> HasEos(old(inn.buckets))
      ensures var o := old(FutureAlone(t, rest)); old(NeatAlone()) && DASH !in Live(old(bbin.buckets)) && !o.Vague? ==>
        NeatAlone() && DASH !in Live(bbin.buckets) && match s
        case Success => FutureAlone(t, rest) == o
        case Incomplete => Waits(o, t, rest)
        case _ => o == Open && HasEos(inn.buckets)
    {
      hide Scan, Run, Live, HasEos;
      ghost var out, bs, o := Live(bb.buckets), inn.buckets, FutureAlone(t, rest);
      if DASH !in out { InitLaw(e, pname, t, out, bs, rest); }
      SplitShrinks(e.Dash(), out, bs);
      ScanSplits(e.Dash(), out, bs, []);
      s := SplitOnBdry(bb, inn, e.Dash(), false);
      if s == Success {
        status := MfdNextLine;
        LiveAppend(bbin.buckets, bb.buckets);
        bbin.Concat(bb);
      }
      StreamNoMore(inn.buckets);
    }

    /** MFD_NEXTLINE; the epilogue goes back to the caller. */
    method DoNextLine(bbin: Brigade, ghost t: seq<Param>, ghost rest: bytes) returns (s: Status)
      requires ValidAlone() && status == MfdNextLine && bbin !in Own() && Solid(bbin.buckets)
      modifies this`status, this`haveInfo, inn, bb, bbin
      ensures ValidAlone() && status in (if s == Success then {MfdHeader, MfdComplete} else {MfdNextLine})
      ensures s == Success || s == Incomplete || s == Eof
      ensures |Live(bbin.buckets)| + Bulk() <= old(|Live(bbin.buckets)| + Bulk())
      ensures status != MfdComplete ==>
                (HasEos(inn.buckets) <==> HasEos(old(inn.buckets))) && bbin.buckets == old(bbin.buckets)
      ensures status == MfdComplete ==> (HasEos(bbin.buckets) <==> HasEos(old(inn.buckets)))
      ensures status == MfdHeader ==> Bulk() < old(Bulk()) && !haveInfo
      ensures var o := old(FutureAlone(t, rest)); o.Vague? || match s
        case Success =>
          if status == MfdComplete then
            o.Done? && o.table == t && !o.bodiless && Stream(bbin.buckets, rest) == Live(old(bbin.buckets)) + o.rest
          else FutureAlone(t, rest) == o
        case Incomplete => Waits(o, t, rest)
        case _ => o == Open && HasEos(inn.buckets)
    {
      hide Scan, Run, Live, HasEos;
      ghost var out, bs := Live(bb.buckets), inn.buckets;
      NextLineLaw(e, pname, out, t, bs, rest);
      SplitShrinks(CRLF, out, bs);
      s := SplitOnBdry(bb, inn, CRLF, false);
      StreamNoMore(inn.buckets);
      SolidEmpty(bb.buckets);
      if s != Success { return; }
      if bb.buckets != [] {
        JoinStream(bbin.buckets, inn.buckets, rest);
        bbin.Concat(inn);
        status := MfdComplete;
        return;
      }
      status, haveInfo := MfdHeader, false;
    }

    /** MFD_HEADER. */
    method DoHeader(ghost t: seq<Param>, ghost rest: bytes) returns (s: Status)
      requires ValidAlone() && status == MfdHeader
      modifies this`status, this`haveInfo, inn, info, hdr, hdr.bb
      ensures ValidAlone()
      ensures status == match s case Success => MfdPostHeader case Incomplete => MfdHeader case _ => MfdError
      ensures s == Success || s == Incomplete || s == BadArg || s == Aborted
      ensures s == Success || s == Incomplete ==> (HasEos(WaitingAlone()) <==> HasEos(old(WaitingAlone())))
      ensures s == Success || s == Incomplete ==> Bulk() <= old(Bulk())
      ensures var o := old(FutureAlone(t, rest)); Unclaimed(o, HasEos(old(WaitingAlone()))) || match s
        case Success => FutureAlone(t, rest) == o
        case Incomplete => Waits(o, t, rest)
        case _ => Fails(o, t)
    {
      hide ReadBlock, Run, Live, HasEos;
      if !haveInfo {
        info.elts := [];
        hdr.Reset();
        haveInfo := true;
        StreamNoMore(inn.buckets);
      }
      HeaderLaw(e, pname, info.elts, t, Stream(WaitingAlone(), rest));
      s := hdr.Parse(info, inn, rest);
      HeaderLaw(e, pname, info.elts, t, Stream(WaitingAlone(), rest));
      HeaderLaw(e, pname, info.elts, t, Live(WaitingAlone()));
      StreamNoMore(hdr.bb.buckets);
      if s == Success {
        status := MfdPostHeader;
      } else if s != Incomplete {
        status := MfdError;
      }
    }

    /** Give a part without a body its CRLF back; the bytes left are those of its body on. */
    method FindBody(ghost t: seq<Param>, ghost rest: bytes) returns (s: Status)
      requires ValidAlone() && status == MfdPostHeader
      modifies inn
      ensures s == Success || s == Incomplete
      ensures ValidAlone() && (HasEos(inn.buckets) <==> HasEos(old(inn.buckets)))
      ensures |Live(inn.buckets)| <= |Live(old(inn.buckets))| + 2
      ensures var o := old(FutureAlone(t, rest));
        Unclaimed(o, HasEos(old(inn.buckets))) ||
        if s == Success then
          CR !in e.token
          && Leads(RunKind(e, pname, info.elts, KindOf(e, pname, info.elts), t, Stream(inn.buckets, rest)), o)
        else Waits(o, t, rest)
    {
      hide Run, RunKind, StartString, KindOf, Live, HasEos;
      ghost var bs, d := inn.buckets, e.Dash();
      StartStringLaw(bs, d, rest);
      PartLaw(e, pname, info.elts, t, Stream(bs, rest));
      var start := StartString(inn.buckets, e.Dash());
      if start == Incomplete {
        PartLaw(e, pname, info.elts, t, Live(bs));
        StreamNoMore(bs);
        return Incomplete;
      }
      if start == Success {
        inn.InsertHead(Data(CRLF));
        PushLine(bs, rest);
      }
      s := Success;
    }

    /** A part of kind k begins. */
    method Begin(k: Kind, ghost t: seq<Param>, ghost rest: bytes) returns (s: Status)
      requires ValidAlone() && status == MfdPostHeader && !k.Nested?
      modifies this`status, this`pname, this`uname, this`ufile, upload, upload.file
      ensures ValidAlone() && status in (if s == Success then {MfdParam, MfdUpload} else {MfdError})
      ensures s == Success ==> Bulk() == |Live(inn.buckets)|
      ensures s == Success || s == General || s == Aborted
      ensures var o := RunKind(e, old(pname), info.elts, k, t, Stream(inn.buckets, rest));
        o.Vague? || CR in e.token ||
        if s == Success then FutureAlone(t, rest) == o else Fails(o, t)
    {
      hide RunKind, Run, Live, HasEos;
      if CR !in e.token { KindLaw(e, pname, info.elts, k, t, Stream(inn.buckets, rest)); }
      StreamNoMore(inn.buckets);
      s := Success;
      match k {
        case Wrong => status := MfdError; s := General;
        case Undefined => status := MfdError; s := Aborted;
        case Plain(name) => pname, status := name, MfdParam;
        case File(name, filename) =>
          uname, ufile, status := name, filename, MfdUpload;
          upload.Reset();
      }
    }

    /** A nested entity begins. */
    method BeginNested(inner: Entity, name: bytes, ghost t: seq<Param>, ghost rest: bytes)
      requires Valid() && status == MfdPostHeader && inner.mixed && !e.mixed
      modifies this`status, this`mix
      ensures Valid() && fresh(mix) && fresh(mix.Own()) && status == MfdMixed && mix.status == MfdInit
          && mix.bb.buckets == []
      ensures TotalBulk() == |Live(inn.buckets)|
      ensures Waiting() == inn.buckets
      ensures CR !in e.token ==>
                Future(t, rest) == RunKind(e, pname, info.elts, Nested(inner, name), t, Stream(inn.buckets, rest))
    {
      hide RunKind, Run, Live, HasEos;
      if CR !in e.token { KindLaw(e, pname, info.elts, Nested(inner, name), t, Stream(inn.buckets, rest)); }
      var m := new MultipartParser(inner, Some(name), upload.limit, Reliable());
      assert fresh(m.Own()) && Own() !! m.Own();
      mix, status := m, MfdMixed;
      StreamNoMore(inn.buckets);
    }

    /** The part whose body lies in front begins, as what its header makes it. */
    method BeginPart(ghost t: seq<Param>, ghost rest: bytes) returns (s: Status)
      requires Valid() && status == MfdPostHeader
      modifies this, upload, upload.file
      ensures Valid() && (mix == old(mix) || (mix != null && fresh(mix.Own())))
      ensures status in if s == Success then {MfdParam, MfdUpload, MfdMixed} else {MfdError}
      ensures s == Success || s == General || s == Aborted
      ensures s == Success ==> TotalBulk() == |Live(inn.buckets)| && Waiting() == inn.buckets
      ensures status == MfdMixed ==> mix.status == MfdInit && mix.bb.buckets == []
      ensures var o := old(RunKind(e, pname, info.elts, KindOf(e, pname, info.elts), t, Stream(inn.buckets, rest)));
        o.Vague? || CR in e.token || if s == Success then Future(t, rest) == o else Fails(o, t)
    {
      hide Run, RunKind, KindOf, Live, HasEos, Stream;
      var k := FindKind(e, pname, info.elts);
      if k.Nested? {
        NestedFits(e, pname, info.elts);
        BeginNested(k.inner, k.name, t, rest);
        s := Success;
      } else {
        s := Begin(k, t, rest);
      }
    }

    /** MFD_POST_HEADER. */
    method DoPostHeader(ghost t: seq<Param>, ghost rest: bytes) returns (s: Status)
      requires Valid() && status == MfdPostHeader
      modifies this, inn, upload, upload.file
      ensures Valid() && (mix == old(mix) || (mix != null && fresh(mix.Own())))
      ensures status in match s
              case Success => {MfdParam, MfdUpload, MfdMixed} case Incomplete => {MfdPostHeader} case _ => {MfdError}
      ensures s == Success || s == Incomplete || s == General || s == Aborted
      ensures s == Success || s == Incomplete ==> (HasEos(Waiting()) <==> HasEos(old(Waiting())))
      ensures s == Success ==> TotalBulk() <= old(TotalBulk())
      ensures s == Success && status == MfdMixed ==> mix.status == MfdInit && mix.bb.buckets == []
      ensures var o := old(Future(t, rest)); Unclaimed(o, HasEos(old(Waiting()))) || match s
        case Success => Leads(Future(t, rest), o)
        case Incomplete => Waits(o, t, rest)
        case _ => Fails(o, t)
    {
      hide Run, RunKind, KindOf, Live, HasEos, Stream;
      s := FindBody(t, rest);
      if s == Success {
        s := BeginPart(t, rest);
      }
    }

    /** MFD_PARAM. */
    method DoParam(t: Table<Param>, ghost rest: bytes) returns (s: Status)
      requires ValidAlone() && status == MfdParam && t !in Own()
      modifies this`status, this`pname, inn, bb, t
      ensures ValidAlone()
      ensures status == match s case Success => MfdNextLine case Incomplete => MfdParam case _ => MfdError
      ensures s == Success || s == Incomplete || s == Eof || s == Aborted
      ensures HasEos(inn.buckets) <==> HasEos(old(inn.buckets))
      ensures s == Success ==> Bulk() < old(Bulk()) && bb.buckets == []
      ensures var o := old(FutureAlone(t.elts, rest));
        Unclaimed(o, HasEos(inn.buckets)) || match s
        case Success => FutureAlone(t.elts, rest) == o
        case Incomplete => Waits(o, t.elts, rest)
        case _ => false
    {
      hide Scan, Run, Live, HasEos;
      ghost var out, bs, p := Live(bb.buckets), inn.buckets, e.Delimiter();
      FieldLaw(e, pname, info.elts, out, t.elts, bs, rest);
      SplitShrinks(p, out, bs);
      s := SplitOnBdry(bb, inn, e.Delimiter(), true);
      StreamNoMore(inn.buckets);
      if s == Success {
        if pname.None? {
          status := MfdError;
          return Aborted;
        }
        t.Add(Param(pname.value, Live(bb.buckets), None, info.elts));
        status, pname := MfdNextLine, None;
        bb.Cleanup();
      } else if s != Incomplete {
        status := MfdError;
      }
    }

    /** What was split off joins the upload, which is over if s is Success. */
    method KeepUpload(t: Table<Param>, s: Status) returns (r: Status, ghost io: bool)
      requires ValidAlone() && status == MfdUpload && t !in Own() && (s == Success || s == Incomplete)
      modifies this`status, bb, upload, upload.file, t
      ensures io ==> r != Success && r != Incomplete && !Reliable()
      ensures !io ==> r == s && ValidAlone() && bb.buckets == []
      ensures !io ==> status == if s == Success then MfdNextLine else MfdUpload
      ensures !io && s == Incomplete ==>
                t.elts == old(t.elts) && upload.Contents() + Live(bb.buckets)
                    == old(upload.Contents() + Live(bb.buckets))
      ensures !io && s == Success ==>
                t.elts == old(t.elts) + [Param(uname, ufile, Some(old(upload.Contents() + Live(bb.buckets))),
                    info.elts)]
    {
      hide Live, HasEos;
      SolidEmpty(bb.buckets);
      assert AllBytes(bb.buckets) == Live(bb.buckets);
      var c := upload.Concat(bb);
      if c != Success {
        return c, true;
      }
      if s == Success {
        t.Add(Param(uname, ufile, Some(upload.Contents()), info.elts));
        status := MfdNextLine;
      }
      StreamNoMore(bb.buckets);
      assert upload.Contents() + [] == upload.Contents();
      r, io := s, false;
    }

    /** MFD_UPLOAD: io tells that the temporary file could not be written. */
    method DoUpload(t: Table<Param>, ghost rest: bytes) returns (s: Status, ghost io: bool)
      requires ValidAlone() && status == MfdUpload && t !in Own()
      modifies this`status, inn, bb, upload, upload.file, t
      ensures io ==> s != Success && s != Incomplete && !Reliable()
      ensures !io ==> ValidAlone()
      ensures !io ==> status == match s case Success => MfdNextLine case Incomplete => MfdUpload case _ => MfdError
      ensures !io ==> s == Success || s == Incomplete || s == Eof
      ensures HasEos(inn.buckets) <==> HasEos(old(inn.buckets))
      ensures s == Success ==> Bulk() < old(Bulk()) && bb.buckets == []
      ensures var o := old(FutureAlone(t.elts, rest));
        io || Unclaimed(o, HasEos(inn.buckets)) || match s
        case Success => FutureAlone(t.elts, rest) == o
        case Incomplete => Waits(o, t.elts, rest)
        case _ => false
    {
      hide Scan, Run, Live, HasEos;
      io := false;
      ghost var had, out, bs, p := upload.Contents(), Live(bb.buckets), inn.buckets, e.Delimiter();
      UploadLaw(e, pname, uname, ufile, info.elts, had, out, t.elts, bs, rest);
      SplitShrinks(p, out, bs);
      s := SplitOnBdry(bb, inn, e.Delimiter(), true);
      StreamNoMore(inn.buckets);
      SolidEmpty(bb.buckets);
      if s != Success && s != Incomplete {
        status := MfdError;
        return;
      }
      s, io := KeepUpload(t, s);
    }

    /** What a call may answer when the stream is to end in o. */
    ghost predicate Replies(o: Outcome, s: Status, t: seq<Param>, back: seq<Bucket>, rest: bytes)
      requires Valid()
      reads this, All()
    {
      match s
      case Success => status == MfdComplete && o.Done? && o.table == t && Epilogue(Stream(back, rest), o.rest)
      case Incomplete =>
        && status != MfdComplete && status != MfdError && Neat()
        && Leads(Future(t, rest), o) && !HasEos(Waiting())
        && Delayed(Future(t, []))
      case Eof => false
      case _ => status == MfdError && Fails(o, t)
    }

    /** Nothing is claimed of a stream that is vague, or that ends early. */
    ghost predicate Claimed(o: Outcome, eos: bool)
      requires Valid()
      reads this, All()
    {
      Neat() && !Unclaimed(o, eos)
    }

    /** A nested entity that waits makes the enclosing one wait. */
    lemma MixedWaits(st: State, t0: seq<Param>, S: bytes, t: seq<Param>, rest: bytes)
      requires Valid() && status == MfdMixed && inn.buckets == [] && NeatAlone() && !st.InNested? && mix.Valid()
      requires mix.Replies(Run(mix.e, st, t0, S), Incomplete, t, [], rest)
      ensures Replies(Run(e, InNested(pname, mix.e, st), t0, S), Incomplete, t, [], rest)
    {
      hide Run, Live, HasEos, Epilogue;
      StreamNoMore(mix.WaitingAlone());
      NestLeads(e, pname, mix.e, st, t0, S, mix.HereAlone(), t, Stream(Waiting(), rest));
      NestLeads(e, pname, mix.e, st, t0, S, mix.HereAlone(), t, Live(Waiting()));
    }

    /** A nested entity that is over hands on to the enclosing one. */
    lemma MixedOver(inner: Entity, st: State, t0: seq<Param>, S: bytes, t: seq<Param>, rest: bytes)
      requires Valid() && status == MfdInit && !e.mixed && inner.mixed && !st.InNested?
      requires var f := Run(inner, st, t0, S); f.Done? && f.table == t && Epilogue(Stream(inn.buckets, rest), f.rest)
      ensures var o := Run(e, InNested(pname, inner, st), t0, S); o.Vague? || Leads(Future(t, rest), o)
    {
      hide Run, RunInit, Live, HasEos, Epilogue;
      NestLaw(e, pname, inner, st, t0, S);
      if CR !in e.token { NestDone(e, pname, inner, st, t0, S, t, Stream(inn.buckets, rest)); }
    }

    /** MFD_MIXED. */
    method DoMixed(t: Table<Param>, ghost rest: bytes) returns (s: Status, ghost io: bool)
      requires Valid() && status == MfdMixed && t !in All()
      modifies this`status, All() - {this}, t
      decreases Level(e), 0
      ensures io ==> s != Success && s != Incomplete && !Reliable()
      ensures !io ==> Valid() && mix == old(mix)
      ensures !io ==> match s
              case Success => status == MfdInit && bb.buckets == []
              case Incomplete => status == MfdMixed
              case _ => status == MfdError
      ensures s == Success ==> TotalBulk() <= old(TotalBulk()) && (HasEos(Waiting()) <==> HasEos(old(Waiting())))
      ensures var o := old(Future(t.elts, rest));
        io || !old(Claimed(o, HasEos(Waiting()))) ||
        if s == Success then Leads(Future(t.elts, rest), o)
        else Replies(o, s, t.elts, [], rest) && (s == Incomplete ==> !HasEos(old(Waiting())))
    {
      hide Run, RunInit, Live, HasEos, Epilogue, Leads, Mark, Stream, NeatAlone, Delayed;
      ghost var st, t0, S, eos, neat := mix.HereAlone(), t.elts, Stream(Waiting(), rest), HasEos(Waiting()), Neat();
      NestLaw(e, pname, mix.e, st, t0, S);
      s, io := mix.Parse(t, inn, rest);
      if s == Success {
        StreamNoMore(inn.buckets);
        status := MfdInit;
        if !io && !Unclaimed(Run(mix.e, st, t0, S), eos) && neat { MixedOver(mix.e, st, t0, S, t.elts, rest); }
      } else if s == Incomplete {
        inn.Cleanup();
        if !io && !Unclaimed(Run(mix.e, st, t0, S), eos) && neat { MixedWaits(st, t0, S, t.elts, rest); }
      } else {
        status := MfdError;
      }
    }

    /** Take the buckets of a new call in. */
    method TakeIn(bbin: Brigade)
      requires Valid() && bbin !in All()
      modifies inn, bbin
      ensures Valid() && bbin.buckets == [] && Waiting() == old(Waiting() + bbin.buckets) && Here() == old(Here())
      ensures TotalBulk() <= old(TotalBulk() + |Live(bbin.buckets)|)
      ensures Neat() <==> old(Neat())
    {
      hide Live;
      ghost var w, more := inn.buckets, bbin.buckets;
      LiveAppend(w, more);
      LiveAppend(hdr.bb.buckets, w);
      LiveAppend(hdr.bb.buckets, w + more);
      Regroup(hdr.bb.buckets, w, more);
      if status == MfdMixed { Regroup(mix.WaitingAlone(), w, more); }
      inn.Concat(bbin);
    }

    /** How late in a part the state comes: states that use up no bytes go on to later ones. */
    ghost function Rank(): nat
      reads this
    {
      match status
      case MfdHeader => 4
      case MfdPostHeader => 3
      case MfdMixed => 2
      case _ => 1
    }

    ghost predicate Running() reads this { status != MfdComplete && status != MfdError }

    /** What is known of a stream that is to end in f, when the preamble handed back is `back`. */
    ghost predicate OnTrack(f: Outcome, t: seq<Param>, back: bytes, rest: bytes)
      requires Valid()
      reads this, All()
    {
      Unclaimed(f, HasEos(Waiting())) || (Neat() && DASH !in back && Leads(Future(t, rest), f))
    }

    /** OnTrack and Replies, for a parser that is not inside a nested entity. */
    ghost predicate OnTrackAlone(f: Outcome, t: seq<Param>, back: bytes, rest: bytes)
      requires ValidAlone() && status != MfdMixed
      reads Own()
    {
      Unclaimed(f, HasEos(WaitingAlone())) || (NeatAlone() && DASH !in back && Leads(FutureAlone(t, rest), f))
    }

    ghost predicate RepliesAlone(f: Outcome, s: Status, t: seq<Param>, back: seq<Bucket>, rest: bytes)
      requires ValidAlone() && status != MfdMixed
      reads Own()
    {
      match s
      case Success => status == MfdComplete && f.Done? && f.table == t && Epilogue(Stream(back, rest), f.rest)
      case Incomplete => Running() && NeatAlone() && Waits(f, t, rest)
      case Eof => false
      case _ => status == MfdError && Fails(f, t)
    }

    /** One turn of the state machine in a state that has nothing to do with nested entities. */
    method TurnAlone(t: Table<Param>, bbin: Brigade, ghost rest: bytes) returns (again: bool, s: Status, ghost io: bool)
      requires ValidAlone() && t !in Own() && bbin !in Own() && Solid(bbin.buckets)
      requires Running() && status != MfdPostHeader && status != MfdMixed
      modifies this`status, this`haveInfo, this`pname, Own() - {this}, t, bbin
      ensures io ==> !again && s != Success && s != Incomplete && !Reliable()
      ensures !io ==> ValidAlone() && status != MfdMixed
      ensures again ==> Running() && Solid(bbin.buckets) && (HasEos(WaitingAlone()) <==> HasEos(old(WaitingAlone())))
      ensures again ==> |Live(bbin.buckets)| + Bulk() <= old(|Live(bbin.buckets)| + Bulk())
      ensures again ==> Bulk() < old(Bulk()) || (Bulk() == old(Bulk()) && Rank() < old(Rank()))
      ensures !again && !io ==> (s == Success <==> status == MfdComplete) && (s == Incomplete ==> Running())
      ensures !again && s == Success ==>
                |Live(bbin.buckets)| <= old(|Live(bbin.buckets)| + Bulk())
                    && (HasEos(bbin.buckets) <==> HasEos(old(WaitingAlone())))
      ensures var f := old(FutureAlone(t.elts, rest));
              io || !old(OnTrackAlone(f, t.elts, Live(bbin.buckets), rest)) ||
              if again then OnTrackAlone(f, t.elts, Live(bbin.buckets), rest)
              else Unclaimed(f, HasEos(old(WaitingAlone()))) ||
                   (RepliesAlone(f, s, t.elts, bbin.buckets, rest)
                       && (s == Incomplete ==> !HasEos(old(WaitingAlone()))))
    {
      hide Run, Live, HasEos, HereAlone, Stream;
      again, io := false, false;
      s := General;
      match status {
        case MfdInit =>
          s := DoInit(bbin, t.elts, rest);
          again := s == Success;
        case MfdNextLine =>
          s := DoNextLine(bbin, t.elts, rest);
          again := s == Success && status == MfdHeader;
        case MfdHeader =>
          s := DoHeader(t.elts, rest);
          again := s == Success;
        case MfdParam =>
          s := DoParam(t, rest);
          again := s == Success;
        case MfdUpload =>
          s, io := DoUpload(t, rest);
          again := s == Success;
        case _ =>
      }
    }

    /** One turn of the state machine. */
    method Turn(t: Table<Param>, bbin: Brigade, ghost rest: bytes) returns (again: bool, s: Status, ghost io: bool)
      requires Valid() && t !in All() && bbin !in All() && Running() && Solid(bbin.buckets)
      modifies this, All(), t, bbin
      decreases Level(e), 1
      ensures io ==> !again && s != Success && s != Incomplete && !Reliable()
      ensures !io ==> Valid() && (mix == old(mix) || (mix != null && fresh(mix.Own())))
      ensures again ==> Running() && Solid(bbin.buckets) && (HasEos(Waiting()) <==> HasEos(old(Waiting())))
      ensures again ==> |Live(bbin.buckets)| + TotalBulk() <= old(|Live(bbin.buckets)| + TotalBulk())
      ensures again ==> TotalBulk() < old(TotalBulk()) || (TotalBulk() == old(TotalBulk()) && Rank() < old(Rank()))
      ensures !again && !io ==> (s == Success <==> status == MfdComplete) && (s == Incomplete ==> Running())
      ensures !again && s == Success ==>
                |Live(bbin.buckets)| <= old(|Live(bbin.buckets)| + TotalBulk())
                    && (HasEos(bbin.buckets) <==> HasEos(old(Waiting())))
      ensures var f := old(Future(t.elts, rest));
              io || !old(OnTrack(f, t.elts, Live(bbin.buckets), rest)) ||
              if again then OnTrack(f, t.elts, Live(bbin.buckets), rest)
              else Unclaimed(f, HasEos(old(Waiting()))) ||
                   (Replies(f, s, t.elts, bbin.buckets, rest) && (s == Incomplete ==> !HasEos(old(Waiting()))))
    {
      hide Run, Live, HasEos, HereAlone, WaitingAlone, ValidAlone, Stream, Epilogue, Leads, Delayed, Fails;
      StreamNoMore([]);
      io := false;
      if status == MfdPostHeader {
        s := DoPostHeader(t.elts, rest);
        again := s == Success;
      } else if status == MfdMixed {
        s, io := DoMixed(t, rest);
        again := s == Success;
      } else {
        again, s, io := TurnAlone(t, bbin, rest);
      }
    }

    /** An answer that fits what the stream leads to fits the stream. */
    lemma RepliesLead(now: Outcome, f: Outcome, eos: bool, s: Status, t: seq<Param>, back: seq<Bucket>, rest: bytes)
      requires Valid() && Leads(now, f)
      requires Unclaimed(now, eos) || Replies(now, s, t, back, rest)
      ensures Unclaimed(f, eos) || Replies(f, s, t, back, rest)
    {
      hide Run, Live, HasEos, HereAlone, WaitingAlone, ValidAlone, NeatAlone, Epilogue;
    }

    /** apreq_parse_multipart. */
    method Parse(t: Table<Param>, bbin: Brigade, ghost rest: bytes) returns (s: Status, ghost io: bool)
      requires Valid() && t !in All() && bbin !in All()
      modifies this, All(), t, bbin
      decreases Level(e), 3
      ensures io ==> s != Success && s != Incomplete && !Reliable()
      ensures !io ==> Valid() && (mix == old(mix) || (mix != null && fresh(mix.Own())))
      ensures old(status) == MfdError ==>
                s == General && !io && bbin.buckets == old(bbin.buckets) && t.elts == old(t.elts)
      ensures old(status) == MfdComplete ==>
                s == Success && !io && bbin.buckets == old(bbin.buckets) && t.elts == old(t.elts)
      ensures !io && old(Running()) ==> (s == Success <==> status == MfdComplete) && (s == Incomplete ==> Running())
      ensures s == Success && old(Running()) ==>
                |Live(bbin.buckets)| <= old(TotalBulk() + |Live(bbin.buckets)|)
                && (HasEos(bbin.buckets) <==> HasEos(old(Waiting() + bbin.buckets)))
      ensures var bs := old(Waiting() + bbin.buckets); var o := Run(e, old(Here()), old(t.elts), Stream(bs, rest));
        io || !old(Running()) || !old(Neat()) || Unclaimed(o, HasEos(bs)) ||
        (Replies(o, s, t.elts, bbin.buckets, rest) && (s == Incomplete ==> !HasEos(bs)))
    {
      hide Run, Live, HasEos, HereAlone, WaitingAlone, ValidAlone, Bulk, NeatAlone, Replies, Reliable;
      io := false;
      if status == MfdError { return General, false; }
      if status == MfdComplete { return Success, false; }
      TakeIn(bbin);
      StreamNoMore(bbin.buckets);
      s, io := RunTurns(t, bbin, rest);
    }

    /** Turn after turn, until the buckets are used up or the body is over. */
    method RunTurns(t: Table<Param>, bbin: Brigade, ghost rest: bytes) returns (s: Status, ghost io: bool)
      requires Valid() && t !in All() && bbin !in All() && Running() && bbin.buckets == []
      modifies this, All(), t, bbin
      decreases Level(e), 2
      ensures io ==> s != Success && s != Incomplete && !Reliable()
      ensures !io ==> Valid() && (mix == old(mix) || (mix != null && fresh(mix.Own())))
      ensures !io ==> (s == Success <==> status == MfdComplete) && (s == Incomplete ==> Running())
      ensures s == Success ==> |Live(bbin.buckets)| <= old(TotalBulk())
      ensures s == Success ==> (HasEos(bbin.buckets) <==> HasEos(old(Waiting())))
      ensures var f := old(Future(t.elts, rest)); var eos := HasEos(old(Waiting()));
        io || !old(Neat()) || Unclaimed(f, eos) ||
        (Replies(f, s, t.elts, bbin.buckets, rest) && (s == Incomplete ==> !eos))
    {
      hide Run, Live, HasEos, HereAlone, WaitingAlone, ValidAlone, Bulk, NeatAlone, Replies, Reliable;
      ghost var f, neat, eos, bulk := Future(t.elts, rest), Neat(), HasEos(Waiting()), TotalBulk();
      StreamNoMore(bbin.buckets);
      io := false;
      var again := true;
      s := Incomplete;
      while again
        invariant io ==> !again && s != Success && s != Incomplete && !Reliable()
        invariant !io ==> Valid() && (mix == old(mix) || (mix != null && fresh(mix.Own())))
        invariant again ==> Running() && Solid(bbin.buckets) && (HasEos(Waiting()) <==> eos)
        invariant again ==> |Live(bbin.buckets)| + TotalBulk() <= bulk
        invariant again && neat ==> OnTrack(f, t.elts, Live(bbin.buckets), rest)
        invariant !again && !io ==> (s == Success <==> status == MfdComplete) && (s == Incomplete ==> Running())
        invariant !again && s == Success ==> |Live(bbin.buckets)| <= bulk && (HasEos(bbin.buckets) <==> eos)
        invariant !again && !io && neat ==>
                    Unclaimed(f, eos) || (Replies(f, s, t.elts, bbin.buckets, rest) && (s == Incomplete ==> !eos))
        decreases again, if again then TotalBulk() else 0, Rank()
      {
        ghost var now, on := Future(t.elts, rest), OnTrack(f, t.elts, Live(bbin.buckets), rest);
        again, s, io := Turn(t, bbin, rest);
        if !again && !io && on && !Unclaimed(f, eos) { RepliesLead(now, f, eos, s, t.elts, bbin.buckets, rest); }
      }
    }
  }

  lemma NestedFits(e: Entity, pname: Option<bytes>, info: seq<Field>)
    ensures var k := KindOf(e, pname, info); k.Nested? ==> k.inner.mixed && !e.mixed
  {
  }

  lemma PushLine(bs: seq<Bucket>, rest: bytes)
    ensures var bs' := [Data(CRLF)] + bs;
            Stream(bs', rest) == CRLF + Stream(bs, rest) && (HasEos(bs') <==> HasEos(bs))
                && |Live(bs')| == 2 + |Live(bs)|
  {
    assert ([Data(CRLF)] + bs)[1..] == bs;
    Regroup(CRLF, Live(bs), if HasEos(bs) then [] else rest);
  }

  lemma StreamNoMore(bs: seq<Bucket>)
    ensures Stream(bs, []) == Live(bs) && bs + [] == bs && [] + bs == bs
    ensures Live([]) == [] && !HasEos([])
  {
    assert bs + [] == bs;
  }

  lemma JoinStream(a: seq<Bucket>, b: seq<Bucket>, rest: bytes)
    requires Solid(a)
    ensures Stream(a + b, rest) == Live(a) + Stream(b, rest) && Live(a + b) == Live(a) + Live(b)
    ensures HasEos(a + b) <==> HasEos(b)
  {
    LiveAppend(a, b);
    Regroup(Live(a), Live(b), if HasEos(b) then [] else rest);
  }
}

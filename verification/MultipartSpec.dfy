/** The reference reading of a multipart body: a recursive descent over the whole byte stream,
    with no buckets, no calls and no state to resume. */
module MultipartSpec {
  import opened Bytes
  import opened Boundary
  import opened Headers
  import opened Attributes

  /** A form field, or an upload when `upload` holds a file's bytes. */
  datatype Param = Param(name: bytes, value: bytes, upload: Option<bytes>, info: seq<Field>)

  const CONTENT_DISPOSITION := Ascii("Content-Disposition")
  const CONTENT_TYPE := Ascii("Content-Type")
  const CONTENT_ID := Ascii("Content-ID")
  const NAME := Ascii("name")
  const FILENAME := Ascii("filename")
  const BOUNDARY := Ascii("boundary")
  const MULTIPART_MIXED := Ascii("multipart/mixed")

  /** apr_table_get: the first entry of that name, as a C string. */
  function Get(fields: seq<Field>, key: bytes): Option<bytes> {
    if fields == [] then None
    else if EqualNoCase(CString(fields[0].name), key) then Some(CString(fields[0].value))
    else Get(fields[1..], key)
  }

  /** The first ';' of a string, or its end. */
  function SemiAt(s: bytes, i: nat): (j: nat)
    requires i <= |s|
    ensures i <= j <= |s| && (j < |s| ==> s[j] == SEMI)
    decreases |s| - i
  {
    if i == |s| || s[i] == SEMI then i else SemiAt(s, i + 1)
  }

  /** The boundary parameter of a content type. */
  function BoundaryOf(ct: bytes): Attr {
    var i := SemiAt(ct, 0);
    if i == |ct| then Missing else Attribute(ct[i + 1..], BOUNDARY)
  }

  /** What a parser knows of the multipart entity it reads: a nested multipart/mixed entity
      has no parser for further nesting. */
  datatype Entity = Entity(token: bytes, mixed: bool)
  {
    /** The delimiter of the first part, and of the parts behind it. */
    function Dash(): bytes { DASHES + token }
    function Delimiter(): bytes { CRLF + DASHES + token }
  }

  datatype Kind =
    | Plain(pname: Option<bytes>)
    | File(name: bytes, filename: bytes)
    | Nested(inner: Entity, name: bytes)
    | Wrong
    | Undefined      // the library reads outside an object

  /** What the header of a part makes it; pname is the name a nested entity hands its parts. */
  function KindOf(e: Entity, pname: Option<bytes>, info: seq<Headers.Field>): (k: Kind)
    ensures k.Nested? ==> k.inner.mixed && !e.mixed
  {
    match Get(info, CONTENT_DISPOSITION)
    case None =>
      (match Get(info, CONTENT_ID)
       case None => Wrong
       case Some(id) => File(id, []))
    case Some(cd) =>
      if e.mixed then
        match Attribute(cd, FILENAME)
        case OutOfBounds => Undefined
        case Found(f) => if pname.Some? then File(pname.value, f) else Undefined
        case _ => Plain(pname)
      else
        match Attribute(cd, NAME)
        case OutOfBounds => Undefined
        case Found(n) =>
          (match Attribute(cd, FILENAME)
           case OutOfBounds => Undefined
           case Found(f) => File(n, f)
           case _ => FieldOrNested(n, Get(info, CONTENT_TYPE)))
        case _ => Wrong
  }

  function FieldOrNested(name: bytes, ct: Option<bytes>): (k: Kind)
    ensures k.Nested? ==> k.inner.mixed
  {
    if ct.Some? && MULTIPART_MIXED <= ct.value then
      match BoundaryOf(ct.value)
      case Found(token) => Nested(Entity(token, true), name)
      case OutOfBounds => Undefined
      case _ => Wrong
    else Plain(Some(name))
  }

  /** Where a parser stands between two calls. */
  datatype State =
    | AtInit(pname: Option<bytes>)
    | AtNextLine(pname: Option<bytes>, got: bytes)
    | AtHeader(pname: Option<bytes>, info: seq<Headers.Field>)
    | AtPart(pname: Option<bytes>, info: seq<Headers.Field>)
    | InField(pname: Option<bytes>, info: seq<Headers.Field>, got: bytes)
    | InUpload(pname: Option<bytes>, name: bytes, filename: bytes, info: seq<Headers.Field>, got: bytes)
    | InNested(pname: Option<bytes>, inner: Entity, state: State)
    | Over
    | Broken

  /** Done: the closing delimiter was read, and `rest` is the epilogue. Fail: an error. `bodiless` tells whether
      some part had no body at all. Open: the stream ends first. Vague: outside what the library
      reads the same way from every cut. */
  datatype Outcome =
    | Done(table: seq<Param>, rest: bytes, bodiless: bool)
    | Fail(table: seq<Param>, bodiless: bool)
    | Open
    | Vague

  function Mark(o: Outcome, bodiless: bool): Outcome {
    if o.Done? || o.Fail? then o.(bodiless := o.bodiless || bodiless) else o
  }

  /** The first '-' at or behind i. */
  function DashAt(s: bytes, i: nat): (j: nat)
    requires i <= |s|
    ensures i <= j <= |s| && (j < |s| ==> s[j] == DASH) && forall k :: i <= k < j ==> s[k] != DASH
    decreases |s| - i
  {
    if i == |s| || s[i] == DASH then i else DashAt(s, i + 1)
  }

  datatype Cutting = Cutting(before: bytes, behind: bytes) | NoCut

  /** The stream in front of and behind the first occurrence of p. */
  function CutAtFirst(p: bytes, s: bytes): (c: Cutting)
    ensures c.Cutting? ==> |c.before| + |p| + |c.behind| == |s|
  {
    var i := FirstAgree(p, s, 0);
    if i + |p| <= |s| then Cutting(s[..i], s[i + |p|..]) else NoCut
  }

  function Weight(st: State): nat {
    match st
    case AtNextLine(_, _) => 1
    case AtHeader(_, _) => 2
    case AtPart(_, _) => 2
    case InNested(_, _, state) => Weight(state)
    case _ => 0
  }

  /** Nested entities do not nest further. */
  predicate Fits(e: Entity, st: State) {
    st.InNested? ==> !e.mixed && st.inner.mixed && !st.state.InNested?
  }

  function Level(e: Entity): nat { if e.mixed then 0 else 1 }

  /** Read the stream s from state st on, with the parameters in t read before. */
  function Run(e: Entity, st: State, t: seq<Param>, s: bytes): (o: Outcome)
    requires Fits(e, st)
    ensures o.Done? ==> |o.rest| <= |s| + Weight(st)
    decreases Level(e), |s| + Weight(st), 9
  {
    if CR in e.token && !st.Over? && !st.Broken? then Vague else
    match st
    case AtInit(pname) => RunInit(e, pname, t, s)
    case AtNextLine(pname, got) => RunNextLine(e, pname, got, t, s)
    case AtHeader(pname, info) => RunHeader(e, pname, info, t, s)
    case AtPart(pname, info) => RunPart(e, pname, info, t, s)
    case InField(pname, info, got) => RunField(e, pname, info, got, t, s)
    case InUpload(pname, name, filename, info, got) => RunUpload(e, pname, name, filename, info, got, t, s)
    case InNested(pname, inner, state) => RunNested(e, pname, inner, state, t, s)
    case Over => Done(t, s, false)
    case Broken => Fail(t, false)
  }

  /** A preamble without '-', and the first delimiter. */
  function RunInit(e: Entity, pname: Option<bytes>, t: seq<Param>, s: bytes): (o: Outcome)
    ensures o.Done? ==> |o.rest| <= |s|
    decreases Level(e), |s|, 1
  {
    var i := DashAt(s, 0);
    if CR in e.token then Vague
    else if e.Dash() <= s[i..] then RunNextLine(e, pname, [], t, s[i + |e.Dash()|..])
    else if s[i..] <= e.Dash() then Open
    else Vague
  }

  /** The end of a delimiter line: nothing more before CRLF and a part follows, else it is over. */
  function RunNextLine(e: Entity, pname: Option<bytes>, got: bytes, t: seq<Param>, s: bytes): (o: Outcome)
    ensures o.Done? ==> |o.rest| <= |s| + 1
    decreases Level(e), |s| + 1, 1
  {
    match CutAtFirst(CRLF, s)
    case NoCut => Open
    case Cutting(before, behind) =>
      if got + before != [] then Done(t, behind, false) else RunHeader(e, pname, [], t, behind)
  }

  function RunHeader(e: Entity, pname: Option<bytes>, info: seq<Headers.Field>, t: seq<Param>, s: bytes): (o: Outcome)
    ensures o.Done? ==> |o.rest| <= |s| + 2
    decreases Level(e), |s| + 2, 6
  {
    match ReadBlock(info, s)
    case Complete(fields, rest) => RunPart(e, pname, fields, t, rest)
    case Bad(_) => Fail(t, false)
    case Unknown => Vague
    case Partial => Open
  }

  /** The body of a part whose header is read. A part may lack a body: then the CRLF in front of
      the next delimiter is the one that ended its header. */
  function RunPart(e: Entity, pname: Option<bytes>, info: seq<Headers.Field>, t: seq<Param>, s: bytes): (o: Outcome)
    ensures o.Done? ==> |o.rest| <= |s| + 2
    decreases Level(e), |s| + 2, 5
  {
    if s < e.Dash() then Open
    else
      var bodiless := e.Dash() <= s;
      Mark(RunKind(e, pname, info, KindOf(e, pname, info), t, if bodiless then CRLF + s else s), bodiless)
  }

  function RunKind(e: Entity, pname: Option<bytes>, info: seq<Headers.Field>, kind: Kind, t: seq<Param>,
      s: bytes): (o: Outcome)
    requires kind.Nested? ==> kind.inner.mixed && !e.mixed
    ensures o.Done? ==> |o.rest| <= |s|
    decreases Level(e), |s|, 4
  {
    match kind
    case Plain(name) => RunField(e, name, info, [], t, s)
    case File(name, filename) => RunUpload(e, pname, name, filename, info, [], t, s)
    case Nested(inner, name) => RunNested(e, pname, inner, AtInit(Some(name)), t, s)
    case Wrong => Fail(t, false)
    case Undefined => Vague
  }

  function RunField(e: Entity, name: Option<bytes>, info: seq<Headers.Field>, got: bytes, t: seq<Param>,
      s: bytes): (o: Outcome)
    ensures o.Done? ==> |o.rest| <= |s|
    decreases Level(e), |s|, 0
  {
    match CutAtFirst(e.Delimiter(), s)
    case NoCut => Open
    case Cutting(before, behind) =>
      if name.None? then Vague
      else RunNextLine(e, None, [], t + [Param(name.value, got + before, None, info)], behind)
  }

  function RunUpload(e: Entity, pname: Option<bytes>, name: bytes, filename: bytes, info: seq<Headers.Field>,
      got: bytes,
                     t: seq<Param>, s: bytes): (o: Outcome)
    ensures o.Done? ==> |o.rest| <= |s|
    decreases Level(e), |s|, 0
  {
    match CutAtFirst(e.Delimiter(), s)
    case NoCut => Open
    case Cutting(before, behind) =>
      RunNextLine(e, pname, [], t + [Param(name, filename, Some(got + before), info)], behind)
  }

  /** A nested entity, then the delimiter of the enclosing one. */
  function RunNested(e: Entity, pname: Option<bytes>, inner: Entity, state: State, t: seq<Param>,
      s: bytes): (o: Outcome)
    requires !e.mixed && inner.mixed && !state.InNested?
    ensures o.Done? ==> |o.rest| <= |s| + Weight(state)
    decreases Level(e), |s| + Weight(state), 3
  {
    match Run(inner, state, t, s)
    case Done(t', rest, bodiless) => Mark(RunInit(e, pname, t', rest), bodiless)
    case Fail(t', bodiless) => Fail(t', bodiless)
    case Open => Open
    case Vague => Vague
  }
}

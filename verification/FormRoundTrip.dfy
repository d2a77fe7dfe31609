/** Forms as browsers and mailers write them: fields, uploads, multipart/mixed lists of files
    (RFC 2388) and parts with a Content-ID (RFC 2387). */
module FormRoundTrip {
  import opened Bytes
  import opened Headers
  import opened HeaderRoundTrip
  import opened Attributes
  import opened MultipartSpec
  import opened MultipartRoundTrip

  /** The header of a part with a Content-Disposition: the lines around it, how its name is spelled, the
      attributes it lists, and perhaps one whose quote is never closed. A C string ends at a NUL: what
      stands behind one is not seen. */
  datatype Head = Head(before: seq<Printed>, key: bytes, gap: bytes, items: seq<Item>, loose: Option<Loose>,
                       unseen: bytes, bare: bool, after: seq<Printed>)
  {
    function Value(): bytes { ListThen(items, Tail()) }

    function Tail(): bytes {
      match loose
      case None => []
      case Some(l) => l.item.Open([DQUOTE] + l.text)
    }

    function Line(): Printed { Printed(Field(key, Value() + unseen), gap, bare) }

    function Lines(): seq<Printed> { before + ([Line()] + after) }

    /** What an attribute is found to be. */
    function Finds(name: bytes): Attr {
      if First(items, name).Found? || loose.None? then First(items, name) else Unterminated
    }

    function Name(): Attr { Finds(NAME) }
    function Filename(): Attr { Finds(FILENAME) }

    ghost predicate Legal() {
      && AllLegal(before) && AllLegal(after) && Get(Fields(before), CONTENT_DISPOSITION) == None
      && EqualNoCase(CString(key), CONTENT_DISPOSITION) && COLON !in key && LF !in key
      && (forall k :: 0 <= k < |gap| ==> IsBlank(gap[k]))
      && Listed(items, Tail()) && (loose.Some? ==> loose.value.Legal())
      && (unseen != [] ==> unseen[0] == NUL) && LF !in unseen && (bare ==> CR !in Value() + unseen)
    }

    /** No line calls the part a nested entity. */
    predicate Single() {
      var ct := Get(Fields(Lines()), CONTENT_TYPE);
      ct.Some? ==> !(MULTIPART_MIXED <= ct.value)
    }
  }

  /** An attribute whose value begins with a quote that is not closed. */
  datatype Loose = Loose(item: Item, text: bytes)
  {
    ghost predicate Legal() {
      item.Named() && Unclosed(text) && Lacks(item, NUL) && Lacks(item, LF) && NUL !in text && LF !in text
    }
  }

  /** Attributes an unfolded header line can list, the first of them behind some other text. */
  ghost predicate Listed(items: seq<Item>, tail: bytes) {
    && items != [] && Roomy(items, FILENAME) && Chained(items, tail)
    && (forall i :: 0 <= i < |items| ==> Lacks(items[i], NUL) && Lacks(items[i], LF))
    && items[0].sep != [] && !IsBlank(items[0].sep[0])
  }

  /** The first '=' has room for the name in front of it. */
  predicate Roomy(items: seq<Item>, name: bytes) {
    items != [] ==> |items[0].sep| + |items[0].name| + |items[0].pre| >= |name|
  }

  predicate Lacks(item: Item, c: byte) {
    c !in item.sep && c !in item.name && c !in item.pre && c !in item.post && c !in item.value
  }

  /** How a multipart/mixed type names its boundary. */
  datatype Mark = Mark(items: seq<Item>, token: bytes)
  {
    function Text(): bytes { MULTIPART_MIXED + ([SEMI] + List(items)) }

    ghost predicate Legal() {
      First(Visible(items), BOUNDARY) == Attr.Found(token) && Roomy(items, BOUNDARY) && Chained(items, [])
    }
  }

  /** A file of a list: one with a file name, or one with nothing but a Content-ID, which names it. */
  datatype File =
    | Named(head: Head, filename: bytes, content: bytes)
    | ById(lines: seq<Printed>, id: bytes, content: bytes)
  {
    function Lines(): seq<Printed> { if Named? then head.Lines() else lines }

    /** What it is in a list of that name. */
    function Read(name: bytes): Kind { if Named? then Kind.File(name, filename) else Kind.File(id, []) }

    function Says(name: bytes): Param {
      Param(if Named? then name else id, if Named? then filename else [], Some(content), Fields(Lines()))
    }
  }

  /** A part of a list of files that is no file. */
  datatype Note = Note(head: Head, body: bytes)

  datatype Entry =
    | Value(head: Head, name: bytes, value: bytes)
    | Upload(head: Head, name: bytes, filename: bytes, content: bytes)
    | Files(head: Head, name: bytes, mark: Mark, files: seq<File>, note: Option<Note>)
    | Related(lines: seq<Printed>, id: bytes, content: bytes)

  /** The parts of a list: files, and perhaps a note, which the name of the list then goes to. */
  function FileParts(files: seq<File>, note: Option<Note>): seq<Part> {
    if files != [] then [Text(files[0].Lines(), files[0].content)] + FileParts(files[1..], note)
    else if note.Some? then [Text(note.value.head.Lines(), note.value.body)]
    else []
  }

  function EntryPart(x: Entry): Part {
    match x
    case Value(head, _, value) => Text(head.Lines(), value)
    case Upload(head, _, _, content) => Text(head.Lines(), content)
    case Files(head, _, mark, files, note) =>
      Group(head.Lines(), Entity(mark.token, true), FileParts(files, note), [])
    case Related(lines, _, content) => Text(lines, content)
  }

  function Parts(form: seq<Entry>): seq<Part> {
    if form == [] then [] else [EntryPart(form[0])] + Parts(form[1..])
  }

  /** What the form says. */
  function FileParams(name: bytes, files: seq<File>, note: Option<Note>): seq<Param> {
    if files != [] then [files[0].Says(name)] + FileParams(name, files[1..], note)
    else if note.Some? then [Param(name, note.value.body, None, Fields(note.value.head.Lines()))]
    else []
  }

  function EntryParams(x: Entry): seq<Param> {
    match x
    case Value(head, name, value) => [Param(name, value, None, Fields(head.Lines()))]
    case Upload(head, name, filename, content) => [Param(name, filename, Some(content), Fields(head.Lines()))]
    case Files(_, name, _, files, note) => FileParams(name, files, note)
    case Related(lines, id, content) => [Param(id, [], Some(content), Fields(lines))]
  }

  function Says(form: seq<Entry>): seq<Param> {
    if form == [] then [] else EntryParams(form[0]) + Says(form[1..])
  }

  /** A file in a list that the delimiters of the list leave alone. */
  ghost predicate LegalFile(token: bytes, f: File) {
    && Plainly(Entity(token, true), f.content)
    && match f
       case Named(head, filename, _) => head.Legal() && head.Filename() == Attr.Found(filename)
       case ById(lines, id, _) => Attached(lines, id)
  }

  /** A header with a Content-ID and no disposition. */
  ghost predicate Attached(lines: seq<Printed>, id: bytes) {
    && AllLegal(lines) && Get(Fields(lines), CONTENT_DISPOSITION) == None
    && Get(Fields(lines), CONTENT_ID) == Some(id)
  }

  ghost predicate LegalNote(token: bytes, note: Option<Note>) {
    note.Some? ==>
      && note.value.head.Legal() && !note.value.head.Filename().Found?
      && Plainly(Entity(token, true), note.value.body)
  }

  /** What a client must see to: headers that say what the entry is, and no delimiter in the data. */
  ghost predicate Legal(token: bytes, x: Entry) {
    match x
    case Value(head, name, value) =>
      && head.Legal() && head.Name() == Attr.Found(name) && !head.Filename().Found? && head.Single()
      && Plainly(Entity(token, false), value)
    case Upload(head, name, filename, content) =>
      && head.Legal() && head.Name() == Attr.Found(name) && head.Filename() == Attr.Found(filename)
      && Plainly(Entity(token, false), content)
    case Files(head, name, mark, files, note) =>
      && head.Legal() && head.Name() == Attr.Found(name) && !head.Filename().Found?
      && Get(Fields(head.Lines()), CONTENT_TYPE) == Some(mark.Text()) && mark.Legal()
      && CR !in mark.token && !(token <= mark.token + DASHES)
      && LegalNote(mark.token, note) && forall i :: 0 <= i < |files| ==> LegalFile(mark.token, files[i])
    case Related(lines, id, content) =>
      Attached(lines, id) && Plainly(Entity(token, false), content)
  }

  /* ---- What the headers make of the parts ---- */

  lemma Names()
    ensures |NAME| == 4 && |FILENAME| == 8 && |BOUNDARY| == 8
    ensures Tokens(NAME) && Tokens(FILENAME) && Tokens(BOUNDARY)
  {
    hide Tokens;
    LowerTokens(NAME);
    LowerTokens(FILENAME);
    LowerTokens(BOUNDARY);
  }

  lemma LowerTokens(b: bytes)
    requires b != [] && forall i :: 0 <= i < |b| ==> IsLower(b[i])
    ensures Tokens(b)
  {
  }

  /** Letters and dashes, which is what header names are made of here, in whatever case. */
  predicate Plainest(b: bytes) { forall i :: 0 <= i < |b| ==> IsLower(ToLower(b[i])) || b[i] == DASH }

  lemma KeyIsPlain(key: bytes)
    requires EqualNoCase(key, CONTENT_DISPOSITION)
    ensures key != [] && Plainest(key)
  {
    assert |CONTENT_DISPOSITION| == 19 && Plainest(CONTENT_DISPOSITION);
    forall i | 0 <= i < |key|
      ensures IsLower(ToLower(key[i])) || key[i] == DASH
    {
      assert ToLower(key[i]) == ToLower(CONTENT_DISPOSITION[i]);
    }
  }

  lemma PlainKey(key: bytes)
    requires CString(key) != [] && Plainest(CString(key))
    ensures key != [] && !IsBlank(key[0])
  {
    var c := CString(key)[0];
    assert c == key[0] && (IsLower(ToLower(c)) || c == DASH);
  }

  /** The text of attributes holds none of the bytes they lack. */
  lemma {:induction false} CleanList(items: seq<Item>, tail: bytes, c: byte)
    requires c !in tail && forall i :: 0 <= i < |items| ==> Lacks(items[i], c)
    requires c != EQUALS && c != DQUOTE
    ensures c !in ListThen(items, tail)
  {
    if items != [] {
      assert Lacks(items[0], c);
      CleanList(items[1..], tail, c);
      CleanOpen(items[0], c, items[0].Shown() + ListThen(items[1..], tail));
    }
  }

  lemma CleanOpen(item: Item, c: byte, rest: bytes)
    requires Lacks(item, c) && c != EQUALS && c !in rest
    ensures c !in item.Open(rest)
  {
    var s2 := [EQUALS] + (item.post + rest);
    assert c !in s2;
  }

  lemma CleanTail(head: Head, c: byte)
    requires head.loose.Some? ==> Lacks(head.loose.value.item, c) && c !in head.loose.value.text
    requires c != EQUALS && c != DQUOTE
    ensures c !in head.Tail()
  {
    if head.loose.Some? { CleanOpen(head.loose.value.item, c, [DQUOTE] + head.loose.value.text); }
  }

  lemma ListStart(items: seq<Item>, tail: bytes)
    requires items != [] && items[0].sep != []
    ensures ListThen(items, tail) != [] && ListThen(items, tail)[0] == items[0].sep[0]
  {
  }

  lemma LineLegal(head: Head)
    requires head.Legal()
    ensures head.Line().Legal() && CString(head.Value() + head.unseen) == head.Value()
  {
    hide Plainest, ListThen, Lacks, Chained, Head.Single, Unclosed, Item.Named, Head.Tail, CString;
    KeyIsPlain(CString(head.key));
    PlainKey(head.key);
    CleanTail(head, NUL);
    CleanTail(head, LF);
    CleanList(head.items, head.Tail(), NUL);
    CleanList(head.items, head.Tail(), LF);
    ListStart(head.items, head.Tail());
    Unseen(head.Value(), head.unseen);
  }

  /** A C string ends in front of a NUL. */
  lemma {:induction false} Unseen(v: bytes, more: bytes)
    requires NUL !in v && (more != [] ==> more[0] == NUL)
    ensures CString(v + more) == v
  {
    if v == [] {
      assert v + more == more;
    } else {
      assert (v + more)[1..] == v[1..] + more;
      Unseen(v[1..], more);
    }
  }

  lemma {:induction false} FieldsAppend(a: seq<Printed>, b: seq<Printed>)
    ensures Fields(a + b) == Fields(a) + Fields(b)
  {
    if a == [] {
      assert a + b == b;
    } else {
      assert (a + b)[1..] == a[1..] + b;
      FieldsAppend(a[1..], b);
    }
  }

  lemma {:induction false} GetBehind(a: seq<Field>, b: seq<Field>, key: bytes)
    requires Get(a, key) == None
    ensures Get(a + b, key) == Get(b, key)
  {
    if a == [] {
      assert a + b == b;
    } else {
      assert (a + b)[1..] == a[1..] + b;
      GetBehind(a[1..], b, key);
    }
  }

  /** The disposition is found among the other lines. */
  lemma GetDisposition(head: Head)
    requires head.Legal()
    ensures AllLegal(head.Lines()) && Get(Fields(head.Lines()), CONTENT_DISPOSITION) == Some(head.Value())
  {
    hide Head.Value, Listed, EqualNoCase, Head.Single;
    LineLegal(head);
    FieldsAppend(head.before, [head.Line()] + head.after);
    FieldsAppend([head.Line()], head.after);
    assert [head.Line()][1..] == [];
    GetBehind(Fields(head.before), Fields([head.Line()] + head.after), CONTENT_DISPOSITION);
  }

  lemma GetAttributes(head: Head)
    requires head.Legal()
    ensures Attribute(head.Value(), NAME) == head.Name() && Attribute(head.Value(), FILENAME) == head.Filename()
    ensures !head.Name().OutOfBounds? && !head.Filename().OutOfBounds?
  {
    hide Ascii, Attribute, Tokens, EqualNoCase, ListThen, Chained, Lacks, Head.Single, Head.Finds;
    Names();
    GetAttribute(head, NAME);
    GetAttribute(head, FILENAME);
  }

  lemma GetAttribute(head: Head, name: bytes)
    requires head.Legal() && Tokens(name) && Roomy(head.items, name)
    ensures Attribute(head.Value(), name) == head.Finds(name) && !head.Finds(name).OutOfBounds?
  {
    hide Ascii, Attribute, Tokens, EqualNoCase, ListThen, Chained, Lacks, Head.Single, Unclosed, Item.Named;
    FirstKinds(head.items, name);
    if head.loose.None? {
      AttributeOfList(head.items, name);
    } else {
      UnclosedQuote(head.items, head.loose.value.item, head.loose.value.text, name);
    }
  }

  /** What is listed behind the first semicolon of a type is looked up. */
  lemma TypeAttribute(items: seq<Item>)
    requires Roomy(items, BOUNDARY) && Chained(items, [])
    ensures var ct := MULTIPART_MIXED + ([SEMI] + List(items));
      MULTIPART_MIXED <= ct && BoundaryOf(ct) == First(Visible(items), BOUNDARY)
  {
    hide Attribute, Ascii, Tokens, List, EqualNoCase, First, Chained;
    Names();
    MixedSemi();
    TypeText(MULTIPART_MIXED, List(items));
    AttributeOfList(items, BOUNDARY);
  }

  lemma MarkRead(mark: Mark)
    requires mark.Legal()
    ensures MULTIPART_MIXED <= mark.Text() && BoundaryOf(mark.Text()) == Attr.Found(mark.token)
  {
    hide Attribute, Ascii, List, First, Chained, Roomy, BoundaryOf;
    TypeAttribute(mark.items);
  }

  lemma MixedSemi()
    ensures SEMI !in MULTIPART_MIXED
  {
  }

  lemma TypeText(ct: bytes, list: bytes)
    requires SEMI !in ct
    ensures var s := ct + ([SEMI] + list); SemiAt(s, 0) == |ct| && s[|ct| + 1..] == list && ct <= s
  {
    var s := ct + ([SEMI] + list);
    assert forall k :: 0 <= k < |ct| ==> s[k] == ct[k];
    SemiIs(s, 0, |ct|);
  }

  lemma SemiIs(s: bytes, i: nat, j: nat)
    requires i <= j < |s| && s[j] == SEMI && forall k :: i <= k < j ==> s[k] != SEMI
    ensures SemiAt(s, i) == j
    decreases j - i
  {
    if i < j { SemiIs(s, i + 1, j); }
  }

  /** What the header of an entry is read as. */
  ghost function EntryKind(x: Entry): Kind {
    match x
    case Value(_, name, _) => Plain(Some(name))
    case Upload(_, name, filename, _) => Kind.File(name, filename)
    case Files(_, name, mark, _, _) => Nested(Entity(mark.token, true), name)
    case Related(_, id, _) => Kind.File(id, [])
  }

  lemma EntryRead(token: bytes, pname: Option<bytes>, x: Entry)
    requires Legal(token, x)
    ensures AllLegal(EntryPart(x).lines) && KindOf(Entity(token, false), pname, Fields(EntryPart(x).lines))
        == EntryKind(x)
  {
    hide Plainly, Attribute, Head.Value, Get, Head.Legal, Mark.Legal, First, Fields, Head.Lines, Mark.Text, AllLegal,
        BoundaryOf;
    if !x.Related? {
      GetDisposition(x.head);
      GetAttributes(x.head);
      if x.Files? { MarkRead(x.mark); }
    }
  }

  lemma FileRead(token: bytes, name: bytes, f: File)
    requires LegalFile(token, f)
    ensures AllLegal(f.Lines())
    ensures KindOf(Entity(token, true), Some(name), Fields(f.Lines())) == f.Read(name)
  {
    hide Plainly, Attribute, Head.Value, Get, Head.Legal, First, Fields, Head.Lines, AllLegal;
    if f.Named? {
      GetDisposition(f.head);
      GetAttributes(f.head);
    }
  }

  lemma NoteRead(token: bytes, name: bytes, note: Note)
    requires LegalNote(token, Some(note))
    ensures AllLegal(note.head.Lines())
    ensures KindOf(Entity(token, true), Some(name), Fields(note.head.Lines())) == Plain(Some(name))
  {
    hide Plainly, Attribute, Head.Value, Get, Head.Legal, First, Fields, Head.Lines, AllLegal;
    GetDisposition(note.head);
    GetAttributes(note.head);
  }

  /** The files of a list can be printed, and read as uploads of its name, and a note as a field. */
  lemma {:induction false} FilesGood(token: bytes, name: bytes, files: seq<File>, note: Option<Note>)
    requires CR !in token && LegalNote(token, note) && forall i :: 0 <= i < |files| ==> LegalFile(token, files[i])
    ensures var e, ps := Entity(token, true), FileParts(files, note);
      Good(e, Some(name), ps) && Table(e, Some(name), ps) == FileParams(name, files, note) && !HasBare(ps)
  {
    hide KindOf, Plainly, Head.Legal, Head.Lines, First, Fields, AllLegal;
    var ps := FileParts(files, note);
    if files != [] {
      var f := files[0];
      assert LegalFile(token, f);
      FilesGood(token, name, files[1..], note);
      assert ps[0] == Text(f.Lines(), f.content) && ps[1..] == FileParts(files[1..], note);
      FileRead(token, name, f);
    } else if note.Some? {
      NoteRead(token, name, note.value);
      assert ps[1..] == [];
    }
  }

  /** A legal form can be printed, and its parameters are what it says. */
  lemma {:induction false} FormGood(token: bytes, pname: Option<bytes>, form: seq<Entry>)
    requires CR !in token && forall i :: 0 <= i < |form| ==> Legal(token, form[i])
    ensures var e, ps := Entity(token, false), Parts(form);
      Good(e, pname, ps) && Table(e, pname, ps) == Says(form) && !HasBare(ps)
    decreases form
  {
    hide KindOf, Plainly, Head.Legal, Head.Lines, Mark.Legal, Mark.Text, First, Fields, AllLegal, Get;
    if form != [] {
      var x, ps := form[0], Parts(form);
      assert Legal(token, x);
      EntryRead(token, pname, x);
      assert ps[0] == EntryPart(x) && ps[1..] == Parts(form[1..]);
      FormGood(token, if EntryKind(x).Plain? then None else pname, form[1..]);
      if x.Files? { FilesGood(x.mark.token, x.name, x.files, x.note); }
    }
  }

  /** The bytes of a form. */
  function Print(token: bytes, pre: bytes, form: seq<Entry>, end: bytes): bytes {
    Form(Entity(token, false), pre, Parts(form), end)
  }

  /** Whatever the names, values, contents and further header lines, a printed form is read as what
      it says. */
  lemma ReadPrint(token: bytes, pre: bytes, form: seq<Entry>, end: bytes)
    requires CR !in token && DASH !in pre && forall i :: 0 <= i < |form| ==> Legal(token, form[i])
    ensures Run(Entity(token, false), AtInit(None), [], Print(token, pre, form, end)) == Done(Says(form), end, false)
  {
    FormGood(token, None, form);
    ReadForm(Entity(token, false), None, pre, Parts(form), end);
  }

  /* ---- Headers that are refused ---- */

  /** A part of form-data that is refused: a disposition without a name, a multipart/mixed type without
      a boundary, neither a disposition nor an id, or a line without a name; and a list of files with such
      a part behind some of them. */
  datatype Refused =
    | Unnamed(head: Head)
    | Unbounded(head: Head, name: bytes, items: Option<seq<Item>>)
    | Unknown(lines: seq<Printed>)
    | Nameless(lines: seq<Printed>, gap: bytes, text: bytes)
    | InList(head: Head, name: bytes, mark: Mark, files: seq<File>, part: InPart)
  {
    function Lines(): seq<Printed> { if Unknown? || Nameless? then lines else head.Lines() }

    ghost predicate Legal(token: bytes) {
      match this
      case Unnamed(head) => head.Legal() && !head.Name().Found?
      case Unbounded(head, name, items) =>
        && head.Legal() && head.Name() == Attr.Found(name) && !head.Filename().Found?
        && Get(Fields(head.Lines()), CONTENT_TYPE) == Some(NoBoundary(items))
        && Unmarked(items)
      case Unknown(lines) => Anonymous(lines)
      case Nameless(lines, gap, text) => NoName(lines, gap, text)
      case InList(head, name, mark, files, part) =>
        ListLegal(token, head, name, mark, files)
        && if part.Nobody? then Anonymous(part.lines) else NoName(part.lines, part.gap, part.text)
    }

    /** What stands behind the delimiter, up to s. */
    function Behind(s: bytes): bytes {
      match this
      case Nameless(lines, gap, text) => CRLF + ColonLine(lines, gap, text, s)
      case InList(_, _, mark, files, part) =>
        var inner := Entity(mark.token, true);
        CRLF + HeaderBlock(Lines(), inner.Dash() + Before(inner, FileParts(files, None), part.Behind(s)))
      case _ => CRLF + HeaderBlock(Lines(), s)
    }

    /** What of it is kept. */
    function Kept(): seq<Param> { if InList? then FileParams(name, files, None) else [] }

    /** The delimiter that the part has to end with. */
    function Dash(token: bytes): bytes { DASHES + if InList? then mark.token else token }

    /** The next delimiter follows the header at once. */
    predicate AtOnce(token: bytes, s: bytes) {
      !Nameless? && !(InList? && part.Colon?) && Dash(token) <= s
    }

    /** What follows can be told from a delimiter, or from more of the line. */
    predicate Apart(token: bytes, s: bytes) {
      if Nameless? || (InList? && part.Colon?) then s != [] && !IsBlank(s[0]) else !(s < Dash(token))
    }
  }

  /** The part of a list that is refused. */
  datatype InPart = Nobody(lines: seq<Printed>) | Colon(lines: seq<Printed>, gap: bytes, text: bytes)
  {
    function Behind(s: bytes): bytes {
      CRLF + if Nobody? then HeaderBlock(lines, s) else ColonLine(lines, gap, text, s)
    }
  }

  ghost predicate ListLegal(token: bytes, head: Head, name: bytes, mark: Mark, files: seq<File>) {
    Legal(token, Files(head, name, mark, files, None))
  }

  ghost predicate Anonymous(lines: seq<Printed>) {
    AllLegal(lines) && Get(Fields(lines), CONTENT_DISPOSITION) == None && Get(Fields(lines), CONTENT_ID) == None
  }

  ghost predicate NoName(lines: seq<Printed>, gap: bytes, text: bytes) {
    && AllLegal(lines) && LF !in text && text != [] && !IsBlank(text[0])
    && forall k :: 0 <= k < |gap| ==> IsBlank(gap[k])
  }

  /** Lines, and one that begins with its colon. */
  function ColonLine(lines: seq<Printed>, gap: bytes, text: bytes, rest: bytes): bytes {
    LinesThen(lines, [COLON] + (gap + (text + ([LF] + rest))))
  }

  /** Attributes, perhaps, but no boundary among them. */
  ghost predicate Unmarked(items: Option<seq<Item>>) {
    items.Some? ==>
      var v := items.value;
      First(Visible(v), BOUNDARY) == Missing && Roomy(v, BOUNDARY) && Chained(v, [])
  }

  function NoBoundary(items: Option<seq<Item>>): bytes {
    MULTIPART_MIXED + if items.Some? then [SEMI] + List(items.value) else []
  }

  /** The kind of a header that says too little. */
  lemma RefusedKind(token: bytes, pname: Option<bytes>, r: Refused)
    requires (r.Unnamed? || r.Unbounded? || r.Unknown?) && r.Legal(token)
    ensures AllLegal(r.Lines()) && KindOf(Entity(token, false), pname, Fields(r.Lines())) == Wrong
  {
    hide Attribute, List, Head.Value, Get, Head.Legal, First, Fields, Head.Lines, AllLegal, BoundaryOf, Roomy, Chained;
    if !r.Unknown? {
      GetDisposition(r.head);
      GetAttributes(r.head);
      if r.Unbounded? { NoBoundaryRead(r.items); }
    }
  }

  lemma NoBoundaryRead(items: Option<seq<Item>>)
    requires Unmarked(items)
    ensures MULTIPART_MIXED <= NoBoundary(items) && BoundaryOf(NoBoundary(items)) == Missing
  {
    hide Attribute, Ascii, List, First, Chained, Roomy;
    if items.Some? {
      TypeAttribute(items.value);
    } else {
      MixedSemi();
      assert MULTIPART_MIXED + [] == MULTIPART_MIXED;
      SemiNone(MULTIPART_MIXED, 0);
    }
  }

  lemma SemiNone(s: bytes, i: nat)
    requires i <= |s| && SEMI !in s
    ensures SemiAt(s, i) == |s|
    decreases |s| - i
  {
    if i < |s| { SemiNone(s, i + 1); }
  }

  lemma ColonFails(e: Entity, pname: Option<bytes>, t: seq<Param>, lines: seq<Printed>, gap: bytes, text: bytes,
                   s: bytes)
    requires NoName(lines, gap, text) && s != [] && !IsBlank(s[0])
    ensures RunNextLine(e, pname, [], t, CRLF + ColonLine(lines, gap, text, s)) == Fail(t, false)
  {
    hide RunNextLine, ReadBlock, LinesThen, Fields;
    ReadNameless(lines, gap, text, s, []);
    BadHeader(e, pname, t, ColonLine(lines, gap, text, s));
  }

  lemma AnonymousFails(e: Entity, pname: Option<bytes>, t: seq<Param>, lines: seq<Printed>, s: bytes)
    requires Anonymous(lines) && !(s < e.Dash())
    ensures RunNextLine(e, pname, [], t, CRLF + HeaderBlock(lines, s)) == Fail(t, e.Dash() <= s)
  {
    hide RunNextLine, AllLegal, Get, Fields, HeaderBlock;
    WrongPart(e, pname, lines, t, s);
  }

  /** Such a part ends the reading. */
  lemma RefusedFails(token: bytes, pname: Option<bytes>, t: seq<Param>, r: Refused, s: bytes)
    requires CR !in token && r.Legal(token) && r.Apart(token, s)
    ensures RunNextLine(Entity(token, false), pname, [], t, r.Behind(s)) == Fail(t + r.Kept(), r.AtOnce(token, s))
  {
    hide RunNextLine, KindOf, HeaderBlock, NoName, Anonymous, Head.Legal, Fields, ListLegal, ColonLine, Get, First;
    var e := Entity(token, false);
    assert t + [] == t;
    if r.Nameless? {
      ColonFails(e, pname, t, r.lines, r.gap, r.text, s);
    } else if r.InList? {
      ListFails(token, pname, t, r, s);
    } else {
      RefusedKind(token, pname, r);
      WrongPart(e, pname, r.Lines(), t, s);
    }
  }

  lemma ListFails(token: bytes, pname: Option<bytes>, t: seq<Param>, r: Refused, s: bytes)
    requires CR !in token && r.InList? && r.Legal(token) && r.Apart(token, s)
    ensures RunNextLine(Entity(token, false), pname, [], t, r.Behind(s)) == Fail(t + r.Kept(), r.AtOnce(token, s))
  {
    hide RunNextLine, KindOf, HeaderBlock, NoName, Anonymous, Head.Legal, Fields, ColonLine, Get, First, Head.Lines,
        Mark.Legal, Mark.Text, AllLegal, Before, Good, Table, HasBare, NameAfter, LegalFile, Head.Name, Head.Filename;
    var e, inner, part := Entity(token, false), Entity(r.mark.token, true), r.part;
    var ps, x := FileParts(r.files, None), Files(r.head, r.name, r.mark, r.files, None);
    EntryRead(token, pname, x);
    FilesGood(r.mark.token, r.name, r.files, None);
    var now, left := t + r.Kept(), NameAfter(inner, Some(r.name), ps);
    if part.Nobody? {
      AnonymousFails(inner, left, now, part.lines, s);
    } else {
      ColonFails(inner, left, now, part.lines, part.gap, part.text, s);
    }
    GroupFails(e, pname, r.Lines(), t, inner, r.name, ps, part.Behind(s), now, r.AtOnce(token, s));
  }

  /** The bytes of a form up to a part that is refused, and what follows its header. */
  function PrintRefused(token: bytes, pre: bytes, form: seq<Entry>, r: Refused, s: bytes): bytes {
    var e := Entity(token, false);
    pre + (e.Dash() + Before(e, Parts(form), r.Behind(s)))
  }

  /** Such a part is an error, and what lies in front of it is kept. */
  lemma ReadRefused(token: bytes, pre: bytes, form: seq<Entry>, r: Refused, s: bytes)
    requires CR !in token && DASH !in pre && forall i :: 0 <= i < |form| ==> Legal(token, form[i])
    requires r.Legal(token) && r.Apart(token, s)
    ensures Run(Entity(token, false), AtInit(None), [], PrintRefused(token, pre, form, r, s))
            == Fail(Says(form) + r.Kept(), r.AtOnce(token, s))
  {
    hide Run, Legal, Before, Good, Table, HasBare, NameAfter, Says, Parts, RunNextLine, Refused.Legal, Refused.Apart,
        Refused.AtOnce, Refused.Behind, Refused.Kept;
    var e, ps, t := Entity(token, false), Parts(form), Says(form) + r.Kept();
    FormGood(token, None, form);
    RefusedFails(token, NameAfter(e, None, ps), Says(form), r, s);
    ReadFails(e, None, pre, ps, r.Behind(s), t, r.AtOnce(token, s));
  }
}

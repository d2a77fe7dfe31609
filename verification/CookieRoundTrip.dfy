/** Printed cookie headers are read back: section 4.3.4 of RFC 2109, and Netscape's cookies; and what
    is left of headers that go wrong. */
module CookieRoundTrip {
  import opened Bytes
  import opened Brigades
  import opened Statuses
  import opened Sequences
  import opened Attributes
  import opened Quoting
  import opened Cookies

  /** How a writer spaces a pair: blanks and '=' in front, words without '=' that are passed over, and
      blanks on either side of '='. */
  datatype Shape = Shape(lead: bytes, junk: bytes, pre: bytes, post: bytes)
  {
    function Around(name: bytes, t: bytes): bytes {
      lead + (junk + (name + (pre + ([EQUALS] + (post + t)))))
    }

    predicate Legal() {
      && (forall k :: 0 <= k < |lead| ==> Skipped(lead[k])) && Blank(pre) && Blank(post)
      && EQUALS !in junk && NUL !in junk && (junk != [] ==> !IsSpace(junk[0]) && IsSpace(junk[|junk| - 1]))
    }
  }

  /** What an attribute is; Version carries the text in front of its first digit. */
  datatype Kind =
    | Path | Domain | Port | Comment | CommentURL
    | Secure(on: bool)
    | Version(front: bytes, n: nat)
    | Ignored

  const A_DOMAIN := Ascii("domain")

  /** An attribute, with the ';' and blanks in front of it, and its name in the writer's spelling,
      perhaps behind a '-'. */
  datatype AttrText = AttrText(sep: bytes, shape: Shape, dash: bool, name: bytes, kind: Kind, value: bytes,
      quoted: bool)
  {
    function Label(): bytes { if dash then [DASH] + name else name }

    function Shown(): bytes { if quoted then Quote(value) else value }

    function Then(tail: bytes): bytes { sep + ([DOLLAR] + shape.Around(Label(), Shown() + tail)) }

    function On(c: Cookie): Cookie {
      match kind
      case Path => c.(path := Some(value))
      case Domain => c.(domain := Some(value))
      case Port => c.(port := Some(value))
      case Comment => c.(comment := Some(value))
      case CommentURL => c.(commentURL := Some(value))
      case Secure(on) => c.(secure := on)
      case Version(_, n) => c.(version := n)
      case Ignored => c
    }

    ghost predicate Legal() {
      && Filler(sep) && shape.Legal() && NameLegal(Label()) && NUL !in value && (!quoted ==> BareValue(value))
      && |Label()| >= 2 && name != [] && name[0] != DASH && name[0] != DOLLAR && Named() && Valued()
    }

    /** The names of each kind: whole ones for path and port, beginnings for the others. */
    predicate Named()
      requires name != []
    {
      var first := ToLower(name[0]);
      match kind
      case Path => EqualNoCase(name, A_PATH)
      case Port => EqualNoCase(name, A_PORT)
      case Domain => first == 100
      case Comment => Starts(name, A_COMMENT) && !Starts(name, A_COMMENT_URL)
      case CommentURL => Starts(name, A_COMMENT_URL)
      case Secure(_) => first == 115
      case Version(_, _) => first == 118 && !EqualNoCase(name, A_VALUE)
      case Ignored =>
        EqualNoCase(name, A_VALUE)
        || first !in [118, 100, 112, 99, 115]
        || (first == 112 && !EqualNoCase(name, A_PATH) && !EqualNoCase(name, A_PORT))
        || (first == 99 && !Starts(name, A_COMMENT))
    }

    /** A secure flag is off for no value, one that begins with 0, and any beginning of "off". */
    predicate Valued() {
      match kind
      case Secure(on) => on <==> value != [] && value[0] != 48 && !Starts(A_OFF, value)
      case Version(front, n) =>
        && n < 10 && (forall k :: 0 <= k < |front| ==> !IsDigit(front[k]))
        && |front| < |value| && value[..|front|] == front && value[|front|] == 48 + n
      case _ => true
    }
  }

  datatype CookieText = CookieText(sep: bytes, shape: Shape, name: bytes, raw: bytes, attrs: seq<AttrText>)
  {
    function Then(tail: bytes): bytes { sep + shape.Around(name, raw + AttrsText(attrs, tail)) }

    function Read(version: nat): Cookie { AllOn(attrs, MakeCookie(name, raw, version)) }

    /** The text is none that a separator, an attribute or another header begins with. */
    ghost predicate Legal() {
      && Filler(sep) && shape.Legal() && NameLegal(name) && RawLegal(raw)
      && Begins(shape.Around(name, []))
    }
  }

  /** Text that is taken for a pair. */
  predicate Begins(s: bytes) { s != [] && s[0] !in [SEMI, COMMA, DOLLAR] && !IsSpace(s[0]) }

  /** Cookies of one header; ',' begins another. One that begins with a version text, which is
      anything behind '$', is an RFC header, and only those may carry attributes. */
  datatype Group = Group(text: bytes, cookies: seq<CookieText>)
  {
    predicate Rfc() { text != [] }
    function Version(): nat { if Rfc() then RFC else NETSCAPE }

    /** The version text ends at ';', or with its header. */
    ghost predicate Legal(tail: bytes) {
      && CookiesFit(cookies, Version(), tail)
      && (Rfc() ==> VersionLegal(text) && EndsVersion(CookiesText(cookies, tail)))
    }
  }

  /** A '$', perhaps behind blanks, and then anything. */
  predicate VersionLegal(text: bytes) {
    && (forall k :: 0 <= k < |text| ==> text[k] !in [SEMI, COMMA, NUL])
    && exists j :: 0 <= j < |text| && text[j] == DOLLAR && Blank(text[..j])
  }

  predicate EndsVersion(s: bytes) { s == [] || s[0] == SEMI || s[0] == COMMA }

  predicate Filler(s: bytes) { forall i :: 0 <= i < |s| ==> s[i] == SEMI || IsSpace(s[i]) }

  predicate NameLegal(name: bytes) {
    name != [] && NUL !in name && forall i :: 0 <= i < |name| ==> !IsSpace(name[i]) && name[i] != EQUALS
  }

  /** A value between quotes, quotes and all. */
  predicate QuotedValue(v: bytes) { |v| >= 2 && v[0] == DQUOTE && v[|v| - 1] == DQUOTE && QuoteSafe(v[1..|v| - 1]) }

  predicate RawLegal(v: bytes) { NUL !in v && (BareValue(v) || QuotedValue(v)) }

  /** A value as written, and what may stand behind it. */
  predicate Fits(shown: bytes, tail: bytes) { (shown != [] && shown[0] == DQUOTE) || EndsBare(shown, tail) }

  ghost predicate AttrsFit(attrs: seq<AttrText>, tail: bytes) {
    attrs == []
    || (attrs[0].Legal() && Fits(attrs[0].Shown(), AttrsText(attrs[1..], tail)) && AttrsFit(attrs[1..], tail))
  }

  ghost predicate CookiesFit(cookies: seq<CookieText>, version: nat, tail: bytes) {
    cookies == []
    || (&& CookieFits(cookies[0], version, CookiesText(cookies[1..], tail))
        && CookiesFit(cookies[1..], version, tail))
  }

  ghost predicate CookieFits(x: CookieText, version: nat, tail: bytes) {
    && x.Legal() && (version == RFC || x.attrs == [])
    && Fits(x.raw, AttrsText(x.attrs, tail)) && AttrsFit(x.attrs, tail)
  }

  function AttrsText(attrs: seq<AttrText>, tail: bytes): bytes {
    if attrs == [] then tail else attrs[0].Then(AttrsText(attrs[1..], tail))
  }

  function AllOn(attrs: seq<AttrText>, c: Cookie): Cookie {
    if attrs == [] then c else AllOn(attrs[1..], attrs[0].On(c))
  }

  function CookiesText(cookies: seq<CookieText>, tail: bytes): bytes {
    if cookies == [] then tail else cookies[0].Then(CookiesText(cookies[1..], tail))
  }

  function ReadAll(cookies: seq<CookieText>, version: nat): seq<Cookie> {
    if cookies == [] then [] else [cookies[0].Read(version)] + ReadAll(cookies[1..], version)
  }

  /** Headers, each with ',' behind it, and then `more`. */
  function HeadersThen(groups: seq<Group>, more: bytes): bytes {
    if groups == [] then more
    else groups[0].text + CookiesText(groups[0].cookies, [COMMA] + HeadersThen(groups[1..], more))
  }

  ghost predicate GroupsLegal(groups: seq<Group>, more: bytes) {
    groups == []
    || (groups[0].Legal([COMMA] + HeadersThen(groups[1..], more)) && GroupsLegal(groups[1..], more))
  }

  function AllCookies(groups: seq<Group>): seq<Cookie> {
    if groups == [] then [] else ReadAll(groups[0].cookies, groups[0].Version()) + AllCookies(groups[1..])
  }

  /* ---- One pair ---- */

  lemma PlainRead(h: bytes, name: bytes, v: nat, value: bytes, tail: bytes, unquote: bool)
    requires Suffix(h, v, value + tail) && BareValue(value) && EndsBare(value, tail)
    ensures v + |value| <= |h| && ReadValue(h, name, v, unquote) == Got(name, value, v + |value|)
    ensures v < |h| ==> !IsSpace(h[v])
  {
    SuffixPeel(h, v, value, tail);
    var e := v + |value|;
    assert forall k :: v <= k < e ==> h[k] == h[v..e][k - v];
    WordEndIs(h, v, e);
  }

  lemma QuotedPlace(h: bytes, v: nat, body: bytes, tail: bytes)
    requires Suffix(h, v, [DQUOTE] + (body + ([DQUOTE] + tail)))
    ensures var e := v + 1 + |body|;
            e < |h| && h[v] == DQUOTE && h[v + 1..e] == body && h[e] == DQUOTE
                && h[v..e + 1] == [DQUOTE] + (body + [DQUOTE])
  {
    SuffixPeel(h, v, [DQUOTE], body + ([DQUOTE] + tail));
    SuffixPeel(h, v + 1, body, [DQUOTE] + tail);
    var e := v + 1 + |body|;
    SuffixPeel(h, e, [DQUOTE], tail);
    assert h[v] == h[v..v + 1][0] && h[e] == h[e..e + 1][0];
    assert h[v..e + 1] == h[v..v + 1] + (h[v + 1..e] + h[e..e + 1]);
  }

  lemma QuotedRead(h: bytes, name: bytes, v: nat, e: nat, body: bytes, unquote: bool)
    requires v < e < |h| && h[v] == DQUOTE && e == v + 1 + |body| && h[v + 1..e] == body && h[e] == DQUOTE
    requires QuoteSafe(body)
    ensures ReadValue(h, name, v, unquote) == Got(name, if unquote then Unescape(body) else h[v..e + 1], e + 1)
    ensures !IsSpace(h[v])
  {
    hide *;
    QuotedEnds(h, v, e, body);
    ReadQuoted(h, name, v, e, unquote);
  }

  lemma QuotedEnds(h: bytes, v: nat, e: nat, body: bytes)
    requires v < e < |h| && h[v] == DQUOTE && e == v + 1 + |body| && h[v + 1..e] == body && h[e] == DQUOTE
    requires QuoteSafe(body)
    ensures QuoteEnd(h, v + 1) == e && !IsSpace(h[v])
  {
    hide QuoteEnd, QuoteSafe;
    QuoteEndSafe(h, v + 1, body);
  }

  lemma ReadQuoted(h: bytes, name: bytes, v: nat, e: nat, unquote: bool)
    requires v < e < |h| && h[v] == DQUOTE && QuoteEnd(h, v + 1) == e
    ensures ReadValue(h, name, v, unquote) == Got(name, if unquote then Unescape(h[v + 1..e]) else h[v..e + 1], e + 1)
  {
    hide Unescape, QuoteEnd;
  }

  /** Where the parts of a pair at p lie. */
  datatype Spot = Spot(a: nat, n: nat, ne: nat, eq: nat, v: nat)

  function SpotOf(p: nat, x: Shape, name: bytes): Spot {
    var a := p + |x.lead|;
    var n := a + |x.junk|;
    var ne := n + |name|;
    var eq := ne + |x.pre|;
    Spot(a, n, ne, eq, eq + 1 + |x.post|)
  }

  ghost predicate PairPlaced(h: bytes, p: nat, x: Shape, name: bytes) {
    var s := SpotOf(p, x, name);
    && s.v <= |h| && h[p..s.a] == x.lead && h[s.a..s.n] == x.junk && h[s.n..s.ne] == name && h[s.ne..s.eq] == x.pre
    && h[s.eq] == EQUALS && h[s.eq + 1..s.v] == x.post
  }

  lemma PlacePair(h: bytes, p: nat, x: Shape, name: bytes, t: bytes)
    requires Suffix(h, p, x.Around(name, t))
    ensures PairPlaced(h, p, x, name) && Suffix(h, SpotOf(p, x, name).v, t)
  {
    hide Suffix;
    var s := SpotOf(p, x, name);
    PlaceTwo(h, p, x.lead, x.junk, name + (x.pre + ([EQUALS] + (x.post + t))));
    PlaceTwo(h, s.n, name, x.pre, [EQUALS] + (x.post + t));
    PlaceTwo(h, s.eq, [EQUALS], x.post, t);
    assert h[s.eq] == h[s.eq..s.eq + 1][0];
    SuffixWithin(h, s.v, t);
  }

  lemma SuffixWithin(h: bytes, p: nat, t: bytes)
    requires Suffix(h, p, t)
    ensures p <= |h|
  {
  }

  /** What the scans of get_pair find. */
  lemma NameRead(h: bytes, p: nat, x: Shape, name: bytes)
    requires PairPlaced(h, p, x, name) && x.Legal() && NameLegal(name)
    ensures var s := SpotOf(p, x, name);
      && s.n < s.ne <= s.eq < |h| && SkipTo(h, p) == s.a && EqualsAt(h, s.a) == s.eq
      && NameLast(h, s.eq - 1, s.a) == s.ne - 1 && NameFirst(h, s.ne - 1, s.a) == s.n - 1
      && (s.v == |h| || !IsSpace(h[s.v]) ==> SpaceEnd(h, s.eq + 1) == s.v)
  {
    hide Shape.Legal, NameLegal, PairPlaced, SkipTo, EqualsAt, NameLast, NameFirst, SpaceEnd;
    var s := SpotOf(p, x, name);
    PlacedBytes(h, p, x, name);
    SkipToIs(h, p, s.a);
    EqualsAtIs(h, s.a, s.eq);
    NameLastIs(h, s.eq - 1, s.a, s.ne - 1);
    NameFirstIs(h, s.ne - 1, s.a, s.n);
    if s.v == |h| || !IsSpace(h[s.v]) { SpaceEndIs(h, s.eq + 1, s.v); }
  }

  /** What the parts are made of, byte by byte. */
  lemma PlacedBytes(h: bytes, p: nat, x: Shape, name: bytes)
    requires PairPlaced(h, p, x, name) && x.Legal() && NameLegal(name)
    ensures var s := SpotOf(p, x, name);
      && p <= s.a <= s.n < s.ne <= s.eq < s.v <= |h| && h[s.eq] == EQUALS
      && (forall k :: p <= k < s.a ==> Skipped(h[k])) && (forall k :: s.a <= k < s.eq ==> h[k] != EQUALS)
      && (forall k :: s.n <= k < s.ne ==> !IsSpace(h[k])) && (forall k :: s.ne <= k < s.eq ==> IsSpace(h[k]))
      && (forall k :: s.eq < k < s.v ==> IsSpace(h[k])) && !Skipped(h[s.a]) && (s.n == s.a || IsSpace(h[s.n - 1]))
  {
    var s := SpotOf(p, x, name);
    SliceBytes(h, p, s.a, x.lead);
    SliceBytes(h, s.a, s.n, x.junk);
    SliceBytes(h, s.n, s.ne, name);
    SliceBytes(h, s.ne, s.eq, x.pre);
    SliceBytes(h, s.eq + 1, s.v, x.post);
    assert x.junk != [] ==> h[s.n - 1] == x.junk[|x.junk| - 1] && h[s.a] == x.junk[0];
  }

  lemma SliceBytes(h: bytes, i: nat, j: nat, b: bytes)
    requires i <= j <= |h| && h[i..j] == b
    ensures forall k :: i <= k < j ==> h[k] == b[k - i]
  {
    assert forall k :: i <= k < j ==> h[k] == h[i..j][k - i];
  }

  lemma SkipToIs(h: bytes, i: nat, j: nat)
    requires i <= j < |h| && !Skipped(h[j]) && forall k :: i <= k < j ==> Skipped(h[k])
    ensures SkipTo(h, i) == j
    decreases j - i
  {
    if i < j { SkipToIs(h, i + 1, j); }
  }

  lemma NameLastIs(h: bytes, k: nat, low: nat, e: nat)
    requires low <= e <= k < |h| && !IsSpace(h[e]) && forall i :: e < i <= k ==> IsSpace(h[i])
    ensures NameLast(h, k, low) == e
    decreases k
  {
    if k > e { NameLastIs(h, k - 1, low, e); }
  }

  /** The name begins at b, behind a blank or at the very front. */
  lemma NameFirstIs(h: bytes, e: int, low: nat, b: nat)
    requires low <= b <= e + 1 <= |h| && (forall k :: b <= k <= e ==> !IsSpace(h[k])) && (b == low || IsSpace(h[b - 1]))
    ensures NameFirst(h, e, low) == b - 1
    decreases e + 1
  {
    if e >= b { NameFirstIs(h, e - 1, low, b); }
  }

  lemma PairIs(h: bytes, p: nat, x: Shape, name: bytes, unquote: bool)
    requires PairPlaced(h, p, x, name) && x.Legal() && NameLegal(name)
    requires var v := SpotOf(p, x, name).v; v == |h| || !IsSpace(h[v])
    ensures GetPair(h, p, unquote) == ReadValue(h, name, SpotOf(p, x, name).v, unquote)
  {
    hide ReadValue, SkipTo, EqualsAt, NameLast, NameFirst, SpaceEnd, Shape.Legal, NameLegal;
    NameRead(h, p, x, name);
  }

  lemma FitsFirst(raw: bytes, tail: bytes)
    requires Fits(raw, tail) && RawLegal(raw)
    ensures BareValue(raw) ==> EndsBare(raw, tail)
    ensures !BareValue(raw) ==> QuotedValue(raw) && raw == [DQUOTE] + (raw[1..|raw| - 1] + [DQUOTE])
  {
  }

  /** A printed pair of a cookie. */
  lemma CookiePair(h: bytes, p: nat, x: Shape, name: bytes, raw: bytes, tail: bytes)
    requires Suffix(h, p, x.Around(name, raw + tail)) && x.Legal() && NameLegal(name) && RawLegal(raw)
        && Fits(raw, tail)
    ensures |tail| <= |h| && Suffix(h, |h| - |tail|, tail)
    ensures p <= |h| && GetPair(h, p, false) == Got(name, raw, |h| - |tail|)
  {
    hide Suffix, GetPair, ReadValue, BareValue, QuoteSafe, EndsBare, Fits, PairPlaced, Shape.Legal, NameLegal;
    PlacePair(h, p, x, name, raw + tail);
    var v := SpotOf(p, x, name).v;
    SuffixPeel(h, v, raw, tail);
    FitsFirst(raw, tail);
    if BareValue(raw) {
      PlainRead(h, name, v, raw, tail, false);
    } else {
      var body := raw[1..|raw| - 1];
      SuffixSame(h, v, raw + tail, [DQUOTE] + (body + ([DQUOTE] + tail)));
      QuotedPlace(h, v, body, tail);
      QuotedRead(h, name, v, v + 1 + |body|, body, false);
    }
    PairIs(h, p, x, name, false);
  }

  /** A printed attribute: a quoted value comes back without its quotes and escapes. */
  lemma AttrPair(h: bytes, p: nat, x: Shape, name: bytes, value: bytes, quoted: bool, tail: bytes)
    requires var shown := if quoted then Quote(value) else value;
      Suffix(h, p, x.Around(name, shown + tail)) && Fits(shown, tail)
    requires x.Legal() && NameLegal(name) && NUL !in value && (!quoted ==> BareValue(value))
    ensures |tail| <= |h| && Suffix(h, |h| - |tail|, tail)
    ensures p <= |h| && GetPair(h, p, true) == Got(name, value, |h| - |tail|)
  {
    hide *;
    var q := if quoted then Quote(value) else value;
    PlacePair(h, p, x, name, q + tail);
    var v := SpotOf(p, x, name).v;
    SuffixPeel(h, v, q, tail);
    if value == [] || !quoted {
      PlainShown(value, quoted, tail);
      PlainRead(h, name, v, q, tail, true);
    } else {
      QuotedValueRead(h, name, v, value, tail);
    }
    PairEnds(h, p, x, name, true, value, |h| - |tail|);
  }

  lemma QuotedValueRead(h: bytes, name: bytes, v: nat, value: bytes, tail: bytes)
    requires Suffix(h, v, Quote(value) + tail) && value != [] && NUL !in value
    ensures v < |h| && ReadValue(h, name, v, true) == Got(name, value, v + |Quote(value)|) && !IsSpace(h[v])
  {
    hide *;
    var body := Escaped(value);
    EscapedIsClosed(value);
    UnescapeExact(value);
    QuoteText(value, tail);
    SuffixSame(h, v, Quote(value) + tail, [DQUOTE] + (body + ([DQUOTE] + tail)));
    QuotedPlace(h, v, body, tail);
    QuotedRead(h, name, v, v + 1 + |body|, body, true);
  }

  lemma QuoteText(value: bytes, tail: bytes)
    requires value != []
    ensures Quote(value) + tail == [DQUOTE] + (Escaped(value) + ([DQUOTE] + tail))
    ensures |Quote(value)| == |Escaped(value)| + 2
  {
    hide Escaped;
  }

  lemma PairEnds(h: bytes, p: nat, x: Shape, name: bytes, unquote: bool, value: bytes, end: nat)
    requires PairPlaced(h, p, x, name) && x.Legal() && NameLegal(name)
    requires var v := SpotOf(p, x, name).v;
      v <= |h| && (v == |h| || !IsSpace(h[v])) && ReadValue(h, name, v, unquote) == Got(name, value, end)
    ensures p <= |h| && GetPair(h, p, unquote) == Got(name, value, end)
  {
    hide ReadValue, GetPair, Shape.Legal, NameLegal;
    PairIs(h, p, x, name, unquote);
  }

  lemma PlainShown(value: bytes, quoted: bool, tail: bytes)
    requires value == [] || (!quoted && BareValue(value))
    requires Fits(if quoted then Quote(value) else value, tail)
    ensures var q := if quoted then Quote(value) else value; q == value && BareValue(q) && EndsBare(q, tail)
  {
  }

  /* ---- Attributes, cookies, headers ---- */

  lemma KnownNames()
    ensures |A_PATH| == 4 && |A_PORT| == 4 && |A_DOMAIN| == 6 && |A_VALUE| == 5 && |A_COMMENT| == 7
        && |A_COMMENT_URL| == 10
    ensures A_PATH[0] == 112 && A_PATH[1] == 97 && A_PORT[0] == 112 && A_PORT[1] == 111 && A_DOMAIN[0] == 100
    ensures A_VALUE[0] == 118 && A_COMMENT[0] == 99 && A_COMMENT_URL[0] == 99 && A_COMMENT_URL[..7] == A_COMMENT
  {
  }

  /** The name without its '-' is what is looked at. */
  lemma LabelRead(k: AttrText)
    requires k.Legal()
    ensures var l := k.Label(); |l| >= 2 && (if l[0] == DASH || l[0] == DOLLAR then l[1..] else l) == k.name
  {
  }

  /** Two names equal but for their case begin alike. */
  lemma SameStart(a: bytes, b: bytes)
    ensures EqualNoCase(a, b) && a != [] ==> ToLower(a[0]) == ToLower(b[0])
    ensures Starts(a, b) && b != [] ==> a != [] && ToLower(a[0]) == ToLower(b[0])
    ensures EqualNoCase(a, b) && |b| > 1 ==> |a| > 1 && ToLower(a[1]) == ToLower(b[1])
  {
  }

  /** apreq_cookie_attr does to the cookie what the kind says, or ignores the attribute. */
  lemma KindApplies(k: AttrText, c: Cookie)
    requires k.Legal()
    ensures var a := CookieAttr(c, k.Label(), k.value); a == Set(k.On(c)) || (a == Applied.Ignored && k.On(c) == c)
  {
    hide EqualNoCase, Starts, Ascii, NameLegal, Shape.Legal, Filler, BareValue, AttrText.Label;
    LabelRead(k);
    KnownNames();
    SameStart(k.name, A_PATH);
    SameStart(k.name, A_PORT);
    SameStart(k.name, A_VALUE);
    SameStart(k.name, A_COMMENT);
    SameStart(k.name, A_COMMENT_URL);
    StartsShorter(k.name);
    OffIs(k.value);
    if k.kind.Version? { DigitIs(k.value, |k.kind.front|); }
  }

  lemma StartsShorter(name: bytes)
    ensures Starts(name, A_COMMENT_URL) ==> Starts(name, A_COMMENT)
  {
    KnownNames();
    if Starts(name, A_COMMENT_URL) {
      forall i | 0 <= i < 7
        ensures ToLower(name[i]) == ToLower(A_COMMENT[i])
      {
        assert ToLower(name[..10][i]) == ToLower(A_COMMENT_URL[i]) && A_COMMENT_URL[..7][i] == A_COMMENT[i];
      }
    }
  }

  lemma OffIs(v: bytes)
    ensures IsOff(v) <==> Starts(A_OFF, v)
  {
    assert |A_OFF| == 3;
  }

  lemma DigitIs(v: bytes, j: nat)
    requires j < |v| && IsDigit(v[j]) && forall k :: 0 <= k < j ==> !IsDigit(v[..j][k])
    ensures DigitAt(v, 0) == j
  {
    assert forall k :: 0 <= k < j ==> v[..j][k] == v[k];
    DigitFrom(v, 0, j);
  }

  lemma DigitFrom(v: bytes, i: nat, j: nat)
    requires i <= j < |v| && IsDigit(v[j]) && forall k :: i <= k < j ==> !IsDigit(v[k])
    ensures DigitAt(v, i) == j
    decreases j - i
  {
    if i < j { DigitFrom(v, i + 1, j); }
  }

  /** The ';' and blanks at p. */
  lemma FillerRead(h: bytes, p: nat, sep: bytes, tail: bytes)
    requires Suffix(h, p, sep + tail) && Filler(sep) && (tail != [] ==> tail[0] != SEMI && !IsSpace(tail[0]))
    ensures p + |sep| + |tail| == |h| && SemiEnd(h, p) == p + |sep| && Suffix(h, p + |sep|, tail)
    ensures tail != [] ==> h[p + |sep|] == tail[0]
    ensures forall k :: p <= k < p + |sep| ==> h[k] == SEMI || IsSpace(h[k])
  {
    SuffixPeel(h, p, sep, tail);
    var e := p + |sep|;
    assert forall k :: p <= k < e ==> h[k] == h[p..e][k - p];
    SemiEndIs(h, p, e);
  }

  lemma SemiEndIs(h: bytes, i: nat, j: nat)
    requires i <= j <= |h| && (j < |h| ==> h[j] != SEMI && !IsSpace(h[j])) && forall k :: i <= k < j ==>
              h[k] == SEMI || IsSpace(h[k])
    ensures SemiEnd(h, i) == j
    decreases j - i
  {
    if i < j { SemiEndIs(h, i + 1, j); }
  }

  /** One attribute is put on the cookie it follows. */
  lemma AttrRead(h: bytes, p: nat, a: AttrText, tail: bytes, c: Cookie, jar: seq<Cookie>)
    requires Suffix(h, p, a.Then(tail)) && a.Legal() && Fits(a.Shown(), tail)
    ensures p <= |h| && |tail| <= |h| && Suffix(h, |h| - |tail|, tail)
    ensures ReadCookies(h, p, Some(c), RFC, jar) == ReadCookies(h, |h| - |tail|, Some(a.On(c)), RFC, jar)
  {
    hide Suffix, GetPair, CookieAttr, SemiEnd, Quote, ReadHeader, ReadCookies, NameLegal, Ascii, Shape.Legal,
        Shape.Around,
        Fits, AttrText.Named, AttrText.Valued, AttrText.On, BareValue;
    var t2 := a.shape.Around(a.Label(), a.Shown() + tail);
    FillerRead(h, p, a.sep, [DOLLAR] + t2);
    var d := p + |a.sep|;
    SuffixPeel(h, d, [DOLLAR], t2);
    KindApplies(a, c);
    AttrPair(h, d + 1, a.shape, a.Label(), a.value, a.quoted, tail);
    AttrStep(h, p, c, jar);
  }

  /** What an attribute at p does. */
  lemma AttrStep(h: bytes, p: nat, c: Cookie, jar: seq<Cookie>)
    requires p <= |h| && SemiEnd(h, p) < |h| && h[SemiEnd(h, p)] == DOLLAR
    ensures var g := GetPair(h, SemiEnd(h, p) + 1, true); var r := ReadCookies(h, p, Some(c), RFC, jar);
      if g.Failed? then r == Jar(jar, g.s)
      else
        var a := CookieAttr(c, g.name, g.value);
        && (a.Set? ==> r == ReadCookies(h, g.next, Some(a.c), RFC, jar))
        && (a.Ignored? ==> r == ReadCookies(h, g.next, Some(c), RFC, jar))
        && (a.Refused? ==> r == Jar(jar, a.s))
  {
    hide GetPair, CookieAttr, SemiEnd, ReadHeader;
  }

  lemma {:induction false} AttrsRead(h: bytes, p: nat, attrs: seq<AttrText>, tail: bytes, c: Cookie, jar: seq<Cookie>)
    requires Suffix(h, p, AttrsText(attrs, tail)) && AttrsFit(attrs, tail)
    ensures p <= |h| && |tail| <= |h| && Suffix(h, |h| - |tail|, tail)
    ensures ReadCookies(h, p, Some(c), RFC, jar) == ReadCookies(h, |h| - |tail|, Some(AllOn(attrs, c)), RFC, jar)
    decreases attrs
  {
    hide ReadCookies, Suffix, Fits, AttrText.Legal, AttrText.On, AttrText.Then, AttrText.Shown;
    if attrs == [] {
      SuffixFits(h, p, tail);
    } else {
      var behind := AttrsText(attrs[1..], tail);
      AttrRead(h, p, attrs[0], behind, c, jar);
      AttrsRead(h, |h| - |behind|, attrs[1..], tail, attrs[0].On(c), jar);
    }
  }

  /** What a cookie at p does. */
  lemma CookieStep(h: bytes, p: nat, c: Option<Cookie>, version: nat, jar: seq<Cookie>)
    requires p <= |h| && SemiEnd(h, p) < |h| && h[SemiEnd(h, p)] !in [COMMA, DOLLAR]
    ensures var g := GetPair(h, SemiEnd(h, p), false);
      ReadCookies(h, p, c, version, jar)
      == if g.Got? then ReadCookies(h, g.next, Some(MakeCookie(g.name, g.value, version)), version, Add(jar, c))
         else Jar(Add(jar, c), g.s)
  {
    hide GetPair, SemiEnd, ReadHeader;
  }

  lemma AroundStarts(x: Shape, name: bytes, t: bytes)
    requires Begins(x.Around(name, []))
    ensures var s := x.Around(name, t); s != [] && s[0] == x.Around(name, [])[0]
  {
  }

  /** One cookie with its attributes. */
  lemma CookieRead(h: bytes, p: nat, x: CookieText, tail: bytes, c: Option<Cookie>, version: nat, jar: seq<Cookie>)
    requires Suffix(h, p, x.Then(tail)) && CookieFits(x, version, tail)
    ensures p <= |h| && |tail| <= |h| && Suffix(h, |h| - |tail|, tail)
    ensures ReadCookies(h, p, c, version, jar)
            == ReadCookies(h, |h| - |tail|, Some(x.Read(version)), version, Add(jar, c))
  {
    hide Suffix, GetPair, SemiEnd, ReadHeader, ReadCookies, RawLegal, Fits, AllOn, AttrsText, Filler, NameLegal,
        AttrsFit,
        Shape.Legal, Shape.Around;
    var behind := AttrsText(x.attrs, tail);
    NoAttrs(x.attrs, tail, MakeCookie(x.name, x.raw, version));
    var t2 := x.shape.Around(x.name, x.raw + behind);
    AroundStarts(x.shape, x.name, x.raw + behind);
    FillerRead(h, p, x.sep, t2);
    CookiePair(h, p + |x.sep|, x.shape, x.name, x.raw, behind);
    CookieStep(h, p, c, version, jar);
    if x.attrs != [] { AttrsRead(h, |h| - |behind|, x.attrs, tail, MakeCookie(x.name, x.raw, version), Add(jar, c)); }
  }

  lemma NoAttrs(attrs: seq<AttrText>, tail: bytes, c: Cookie)
    ensures attrs == [] ==> AttrsText(attrs, tail) == tail && AllOn(attrs, c) == c
  {
  }

  /** The cookie that attributes would go to behind these, and the jar in front of it. */
  function Latest(c: Option<Cookie>, cookies: seq<CookieText>, version: nat): Option<Cookie> {
    if cookies == [] then c else Some(cookies[|cookies| - 1].Read(version))
  }

  function Kept(jar: seq<Cookie>, c: Option<Cookie>, cookies: seq<CookieText>, version: nat): seq<Cookie> {
    if cookies == [] then jar else Add(jar, c) + ReadAll(cookies[..|cookies| - 1], version)
  }

  /** The cookies are read, up to what follows them. */
  lemma {:induction false} CookiesOpen(h: bytes, p: nat, cookies: seq<CookieText>, tail: bytes, c: Option<Cookie>,
                                       version: nat, jar: seq<Cookie>)
    requires Suffix(h, p, CookiesText(cookies, tail)) && CookiesFit(cookies, version, tail)
    ensures p <= |h| && |tail| <= |h| && Suffix(h, |h| - |tail|, tail)
    ensures ReadCookies(h, p, c, version, jar)
            == ReadCookies(h, |h| - |tail|, Latest(c, cookies, version), version, Kept(jar, c, cookies, version))
    decreases cookies
  {
    hide Suffix, ReadCookies, CookieFits, CookieText.Then, CookieText.Read;
    if cookies == [] {
      SuffixFits(h, p, tail);
    } else {
      var x, more := cookies[0], cookies[1..];
      var behind := CookiesText(more, tail);
      CookieRead(h, p, x, behind, c, version, jar);
      CookiesOpen(h, |h| - |behind|, more, tail, Some(x.Read(version)), version, Add(jar, c));
      if more == [] {
        assert cookies[..0] == [] && Add(jar, c) + [] == Add(jar, c);
      } else {
        var front := cookies[..|cookies| - 1];
        assert front[1..] == more[..|more| - 1] && front[0] == x;
        Regroup(Add(jar, c), [x.Read(version)], ReadAll(more[..|more| - 1], version));
      }
    }
  }

  /** The cookies that were begun are all of them. */
  lemma {:induction false} ReadAllSnoc(cookies: seq<CookieText>, version: nat)
    requires cookies != []
    ensures ReadAll(cookies, version)
            == ReadAll(cookies[..|cookies| - 1], version) + [cookies[|cookies| - 1].Read(version)]
  {
    hide CookieText.Read;
    if |cookies| > 1 {
      ReadAllSnoc(cookies[1..], version);
      assert cookies[..|cookies| - 1][1..] == cookies[1..][..|cookies| - 2];
    } else {
      assert cookies[1..] == [] && cookies[..0] == [];
    }
  }

  lemma AllKept(jar: seq<Cookie>, cookies: seq<CookieText>, version: nat)
    ensures Add(Kept(jar, None, cookies, version), Latest(None, cookies, version)) == jar + ReadAll(cookies, version)
  {
    if cookies != [] {
      ReadAllSnoc(cookies, version);
      var front := cookies[..|cookies| - 1];
      Regroup(jar, ReadAll(front, version), [cookies[|cookies| - 1].Read(version)]);
    }
  }

  lemma VersionEndIs(h: bytes, i: nat, j: nat)
    requires i <= j <= |h| && (j < |h| ==> h[j] == COMMA || h[j] == SEMI) && forall k :: i <= k < j ==>
              h[k] != COMMA && h[k] != SEMI
    ensures VersionEnd(h, i) == j
    decreases j - i
  {
    if i < j { VersionEndIs(h, i + 1, j); }
  }

  /** An RFC header begins with its version. */
  lemma RfcStart(h: bytes, p: nat, text: bytes, tail: bytes, jar: seq<Cookie>)
    requires Suffix(h, p, text + tail) && VersionLegal(text) && EndsVersion(tail)
    ensures p + |text| <= |h| && Suffix(h, p + |text|, tail)
    ensures ReadHeader(h, p, jar) == ReadCookies(h, p + |text|, None, RFC, jar)
  {
    hide Suffix, ReadCookies, ReadHeader, GetPair, SpaceEnd, VersionEnd;
    SuffixPeel(h, p, text, tail);
    var e := p + |text|;
    SuffixFits(h, e, tail);
    SliceBytes(h, p, e, text);
    var j :| 0 <= j < |text| && text[j] == DOLLAR && Blank(text[..j]);
    forall k | p <= k < p + j
      ensures IsSpace(h[k])
    {
      assert text[..j][k - p] == h[k];
    }
    SpaceEndIs(h, p, p + j);
    VersionEndIs(h, p + j, e);
    VersionStep(h, p, e, jar);
  }

  /** What becomes of a version text that ends at e. */
  lemma VersionStep(h: bytes, p: nat, e: nat, jar: seq<Cookie>)
    requires p <= e <= |h| && (e < |h| ==> h[e] in [COMMA, SEMI])
    requires SpaceEnd(h, p) < |h| && h[SpaceEnd(h, p)] == DOLLAR && VersionEnd(h, SpaceEnd(h, p)) == e
    ensures ReadHeader(h, p, jar) == ReadCookies(h, e, None, RFC, jar)
  {
    hide SpaceEnd, VersionEnd, GetPair, CookieAttr, ReadCookies, ReadHeader;
    if e < |h| && h[e] == SEMI { SkipSemi(h, e, None, RFC, jar); } else { HeaderEnd(h, e, None, RFC, jar); }
    VersionRead(h, p, e, jar);
  }

  lemma VersionRead(h: bytes, p: nat, e: nat, jar: seq<Cookie>)
    requires p <= e <= |h| && SpaceEnd(h, p) < |h| && h[SpaceEnd(h, p)] == DOLLAR && VersionEnd(h, SpaceEnd(h, p)) == e
    ensures ReadHeader(h, p, jar)
            == if e == |h| then Jar(jar, Success) else if h[e] == COMMA then ReadHeader(h, e + 1, jar)
               else ReadCookies(h, e + 1, None, RFC, jar)
  {
    hide SpaceEnd, VersionEnd, GetPair, CookieAttr, ReadCookies;
  }

  lemma SkipSemi(h: bytes, e: nat, c: Option<Cookie>, version: nat, jar: seq<Cookie>)
    requires e < |h| && (h[e] == SEMI || IsSpace(h[e]))
    ensures ReadCookies(h, e, c, version, jar) == ReadCookies(h, e + 1, c, version, jar)
  {
    hide ReadHeader, GetPair, CookieAttr;
  }

  lemma SkipSpaces(h: bytes, i: nat, c: Option<Cookie>, version: nat, jar: seq<Cookie>)
    requires i <= |h|
    ensures ReadCookies(h, SpaceEnd(h, i), c, version, jar) == ReadCookies(h, i, c, version, jar)
    decreases |h| - i
  {
    hide ReadCookies;
    if i < |h| && IsSpace(h[i]) {
      SkipSpaces(h, i + 1, c, version, jar);
      SkipSemi(h, i, c, version, jar);
    }
  }

  /** A header of Netscape's begins with its first cookie. */
  lemma NetscapeStart(h: bytes, p: nat, jar: seq<Cookie>)
    requires p <= |h| && (SpaceEnd(h, p) == |h| || h[SpaceEnd(h, p)] != DOLLAR)
    ensures ReadHeader(h, p, jar) == ReadCookies(h, p, None, NETSCAPE, jar)
  {
    hide ReadCookies;
    SkipSpaces(h, p, None, NETSCAPE, jar);
  }

  /** The first byte that is no blank is no '$'. */
  predicate NoDollar(s: bytes) { SpaceEnd(s, 0) == |s| || s[SpaceEnd(s, 0)] != DOLLAR }

  lemma NoDollarAt(h: bytes, p: nat, s: bytes)
    requires Suffix(h, p, s) && NoDollar(s)
    ensures p <= |h| && (SpaceEnd(h, p) == |h| || h[SpaceEnd(h, p)] != DOLLAR)
  {
    var j := SpaceEnd(s, 0);
    SpacesBefore(s, 0);
    assert forall k :: 0 <= k < |s| ==> h[p + k] == h[p..][k];
    SpaceEndIs(h, p, p + j);
  }

  lemma SpacesBefore(s: bytes, i: nat)
    requires i <= |s|
    ensures forall k :: i <= k < SpaceEnd(s, i) ==> IsSpace(s[k])
    decreases |s| - i
  {
    if i < |s| && IsSpace(s[i]) { SpacesBefore(s, i + 1); }
  }

  /** Printed cookies begin with separators and then no '$'. */
  lemma CookiesNoDollar(cookies: seq<CookieText>, version: nat, tail: bytes)
    requires cookies != [] && CookiesFit(cookies, version, tail)
    ensures NoDollar(CookiesText(cookies, tail))
  {
    hide AttrsFit, Fits, RawLegal, NameLegal, Shape.Legal, Shape.Around, AttrsText;
    var x := cookies[0];
    var t := x.shape.Around(x.name, x.raw + AttrsText(x.attrs, CookiesText(cookies[1..], tail)));
    AroundStarts(x.shape, x.name, x.raw + AttrsText(x.attrs, CookiesText(cookies[1..], tail)));
    FillerNoDollar(x.sep, t);
  }

  lemma FillerNoDollar(sep: bytes, t: bytes)
    requires Filler(sep) && t != [] && t[0] != DOLLAR && !IsSpace(t[0])
    ensures NoDollar(sep + t)
  {
    var s := sep + t;
    assert s[|sep|] == t[0] && forall k :: 0 <= k < |sep| ==> s[k] == sep[k];
    SpaceStops(s, 0, |sep|);
  }

  lemma SpaceStops(h: bytes, i: nat, e: nat)
    requires i <= e < |h| && h[e] != DOLLAR && !IsSpace(h[e]) && forall k :: i <= k < e ==>
              h[k] == SEMI || IsSpace(h[k])
    ensures SpaceEnd(h, i) <= e && h[SpaceEnd(h, i)] != DOLLAR
    decreases e - i
  {
    if i < e && IsSpace(h[i]) { SpaceStops(h, i + 1, e); }
  }

  /** One header, up to what follows its cookies. */
  lemma GroupOpen(h: bytes, p: nat, g: Group, tail: bytes, jar: seq<Cookie>)
    requires Suffix(h, p, g.text + CookiesText(g.cookies, tail)) && g.Legal(tail)
    requires !g.Rfc() && g.cookies == [] ==> NoDollar(tail)
    ensures p <= |h| && |tail| <= |h| && Suffix(h, |h| - |tail|, tail)
    ensures var v := g.Version();
      ReadHeader(h, p, jar)
      == ReadCookies(h, |h| - |tail|, Latest(None, g.cookies, v), v, Kept(jar, None, g.cookies, v))
  {
    hide Suffix, ReadCookies, ReadHeader, GetPair, SpaceEnd, VersionLegal, CookiesText, CookiesFit, Latest, Kept,
        NoDollar;
    var text := CookiesText(g.cookies, tail);
    if g.Rfc() {
      RfcStart(h, p, g.text, text, jar);
      CookiesOpen(h, p + |g.text|, g.cookies, tail, None, RFC, jar);
    } else {
      SuffixSame(h, p, [] + text, text);
      if g.cookies != [] { CookiesNoDollar(g.cookies, NETSCAPE, tail); } else { NoCookies(tail); }
      NoDollarAt(h, p, text);
      NetscapeStart(h, p, jar);
      CookiesOpen(h, p, g.cookies, tail, None, NETSCAPE, jar);
    }
  }

  lemma NoCookies(tail: bytes)
    ensures CookiesText([], tail) == tail
  {
  }

  lemma CommaNoDollar(s: bytes)
    ensures NoDollar([COMMA] + s) && NoDollar([])
  {
  }

  /** What ends a header: its last cookie goes into the jar. */
  lemma HeaderEnd(h: bytes, p: nat, c: Option<Cookie>, version: nat, jar: seq<Cookie>)
    requires p <= |h| && (p < |h| ==> h[p] == COMMA)
    ensures ReadCookies(h, p, c, version, jar)
            == if p == |h| then Jar(Add(jar, c), Success) else ReadHeader(h, p + 1, Add(jar, c))
  {
  }

  /** Headers with ',' behind them give their cookies, and what follows is read on. */
  lemma {:induction false} HeadersRead(h: bytes, p: nat, groups: seq<Group>, more: bytes, jar: seq<Cookie>)
    requires Suffix(h, p, HeadersThen(groups, more)) && GroupsLegal(groups, more)
    ensures p <= |h| && |more| <= |h| && Suffix(h, |h| - |more|, more)
    ensures ReadHeader(h, p, jar) == ReadHeader(h, |h| - |more|, jar + AllCookies(groups))
    decreases groups
  {
    hide Suffix, ReadHeader, ReadCookies, CookiesText, Group.Legal, ReadAll, Latest, Kept, NoDollar;
    if groups == [] {
      SuffixFits(h, p, more);
      assert jar + [] == jar;
    } else {
      var g, rest := groups[0], HeadersThen(groups[1..], more);
      var v := g.Version();
      CommaNoDollar(rest);
      GroupOpen(h, p, g, [COMMA] + rest, jar);
      var q := |h| - |rest| - 1;
      SuffixFits(h, q, [COMMA] + rest);
      SuffixPeel(h, q, [COMMA], rest);
      HeaderEnd(h, q, Latest(None, g.cookies, v), v, Kept(jar, None, g.cookies, v));
      AllKept(jar, g.cookies, v);
      HeadersRead(h, q + 1, groups[1..], more, jar + ReadAll(g.cookies, v));
      Regroup(jar, ReadAll(g.cookies, v), AllCookies(groups[1..]));
    }
  }

  /** A whole header: headers with ',' behind them, and a last one. */
  function HeaderText(groups: seq<Group>, g: Group): bytes { HeadersThen(groups, g.text + CookiesText(g.cookies, [])) }

  lemma WholeHeader(h: bytes, groups: seq<Group>, g: Group)
    requires h == HeaderText(groups, g) && GroupsLegal(groups, g.text + CookiesText(g.cookies, [])) && g.Legal([])
    ensures ReadHeader(h, 0, []) == Jar(AllCookies(groups + [g]), Success)
  {
    hide Suffix, ReadHeader, ReadCookies, CookiesText, Group.Legal, GroupsLegal, HeadersThen, NoDollar, Latest, Kept;
    var last, v, jar := g.text + CookiesText(g.cookies, []), g.Version(), AllCookies(groups);
    SuffixWhole(h);
    HeadersRead(h, 0, groups, last, []);
    assert [] + jar == jar;
    CommaNoDollar([]);
    GroupOpen(h, |h| - |last|, g, [], jar);
    HeaderEnd(h, |h|, Latest(None, g.cookies, v), v, Kept(jar, None, g.cookies, v));
    AllKept(jar, g.cookies, v);
    AllSnoc(groups, g);
  }

  lemma {:induction false} AllSnoc(groups: seq<Group>, g: Group)
    ensures AllCookies(groups + [g]) == AllCookies(groups) + ReadAll(g.cookies, g.Version())
  {
    hide ReadAll;
    if groups == [] {
      assert (groups + [g])[1..] == [] && groups + [g] == [g];
      assert [] + ReadAll(g.cookies, g.Version()) == ReadAll(g.cookies, g.Version()) + [];
    } else {
      assert (groups + [g])[1..] == groups[1..] + [g];
      AllSnoc(groups[1..], g);
      Regroup(ReadAll(groups[0].cookies, groups[0].Version()), AllCookies(groups[1..]),
          ReadAll(g.cookies, g.Version()));
    }
  }

  /** Any list of legal cookies, in any number of headers joined by ',', is parsed to that list,
      each attribute on the cookie it follows. */
  method ParsePrintedCookies(hdr: bytes, ghost groups: seq<Group>, ghost g: Group)
      returns (s: Status, cookies: seq<Cookie>)
    requires CString(hdr) == HeaderText(groups, g)
    requires GroupsLegal(groups, g.text + CookiesText(g.cookies, [])) && g.Legal([])
    ensures s == Success && cookies == AllCookies(groups + [g])
  {
    hide ReadHeader, HeaderText, Group.Legal, GroupsLegal;
    var j := new Table<Cookie>();
    WholeHeader(CString(hdr), groups, g);
    s := ParseCookieHeader(j, hdr);
    cookies := j.elts;
  }

  /* ---- Headers that go wrong ---- */

  /** What ends the parsing of a header behind some cookies: text without '=', a quote that is not closed,
      an attribute where none may stand, or one that is refused. */
  datatype Trouble =
    | NoEquals(sep: bytes, text: bytes)
    | OpenQuote(sep: bytes, shape: Shape, name: bytes, text: bytes)
    | Misplaced(sep: bytes, text: bytes)
    | AttrNoEquals(sep: bytes, text: bytes)
    | AttrOpenQuote(sep: bytes, shape: Shape, name: bytes, text: bytes)
    | AttrRefused(sep: bytes, shape: Shape, name: bytes, value: bytes, quoted: bool, rest: bytes)
  {
    function Behind(): bytes {
      match this
      case NoEquals(_, text) => text
      case OpenQuote(_, shape, name, text) => shape.Around(name, [DQUOTE] + text)
      case Misplaced(_, text) => [DOLLAR] + text
      case AttrNoEquals(_, text) => [DOLLAR] + text
      case AttrOpenQuote(_, shape, name, text) => [DOLLAR] + shape.Around(name, [DQUOTE] + text)
      case AttrRefused(_, shape, name, value, quoted, rest) =>
        [DOLLAR] + shape.Around(name, (if quoted then Quote(value) else value) + rest)
    }

    function Text(): bytes { sep + Behind() }

    /** Attributes need a cookie of an RFC header in front of them. */
    ghost predicate Legal(version: nat, some: bool) {
      && Filler(sep)
      && match this
         case NoEquals(_, text) => Begins(text) && EQUALS !in text
         case OpenQuote(_, shape, name, text) =>
           shape.Legal() && NameLegal(name) && Begins(shape.Around(name, [])) && Unclosed(text)
         case Misplaced(_, _) => !some || version == NETSCAPE
         case AttrNoEquals(_, text) => some && version == RFC && EQUALS !in LeadCut(text)
         case AttrOpenQuote(_, shape, name, text) =>
           some && version == RFC && shape.Legal() && NameLegal(name) && Unclosed(text)
         case AttrRefused(_, shape, name, value, quoted, rest) =>
           && some && version == RFC && shape.Legal() && NameLegal(name) && NUL !in value
           && (!quoted ==> BareValue(value))
           && Fits(if quoted then Quote(value) else value, rest)
           && (|name| < 2 || (NoVersion(name) && forall k :: 0 <= k < |value| ==> !IsDigit(value[k])))
    }

    function Code(some: bool): Status {
      match this
      case NoEquals(_, _) => NoToken
      case OpenQuote(_, _, _, _) => BadSeq
      case Misplaced(_, _) => if some then Mismatch else BadChar
      case AttrNoEquals(_, _) => NoToken
      case AttrOpenQuote(_, _, _, _) => BadSeq
      case AttrRefused(_, _, name, _, _, _) => if |name| < 2 then BadArg else BadSeq
    }

    /** A cookie is put in the jar when the next one is begun, and so is lost to a bad attribute. */
    predicate KeepsLast() { NoEquals? || OpenQuote? }
  }

  /** The text behind blanks and '='. */
  function LeadCut(text: bytes): bytes { text[SkipTo(text, 0)..] }

  /** The name of a version attribute, which is more than its first letter. */
  predicate NoVersion(name: bytes) { |name| >= 2 && ToLower(name[0]) == 118 && !EqualNoCase(name, A_VALUE) }

  /** Without '=' there is no pair. */
  lemma NoPair(h: bytes, p: nat, text: bytes, unquote: bool)
    requires Suffix(h, p, text) && EQUALS !in LeadCut(text)
    ensures p <= |h| && GetPair(h, p, unquote) == Failed(NoToken)
  {
    var a := SkipTo(text, 0);
    assert forall k :: 0 <= k < |text| ==> h[p + k] == h[p..][k];
    SkipShift(h, p, text, 0);
    assert forall k :: a <= k < |text| ==> text[k] == LeadCut(text)[k - a];
    EqualsAtIs(h, p + a, |h|);
  }

  lemma SkipShift(h: bytes, p: nat, text: bytes, i: nat)
    requires Suffix(h, p, text) && i <= |text| && forall k :: 0 <= k < |text| ==> h[p + k] == text[k]
    ensures SkipTo(h, p + i) == p + SkipTo(text, i)
    decreases |text| - i
  {
    if i < |text| && Skipped(text[i]) { SkipShift(h, p, text, i + 1); }
  }

  lemma CutNothing(text: bytes)
    requires EQUALS !in text
    ensures EQUALS !in LeadCut(text)
  {
  }

  /** A quote that is not closed is no pair either. */
  lemma OpenPair(h: bytes, p: nat, x: Shape, name: bytes, text: bytes, unquote: bool)
    requires Suffix(h, p, x.Around(name, [DQUOTE] + text)) && x.Legal() && NameLegal(name) && Unclosed(text)
    ensures p <= |h| && GetPair(h, p, unquote) == Failed(BadSeq)
  {
    hide Suffix, GetPair, PairPlaced, Shape.Legal, NameLegal, Unclosed;
    PlacePair(h, p, x, name, [DQUOTE] + text);
    var v := SpotOf(p, x, name).v;
    SuffixFits(h, v, [DQUOTE] + text);
    SuffixPeel(h, v, [DQUOTE], text);
    UnclosedScan(h, v + 1, text);
    PairIs(h, p, x, name, unquote);
  }

  lemma RefusedAttr(name: bytes, value: bytes, c: Cookie)
    requires |name| < 2 || (NoVersion(name) && forall k :: 0 <= k < |value| ==> !IsDigit(value[k]))
    ensures CookieAttr(c, name, value) == Refused(if |name| < 2 then BadArg else BadSeq)
  {
    if |name| >= 2 { DigitNone(value, 0); }
  }

  lemma DigitNone(v: bytes, i: nat)
    requires i <= |v| && forall k :: 0 <= k < |v| ==> !IsDigit(v[k])
    ensures DigitAt(v, i) == |v|
    decreases |v| - i
  {
    if i < |v| { DigitNone(v, i + 1); }
  }

  /** What stands behind the separators. */
  lemma TroubleStarts(tr: Trouble, version: nat, some: bool)
    requires tr.Legal(version, some)
    ensures var t := tr.Behind(); t != [] && t[0] != SEMI && t[0] != COMMA && !IsSpace(t[0])
    ensures tr.NoEquals? || tr.OpenQuote? <==> tr.Behind()[0] != DOLLAR
  {
    hide Shape.Legal, NameLegal, Unclosed, Fits, BareValue, Shape.Around;
    if tr.OpenQuote? { AroundStarts(tr.shape, tr.name, [DQUOTE] + tr.text); }
  }

  /** The trouble ends the reading, with its code. */
  lemma TroubleRead(h: bytes, p: nat, tr: Trouble, c: Option<Cookie>, version: nat, jar: seq<Cookie>)
    requires Suffix(h, p, tr.Text()) && tr.Legal(version, c.Some?)
    ensures p <= |h|
    ensures ReadCookies(h, p, c, version, jar) == Jar(if tr.KeepsLast() then Add(jar, c) else jar, tr.Code(c.Some?))
  {
    hide Suffix, GetPair, SemiEnd, ReadCookies, ReadHeader, CookieAttr, Shape.Legal, NameLegal, Unclosed, Fits,
        BareValue,
        Shape.Around, LeadCut, Filler;
    TroubleStarts(tr, version, c.Some?);
    FillerRead(h, p, tr.sep, tr.Behind());
    var d := p + |tr.sep|;
    if tr.NoEquals? {
      CutNothing(tr.text);
      NoPair(h, d, tr.text, false);
      CookieStep(h, p, c, version, jar);
    } else if tr.OpenQuote? {
      OpenPair(h, d, tr.shape, tr.name, tr.text, false);
      CookieStep(h, p, c, version, jar);
    } else if tr.Misplaced? {
      DollarRefused(h, p, c, version, jar);
    } else {
      AttrTrouble(h, p, tr, c.value, jar);
    }
  }

  lemma DollarRefused(h: bytes, p: nat, c: Option<Cookie>, version: nat, jar: seq<Cookie>)
    requires p <= |h| && SemiEnd(h, p) < |h| && h[SemiEnd(h, p)] == DOLLAR && (c.None? || version == NETSCAPE)
    ensures ReadCookies(h, p, c, version, jar) == Jar(jar, if c.Some? then Mismatch else BadChar)
  {
    hide GetPair, CookieAttr, SemiEnd, ReadHeader;
  }

  lemma AttrTrouble(h: bytes, p: nat, tr: Trouble, c: Cookie, jar: seq<Cookie>)
    requires Suffix(h, p, tr.Text()) && tr.Legal(RFC, true)
        && (tr.AttrNoEquals? || tr.AttrOpenQuote? || tr.AttrRefused?)
    ensures p <= |h| && ReadCookies(h, p, Some(c), RFC, jar) == Jar(jar, tr.Code(true))
  {
    hide Suffix, GetPair, SemiEnd, ReadCookies, ReadHeader, CookieAttr, Shape.Legal, NameLegal, Unclosed, Fits,
        BareValue,
        Shape.Around, LeadCut, Filler, Quote;
    TroubleStarts(tr, RFC, true);
    FillerRead(h, p, tr.sep, tr.Behind());
    var d := p + |tr.sep|;
    AttrStep(h, p, c, jar);
    SuffixSame(h, d, tr.Behind(), [DOLLAR] + tr.Behind()[1..]);
    SuffixPeel(h, d, [DOLLAR], tr.Behind()[1..]);
    BadAttr(h, d + 1, tr, c);
  }

  /** The pair behind '$' is none, or no attribute that is taken. */
  lemma BadAttr(h: bytes, q: nat, tr: Trouble, c: Cookie)
    requires tr.Legal(RFC, true) && (tr.AttrNoEquals? || tr.AttrOpenQuote? || tr.AttrRefused?)
    requires Suffix(h, q, tr.Behind()[1..])
    ensures q <= |h|
    ensures var g := GetPair(h, q, true);
      if g.Failed? then tr.Code(true) == g.s else CookieAttr(c, g.name, g.value) == Refused(tr.Code(true))
  {
    hide Suffix, GetPair, CookieAttr, Shape.Legal, NameLegal, Unclosed, Fits, BareValue, Shape.Around, LeadCut, Filler,
        Quote, NoVersion;
    match tr
    case AttrNoEquals(_, text) =>
      assert tr.Behind()[1..] == text;
      NoPair(h, q, text, true);
    case AttrOpenQuote(_, shape, name, text) =>
      assert tr.Behind()[1..] == shape.Around(name, [DQUOTE] + text);
      OpenPair(h, q, shape, name, text, true);
    case AttrRefused(_, shape, name, value, quoted, rest) =>
      var shown := if quoted then Quote(value) else value;
      assert tr.Behind()[1..] == shape.Around(name, shown + rest);
      AttrPair(h, q, shape, name, value, quoted, rest);
      RefusedAttr(name, value, c);
  }

  /** A header with trouble in it. */
  function BrokenText(groups: seq<Group>, g: Group, tr: Trouble): bytes {
    HeadersThen(groups, g.text + CookiesText(g.cookies, tr.Text()))
  }

  ghost predicate BrokenLegal(groups: seq<Group>, g: Group, tr: Trouble) {
    && GroupsLegal(groups, g.text + CookiesText(g.cookies, tr.Text())) && g.Legal(tr.Text())
    && tr.Legal(g.Version(), g.cookies != []) && (!g.Rfc() && g.cookies == [] ==> NoDollar(tr.Text()))
  }

  /** The jar without its last cookie. */
  function Front(jar: seq<Cookie>): seq<Cookie> { if jar == [] then [] else jar[..|jar| - 1] }

  /** All cookies in front of the trouble are kept, but the last where an attribute of it is to blame. */
  lemma BrokenRead(h: bytes, groups: seq<Group>, g: Group, tr: Trouble)
    requires h == BrokenText(groups, g, tr) && BrokenLegal(groups, g, tr)
    ensures var all := AllCookies(groups + [g]);
      ReadHeader(h, 0, [])
      == Jar(if tr.KeepsLast() || g.cookies == [] then all else Front(all), tr.Code(g.cookies != []))
  {
    hide Suffix, ReadHeader, ReadCookies, CookiesText, Group.Legal, GroupsLegal, HeadersThen, NoDollar, Trouble.Legal,
        Trouble.Text, Trouble.Code, Kept, Latest, ReadAll;
    var tail, v, jar := tr.Text(), g.Version(), AllCookies(groups);
    var last := g.text + CookiesText(g.cookies, tail);
    SuffixWhole(h);
    HeadersRead(h, 0, groups, last, []);
    assert [] + jar == jar;
    GroupOpen(h, |h| - |last|, g, tail, jar);
    LatestSome(g.cookies, v);
    TroubleRead(h, |h| - |tail|, tr, Latest(None, g.cookies, v), v, Kept(jar, None, g.cookies, v));
    AllKept(jar, g.cookies, v);
    AllSnoc(groups, g);
    var all := AllCookies(groups + [g]);
    LastDropped(jar, g.cookies, v, all);
  }

  lemma LatestSome(cookies: seq<CookieText>, version: nat)
    ensures Latest(None, cookies, version).Some? <==> cookies != []
  {
  }

  lemma LastDropped(jar: seq<Cookie>, cookies: seq<CookieText>, version: nat, all: seq<Cookie>)
    requires all == Add(Kept(jar, None, cookies, version), Latest(None, cookies, version))
    ensures Kept(jar, None, cookies, version) == if cookies == [] then all else Front(all)
    ensures cookies != [] ==> all != []
  {
    hide Kept;
  }

  /** Headers that go wrong, with the jar and the code they leave. */
  method ParseBrokenCookies(hdr: bytes, ghost groups: seq<Group>, ghost g: Group, ghost tr: Trouble)
    returns (s: Status, cookies: seq<Cookie>)
    requires CString(hdr) == BrokenText(groups, g, tr) && BrokenLegal(groups, g, tr)
    ensures s == tr.Code(g.cookies != [])
    ensures var all := AllCookies(groups + [g]);
      if tr.KeepsLast() || g.cookies == [] then cookies == all else all != [] && cookies == Front(all)
  {
    hide ReadHeader, BrokenText, BrokenLegal;
    var j := new Table<Cookie>();
    BrokenRead(CString(hdr), groups, g, tr);
    LastThere(groups, g);
    s := ParseCookieHeader(j, hdr);
    cookies := j.elts;
  }

  lemma LastThere(groups: seq<Group>, g: Group)
    ensures g.cookies != [] ==> AllCookies(groups + [g]) != []
  {
    AllSnoc(groups, g);
  }
}

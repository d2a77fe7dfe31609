/** Cookie headers: get_pair, apreq_cookie_attr and apreq_parse_cookie_header. */
module Cookies {
  import opened Bytes
  import opened Brigades
  import opened Statuses
  import opened Sequences
  import opened Attributes
  import opened Quoting

  /* ---- name=value ---- */

  datatype Paired = Got(name: bytes, value: bytes, next: nat) | Failed(s: Status)

  predicate Skipped(c: byte) { IsSpace(c) || c == EQUALS }

  function SkipTo(h: bytes, i: nat): (j: nat)
    requires i <= |h|
    ensures i <= j <= |h| && (j < |h| ==> !Skipped(h[j])) && forall k :: i <= k < j ==> Skipped(h[k])
    decreases |h| - i
  {
    if i < |h| && Skipped(h[i]) then SkipTo(h, i + 1) else i
  }

  /** The last byte of a name that ends at or in front of k, and the byte in front of its first;
      it starts behind blanks, but not in front of low. */
  function NameLast(h: bytes, k: nat, low: nat): (e: nat)
    requires low <= k < |h|
    ensures low <= e <= k
    decreases k
  {
    if k > low && IsSpace(h[k]) then NameLast(h, k - 1, low) else k
  }

  function NameFirst(h: bytes, e: int, low: nat): (b: int)
    requires low as int - 1 <= e < |h|
    ensures low as int - 1 <= b <= e && forall k :: b < k <= e ==> !IsSpace(h[k])
    decreases e + 1
  {
    if e >= low && !IsSpace(h[e]) then NameFirst(h, e - 1, low) else e
  }

  /** The value behind '=', from v on. */
  function ReadValue(h: bytes, name: bytes, v: nat, unquote: bool): Paired
    requires v <= |h|
  {
    if v < |h| && h[v] == DQUOTE then
      var end := QuoteEnd(h, v + 1);
      if end == |h| then Failed(BadSeq)
      else Got(name, if unquote then Unescape(h[v + 1..end]) else h[v..end + 1], end + 1)
    else
      var end := WordEnd(h, v);
      Got(name, h[v..end], end)
  }

  /** get_pair, from position i of the header. */
  function GetPair(h: bytes, i: nat, unquote: bool): (r: Paired)
    requires i <= |h|
    ensures r.Got? ==> i < r.next <= |h| && r.name != []
  {
    var a := SkipTo(h, i);
    var eq := EqualsAt(h, a);
    if eq == |h| then Failed(NoToken)
    else
      var e := NameLast(h, eq - 1, a);
      NameNotBlank(h, eq - 1, a);
      ReadValue(h, h[NameFirst(h, e, a) + 1..e + 1], SpaceEnd(h, eq + 1), unquote)
  }

  lemma NameNotBlank(h: bytes, k: nat, low: nat)
    requires low <= k < |h| && !IsSpace(h[low])
    ensures var e := NameLast(h, k, low); !IsSpace(h[e]) && NameFirst(h, e, low) < e
    decreases k
  {
    if k > low && IsSpace(h[k]) { NameNotBlank(h, k - 1, low); }
  }

  /** The value at v, as the library scans it. */
  method ScanCookieValue(h: bytes, name: bytes, v: nat, unquote: bool) returns (r: Paired)
    requires v <= |h|
    ensures r == ReadValue(h, name, v, unquote)
  {
    var i := v;
    if v < |h| && h[v] == DQUOTE {
      var sawBackslash := false;
      i := v + 1;
      while i < |h| && h[i] != DQUOTE
        invariant v + 1 <= i <= |h| && QuoteEnd(h, i) == QuoteEnd(h, v + 1)
        invariant !sawBackslash ==> forall k :: v + 1 <= k < i ==> h[k] != BACKSLASH
      {
        if h[i] == BACKSLASH {
          sawBackslash := true;
          if i + 1 < |h| { i := i + 1; }
        }
        i := i + 1;
      }
      if i == |h| { return Failed(BadSeq); }
      if !unquote { return Got(name, h[v..i + 1], i + 1); }
      if !sawBackslash {
        UnescapePlain(h[v + 1..i]);
        return Got(name, h[v + 1..i], i + 1);
      }
      var raw := Unescaped(h[v + 1..i]);
      return Got(name, raw, i + 1);
    }
    while i < |h| && !EndsValue(h[i])
      invariant v <= i <= |h| && WordEnd(h, i) == WordEnd(h, v)
    {
      i := i + 1;
    }
    r := Got(name, h[v..i], i);
  }

  /** The copy loop of get_pair. */
  method Unescaped(s: bytes) returns (d: bytes)
    ensures d == Unescape(s)
  {
    d := [];
    var i := 0;
    assert s[0..] == s;
    while i < |s|
      invariant 0 <= i <= |s| && d + Unescape(s[i..]) == Unescape(s)
    {
      assert s[i..][1..] == s[i + 1..];
      if s[i] == BACKSLASH && i + 1 < |s| {
        assert s[i..][2..] == s[i + 2..];
        i := i + 1;
      }
      Regroup(d, [s[i]], Unescape(s[i + 1..]));
      d := d + [s[i]];
      i := i + 1;
    }
    assert d + [] == d;
  }

  /** Back over the blanks in front of '='. */
  method ScanLast(h: bytes, a: nat, from: nat) returns (last: nat)
    requires a <= from < |h|
    ensures last == NameLast(h, from, a)
  {
    last := from;
    while last > a && IsSpace(h[last])
      invariant a <= last <= from && NameLast(h, last, a) == NameLast(h, from, a)
    {
      last := last - 1;
    }
  }

  /** Back over the name, to the byte in front of it. */
  method ScanFirst(h: bytes, a: nat, last: nat) returns (key: int)
    requires a <= last < |h|
    ensures key == NameFirst(h, last, a)
  {
    key := last;
    while key >= a && !IsSpace(h[key])
      invariant a as int - 1 <= key <= last && NameFirst(h, key, a) == NameFirst(h, last, a)
    {
      key := key - 1;
    }
  }

  /** The name in front of '=', as the library scans it. */
  method ScanCookieName(h: bytes, a: nat, eq: nat) returns (name: bytes)
    requires a < eq < |h| && !IsSpace(h[a])
    ensures var e := NameLast(h, eq - 1, a); var b := NameFirst(h, e, a); b < e && name == h[b + 1..e + 1]
  {
    hide NameLast, NameFirst;
    NameNotBlank(h, eq - 1, a);
    var last := ScanLast(h, a, eq - 1);
    var key := ScanFirst(h, a, last);
    name := h[key + 1..last + 1];
  }

  /** Where the name begins, the '=' behind it, and where the value begins. */
  method ScanPair(h: bytes, i: nat) returns (a: nat, eq: nat, v: nat)
    requires i <= |h|
    ensures a == SkipTo(h, i) && eq == EqualsAt(h, a) && (eq < |h| ==> v == SpaceEnd(h, eq + 1))
  {
    a := i;
    while a < |h| && Skipped(h[a])
      invariant i <= a <= |h| && SkipTo(h, a) == SkipTo(h, i)
    {
      a := a + 1;
    }
    eq := a;
    while eq < |h| && h[eq] != EQUALS
      invariant a <= eq <= |h| && EqualsAt(h, eq) == EqualsAt(h, a)
    {
      eq := eq + 1;
    }
    v := eq;
    if eq == |h| { return; }
    v := eq + 1;
    while v < |h| && IsSpace(h[v])
      invariant eq + 1 <= v <= |h| && SpaceEnd(h, v) == SpaceEnd(h, eq + 1)
    {
      v := v + 1;
    }
  }

  /** get_pair. */
  method ApreqGetPair(h: bytes, i: nat, unquote: bool) returns (r: Paired)
    requires i <= |h|
    ensures r == GetPair(h, i, unquote)
  {
    hide NameLast, NameFirst, ReadValue, SkipTo, EqualsAt, SpaceEnd;
    var a, eq, v := ScanPair(h, i);
    if eq == |h| { return Failed(NoToken); }
    var name := ScanCookieName(h, a, eq);
    r := ScanCookieValue(h, name, v, unquote);
  }

  /* ---- Cookies and their attributes ---- */

  const NETSCAPE := 0
  const RFC := 1

  datatype Cookie = Cookie(name: bytes, value: bytes, version: nat, path: Option<bytes>, domain: Option<bytes>,
      port: Option<bytes>,
                           comment: Option<bytes>, commentURL: Option<bytes>, secure: bool)

  /** apreq_cookie_make. */
  function MakeCookie(name: bytes, value: bytes, version: nat): Cookie {
    Cookie(name, value, version, None, None, None, None, None, false)
  }

  const A_PORT := Ascii("port")
  const A_PATH := Ascii("path")
  const A_VALUE := Ascii("value")
  const A_COMMENT := Ascii("comment")
  const A_COMMENT_URL := Ascii("commentURL")
  const A_OFF := Ascii("off")

  datatype Applied = Set(c: Cookie) | Ignored | Refused(s: Status)

  function DigitAt(v: bytes, i: nat): (j: nat)
    requires i <= |v|
    ensures i <= j <= |v| && (j < |v| ==> IsDigit(v[j]))
    decreases |v| - i
  {
    if i == |v| || IsDigit(v[i]) then i else DigitAt(v, i + 1)
  }

  /** The prefix of `attr` is `name`, whatever case it is written in. */
  predicate Starts(attr: bytes, name: bytes) { |attr| >= |name| && EqualNoCase(attr[..|name|], name) }

  /** strncasecmp("off", val, vlen) is zero. */
  predicate IsOff(v: bytes) { |v| <= 3 && EqualNoCase(A_OFF[..|v|], v) }

  /** apreq_cookie_attr; times of expiry are not kept here. */
  function CookieAttr(c: Cookie, name: bytes, v: bytes): Applied {
    if |name| < 2 then Refused(BadArg)
    else
      var attr := if name[0] == DASH || name[0] == DOLLAR then name[1..] else name;
      var first := ToLower(attr[0]);
      if first == 118 then
        if EqualNoCase(attr, A_VALUE) then Ignored
        else
          var i := DigitAt(v, 0);
          if i == |v| then Refused(BadSeq) else Set(c.(version := v[i] - 48))
      else if first == 101 || first == 109 then Set(c)
      else if first == 100 then Set(c.(domain := Some(v)))
      else if first == 112 then
        if EqualNoCase(attr, A_PORT) then Set(c.(port := Some(v)))
        else if EqualNoCase(attr, A_PATH) then Set(c.(path := Some(v)))
        else Ignored
      else if first == 99 then
        if Starts(attr, A_COMMENT_URL) then Set(c.(commentURL := Some(v)))
        else if Starts(attr, A_COMMENT) then Set(c.(comment := Some(v)))
        else Ignored
      else if first == 115 then Set(c.(secure := v != [] && v[0] != 48 && !IsOff(v)))
      else Ignored
  }

  /* ---- The header ---- */

  datatype Jar = Jar(cookies: seq<Cookie>, status: Status)

  function Add(jar: seq<Cookie>, c: Option<Cookie>): seq<Cookie> { if c.Some? then jar + [c.value] else jar }

  /** The ',' or ';' that ends a version string. */
  function VersionEnd(h: bytes, i: nat): (j: nat)
    requires i <= |h|
    ensures i <= j <= |h| && (j < |h| ==> h[j] == COMMA || h[j] == SEMI) && forall k :: i <= k < j ==>
              h[k] != COMMA && h[k] != SEMI
    decreases |h| - i
  {
    if i == |h| || h[i] == COMMA || h[i] == SEMI then i else VersionEnd(h, i + 1)
  }

  function SemiEnd(h: bytes, i: nat): (j: nat)
    requires i <= |h|
    ensures i <= j <= |h| && (j < |h| ==> h[j] != SEMI && !IsSpace(h[j])) && forall k :: i <= k < j ==>
              h[k] == SEMI || IsSpace(h[k])
    decreases |h| - i
  {
    if i < |h| && (h[i] == SEMI || IsSpace(h[i])) then SemiEnd(h, i + 1) else i
  }

  /** Read cookies from i on, at the front of a header or behind a ','. */
  function ReadHeader(h: bytes, i: nat, jar: seq<Cookie>): Jar
    requires i <= |h|
    decreases |h| - i, 1
  {
    var a := SpaceEnd(h, i);
    if a < |h| && h[a] == DOLLAR then
      var e := VersionEnd(h, a);
      if e == |h| then Jar(jar, Success)
      else if h[e] == COMMA then ReadHeader(h, e + 1, jar)
      else ReadCookies(h, e + 1, None, RFC, jar)
    else ReadCookies(h, a, None, NETSCAPE, jar)
  }

  /** Read on, with c the cookie attributes are for. */
  function ReadCookies(h: bytes, i: nat, c: Option<Cookie>, version: nat, jar: seq<Cookie>): Jar
    requires i <= |h|
    decreases |h| - i, 0
  {
    var a := SemiEnd(h, i);
    if a == |h| then Jar(Add(jar, c), Success)
    else if h[a] == COMMA then ReadHeader(h, a + 1, Add(jar, c))
    else if h[a] == DOLLAR then
      if c.None? then Jar(jar, BadChar)
      else if version == NETSCAPE then Jar(jar, Mismatch)
      else
        match GetPair(h, a + 1, true)
        case Failed(s) => Jar(jar, s)
        case Got(n, v, next) =>
          (match CookieAttr(c.value, n, v)
           case Refused(s) => Jar(jar, s)
           case Ignored => ReadCookies(h, next, c, version, jar)
           case Set(c') => ReadCookies(h, next, Some(c'), version, jar))
    else
      match GetPair(h, a, false)
      case Failed(s) => Jar(Add(jar, c), s)
      case Got(n, v, next) => ReadCookies(h, next, Some(MakeCookie(n, v, version)), version, Add(jar, c))
  }

  /** Skip blanks, and a version string. */
  method StartHeader(h: bytes, i: nat) returns (next: nat, version: nat, over: bool, again: bool)
    requires i <= |h|
    ensures i <= next <= |h| && (again ==> i < next)
    ensures forall jar ::
      ReadHeader(h, i, jar) == if over then Jar(jar, Success)
                               else if again then ReadHeader(h, next, jar)
                               else ReadCookies(h, next, None, version, jar)
  {
    hide ReadCookies;
    next, version, over, again := i, NETSCAPE, false, false;
    while next < |h| && IsSpace(h[next])
      invariant i <= next <= |h| && SpaceEnd(h, next) == SpaceEnd(h, i)
    {
      next := next + 1;
    }
    if next < |h| && h[next] == DOLLAR {
      version := RFC;
      ghost var a := next;
      while next < |h| && h[next] != COMMA && h[next] != SEMI
        invariant a <= next <= |h| && VersionEnd(h, next) == VersionEnd(h, a)
      {
        next := next + 1;
      }
      if next == |h| {
        over := true;
      } else {
        again := h[next] == COMMA;
        next := next + 1;
      }
    }
  }

  /** apreq_parse_cookie_header: the jar gets each cookie when the next one begins. */
  method ParseCookieHeader(j: Table<Cookie>, hdr: bytes) returns (s: Status)
    modifies j
    ensures Jar(j.elts, s) == ReadHeader(CString(hdr), 0, old(j.elts))
  {
    hide ReadCookies, ReadHeader, GetPair, CookieAttr;
    var h := CString(hdr);
    ghost var r := ReadHeader(h, 0, j.elts);
    var i: nat, version: nat, over, again := 0, NETSCAPE, false, true;
    var c: Option<Cookie> := None;
    while true
      invariant i <= |h| && r == if again then ReadHeader(h, i, j.elts) else ReadCookies(h, i, c, version, j.elts)
      decreases |h| - i, again
    {
      if again {
        i, version, over, again := StartHeader(h, i);
        c := None;
        if over { return Success; }
      } else {
        var done;
        done, s, i, c, again := CookieTurn(j, h, i, c, version);
        if done { return; }
      }
    }
  }

  /** One turn of the loop over cookies and attributes. */
  method CookieTurn(j: Table<Cookie>, h: bytes, i: nat, c: Option<Cookie>, version: nat)
    returns (done: bool, s: Status, next: nat, c': Option<Cookie>, again: bool)
    requires i <= |h|
    modifies j
    ensures next <= |h| && (!done ==> i < next)
    ensures ReadCookies(h, i, c, version, old(j.elts)) ==
            if done then Jar(j.elts, s) else if again then ReadHeader(h, next, j.elts)
                else ReadCookies(h, next, c', version, j.elts)
  {
    hide ReadHeader, GetPair, CookieAttr;
    done, s, next, c', again := false, Success, i, c, false;
    while next < |h| && (h[next] == SEMI || IsSpace(h[next]))
      invariant i <= next <= |h| && SemiEnd(h, next) == SemiEnd(h, i)
    {
      next := next + 1;
    }
    if next == |h| {
      if c.Some? { j.Add(c.value); }
      done := true;
    } else if h[next] == COMMA {
      if c.Some? { j.Add(c.value); }
      next, again := next + 1, true;
    } else if h[next] == DOLLAR {
      if c.None? { return true, BadChar, next, c, false; }
      if version == NETSCAPE { return true, Mismatch, next, c, false; }
      var p := ApreqGetPair(h, next + 1, true);
      if p.Failed? { return true, p.s, next, c, false; }
      var a := CookieAttr(c.value, p.name, p.value);
      if a.Refused? { return true, a.s, next, c, false; }
      next := p.next;
      if a.Set? { c' := Some(a.c); }
    } else {
      if c.Some? { j.Add(c.value); }
      var p := ApreqGetPair(h, next, false);
      if p.Failed? { return true, p.s, next, c, false; }
      next, c' := p.next, Some(MakeCookie(p.name, p.value, version));
    }
  }
}

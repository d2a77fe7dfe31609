/** Looking up an attribute in a header value: apreq_header_attribute. */
module Attributes {
  import opened Bytes
  import opened Sequences

  /** What a C string made of b holds. */
  function CString(b: bytes): (s: bytes)
    ensures NUL !in s
    ensures NUL !in b ==> s == b
  {
    if b == [] || b[0] == NUL then [] else [b[0]] + CString(b[1..])
  }

  /** is_2616_token. */
  predicate IsToken(c: byte) {
    c !in [32, 59, 44, 34, 9, 63, 61, 64, 58, 92, 47, 40, 41, 60, 62, 123, 125, 91, 93] && !IsCntrl(c)
  }

  predicate EndsValue(c: byte) {
    c == SPACE || c == SEMI || c == COMMA || c == TAB || c == CR || c == LF
  }

  datatype Attr = Found(value: bytes) | Missing | Unterminated | OutOfBounds

  /** The first '=' at or behind i, or the end. */
  function EqualsAt(h: bytes, i: nat): (j: nat)
    requires i <= |h|
    ensures i <= j <= |h| && (j < |h| ==> h[j] == EQUALS) && forall k :: i <= k < j ==> h[k] != EQUALS
    decreases |h| - i
  {
    if i == |h| || h[i] == EQUALS then i else EqualsAt(h, i + 1)
  }

  lemma EqualsAtIs(h: bytes, i: nat, j: nat)
    requires i <= j <= |h| && (j < |h| ==> h[j] == EQUALS) && forall k :: i <= k < j ==> h[k] != EQUALS
    ensures EqualsAt(h, i) == j
    decreases j - i
  {
    if i < j { EqualsAtIs(h, i + 1, j); }
  }

  function SpaceEnd(h: bytes, i: nat): (j: nat)
    requires i <= |h|
    ensures i <= j <= |h| && (j < |h| ==> !IsSpace(h[j]))
    decreases |h| - i
  {
    if i == |h| || !IsSpace(h[i]) then i else SpaceEnd(h, i + 1)
  }

  /** The closing quote, or the end of the string. */
  function QuoteEnd(h: bytes, i: nat): (j: nat)
    requires i <= |h|
    ensures i <= j <= |h| && (j < |h| ==> h[j] == DQUOTE)
    decreases |h| - i
  {
    if i == |h| || h[i] == DQUOTE then i
    else if h[i] == BACKSLASH && i + 1 < |h| then QuoteEnd(h, i + 2)
    else QuoteEnd(h, i + 1)
  }

  function WordEnd(h: bytes, i: nat): (j: nat)
    requires i <= |h|
    ensures i <= j <= |h| && (j < |h| ==> EndsValue(h[j]))
    decreases |h| - i
  {
    if i == |h| || EndsValue(h[i]) then i else WordEnd(h, i + 1)
  }

  /** Step back over the blanks in front of '=', but never so far that a name of nlen bytes
      would have to start at or in front of hdr. */
  function BackUp(h: bytes, key: nat, low: nat): (k: nat)
    requires key < |h|
    ensures k <= key
  {
    if key > low && IsSpace(h[key]) then BackUp(h, key - 1, low) else key
  }

  datatype Look = Stop(a: Attr) | From(hdr: nat)

  /** What the text in front of position v says when the name it may hold starts at k. */
  function Compare(h: bytes, name: bytes, hdr: nat, k: int, val: nat, v: nat): Look
    requires k + |name| <= |h| && val <= v <= |h|
  {
    if k < 0 then Stop(OutOfBounds)
    else if !EqualNoCase(h[k..k + |name|], name) then From(v)
    else if k == hdr then Stop(Found(h[val..v]))
    else if k == 0 then Stop(OutOfBounds)
    else if IsToken(h[k - 1]) then From(v)
    else Stop(Found(h[val..v]))
  }

  /** The next name=value from position hdr on. */
  function LookOnce(h: bytes, name: bytes, hdr: nat): (l: Look)
    requires name != [] && hdr <= |h| && (hdr < |h| ==> h[hdr] != EQUALS)
    ensures l.From? ==> hdr < l.hdr <= |h| && (l.hdr < |h| ==> h[l.hdr] != EQUALS)
  {
    var eq := EqualsAt(h, hdr);
    if eq == |h| then Stop(Missing)
    else
      var k := BackUp(h, eq - 1, hdr + |name|) - (|name| - 1);
      var v := SpaceEnd(h, eq + 1);
      var quoted := v < |h| && h[v] == DQUOTE;
      var val := if quoted then v + 1 else v;
      var end := if quoted then QuoteEnd(h, val) else WordEnd(h, val);
      if quoted && end == |h| then Stop(Unterminated)
      else Compare(h, name, hdr, k, val, end)
  }

  /** The lookup from position hdr on. */
  function Lookup(h: bytes, name: bytes, hdr: nat): Attr
    requires name != [] && hdr <= |h| && (hdr < |h| ==> h[hdr] != EQUALS)
    decreases |h| - hdr
  {
    match LookOnce(h, name, hdr)
    case Stop(a) => a
    case From(next) => Lookup(h, name, next)
  }

  function SkipEquals(h: bytes, i: nat): (j: nat)
    requires i <= |h|
    ensures i <= j <= |h| && (j < |h| ==> h[j] != EQUALS)
    decreases |h| - i
  {
    if i < |h| && h[i] == EQUALS then SkipEquals(h, i + 1) else i
  }

  /** apreq_header_attribute as a function of the header. */
  function Attribute(h: bytes, name: bytes): Attr
    requires name != []
  {
    Lookup(h, name, SkipEquals(h, 0))
  }

  /** The value behind the '=' in front of v, and where the scan goes on. */
  method ScanValue(h: bytes, from: nat) returns (ok: bool, val: nat, v: nat)
    requires from <= |h|
    ensures val <= v <= |h|
    ensures var start := SpaceEnd(h, from); var quoted := start < |h| && h[start] == DQUOTE;
            && val == (if quoted then start + 1 else start)
            && v == (if quoted then QuoteEnd(h, val) else WordEnd(h, val))
            && ok == !(quoted && v == |h|)
  {
    v := from;
    while v < |h| && IsSpace(h[v])
      invariant from <= v <= |h| && SpaceEnd(h, v) == SpaceEnd(h, from)
    {
      v := v + 1;
    }
    val := v;
    if v < |h| && h[v] == DQUOTE {
      v := v + 1;
      val := v;
      while v < |h| && h[v] != DQUOTE
        invariant val <= v <= |h| && QuoteEnd(h, v) == QuoteEnd(h, val)
      {
        if h[v] == BACKSLASH && v + 1 < |h| {
          v := v + 1;
        }
        v := v + 1;
      }
      return v < |h|, val, v;
    }
    while v < |h| && !EndsValue(h[v])
      invariant val <= v <= |h| && WordEnd(h, v) == WordEnd(h, val)
    {
      v := v + 1;
    }
    ok := true;
  }

  /** The '=' at or behind hdr, and the last byte of what may be the name in front of it. */
  method ScanKey(h: bytes, hdr: nat, nlen: nat) returns (eq: nat, key: nat)
    requires hdr <= |h| && (hdr < |h| ==> h[hdr] != EQUALS)
    ensures eq == EqualsAt(h, hdr)
    ensures eq < |h| ==> hdr < eq && key == BackUp(h, eq - 1, hdr + nlen)
  {
    eq, key := hdr, 0;
    while eq < |h| && h[eq] != EQUALS
      invariant hdr <= eq <= |h| && EqualsAt(h, eq) == EqualsAt(h, hdr)
    {
      eq := eq + 1;
    }
    if eq < |h| {
      key := eq - 1;
      while IsSpace(h[key]) && key > hdr + nlen
        invariant key < |h| && BackUp(h, key, hdr + nlen) == BackUp(h, eq - 1, hdr + nlen)
      {
        key := key - 1;
      }
    }
  }

  /** One turn of the scan of apreq_header_attribute. */
  method LookTurn(h: bytes, name: bytes, hdr: nat) returns (l: Look)
    requires name != [] && hdr <= |h| && (hdr < |h| ==> h[hdr] != EQUALS)
    ensures l == LookOnce(h, name, hdr)
  {
    var eq, key := ScanKey(h, hdr, |name|);
    if eq == |h| { return Stop(Missing); }
    var k := key - (|name| - 1);
    var ok, val, v := ScanValue(h, eq + 1);
    if !ok { return Stop(Unterminated); }
    return Compare(h, name, hdr, k, val, v);
  }

  /** apreq_header_attribute: the string ends where C finds its NUL. */
  method HeaderAttribute(h: bytes, name: bytes) returns (r: Attr)
    requires name != []
    ensures r == Attribute(h, name)
  {
    var hdr: nat := 0;
    while hdr < |h| && h[hdr] == EQUALS
      invariant hdr <= |h| && SkipEquals(h, hdr) == SkipEquals(h, 0)
    {
      hdr := hdr + 1;
    }
    while true
      invariant hdr <= |h| && (hdr < |h| ==> h[hdr] != EQUALS)
      invariant Lookup(h, name, hdr) == Attribute(h, name)
      decreases |h| - hdr
    {
      var l := LookTurn(h, name, hdr);
      if l.Stop? { return l.a; }
      hdr := l.hdr;
    }
  }

  /* ---- Attribute lists as written by a sender ---- */

  /** sep name=value or sep name="value", with blanks around '=' as the sender likes, and no separator, or
      any that ends in a character no name can hold. */
  datatype Item = Item(sep: bytes, name: bytes, pre: bytes, post: bytes, value: bytes, quoted: bool)
  {
    ghost predicate Legal() { Named() && if quoted then QuoteSafe(value) else BareValue(value) }

    ghost predicate Named() {
      && EQUALS !in sep && (sep != [] ==> !IsToken(sep[|sep| - 1]))
      && Tokens(name) && Blank(pre) && Blank(post)
    }

    function Shown(): bytes { if quoted then [DQUOTE] + (value + [DQUOTE]) else value }

    /** The name, '=' and what follows. */
    function Open(t: bytes): bytes { sep + (name + (pre + ([EQUALS] + (post + t)))) }

    function Then(rest: bytes): bytes { Open(Shown() + rest) }
  }

  predicate Blank(b: bytes) { forall k :: 0 <= k < |b| ==> IsSpace(b[k]) }

  ghost predicate Tokens(name: bytes) {
    name != [] && forall k :: 0 <= k < |name| ==> IsToken(name[k])
  }

  /** A value that needs no quotes. */
  predicate BareValue(value: bytes) {
    (value != [] ==> value[0] != DQUOTE && !IsSpace(value[0])) && forall k :: 0 <= k < |value| ==> !EndsValue(value[k])
  }

  /** The closing quote behind value is the first one the scanner accepts. */
  predicate QuoteSafe(value: bytes) {
    if value == [] then true
    else if value[0] == DQUOTE then false
    else if value[0] == BACKSLASH then |value| >= 2 && QuoteSafe(value[2..])
    else QuoteSafe(value[1..])
  }

  /** The items, and what follows them. */
  function ListThen(items: seq<Item>, tail: bytes): bytes {
    if items == [] then tail else items[0].Then(ListThen(items[1..], tail))
  }

  function List(items: seq<Item>): bytes { ListThen(items, []) }

  /** What may stand behind a value without quotes; an empty one is not behind blanks. */
  predicate EndsBare(value: bytes, rest: bytes) {
    rest != [] ==> EndsValue(rest[0]) && (value == [] ==> !IsSpace(rest[0]))
  }

  /** All items are legal, and those without quotes end where the next separator begins. */
  ghost predicate Chained(items: seq<Item>, tail: bytes) {
    items == []
    || (&& items[0].Legal() && Chained(items[1..], tail)
        && (!items[0].quoted ==> EndsBare(items[0].value, ListThen(items[1..], tail))))
  }

  /** The value of the first item with this name. */
  function First(items: seq<Item>, name: bytes): Attr {
    if items == [] then Missing
    else if EqualNoCase(items[0].name, name) then Found(items[0].value)
    else First(items[1..], name)
  }

  /** Blanks in front of '=' hide a name at the very front of a header. */
  predicate Hidden(items: seq<Item>) { items != [] && items[0].sep == [] && items[0].pre != [] }

  function Visible(items: seq<Item>): seq<Item> { if Hidden(items) then items[1..] else items }

  lemma {:induction false} QuoteEndSafe(h: bytes, i: nat, value: bytes)
    requires QuoteSafe(value) && i + |value| < |h| && h[i..i + |value|] == value && h[i + |value|] == DQUOTE
    ensures QuoteEnd(h, i) == i + |value|
    decreases |value|
  {
    if value != [] {
      assert h[i] == h[i..i + |value|][0];
      var n := if value[0] == BACKSLASH then 2 else 1;
      assert h[i + n..i + |value|] == h[i..i + |value|][n..];
      QuoteEndSafe(h, i + n, value[n..]);
    }
  }

  /** The name of an item lies at p of h: it ends at ne, and its '=' is at eq. */
  ghost predicate NamePlaced(h: bytes, p: nat, item: Item, ne: nat, eq: nat) {
    var n := p + |item.sep|;
    && ne == n + |item.name| && eq == ne + |item.pre| < |h|
    && h[p..n] == item.sep && h[n..ne] == item.name && h[ne..eq] == item.pre && h[eq] == EQUALS
  }

  /** Its value lies in [val, end). */
  ghost predicate ValuePlaced(h: bytes, eq: nat, item: Item, val: nat, end: nat) {
    var v := eq + 1 + |item.post|;
    && v <= |h| && h[eq + 1..v] == item.post && val == (if item.quoted then v + 1 else v)
    && end == val + |item.value| <= |h| && h[val..end] == item.value
    && if item.quoted then end < |h| && h[v] == DQUOTE && h[end] == DQUOTE
       else EndsBare(item.value, h[end..])
  }

  lemma PlaceTwo(h: bytes, p: nat, a: bytes, b: bytes, t: bytes)
    requires Suffix(h, p, a + (b + t))
    ensures var n := p + |a|; n + |b| <= |h| && h[p..n] == a && h[n..n + |b|] == b && Suffix(h, n + |b|, t)
  {
    hide Suffix;
    SuffixPeel(h, p, a, b + t);
    SuffixPeel(h, p + |a|, b, t);
  }

  lemma PlaceName(h: bytes, p: nat, item: Item, t: bytes)
    requires Suffix(h, p, item.sep + (item.name + (item.pre + ([EQUALS] + t))))
    ensures var ne := p + |item.sep| + |item.name|; var eq := ne + |item.pre|;
            NamePlaced(h, p, item, ne, eq) && Suffix(h, eq + 1, t)
  {
    hide Suffix;
    var ne := p + |item.sep| + |item.name|;
    PlaceTwo(h, p, item.sep, item.name, item.pre + ([EQUALS] + t));
    PlaceTwo(h, ne, item.pre, [EQUALS], t);
    assert h[ne + |item.pre|] == h[ne + |item.pre|..ne + |item.pre| + 1][0];
  }

  lemma PlaceValue(h: bytes, eq: nat, item: Item, rest: bytes)
    requires Suffix(h, eq + 1, item.post + (item.Shown() + rest)) && (!item.quoted ==> EndsBare(item.value, rest))
    ensures var val := eq + 1 + |item.post| + (if item.quoted then 1 else 0); var end := val + |item.value|;
            ValuePlaced(h, eq, item, val, end) && Suffix(h, if item.quoted then end + 1 else end, rest)
  {
    hide *;
    var v := eq + 1 + |item.post|;
    SuffixPeel(h, eq + 1, item.post, item.Shown() + rest);
    SuffixFits(h, v, item.Shown() + rest);
    PlaceShown(h, v, item, rest);
    ValueIs(h, eq, item);
  }

  lemma PlaceShown(h: bytes, v: nat, item: Item, rest: bytes)
    requires Suffix(h, v, item.Shown() + rest) && (!item.quoted ==> EndsBare(item.value, rest))
    ensures var val := if item.quoted then v + 1 else v; var end := val + |item.value|;
      && end <= |h| && h[val..end] == item.value && Suffix(h, if item.quoted then end + 1 else end, rest)
      && if item.quoted then end < |h| && h[v] == DQUOTE && h[end] == DQUOTE else EndsBare(item.value, h[end..])
  {
    hide Suffix, EndsBare;
    if item.quoted { PlaceQuoted(h, v, item.value, rest); } else { PlaceBare(h, v, item.value, rest); }
  }

  lemma ValueIs(h: bytes, eq: nat, item: Item)
    requires var v := eq + 1 + |item.post|; v <= |h| && h[eq + 1..v] == item.post
    requires var v := eq + 1 + |item.post|; var val := if item.quoted then v + 1 else v; var end := val + |item.value|;
      && end <= |h| && h[val..end] == item.value
      && if item.quoted then end < |h| && h[v] == DQUOTE && h[end] == DQUOTE else EndsBare(item.value, h[end..])
    ensures var val := eq + 1 + |item.post| + (if item.quoted then 1 else 0);
            ValuePlaced(h, eq, item, val, val + |item.value|)
  {
    hide EndsBare;
  }

  lemma PlaceBare(h: bytes, v: nat, value: bytes, rest: bytes)
    requires Suffix(h, v, value + rest) && EndsBare(value, rest)
    ensures var end := v + |value|;
            end <= |h| && h[v..end] == value && Suffix(h, end, rest) && EndsBare(value, h[end..])
  {
    hide Suffix, EndsBare;
    SuffixPeel(h, v, value, rest);
    SuffixIs(h, v + |value|, rest);
  }

  lemma SuffixIs(h: bytes, p: nat, t: bytes)
    requires Suffix(h, p, t)
    ensures p <= |h| && h[p..] == t
  {
  }

  lemma PlaceQuoted(h: bytes, v: nat, value: bytes, rest: bytes)
    requires Suffix(h, v, [DQUOTE] + (value + [DQUOTE]) + rest)
    ensures var end := v + 1 + |value|;
            && end < |h| && h[v] == DQUOTE && h[v + 1..end] == value && h[end] == DQUOTE && Suffix(h, end + 1, rest)
  {
    hide Suffix;
    Regroup([DQUOTE], value + [DQUOTE], rest);
    Regroup(value, [DQUOTE], rest);
    SuffixSame(h, v, [DQUOTE] + (value + [DQUOTE]) + rest, [DQUOTE] + (value + ([DQUOTE] + rest)));
    SuffixPeel(h, v, [DQUOTE], value + ([DQUOTE] + rest));
    SuffixFits(h, v, [DQUOTE] + (value + ([DQUOTE] + rest)));
    SuffixPeel(h, v + 1, value, [DQUOTE] + rest);
    SuffixFits(h, v + 1 + |value|, [DQUOTE] + rest);
    SuffixPeel(h, v + 1 + |value|, [DQUOTE], rest);
  }

  /** The scan for '=' stops at the item's own. */
  lemma ScanName(h: bytes, hdr: nat, p: nat, item: Item, ne: nat, eq: nat)
    requires NamePlaced(h, p, item, ne, eq) && item.Named()
    requires hdr == p || (hdr + 1 == p && h[hdr] == DQUOTE)
    ensures EqualsAt(h, hdr) == eq
  {
    var n := p + |item.sep|;
    forall k | hdr <= k < eq
      ensures h[k] != EQUALS
    {
      if p <= k < n { assert h[p..n][k - p] in item.sep; }
      if n <= k < ne { assert h[n..ne][k - n] == h[k]; }
      if ne <= k { assert h[ne..eq][k - ne] == h[k]; }
    }
    EqualsAtIs(h, hdr, eq);
  }

  /** The scan for the value finds just it. */
  lemma ValueIsScanned(h: bytes, eq: nat, item: Item, val: nat, end: nat)
    requires ValuePlaced(h, eq, item, val, end) && item.Legal()
    ensures var v := SpaceEnd(h, eq + 1);
      && v == eq + 1 + |item.post| && (v < |h| && h[v] == DQUOTE <==> item.quoted)
      && end == if item.quoted then QuoteEnd(h, val) else WordEnd(h, val)
  {
    hide QuoteSafe;
    var v := eq + 1 + |item.post|;
    assert forall k :: eq + 1 <= k < v ==> h[k] == h[eq + 1..v][k - eq - 1];
    if item.quoted {
      QuoteEndSafe(h, val, item.value);
    } else {
      assert forall k :: val <= k < end ==> h[k] == h[val..end][k - val];
      assert end < |h| ==> h[end] == h[end..][0];
      WordEndIs(h, val, end);
    }
    SpaceEndIs(h, eq + 1, v);
  }

  lemma SpaceEndIs(h: bytes, i: nat, j: nat)
    requires i <= j <= |h| && (j < |h| ==> !IsSpace(h[j])) && forall k :: i <= k < j ==> IsSpace(h[k])
    ensures SpaceEnd(h, i) == j
    decreases j - i
  {
    if i < j { SpaceEndIs(h, i + 1, j); }
  }

  lemma WordEndIs(h: bytes, i: nat, j: nat)
    requires i <= j <= |h| && (j < |h| ==> EndsValue(h[j])) && forall k :: i <= k < j ==> !EndsValue(h[k])
    ensures WordEnd(h, i) == j
    decreases j - i
  {
    if i < j { WordEndIs(h, i + 1, j); }
  }

  /** Backing up over the blanks ends at the name, or where the name would be too long to fit. */
  lemma BackUpOver(h: bytes, ne: nat, k: nat, low: nat)
    requires 0 < ne <= k + 1 <= |h| && !IsSpace(h[ne - 1]) && forall i :: ne <= i <= k ==> IsSpace(h[i])
    ensures var key := BackUp(h, k, low);
      key == ne - 1 || (ne <= key <= k && ne <= low && (key == k || key == low))
    decreases k
  {
    if k >= ne && k > low { BackUpOver(h, ne, k - 1, low); }
  }

  lemma SameCaseToken(a: byte, b: byte)
    requires ToLower(a) == ToLower(b)
    ensures IsToken(a) <==> IsToken(b)
  {
  }

  /** The comparison accepts the item whose name is the whole of `name`, and no other. */
  lemma ComparePlaced(h: bytes, name: bytes, hdr: nat, p: nat, item: Item, ne: nat, eq: nat, val: nat, end: nat)
    requires NamePlaced(h, p, item, ne, eq) && item.Legal() && Tokens(name) && hdr <= p && |name| <= ne
    requires val <= end <= |h| && (item.sep == [] ==> p == 0 || !IsToken(h[p - 1]))
    ensures Compare(h, name, hdr, ne - |name|, val, end)
            == if EqualNoCase(item.name, name) then Stop(Found(h[val..end])) else From(end)
  {
    hide IsToken, EqualNoCase, QuoteSafe;
    var n, k := p + |item.sep|, ne - |name|;
    assert item.sep != [] ==> h[n - 1] == h[p..n][|item.sep| - 1];
    SameLength(item.name, name);
    if k < n {
      SepBetween(h, name, n, k, ne);
    } else if k == n {
      assert h[k..ne] == item.name;
    } else {
      assert h[k - 1] == h[n..ne][k - 1 - n] == item.name[k - 1 - n];
    }
  }

  /** A separator within what is compared is in no name. */
  lemma SepBetween(h: bytes, name: bytes, n: nat, k: nat, eq: nat)
    requires k < n <= eq <= |h| && k + |name| == eq && Tokens(name) && !IsToken(h[n - 1])
    ensures !EqualNoCase(h[k..eq], name)
  {
    hide IsToken;
    var x := n - 1 - k;
    assert h[k..eq][x] == h[n - 1];
    if ToLower(h[n - 1]) == ToLower(name[x]) { SameCaseToken(h[n - 1], name[x]); }
  }

  lemma SameLength(a: bytes, b: bytes)
    ensures EqualNoCase(a, b) ==> |a| == |b|
  {
  }

  /** A blank at the end of what is compared is in no name either. */
  lemma BlankEnds(h: bytes, name: bytes, key: nat)
    requires Tokens(name) && key < |h| && |name| <= key + 1 && IsSpace(h[key])
    ensures !EqualNoCase(h[key + 1 - |name|..key + 1], name)
  {
    var x := |name| - 1;
    assert h[key + 1 - |name|..key + 1][x] == h[key];
    if ToLower(h[key]) == ToLower(name[x]) { SameCaseToken(h[key], name[x]); }
  }

  /** What lies behind an item is found only if the item is passed over. */
  lemma LookPlaced(h: bytes, name: bytes, hdr: nat, p: nat, item: Item, ne: nat, eq: nat, val: nat, end: nat)
    requires NamePlaced(h, p, item, ne, eq) && ValuePlaced(h, eq, item, val, end)
    requires item.Legal() && Tokens(name) && |name| <= eq
    requires (hdr == p && h[hdr] != EQUALS) || (hdr + 1 == p && h[hdr] == DQUOTE)
    requires item.sep == [] ==> p == 0 || !IsToken(h[p - 1])
    ensures LookOnce(h, name, hdr)
            == if EqualNoCase(item.name, name) && !(hdr == p && item.sep == [] && item.pre != []) then
                 Stop(Found(item.value))
               else From(end)
  {
    hide NamePlaced, ValuePlaced, EqualsAt, BackUp, LookOnce, Compare, EqualNoCase, IsToken, Item.Legal, Item.Named;
    PlacedFits(h, p, item, ne, eq, val, end);
    LegalNamed(item);
    LookScan(h, name, hdr, p, item, ne, eq, val, end);
    BackUpOver(h, ne, eq - 1, hdr + |name|);
    var key := BackUp(h, eq - 1, hdr + |name|);
    if key == ne - 1 {
      BackedUp(h, name, hdr, p, item, ne, eq);
      SameLength(item.name, name);
      ComparePlaced(h, name, hdr, p, item, ne, eq, val, end);
    } else {
      BlankEnds(h, name, key);
      CompareBlank(h, name, hdr, key, val, end);
      ShortName(h, name, hdr, p, item, ne, eq);
    }
  }

  /** The scans in front of the comparison. */
  lemma LookScan(h: bytes, name: bytes, hdr: nat, p: nat, item: Item, ne: nat, eq: nat, val: nat, end: nat)
    requires NamePlaced(h, p, item, ne, eq) && ValuePlaced(h, eq, item, val, end)
    requires item.Legal() && name != [] && hdr <= eq < val <= end <= |h| && (item.quoted ==> end < |h|)
    requires (hdr == p && h[hdr] != EQUALS) || (hdr + 1 == p && h[hdr] == DQUOTE)
    requires val == eq + 1 + |item.post| + if item.quoted then 1 else 0
    ensures 0 < eq && LookOnce(h, name, hdr)
            == Compare(h, name, hdr, BackUp(h, eq - 1, hdr + |name|) - (|name| - 1), val, end)
  {
    hide NamePlaced, ValuePlaced, EqualsAt, BackUp, SpaceEnd, QuoteEnd, WordEnd, Compare, Item.Legal, Item.Named;
    LegalNamed(item);
    ScanName(h, hdr, p, item, ne, eq);
    ValueIsScanned(h, eq, item, val, end);
  }

  lemma PlacedFits(h: bytes, p: nat, item: Item, ne: nat, eq: nat, val: nat, end: nat)
    requires NamePlaced(h, p, item, ne, eq) && ValuePlaced(h, eq, item, val, end) && item.Legal()
    ensures p < ne <= eq < val <= end <= |h| && h[val..end] == item.value && (item.quoted ==> end < |h|)
    ensures val == eq + 1 + |item.post| + if item.quoted then 1 else 0
    ensures !IsSpace(h[ne - 1]) && forall i :: ne <= i < eq ==> IsSpace(h[i])
    ensures ne == p + |item.sep| + |item.name| && eq == ne + |item.pre|
  {
    hide QuoteSafe, IsToken, IsSpace, BareValue, EndsBare;
    var n := p + |item.sep|;
    assert h[ne - 1] == h[n..ne][|item.name| - 1];
    NoTokens(h[ne - 1]);
    assert forall i :: ne <= i < eq ==> h[i] == h[ne..eq][i - ne];
  }

  lemma CompareBlank(h: bytes, name: bytes, hdr: nat, key: nat, val: nat, end: nat)
    requires |name| <= key + 1 <= |h| && val <= end <= |h| && !EqualNoCase(h[key + 1 - |name|..key + 1], name)
    ensures Compare(h, name, hdr, key - (|name| - 1), val, end) == From(end)
  {
    hide EqualNoCase;
  }

  /** The name in front of blanks is reached wherever the one looked for has room. */
  lemma BackedUp(h: bytes, name: bytes, hdr: nat, p: nat, item: Item, ne: nat, eq: nat)
    requires item.Legal() && NamePlaced(h, p, item, ne, eq) && |name| <= eq && hdr <= p
    requires BackUp(h, eq - 1, hdr + |name|) == ne - 1
    ensures |name| <= ne && (eq > ne ==> hdr + |name| < ne)
  {
    hide QuoteSafe, IsToken;
    if eq > ne { BackUpLow(h, eq - 1, hdr + |name|); }
  }

  lemma BackUpLow(h: bytes, k: nat, low: nat)
    requires k < |h|
    ensures BackUp(h, k, low) < k ==> low <= BackUp(h, k, low)
    decreases k
  {
    if k > low && IsSpace(h[k]) && k > 0 { BackUpLow(h, k - 1, low); }
  }

  lemma ShortName(h: bytes, name: bytes, hdr: nat, p: nat, item: Item, ne: nat, eq: nat)
    requires NamePlaced(h, p, item, ne, eq) && item.Legal() && hdr <= p && ne <= hdr + |name|
    ensures EqualNoCase(item.name, name) ==> hdr == p && item.sep == []
  {
    SameLength(item.name, name);
  }

  /** The first item of a list lies at p, and the others behind it. */
  lemma PlaceItem(h: bytes, p: nat, items: seq<Item>, tail: bytes) returns (ne: nat, eq: nat, val: nat, end: nat)
    requires items != [] && Chained(items, tail) && Suffix(h, p, ListThen(items, tail))
    ensures var item := items[0];
      && item.Legal() && item.Named() && NamePlaced(h, p, item, ne, eq) && ValuePlaced(h, eq, item, val, end)
      && ne == p + |item.sep| + |item.name| && eq == ne + |item.pre| && p < ne && eq < val <= end <= |h|
      && h[p] != EQUALS && (item.quoted ==> end < |h| && h[end] == DQUOTE)
      && (!item.quoted && end < |h| ==> EndsValue(h[end]) && h[end] != EQUALS)
      && Suffix(h, if item.quoted then end + 1 else end, ListThen(items[1..], tail)) && Chained(items[1..], tail)
      && (!item.quoted ==> EndsBare(item.value, ListThen(items[1..], tail)))
  {
    hide NamePlaced, ValuePlaced, Suffix, Item.Legal, Item.Named, EndsBare;
    var item, more := items[0], ListThen(items[1..], tail);
    ne := p + |item.sep| + |item.name|;
    eq := ne + |item.pre|;
    val := eq + 1 + |item.post| + (if item.quoted then 1 else 0);
    end := val + |item.value|;
    PlaceName(h, p, item, item.post + (item.Shown() + more));
    PlaceValue(h, eq, item, more);
    PlacedFits(h, p, item, ne, eq, val, end);
    LegalNamed(item);
    FirstByte(h, p, item, ne, eq);
    BehindItem(h, eq, item, val, end);
  }

  /** The lookup over a list gives the first item with that name, or goes on behind the list. */
  lemma {:induction false} LookupList(h: bytes, name: bytes, hdr: nat, p: nat, items: seq<Item>, tail: bytes)
    returns (at: nat)
    requires Tokens(name) && Suffix(h, p, ListThen(items, tail)) && Chained(items, tail)
    requires (hdr == p && (p < |h| ==> h[p] != EQUALS)) || (hdr + 1 == p && h[hdr] == DQUOTE)
    requires items != [] ==> p + |items[0].sep| + |items[0].name| + |items[0].pre| >= |name|
    requires items != [] && items[0].sep == [] ==> p == 0 || hdr + 1 == p || h[p - 1] == EQUALS
    ensures at <= |h| && |tail| <= |h|
    ensures at == |h| - |tail| || (at + 1 == |h| - |tail| && h[at] == DQUOTE)
    ensures at == |h| - |tail| && items != [] && tail != [] ==> EndsValue(h[at])
    ensures at < |h| ==> h[at] != EQUALS
    ensures Suffix(h, |h| - |tail|, tail) && p <= |h| - |tail|
    ensures var first := First(if hdr == p then Visible(items) else items, name);
            Lookup(h, name, hdr) == if first.Found? then first else Lookup(h, name, at)
    ensures items == [] ==> at == hdr
    ensures items != [] ==> |name| <= at
    decreases items
  {
    hide LookOnce, EqualNoCase, NamePlaced, ValuePlaced, Suffix, Item.Legal, Item.Named, EndsBare, ListThen, Chained,
        IsToken;
    if items == [] {
      NoneListed(items, tail);
      SuffixFits(h, p, tail);
      at := hdr;
    } else {
      var item := items[0];
      var ne, eq, val, end := PlaceItem(h, p, items, tail);
      if p > 0 { NoTokens(h[p - 1]); }
      LookPlaced(h, name, hdr, p, item, ne, eq, val, end);
      if !item.quoted { SepBehind(item, items[1..], tail); }
      at := LookupList(h, name, end, if item.quoted then end + 1 else end, items[1..], tail);
    }
  }

  /** What stands behind a value without quotes begins with a separator. */
  lemma SepBehind(item: Item, more: seq<Item>, tail: bytes)
    requires EndsBare(item.value, ListThen(more, tail)) && Chained(more, tail)
    ensures more != [] ==> more[0].sep != []
  {
    hide QuoteSafe, BareValue, EndsValue, IsToken;
    if more != [] && more[0].sep == [] {
      var c := more[0].name[0];
      EndsNoToken(c);
      FirstOfName(more, tail);
      assert false;
    }
  }

  lemma FirstByte(h: bytes, p: nat, item: Item, ne: nat, eq: nat)
    requires NamePlaced(h, p, item, ne, eq) && item.Named()
    ensures h[p] != EQUALS
  {
    hide QuoteSafe, IsToken;
    var n := p + |item.sep|;
    if item.sep != [] { assert h[p] == h[p..n][0]; } else { assert h[p] == h[n..ne][0]; NoTokens(h[p]); }
  }

  lemma EndsNoToken(c: byte)
    ensures EndsValue(c) ==> !IsToken(c)
  {
  }

  lemma FirstOfName(items: seq<Item>, tail: bytes)
    requires items != [] && items[0].sep == [] && items[0].name != []
    ensures var t := ListThen(items, tail); t != [] && t[0] == items[0].name[0]
  {
  }

  lemma NoTokens(c: byte)
    ensures IsToken(c) ==> c != EQUALS && c != DQUOTE && !IsSpace(c)
  {
  }

  /** Behind an item the lookup goes on at its closing quote, or at what ends its value. */
  lemma BehindItem(h: bytes, eq: nat, item: Item, val: nat, end: nat)
    requires ValuePlaced(h, eq, item, val, end)
    ensures item.quoted ==> h[end] == DQUOTE
    ensures !item.quoted && end < |h| ==> EndsValue(h[end]) && h[end] != EQUALS
  {
    assert end < |h| ==> h[end] == h[end..][0];
  }

  lemma LookNothing(h: bytes, name: bytes, hdr: nat)
    requires name != [] && hdr <= |h| <= hdr + 1 && (hdr < |h| ==> h[hdr] != EQUALS)
    ensures Lookup(h, name, hdr) == Missing
  {
    assert hdr < |h| ==> EqualsAt(h, hdr) == EqualsAt(h, hdr + 1);
  }

  /** The lookup returns the text of the first attribute whose whole name matches, quoted or not,
      whatever the other values hold, when the first '=' has room for the name in front of it. */
  lemma AttributeOfList(items: seq<Item>, name: bytes)
    requires Tokens(name) && Chained(items, [])
    requires items != [] ==> |items[0].sep| + |items[0].name| + |items[0].pre| >= |name|
    ensures Attribute(List(items), name) == First(Visible(items), name)
  {
    hide Lookup, Item.Legal, EndsBare, Tokens;
    var h := List(items);
    assert h[0..] == h;
    if items != [] { ListFirst(items, []); }
    var at := LookupList(h, name, 0, 0, items, []);
    assert Tokens(name) ==> name != [] by { SomeName(name); }
    LookNothing(h, name, at);
    FirstKinds(Visible(items), name);
  }

  /** '=' at the very front are passed over. */
  lemma LeadingEquals(k: nat, items: seq<Item>, name: bytes)
    requires Tokens(name) && Chained(items, []) && items != []
    requires k + |items[0].sep| + |items[0].name| + |items[0].pre| >= |name|
    ensures Attribute(seq(k, i => EQUALS) + List(items), name) == First(Visible(items), name)
  {
    hide Lookup, Item.Legal, EndsBare, Tokens;
    var h := seq(k, i => EQUALS) + List(items);
    assert h[k..] == List(items);
    ListFirst(items, []);
    assert h[k] == h[k..][0];
    SkipAll(h, 0, k);
    var at := LookupList(h, name, k, k, items, []);
    SomeName(name);
    LookNothing(h, name, at);
    FirstKinds(Visible(items), name);
  }

  lemma SkipAll(h: bytes, i: nat, k: nat)
    requires i <= k < |h| && h[k] != EQUALS && forall j :: i <= j < k ==> h[j] == EQUALS
    ensures SkipEquals(h, i) == k
    decreases k - i
  {
    if i < k { SkipAll(h, i + 1, k); }
  }

  /** Where the first '=' has no room for the name, the library reads in front of the header. */
  lemma NoRoom(items: seq<Item>, name: bytes)
    requires Tokens(name) && Chained(items, []) && items != []
    requires |items[0].sep| + |items[0].name| + |items[0].pre| < |name|
    ensures Attribute(List(items), name) == OutOfBounds
  {
    hide Item.Legal, Item.Named, NamePlaced, ValuePlaced, Suffix, ListThen, EqualsAt, SpaceEnd, WordEnd, QuoteEnd,
        Tokens, Chained, Attribute;
    var h, item := List(items), items[0];
    SuffixWhole(h);
    var ne, eq, val, end := PlaceItem(h, 0, items, []);
    ScanName(h, 0, 0, item, ne, eq);
    ValueIsScanned(h, eq, item, val, end);
    PlacedFits(h, 0, item, ne, eq, val, end);
    LookOutside(h, name, eq, val, end, item.quoted);
  }

  lemma LookOutside(h: bytes, name: bytes, eq: nat, val: nat, end: nat, quoted: bool)
    requires h != [] && h[0] != EQUALS && EqualsAt(h, 0) == eq < |h| && 0 < eq < |name| && end <= |h|
    requires var v := SpaceEnd(h, eq + 1);
      && (v < |h| && h[v] == DQUOTE <==> quoted) && val == (if quoted then v + 1 else v) && (quoted ==> end < |h|)
      && end == if quoted then QuoteEnd(h, val) else WordEnd(h, val)
    ensures Attribute(h, name) == OutOfBounds
  {
    hide EqualsAt, SpaceEnd, WordEnd, QuoteEnd;
  }

  lemma NoneListed(items: seq<Item>, tail: bytes)
    ensures items == [] ==> ListThen(items, tail) == tail
  {
  }

  lemma SuffixWhole(h: bytes)
    ensures Suffix(h, 0, h)
  {
    assert h[0..] == h;
  }

  lemma LegalNamed(item: Item)
    requires item.Legal()
    ensures item.Named()
  {
  }

  /** No quote that is not escaped. */
  predicate Unclosed(text: bytes) {
    text == []
    || if text[0] == BACKSLASH && |text| > 1 then Unclosed(text[2..]) else text[0] != DQUOTE && Unclosed(text[1..])
  }

  lemma {:induction false} UnclosedScan(h: bytes, i: nat, text: bytes)
    requires Suffix(h, i, text) && Unclosed(text)
    ensures QuoteEnd(h, i) == |h|
    decreases |text|
  {
    if text != [] {
      assert h[i] == h[i..][0];
      var n := if text[0] == BACKSLASH && |text| > 1 then 2 else 1;
      assert h[i + n..] == text[n..];
      UnclosedScan(h, i + n, text[n..]);
    }
  }

  /** A quote that is not closed ends the lookup for every name that was not found before. */
  lemma UnclosedQuote(items: seq<Item>, bad: Item, text: bytes, name: bytes)
    requires var tail := bad.Open([DQUOTE] + text);
        Tokens(name) && Chained(items, tail) && bad.Named() && Unclosed(text)
    requires var first := if items == [] then bad else items[0]; |first.sep| + |first.name| + |first.pre| >= |name|
    ensures Attribute(ListThen(items, bad.Open([DQUOTE] + text)), name)
            == if First(Visible(items), name).Found? then First(Visible(items), name) else Unterminated
  {
    hide Lookup, Item.Legal, EndsBare, Tokens, NamePlaced, Unclosed, Suffix;
    var tail := bad.Open([DQUOTE] + text);
    var h := ListThen(items, tail);
    SuffixWhole(h);
    if items != [] {
      ListFirst(items, tail);
    } else {
      PlaceName(h, 0, bad, bad.post + ([DQUOTE] + text));
      FirstByte(h, 0, bad, |bad.sep| + |bad.name|, |bad.sep| + |bad.name| + |bad.pre|);
    }
    var at := LookupList(h, name, 0, 0, items, tail);
    SomeName(name);
    UnclosedStops(h, name, at, |h| - |tail|, bad, text);
  }

  lemma UnclosedStops(h: bytes, name: bytes, hdr: nat, p: nat, bad: Item, text: bytes)
    requires name != [] && Suffix(h, p, bad.Open([DQUOTE] + text)) && bad.Named() && Unclosed(text)
    requires hdr == p || (hdr + 1 == p && h[hdr] == DQUOTE)
    requires hdr < |h| && h[hdr] != EQUALS
    ensures Lookup(h, name, hdr) == Unterminated
  {
    hide NamePlaced, Unclosed, Suffix, EqualsAt, QuoteEnd, SpaceEnd, Item.Named;
    var ne := p + |bad.sep| + |bad.name|;
    var eq := ne + |bad.pre|;
    var v := eq + 1 + |bad.post|;
    PlaceName(h, p, bad, bad.post + ([DQUOTE] + text));
    ScanName(h, hdr, p, bad, ne, eq);
    SuffixPeel(h, eq + 1, bad.post, [DQUOTE] + text);
    SuffixFits(h, v, [DQUOTE] + text);
    SuffixPeel(h, v, [DQUOTE], text);
    UnclosedScan(h, v + 1, text);
    PostIsBlank(h, eq, bad, v);
    EqFits(h, p, bad, ne, eq);
    LookUnclosed(h, name, hdr, eq, v);
  }

  lemma LookUnclosed(h: bytes, name: bytes, hdr: nat, eq: nat, v: nat)
    requires name != [] && hdr < eq < |h| && h[hdr] != EQUALS && EqualsAt(h, hdr) == eq
    requires eq < v < |h| && SpaceEnd(h, eq + 1) == v && h[v] == DQUOTE && QuoteEnd(h, v + 1) == |h|
    ensures Lookup(h, name, hdr) == Unterminated
  {
    hide EqualsAt, SpaceEnd, QuoteEnd;
  }

  lemma EqFits(h: bytes, p: nat, item: Item, ne: nat, eq: nat)
    requires NamePlaced(h, p, item, ne, eq)
    ensures p <= ne <= eq < |h|
  {
  }

  lemma PostIsBlank(h: bytes, eq: nat, item: Item, v: nat)
    requires item.Named() && v == eq + 1 + |item.post| < |h| && h[eq + 1..v] == item.post && h[v] == DQUOTE
    ensures SpaceEnd(h, eq + 1) == v
  {
    assert forall k :: eq + 1 <= k < v ==> h[k] == h[eq + 1..v][k - eq - 1];
    SpaceEndIs(h, eq + 1, v);
  }

  lemma SomeName(name: bytes)
    ensures Tokens(name) ==> name != []
  {
  }

  lemma {:induction false} FirstKinds(items: seq<Item>, name: bytes)
    ensures First(items, name).Found? || First(items, name).Missing?
  {
    if items != [] { FirstKinds(items[1..], name); }
  }

  lemma ListFirst(items: seq<Item>, tail: bytes)
    requires Chained(items, tail) && items != []
    ensures var h := ListThen(items, tail); h != [] && h[0] != EQUALS
  {
    hide QuoteSafe, IsToken;
    if items[0].sep == [] {
      FirstOfName(items, tail);
      NoTokens(items[0].name[0]);
    }
  }
}

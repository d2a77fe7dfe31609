/** Searching a stream for a delimiter: apreq_index and the resumable split_on_bdry. */
module Boundary {
  import opened Bytes
  import opened Brigades
  import opened Statuses
  import opened Sequences

  /** No delimiter, whole or cut off by the end of s, starts between m and n. */
  ghost predicate NoneBetween(p: bytes, s: bytes, m: nat, n: nat) {
    n <= |s| && forall i {:trigger s[i..]} :: m <= i < n ==> !Agree(p, s[i..])
  }

  /** No delimiter occurs whole in s. */
  ghost predicate Absent(p: bytes, s: bytes) {
    forall i {:trigger s[i..]} :: 0 <= i <= |s| ==> !(p <= s[i..])
  }

  method MemChr(d: bytes, from: nat, c: byte) returns (i: int)
    requires from <= |d|
    ensures i == -1 ==> forall k :: from <= k < |d| ==> d[k] != c
    ensures i != -1 ==> from <= i < |d| && d[i] == c && forall k :: from <= k < i ==> d[k] != c
  {
    i := from;
    while i < |d|
      invariant from <= i <= |d|
      invariant forall k :: from <= k < i ==> d[k] != c
    {
      if d[i] == c { return; }
      i := i + 1;
    }
    i := -1;
  }

  /** apreq_index: with `full`, the first whole occurrence; otherwise the first position from
      which d and the needle agree as far as both reach. */
  method Index(d: bytes, p: bytes, full: bool) returns (r: int)
    requires p != []
    ensures -1 <= r < |d|
    ensures !full && r >= 0 ==> NoneBetween(p, d, 0, r) && Agree(p, d[r..])
    ensures !full && r == -1 ==> NoneBetween(p, d, 0, |d|)
    ensures full && r >= 0 ==> p <= d[r..] && NoneBetween(p, d, 0, r)
    ensures full && r == -1 ==> Absent(p, d)
  {
    var hay := MemChr(d, 0, p[0]);
    while hay != -1
      invariant hay != -1 ==> 0 <= hay < |d| && d[hay] == p[0] && NoneBetween(p, d, 0, hay)
      invariant hay == -1 ==> NoneBetween(p, d, 0, |d|)
      decreases if hay == -1 then 0 else |d| - hay
    {
      var len := |d| - hay;
      if Agree(p, d[hay..]) {
        if full && len < |p| {
          forall i | 0 <= i <= |d| ensures !(p <= d[i..]) {
            if i < hay { assert !Agree(p, d[i..]); }
          }
          hay := -1;
          return -1;
        }
        assert p <= d[hay..] || len < |p|;
        return hay;
      }
      var next := MemChr(d, hay + 1, p[0]);
      forall i | 0 <= i < (if next == -1 then |d| else next) ensures !Agree(p, d[i..]) {
        if i > hay { assert d[i..][0] == d[i]; }
      }
      hay := next;
    }
    forall i | 0 <= i <= |d| ensures !(p <= d[i..]) {
      if i < |d| { assert !Agree(p, d[i..]); }
    }
    return -1;
  }

  /** First position of d, at or after i, from which the needle agrees with d. */
  function FirstAgree(p: bytes, d: bytes, i: nat): (r: nat)
    requires i <= |d|
    ensures i <= r <= |d|
    ensures r < |d| ==> Agree(p, d[r..])
    ensures forall k {:trigger d[k..]} :: i <= k < r ==> !Agree(p, d[k..])
    decreases |d| - i
  {
    if i == |d| || Agree(p, d[i..]) then i else FirstAgree(p, d, i + 1)
  }

  /** A brigade in the middle of split_on_bdry: bytes already passed to `out`, the buckets held
      by a partial match in progress, and the buckets not looked at yet. */
  datatype Cut = Cut(out: bytes, held: seq<Bucket>, rest: seq<Bucket>)
  {
    /** All the bytes, in order. */
    function Total(): bytes { out + (Live(held) + Live(rest)) }

    ghost predicate Valid(p: bytes) { !HasEos(held) && Live(held) < p }
  }

  datatype Scanned =
    | Found(out: bytes, inn: seq<Bucket>)
    | More(out: bytes, inn: seq<Bucket>)
    | AtEos(out: bytes, inn: seq<Bucket>)
  {
    function Total(p: bytes): bytes { out + ((if Found? then p else []) + Live(inn)) }
  }

  datatype Move = Stop(r: Scanned) | Go(c: Cut)

  function Size(bs: seq<Bucket>): nat {
    if bs == [] then 0 else (if bs[0].Data? then |bs[0].data| else 0) + Size(bs[1..])
  }

  /** A brigade whose first bucket d has lost its first i bytes, and the bucket if it was all. */
  function Advance(d: bytes, i: nat, rest: seq<Bucket>): seq<Bucket>
    requires i <= |d|
  {
    if i == |d| then rest else [Data(d[i..])] + rest
  }

  lemma AdvanceLive(d: bytes, i: nat, rest: seq<Bucket>)
    requires i <= |d|
    ensures Live(Advance(d, i, rest)) == d[i..] + Live(rest)
    ensures Size(Advance(d, i, rest)) == |d| - i + Size(rest)
  {
    if i < |d| { assert ([Data(d[i..])] + rest)[1..] == rest; }
  }

  /** One turn of the loop of split_on_bdry. A failed match moves the held buckets across
      unseen and tests the same bucket against the whole delimiter. */
  function Step(p: bytes, c: Cut): Move {
    if c.rest == [] then Stop(More(c.out, c.held))
    else if c.rest[0].Eos? then Stop(AtEos(c.out, c.held + c.rest))
    else
      var d, off, rest := c.rest[0].data, |Live(c.held)|, c.rest[1..];
      if d == [] then Go(c.(rest := rest))
      else if off <= |p| && Agree(p[off..], d) then
        if |d| >= |p| - off then Stop(Found(c.out, Advance(d, |p| - off, rest)))
        else Go(c.(held := c.held + [c.rest[0]], rest := rest))
      else if c.held != [] then Go(Cut(c.out + Live(c.held), [], c.rest))
      else
        var i := FirstAgree(p, d, 0);
        Go(Cut(c.out + d[..i], [], Advance(d, i, rest)))
  }

  lemma StepDecreases(p: bytes, c: Cut)
    ensures Step(p, c).Go? ==>
      var n := Step(p, c).c;
      Size(n.rest) < Size(c.rest)
      || (Size(n.rest) == Size(c.rest) && (|n.rest| < |c.rest| || (n.rest == c.rest && |n.held| < |c.held|)))
  {
    if Step(p, c).Go? && c.rest[0].data != [] && c.held == [] {
      var d := c.rest[0].data;
      assert p[0..] == p && d[0..] == d;
      AdvanceLive(d, FirstAgree(p, d, 0), c.rest[1..]);
    }
  }

  /** split_on_bdry on a brigade, run to its end. */
  function Scan(p: bytes, c: Cut): Scanned
    decreases Size(c.rest), |c.rest|, |c.held|
  {
    StepDecreases(p, c);
    match Step(p, c)
    case Stop(r) => r
    case Go(n) => Scan(p, n)
  }

  /** One turn keeps every byte in its place. */
  ghost predicate Kept(p: bytes, c: Cut) {
    match Step(p, c)
    case Go(n) => n.Valid(p) && n.Total() == c.Total() && c.out <= n.out
    case Stop(r) => r.Total(p) == c.Total() && r.out == c.out && (!r.Found? ==> Live(r.inn) < p)
  }

  ghost predicate AtData(p: bytes, c: Cut) {
    c.Valid(p) && c.rest != [] && c.rest[0].Data? && c.rest[0].data != []
  }

  lemma EndKeeps(p: bytes, c: Cut)
    requires c.Valid(p) && (c.rest == [] || c.rest[0].Eos?)
    ensures Kept(p, c)
  {
    LiveAppend(c.held, c.rest);
  }

  lemma EmptyKeeps(p: bytes, c: Cut)
    requires c.Valid(p) && c.rest != [] && c.rest[0].Data? && c.rest[0].data == []
    ensures Kept(p, c)
  {
    assert [] + Live(c.rest[1..]) == Live(c.rest[1..]);
  }

  lemma FoundKeeps(p: bytes, c: Cut)
    requires AtData(p, c) && Agree(p[|Live(c.held)|..], c.rest[0].data)
    requires |c.rest[0].data| >= |p| - |Live(c.held)|
    ensures Kept(p, c)
  {
    var h, d, rest := Live(c.held), c.rest[0].data, c.rest[1..];
    var k := |p| - |h|;
    AdvanceLive(d, k, rest);
    TakeDrop(d, k, Live(rest));
    Regroup(h, d[..k], d[k..] + Live(rest));
    assert d[..k] == p[|h|..];
    assert h + p[|h|..] == p;
  }

  lemma HeldKeeps(p: bytes, c: Cut)
    requires AtData(p, c) && Agree(p[|Live(c.held)|..], c.rest[0].data)
    requires |c.rest[0].data| < |p| - |Live(c.held)|
    ensures Kept(p, c)
  {
    var h, d := Live(c.held), c.rest[0].data;
    LiveSnoc(c.held, c.rest[0]);
    assert p[..|h| + |d|] == h + d by {
      assert p[|h|..][..|d|] == d;
    }
    Regroup(h, d, Live(c.rest[1..]));
  }

  lemma RestartKeeps(p: bytes, c: Cut)
    requires AtData(p, c) && !Agree(p[|Live(c.held)|..], c.rest[0].data) && c.held != []
    ensures Kept(p, c)
  {
    Regroup(c.out, Live(c.held), Live(c.rest));
    assert [] + Live(c.rest) == Live(c.rest);
  }

  lemma IndexKeeps(p: bytes, c: Cut)
    requires AtData(p, c) && !Agree(p[|Live(c.held)|..], c.rest[0].data) && c.held == []
    ensures Kept(p, c)
  {
    var d, rest := c.rest[0].data, c.rest[1..];
    var i := FirstAgree(p, d, 0);
    AdvanceLive(d, i, rest);
    TakeDrop(d, i, Live(rest));
    Regroup(c.out, d[..i], d[i..] + Live(rest));
    assert [] + Live(Advance(d, i, rest)) == Live(Advance(d, i, rest));
    assert [] + Live(c.rest) == Live(c.rest);
  }

  /** One turn keeps every byte in its place, whatever the delimiter. */
  lemma StepKeeps(p: bytes, c: Cut)
    requires c.Valid(p)
    ensures Kept(p, c)
  {
    if c.rest == [] || c.rest[0].Eos? {
      EndKeeps(p, c);
    } else if c.rest[0].data == [] {
      EmptyKeeps(p, c);
    } else if Agree(p[|Live(c.held)|..], c.rest[0].data) {
      if |c.rest[0].data| >= |p| - |Live(c.held)| {
        FoundKeeps(p, c);
      } else {
        HeldKeeps(p, c);
      }
    } else if c.held != [] {
      RestartKeeps(p, c);
    } else {
      IndexKeeps(p, c);
    }
  }

  /** Restarting a failed match behind the matched bytes loses nothing: wherever the first
      byte of the delimiter recurs in it, all that follows is a prefix of it as well. */
  ghost predicate RestartSafe(p: bytes) {
    p != [] && forall j :: 0 < j < |p| && p[j] == p[0] ==> p[j..] <= p
  }

  lemma Misses(p: bytes, s: bytes, j: nat, x: nat)
    requires x < |p| && j + x < |s| && p[x] != s[j + x]
    ensures !Agree(p, s[j..])
  {
    assert s[j..][x] == s[j + x];
  }

  /** Where a failed partial match at m cannot be resumed i bytes on. */
  lemma RestartMisses(p: bytes, off: nat, d: bytes, s: bytes, m: nat, i: nat, k: nat)
    requires RestartSafe(p) && i < off <= |p| && m + off + |d| <= |s|
    requires s[m..m + off] == p[..off] && s[m + off..m + off + |d|] == d
    requires off + k < |p| && k < |d| && p[off + k] != d[k]
    ensures !Agree(p, s[m + i..])
  {
    assert s[m + i] == s[m..m + off][i] == p[i];
    assert s[m + off + k] == s[m + off..m + off + |d|][k] == d[k];
    if p[i] == p[0] {
      assert p[off - i + k] == p[i..][off - i + k] == p[off + k];
      Misses(p, s, m + i, off - i + k);
    } else {
      Misses(p, s, m + i, 0);
    }
  }

  /** A failed partial match holds no start of the delimiter. */
  lemma RestartLosesNothing(p: bytes, off: nat, d: bytes, s: bytes, m: nat)
    requires RestartSafe(p) && off < |p| && !Agree(p[off..], d) && m + off + |d| <= |s|
    requires s[m..m + off] == p[..off] && s[m + off..m + off + |d|] == d
    ensures NoneBetween(p, s, m, m + off)
  {
    var k :| 0 <= k < |p[off..]| && k < |d| && p[off..][k] != d[k];
    forall j | m <= j < m + off ensures !Agree(p, s[j..]) {
      RestartMisses(p, off, d, s, m, j - m, k);
    }
  }

  /** Bytes passed over by the search in one bucket hold no start of the delimiter. */
  lemma IndexLosesNothing(p: bytes, d: bytes, s: bytes, m: nat)
    requires m + |d| <= |s| && s[m..m + |d|] == d
    ensures NoneBetween(p, s, m, m + FirstAgree(p, d, 0))
  {
    forall j | m <= j < m + FirstAgree(p, d, 0) ensures !Agree(p, s[j..]) {
      var i := j - m;
      assert !Agree(p, d[i..]);
      var k :| 0 <= k < |p| && k < |d[i..]| && p[k] != d[i..][k];
      assert s[j + k] == s[m..m + |d|][i + k];
      Misses(p, s, j, k);
    }
  }

  lemma StepLosesNothing(p: bytes, c: Cut)
    requires RestartSafe(p) && c.Valid(p) && Step(p, c).Go?
    ensures NoneBetween(p, c.Total(), |c.out|, |Step(p, c).c.out|)
  {
    var d, off, s, m := c.rest[0].data, |Live(c.held)|, c.Total(), |c.out|;
    assert s == c.out + Live(c.held) + d + Live(c.rest[1..]);
    assert s[m..m + off] == Live(c.held) && s[m + off..m + off + |d|] == d;
    if d != [] && !Agree(p[off..], d) {
      if c.held != [] {
        RestartLosesNothing(p, off, d, s, m);
      } else {
        IndexLosesNothing(p, d, s, m);
      }
    }
  }

  /** Whatever the delimiter and the layout, no byte is lost, added or moved. */
  lemma {:induction false} ScanConserves(p: bytes, c: Cut)
    requires c.Valid(p)
    ensures var r := Scan(p, c);
            r.Total(p) == c.Total() && c.out <= r.out && (!r.Found? ==> Live(r.inn) < p)
    decreases Size(c.rest), |c.rest|, |c.held|
  {
    StepDecreases(p, c);
    StepKeeps(p, c);
    if Step(p, c).Go? { ScanConserves(p, Step(p, c).c); }
  }

  /** For a restart-safe delimiter the cut is at the first occurrence on every bucket layout,
      and without one just the suffix that may yet become one is held back. */
  lemma {:induction false} ScanExact(p: bytes, c: Cut)
    requires RestartSafe(p) && c.Valid(p)
    ensures NoneBetween(p, c.Total(), |c.out|, |Scan(p, c).out|)
    decreases Size(c.rest), |c.rest|, |c.held|
  {
    StepDecreases(p, c);
    StepKeeps(p, c);
    if Step(p, c).Go? {
      StepLosesNothing(p, c);
      ScanExact(p, Step(p, c).c);
    }
  }

  /** For any delimiter the splitter is exact on a stream that, up to m free of the delimiter's
      first byte, goes on with the delimiter or is still too short to tell. */
  lemma {:induction false} ScanClean(p: bytes, c: Cut, m: nat)
    requires p != [] && c.Valid(p) && |c.out| <= m <= |c.Total()|
    requires p[0] !in c.Total()[|c.out|..m] && Agree(p, c.Total()[m..])
    requires c.held != [] ==> m == |c.out|
    ensures |Scan(p, c).out| == m
    decreases Size(c.rest), |c.rest|, |c.held|
  {
    StepDecreases(p, c);
    StepKeeps(p, c);
    CleanStep(p, c, m);
    if Step(p, c).Go? {
      assert c.Total()[|Step(p, c).c.out|..m] == c.Total()[|c.out|..m][|Step(p, c).c.out| - |c.out|..];
      ScanClean(p, Step(p, c).c, m);
    }
  }

  lemma CleanStep(p: bytes, c: Cut, m: nat)
    requires p != [] && c.Valid(p) && |c.out| <= m <= |c.Total()|
    requires p[0] !in c.Total()[|c.out|..m] && Agree(p, c.Total()[m..])
    requires c.held != [] ==> m == |c.out|
    ensures match Step(p, c)
            case Go(n) => |n.out| <= m && (n.held != [] ==> m == |n.out|)
            case Stop(r) => m == |c.out|
  {
    if c.rest != [] && c.rest[0].Data? && c.rest[0].data != [] {
      var d, h, tail, k := c.rest[0].data, Live(c.held), Live(c.rest[1..]), m - |c.out|;
      var u := c.Total()[|c.out|..];
      assert u == h + (d + tail);
      assert c.Total()[|c.out|..m] == u[..k] && c.Total()[m..] == u[k..];
      if h == [] {
        assert u == d + tail;
        CleanFirst(p, d, tail, k);
      } else {
        assert u[0..] == u;
        AgreeBehind(p, h, d + tail);
        AgreeLess(p[|h|..], d, tail);
      }
    }
  }

  lemma CleanFirst(p: bytes, d: bytes, tail: bytes, k: nat)
    requires p != [] && d != [] && k <= |d + tail| && p[0] !in (d + tail)[..k] && Agree(p, (d + tail)[k..])
    ensures FirstAgree(p, d, 0) <= k && (Agree(p, d) ==> k == 0)
  {
    assert k > 0 ==> (d + tail)[..k][0] == d[0];
    if k < |d| {
      DropAppend(d, tail, k);
      AgreeLess(p, d[k..], tail);
    }
  }

  lemma AgreeLess(p: bytes, d: bytes, t: bytes)
    requires Agree(p, d + t)
    ensures Agree(p, d)
  {
    forall k | 0 <= k < |p| && k < |d| ensures p[k] == d[k] {
      assert (d + t)[k] == d[k];
    }
  }

  lemma AgreeBehind(p: bytes, h: bytes, t: bytes)
    requires |h| <= |p| && Agree(p, h + t)
    ensures Agree(p[|h|..], t)
  {
    forall k | 0 <= k < |p[|h|..]| && k < |t| ensures p[|h|..][k] == t[k] {
      assert (h + t)[|h| + k] == t[k];
    }
  }

  /** The cut a reader of RFC 2046 expects of stream s. */
  ghost predicate ExactCut(p: bytes, s: bytes, r: Scanned) {
    r.Total(p) == s && NoneBetween(p, s, 0, |r.out|) && (!r.Found? ==> Live(r.inn) < p)
  }

  ghost predicate ExactSplitter(p: bytes) {
    forall bs: seq<Bucket> :: !HasEos(bs) ==> ExactCut(p, Live(bs), Scan(p, Cut([], [], bs)))
  }

  /** A delimiter that is not restart-safe is missed on the layout that cuts its repeated
      beginning in two. */
  lemma UnsafeIsInexact(p: bytes, j: nat)
    requires 0 < j < |p| && p[j] == p[0] && !(p[j..] <= p)
    ensures var bs := [Data(p[..j + 1]), Data(p[1..])];
            !HasEos(bs) && p <= Live(bs)[j..] && !ExactCut(p, Live(bs), Scan(p, Cut([], [], bs)))
  {
    var d0, d1 := p[..j + 1], p[1..];
    var bs, c := [Data(d0), Data(d1)], Cut(d0, [], [Data(d1)]);
    UnsafeFirstSteps(p, j);
    ScanConserves(p, c);
    UnsafeStream(p, j);
    assert |Scan(p, c).out| > j;
    AgreeWhole(p, Live(bs)[j..]);
  }

  lemma UnsafeStream(p: bytes, j: nat)
    requires 0 < j < |p| && p[j] == p[0]
    ensures var d0, d1 := p[..j + 1], p[1..]; var s := Live([Data(d0), Data(d1)]);
            j <= |s| && s[j..] == p
  {
    var d0, d1 := p[..j + 1], p[1..];
    assert [Data(d0), Data(d1)][1..] == [Data(d1)] && [Data(d1)][1..] == [];
    assert Live([Data(d1)]) == d1 + Live([]) == d1;
    assert Live([Data(d0), Data(d1)]) == d0 + d1;
    DropAppend(d0, d1, j);
    assert d0[j..] == [p[0]];
  }

  lemma UnsafeFirstSteps(p: bytes, j: nat)
    requires 0 < j < |p| && p[j] == p[0] && !(p[j..] <= p)
    ensures var d0, d1 := p[..j + 1], p[1..];
            Scan(p, Cut([], [], [Data(d0), Data(d1)])) == Scan(p, Cut(d0, [], [Data(d1)]))
  {
    var d0, d1 := p[..j + 1], p[1..];
    var c0, c1, c2 := Cut([], [], [Data(d0), Data(d1)]), Cut([], [Data(d0)], [Data(d1)]), Cut(d0, [], [Data(d1)]);
    assert [Data(d0)] + [Data(d1)] == [Data(d0), Data(d1)];
    HoldsPrefix(p, j + 1, [Data(d1)]);
    ScanGo(p, c0, c1);
    NotAgain(p, j);
    LetsGo(p, d0, d1);
    ScanGo(p, c1, c2);
  }

  lemma ScanGo(p: bytes, c: Cut, n: Cut)
    requires Step(p, c) == Go(n)
    ensures Scan(p, c) == Scan(p, n)
  {
  }

  lemma HoldsPrefix(p: bytes, n: nat, tail: seq<Bucket>)
    requires 0 < n <= |p| && p[n - 1] == p[0] && !(p[n - 1..] <= p)
    ensures Step(p, Cut([], [], [Data(p[..n])] + tail)) == Go(Cut([], [Data(p[..n])], tail))
  {
    var bs := [Data(p[..n])] + tail;
    assert bs[1..] == tail && p[0..] == p && [] + [bs[0]] == [bs[0]];
    assert p[n - 1..n] == p[..1];
  }

  lemma LetsGo(p: bytes, d0: bytes, d1: bytes)
    requires d1 != [] && |d0| <= |p| && !Agree(p[|d0|..], d1)
    ensures Step(p, Cut([], [Data(d0)], [Data(d1)])) == Go(Cut(d0, [], [Data(d1)]))
  {
    assert [Data(d0)][1..] == [] && Live([Data(d0)]) == d0 + Live([]) == d0;
    assert [] + d0 == d0;
  }

  lemma NotAgain(p: bytes, j: nat)
    requires 0 < j < |p| && p[j] == p[0] && !(p[j..] <= p)
    ensures !Agree(p[j + 1..], p[1..])
  {
    var k := NotPrefix(p[j..], p);
    assert p[j + 1..][k - 1] == p[j..][k] && p[1..][k - 1] == p[k];
  }

  lemma NotPrefix(a: bytes, b: bytes) returns (k: nat)
    requires |a| <= |b| && !(a <= b)
    ensures k < |a| && a[k] != b[k]
  {
    k :| 0 <= k < |a| && a[k] != b[k];
  }

  /** The splitter is exact on every layout of every stream if and only if its delimiter is
      restart-safe. */
  lemma ExactIffRestartSafe(p: bytes)
    requires p != []
    ensures ExactSplitter(p) <==> RestartSafe(p)
  {
    if RestartSafe(p) {
      forall bs: seq<Bucket> | !HasEos(bs) ensures ExactCut(p, Live(bs), Scan(p, Cut([], [], bs))) {
        var c := Cut([], [], bs);
        assert c.Total() == Live(bs);
        ScanConserves(p, c);
        ScanExact(p, c);
      }
    } else {
      var j :| 0 < j < |p| && p[j] == p[0] && !(p[j..] <= p);
      UnsafeIsInexact(p, j);
    }
  }

  /** The delimiters after MFD_INIT are safe; the one of MFD_INIT only if it is all dashes. */
  lemma DelimiterSafety(token: bytes)
    ensures RestartSafe(CRLF)
    ensures CR !in token ==> RestartSafe(CRLF + DASHES + token)
    ensures RestartSafe(DASHES + token) <==> forall k :: 0 <= k < |token| ==> token[k] == DASH
  {
    var p, q := CRLF + DASHES + token, DASHES + token;
    forall j | 0 < j < |p| && CR !in token ensures p[j] != p[0] {
      if j >= 4 { assert p[j] == token[j - 4]; }
    }
    if forall k :: 0 <= k < |token| ==> token[k] == DASH {
      forall k | 0 <= k < |q| ensures q[k] == DASH {
        if k >= 2 { assert q[k] == token[k - 2]; }
      }
    } else if RestartSafe(q) {
      assert q[1] == q[0] && q[1..] <= q;
      forall k | 0 <= k < |token| ensures token[k] == DASH {
        AllDashes(q, k + 2);
        assert q[k + 2] == token[k];
      }
    }
  }

  lemma {:induction false} AllDashes(q: bytes, k: nat)
    requires 1 < |q| && q[1..] <= q && q[0] == DASH && k < |q|
    ensures q[k] == DASH
  {
    if k > 0 {
      AllDashes(q, k - 1);
      assert q[k] == q[1..][k - 1];
    }
  }

  lemma AgreeWhole(p: bytes, t: bytes)
    requires |p| <= |t|
    ensures Agree(p, t) <==> p <= t
  {
    if Agree(p, t) { assert p == t[..|p|]; }
  }

  lemma FirstAgreeIs(p: bytes, d: bytes, r: nat)
    requires NoneBetween(p, d, 0, r) && (r < |d| ==> Agree(p, d[r..]))
    ensures r == FirstAgree(p, d, 0)
  {
  }

  /** The search of one bucket: apr_strmatch over the whole of it, then apreq_index over its
      last |p| bytes, or apreq_index alone. */
  method SearchBucket(d: bytes, p: bytes, pattern: bool) returns (idx: int)
    requires p != []
    ensures idx == if FirstAgree(p, d, 0) == |d| then -1 else FirstAgree(p, d, 0)
  {
    if pattern && |d| >= |p| {
      idx := Index(d, p, true);
      if idx == -1 {
        var base := |d| - |p|;
        idx := Index(d[base..], p, false);
        ghost var i := if idx >= 0 then base + idx else |d|;
        forall k | 0 <= k < i ensures !Agree(p, d[k..]) {
          if k >= base { assert d[base..][k - base..] == d[k..]; }
          else { AgreeWhole(p, d[k..]); }
        }
        if idx >= 0 {
          assert d[base..][idx..] == d[i..];
          idx := base + idx;
        }
        FirstAgreeIs(p, d, i);
      } else {
        FirstAgreeIs(p, d, idx);
      }
    } else {
      idx := Index(d, p, false);
      FirstAgreeIs(p, d, if idx >= 0 then idx else |d|);
    }
  }

  /** The state of split_on_bdry's loop: the cursor is at bucket e of the brigade bs. */
  function At(out: seq<Bucket>, bs: seq<Bucket>, e: nat): Cut
    requires e <= |bs|
  {
    Cut(Live(out), bs[..e], bs[e..])
  }

  lemma TurnEmpty(p: bytes, out: seq<Bucket>, bs: seq<Bucket>, e: nat)
    requires e < |bs| && bs[e].Data? && bs[e].data == []
    ensures Step(p, At(out, bs, e)) == Go(At(out, bs[..e] + bs[e + 1..], e))
  {
    var bs' := bs[..e] + bs[e + 1..];
    assert bs'[..e] == bs[..e] && bs'[e..] == bs[e + 1..] == bs[e..][1..];
  }

  lemma TurnHeld(p: bytes, out: seq<Bucket>, bs: seq<Bucket>, e: nat)
    requires e < |bs| && At(out, bs, e).Valid(p) && bs[e].Data? && bs[e].data != []
    requires var off := |Live(bs[..e])|; Agree(p[off..], bs[e].data) && |bs[e].data| < |p| - off
    ensures Step(p, At(out, bs, e)) == Go(At(out, bs, e + 1))
    ensures Live(bs[..e + 1]) == Live(bs[..e]) + bs[e].data
  {
    LiveSnoc(bs[..e], bs[e]);
    assert bs[..e] + [bs[e]] == bs[..e + 1] && bs[e..][1..] == bs[e + 1..];
  }

  lemma TurnRestart(p: bytes, out: seq<Bucket>, bs: seq<Bucket>, e: nat)
    requires 0 < e < |bs| && At(out, bs, e).Valid(p) && bs[e].Data? && bs[e].data != [] && !HasEos(out)
    requires !Agree(p[|Live(bs[..e])|..], bs[e].data)
    ensures Step(p, At(out, bs, e)) == Go(At(out + bs[..e], bs[e..], 0))
  {
    LiveAppend(out, bs[..e]);
    assert bs[e..][..0] == [] && bs[e..][0..] == bs[e..];
  }

  lemma TurnIndex(p: bytes, out: seq<Bucket>, bs: seq<Bucket>)
    requires p != [] && bs != [] && bs[0].Data? && bs[0].data != [] && !HasEos(out) && !Agree(p, bs[0].data)
    ensures var d := bs[0].data; var i := FirstAgree(p, d, 0);
            i > 0 && Step(p, At(out, bs, 0)) == Go(At(out + [Data(d[..i])], Advance(d, i, bs[1..]), 0))
  {
    var d := bs[0].data;
    assert p[0..] == p && d[0..] == d && bs[0..] == bs && bs[..0] == [];
    var i := FirstAgree(p, d, 0);
    LiveSnoc(out, Data(d[..i]));
    var next := Advance(d, i, bs[1..]);
    assert next[..0] == [] && next[0..] == next;
  }

  /** Delete the buckets of a match that ends n bytes into bucket e. */
  method DropMatch(inn: Brigade, e: nat, n: nat)
    requires e < |inn.buckets| && inn.buckets[e].Data? && n <= |inn.buckets[e].data|
    modifies inn
    ensures inn.buckets == old(Advance(inn.buckets[e].data, n, inn.buckets[e..][1..]))
  {
    if |inn.buckets[e].data| > n {
      inn.Split(e, n);
    }
    inn.DropFront(e + 1);
  }

  /** Move what of the first bucket cannot belong to a match. */
  method PassBucket(out: Brigade, inn: Brigade, p: bytes, pattern: bool)
    requires out != inn && p != [] && Solid(out.buckets)
    requires inn.buckets != [] && inn.buckets[0].Data? && FirstAgree(p, inn.buckets[0].data, 0) > 0
    modifies out, inn
    ensures Solid(out.buckets)
    ensures var d := old(inn.buckets[0].data); var i := FirstAgree(p, d, 0);
            out.buckets == old(out.buckets) + [Data(d[..i])] && inn.buckets == Advance(d, i, old(inn.buckets[1..]))
  {
    var d := inn.buckets[0].data;
    var idx := SearchBucket(d, p, pattern);
    if idx >= 0 {
      inn.Split(0, idx);
    }
    inn.MoveFirst(out);
    assert d[..|d|] == d;
  }

  /** What the loop of split_on_bdry knows: off bytes are matched by the e solid buckets in
      front of the cursor. */
  ghost predicate Looping(p: bytes, out: seq<Bucket>, bs: seq<Bucket>, e: nat, off: nat) {
    && e <= |bs| && Solid(out) && Solid(bs[..e])
    && off == |Live(bs[..e])| && (off == 0 <==> e == 0)
    && At(out, bs, e).Valid(p)
  }

  /** One turn of the loop at a data bucket; the bucket is looked at again after a restart. */
  method Turn(out: Brigade, inn: Brigade, p: bytes, pattern: bool, e: nat, off: nat)
    returns (found: bool, e': nat, off': nat)
    requires out != inn && p != []
    requires Looping(p, out.buckets, inn.buckets, e, off) && e < |inn.buckets| && inn.buckets[e].Data?
    modifies out, inn
    ensures Solid(out.buckets)
    ensures var m := Step(p, old(At(out.buckets, inn.buckets, e)));
            if found then m == Stop(Found(Live(out.buckets), inn.buckets))
            else Looping(p, out.buckets, inn.buckets, e', off') && m == Go(At(out.buckets, inn.buckets, e'))
  {
    ghost var bs := inn.buckets;
    StepKeeps(p, At(out.buckets, bs, e));
    found, e', off' := false, e, off;
    var d := inn.buckets[e].data;
    if d == [] {
      TurnEmpty(p, out.buckets, bs, e);
      inn.DeleteAt(e);
    } else if Agree(p[off..], d) {
      if |d| >= |p| - off {
        DropMatch(inn, e, |p| - off);
        found := true;
      } else {
        TurnHeld(p, out.buckets, bs, e);
        off' := off + |d|;
        e' := e + 1;
      }
    } else if off > 0 {
      TurnRestart(p, out.buckets, bs, e);
      inn.MoveFront(out, e);
      e', off' := 0, 0;
    } else {
      assert p[0..] == p;
      TurnIndex(p, out.buckets, bs);
      PassBucket(out, inn, p, pattern);
    }
  }

  /** split_on_bdry. */
  method SplitOnBdry(out: Brigade, inn: Brigade, p: bytes, pattern: bool) returns (s: Status)
    requires out != inn && p != [] && Solid(out.buckets)
    modifies out, inn
    ensures Solid(out.buckets)
    ensures var r := Scan(p, Cut(Live(old(out.buckets)), [], old(inn.buckets)));
            Live(out.buckets) == r.out && inn.buckets == r.inn
            && s == match r case Found(_, _) => Success case More(_, _) => Incomplete case AtEos(_, _) => Eof
  {
    ghost var r := Scan(p, Cut(Live(out.buckets), [], inn.buckets));
    var e: nat, off: nat := 0, 0;
    assert inn.buckets[..0] == [] && inn.buckets[0..] == inn.buckets;
    while e < |inn.buckets|
      invariant Looping(p, out.buckets, inn.buckets, e, off)
      invariant r == Scan(p, At(out.buckets, inn.buckets, e))
      decreases Size(inn.buckets[e..]), |inn.buckets| - e, e
    {
      StepDecreases(p, At(out.buckets, inn.buckets, e));
      if inn.buckets[e].Eos? {
        assert inn.buckets == inn.buckets[..e] + inn.buckets[e..];
        return Eof;
      }
      var found;
      found, e, off := Turn(out, inn, p, pattern, e, off);
      if found {
        return Success;
      }
    }
    assert inn.buckets[..e] == inn.buckets;
    return Incomplete;
  }
}

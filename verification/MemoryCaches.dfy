/** The memory cache itself: disjoint intervals of cached bytes over a MEM-AP, invalidated by run tokens. */
module MemoryCaches {
  import opened Bytes
  import opened AdiHardware
  import opened Cores
  import opened MemoryMaps
  import opened CacheRuns
  import opened MemAps

  class Interval {
    const begin: int
    const end: int
    var data: seq<byte>

    constructor (begin: int, end: int, data: seq<byte>)
      ensures this.begin == begin && this.end == end && this.data == data
    {
      this.begin := begin;
      this.end := end;
      this.data := data;
    }
  }

  /** A stretch without data: a gap in the cache. */
  datatype Gap = Gap(begin: int, end: int)

  datatype CacheMetrics = CacheMetrics(hits: int, misses: int, readCalls: int, bytesWritten: int)

  predicate In(iv: Interval, x: int) {
    iv.begin <= x < iv.end
  }

  lemma InMeans(iv: Interval)
    ensures forall x :: In(iv, x) ==> iv.begin <= x < iv.end
  {
  }

  predicate InGap(g: Gap, x: int) {
    g.begin <= x < g.end
  }

  predicate InSomeGap(gaps: set<Gap>, x: int) {
    exists g :: g in gaps && InGap(g, x)
  }

  predicate Covered(ivs: set<Interval>, x: int) {
    exists iv :: iv in ivs && In(iv, x)
  }

  ghost predicate Apart(ivs: set<Interval>) {
    forall i, j :: i in ivs && j in ivs && i != j ==> i.end <= j.begin || j.end <= i.begin
  }

  ghost predicate GapsApart(gaps: set<Gap>) {
    forall i, j :: i in gaps && j in gaps && i != j ==> i.end <= j.begin || j.end <= i.begin
  }

  /** What is left of gap `g` outside interval `c`, as the source cuts it: a gap strictly apart is kept whole,
      an adjoining one is cut at its own end. */
  function Pieces(g: Gap, c: Interval): set<Gap> {
    if c.end < g.begin || c.begin > g.end then {g}
    else (if c.begin - g.begin > 0 then {Gap(g.begin, c.begin)} else {})
         + (if g.end - c.end > 0 then {Gap(c.end, g.end)} else {})
  }

  lemma PiecesAreTheRest(g: Gap, c: Interval)
    requires g.begin < g.end && c.begin < c.end
    ensures forall n :: n in Pieces(g, c) ==> g.begin <= n.begin < n.end <= g.end
    ensures GapsApart(Pieces(g, c))
    ensures forall x :: InSomeGap(Pieces(g, c), x) <==> InGap(g, x) && !In(c, x)
  {
    forall x
      ensures InSomeGap(Pieces(g, c), x) <==> InGap(g, x) && !In(c, x)
    {
      if InGap(g, x) && !In(c, x) {
        var n := if c.end < g.begin || c.begin > g.end then g
                 else if x < c.begin then Gap(g.begin, c.begin) else Gap(c.end, g.end);
        assert n in Pieces(g, c) && InGap(n, x);
      }
    }
  }

  /** `gaps` are nonempty, apart, inside [addr, end), and hold exactly the addresses not in `taken`. */
  ghost predicate GapsLeft(gaps: set<Gap>, addr: int, end: int, taken: set<Interval>) {
    && (forall g :: g in gaps ==> addr <= g.begin < g.end <= end)
    && GapsApart(gaps)
    && forall x :: addr <= x < end ==> (InSomeGap(gaps, x) <==> !Covered(taken, x))
  }

  /** Gap `n` is part of one of `gaps`. */
  predicate Within(gaps: set<Gap>, n: Gap) {
    exists g :: g in gaps && g.begin <= n.begin && n.end <= g.end
  }

  /** What the inner loop keeps: `done` is what interval `c` leaves of the gaps `seen`. */
  ghost predicate CutSoFar(done: set<Gap>, seen: set<Gap>, c: Interval) {
    && (forall n :: n in done ==> n.begin < n.end && Within(seen, n))
    && GapsApart(done)
    && forall x :: InSomeGap(done, x) <==> InSomeGap(seen, x) && !In(c, x)
  }

  lemma CutOne(done: set<Gap>, seen: set<Gap>, c: Interval, g: Gap)
    requires CutSoFar(done, seen, c) && g !in seen && GapsApart(seen + {g}) && g.begin < g.end
    requires c.begin < c.end
    ensures CutSoFar(done + Pieces(g, c), seen + {g}, c)
  {
    PiecesAreTheRest(g, c);
    JoinCuts(done, Pieces(g, c), seen, g, c);
  }

  lemma JoinCuts(done: set<Gap>, pieces: set<Gap>, seen: set<Gap>, g: Gap, c: Interval)
    requires CutSoFar(done, seen, c) && g !in seen && GapsApart(seen + {g})
    requires forall n :: n in pieces ==> g.begin <= n.begin < n.end <= g.end
    requires GapsApart(pieces)
    requires forall x :: InSomeGap(pieces, x) <==> InGap(g, x) && !In(c, x)
    ensures CutSoFar(done + pieces, seen + {g}, c)
  {
    hide InSomeGap, In, InGap;
    var all, seen' := done + pieces, seen + {g};
    forall n | n in all
      ensures n.begin < n.end && Within(seen', n)
    {
      if n in pieces {
        assert g in seen';
      } else {
        var h :| h in seen && h.begin <= n.begin && n.end <= h.end;
        assert h in seen';
      }
    }
    forall i, j | i in done && j in pieces
      ensures i.end <= j.begin || j.end <= i.begin
    {
      ApartInside(seen, g, i, j);
    }
    JoinApart(done, pieces);
    JoinedCover(done, pieces, seen, g, c);
  }

  lemma ApartInside(seen: set<Gap>, g: Gap, i: Gap, j: Gap)
    requires g !in seen && GapsApart(seen + {g}) && Within(seen, i) && g.begin <= j.begin && j.end <= g.end
    ensures i.end <= j.begin || j.end <= i.begin
  {
    var h :| h in seen && h.begin <= i.begin && i.end <= h.end;
    assert h in seen + {g} && g in seen + {g} && h != g;
  }

  lemma JoinedCover(done: set<Gap>, pieces: set<Gap>, seen: set<Gap>, g: Gap, c: Interval)
    requires forall x :: InSomeGap(done, x) <==> InSomeGap(seen, x) && !In(c, x)
    requires forall x :: InSomeGap(pieces, x) <==> InGap(g, x) && !In(c, x)
    ensures forall x :: InSomeGap(done + pieces, x) <==> InSomeGap(seen + {g}, x) && !In(c, x)
  {
    hide In;
    forall x
      ensures InSomeGap(done + pieces, x) <==> InSomeGap(seen + {g}, x) && !In(c, x)
    {
      InUnion(done, pieces, x);
      InUnion(seen, {g}, x);
      assert InSomeGap({g}, x) <==> InGap(g, x) by {
        if InGap(g, x) { assert g in {g}; }
      }
    }
  }

  lemma JoinApart(a: set<Gap>, b: set<Gap>)
    requires GapsApart(a) && GapsApart(b)
    requires forall i, j :: i in a && j in b ==> i.end <= j.begin || j.end <= i.begin
    ensures GapsApart(a + b)
  {
  }

  lemma InUnion(a: set<Gap>, b: set<Gap>, x: int)
    ensures InSomeGap(a + b, x) <==> InSomeGap(a, x) || InSomeGap(b, x)
  {
    if InSomeGap(a, x) {
      var g :| g in a && InGap(g, x);
      assert g in a + b;
    }
    if InSomeGap(b, x) {
      var g :| g in b && InGap(g, x);
      assert g in a + b;
    }
  }

  /** Cutting every gap by one more interval. */
  lemma CutAll(gaps: set<Gap>, after: set<Gap>, c: Interval, addr: int, end: int, taken: set<Interval>)
    requires GapsLeft(gaps, addr, end, taken) && CutSoFar(after, gaps, c)
    ensures GapsLeft(after, addr, end, taken + {c})
  {
    forall g | g in after
      ensures addr <= g.begin < g.end <= end
    {
      var h :| h in gaps && h.begin <= g.begin && g.end <= h.end;
    }
    forall x | addr <= x < end
      ensures InSomeGap(after, x) <==> !Covered(taken + {c}, x)
    {
      assert Covered(taken + {c}, x) <==> Covered(taken, x) || In(c, x) by {
        if Covered(taken, x) {
          var iv :| iv in taken && In(iv, x);
          assert iv in taken + {c};
        }
        if In(c, x) { assert c in taken + {c}; }
      }
    }
  }

  // ---- What the intervals say ----

  /** Nonempty, with as many bytes as addresses, and inside one cacheable region. */
  ghost predicate Good(iv: Interval, regions: seq<Region>)
    reads iv
  {
    && 0 <= iv.begin < iv.end <= MEM_SIZE
    && |iv.data| == iv.end - iv.begin
    && InOneCacheable(regions, iv.begin, iv.end)
  }

  ghost predicate AllGood(ivs: set<Interval>, regions: seq<Region>)
    reads ivs
  {
    (forall iv :: iv in ivs ==> Good(iv, regions)) && Apart(ivs)
  }

  /** The bytes of `iv` are those of `view`. */
  ghost predicate Shows(iv: Interval, view: map<int, byte>)
    reads iv
  {
    |iv.data| == iv.end - iv.begin
    && forall x :: In(iv, x) ==> x in view && view[x] == iv.data[x - iv.begin]
  }

  /** `contents` is exactly what the intervals hold. */
  ghost predicate Holds(ivs: set<Interval>, contents: map<int, byte>)
    reads ivs
  {
    && (forall iv :: iv in ivs ==> Shows(iv, contents))
    && forall x :: x in contents ==> Covered(ivs, x)
  }

  lemma CoveredIsHeld(ivs: set<Interval>, contents: map<int, byte>, x: int)
    requires Holds(ivs, contents)
    ensures Covered(ivs, x) <==> x in contents
  {
  }

  /** Intervals without a common address are apart. */
  lemma NoCommonAddress(a: Interval, b: Interval)
    requires a.begin < a.end && b.begin < b.end
    requires forall x :: In(a, x) ==> !In(b, x)
    ensures a.end <= b.begin || b.end <= a.begin
  {
    assert !In(b, a.begin);
    assert In(b, b.begin) && !In(a, b.begin);
  }

  lemma OverwrittenIs(cached: map<int, byte>, addr: int, data: seq<byte>)
    ensures forall x :: x in Overwritten(cached, addr, data) <==> x in cached || addr <= x < addr + |data|
    ensures forall x :: x in Overwritten(cached, addr, data) ==>
              Overwritten(cached, addr, data)[x] == if addr <= x < addr + |data| then data[x - addr] else cached[x]
  {
  }

  lemma AddedInterval(ivs: set<Interval>, contents: map<int, byte>, iv: Interval, regions: seq<Region>)
    requires AllGood(ivs, regions) && Holds(ivs, contents) && Good(iv, regions)
    requires forall x :: In(iv, x) ==> x !in contents
    ensures AllGood(ivs + {iv}, regions)
    ensures Holds(ivs + {iv}, Overwritten(contents, iv.begin, iv.data))
  {
    hide InOneCacheable, Overwritten;
    OverwrittenIs(contents, iv.begin, iv.data);
    assert In(iv, iv.begin);
    assert iv !in ivs;
    forall j | j in ivs
      ensures iv.end <= j.begin || j.end <= iv.begin
    {
      forall x | In(iv, x)
        ensures !In(j, x)
      {
        assert Shows(j, contents);
      }
      NoCommonAddress(iv, j);
    }
    var now := Overwritten(contents, iv.begin, iv.data);
    forall j | j in ivs + {iv}
      ensures Shows(j, now)
    {
      if j != iv {
        assert Shows(j, contents);
        assert forall x :: In(j, x) ==> !In(iv, x);
      }
    }
    forall x | x in now
      ensures Covered(ivs + {iv}, x)
    {
      if In(iv, x) {
        assert iv in ivs + {iv};
      } else {
        var j :| j in ivs && In(j, x);
        assert j in ivs + {iv};
      }
    }
  }

  /** The intervals overlapping [addr, end). */
  function Overlap(ivs: set<Interval>, addr: int, end: int): set<Interval> {
    set iv | iv in ivs && iv.begin < end && iv.end > addr
  }

  /** What is held outside the removed intervals. */
  function Without(contents: map<int, byte>, gone: set<Interval>): map<int, byte> {
    map x | x in contents && !Covered(gone, x) :: contents[x]
  }

  lemma RemovedIntervals(ivs: set<Interval>, contents: map<int, byte>, gone: set<Interval>, regions: seq<Region>)
    requires AllGood(ivs, regions) && Holds(ivs, contents) && gone <= ivs
    ensures AllGood(ivs - gone, regions) && Holds(ivs - gone, Without(contents, gone))
  {
    hide InOneCacheable;
    var left := ivs - gone;
    forall j | j in left
      ensures Shows(j, Without(contents, gone))
    {
      assert Shows(j, contents);
      forall x | In(j, x)
        ensures !Covered(gone, x)
      {
        forall g | g in gone
          ensures !In(g, x)
        {
          assert g in ivs && g != j;
        }
      }
    }
    forall x | x in Without(contents, gone)
      ensures Covered(left, x)
    {
      var j :| j in ivs && In(j, x);
      assert j !in gone;
    }
  }

  ghost predicate Unheld(view: map<int, byte>, begin: int, end: int) {
    forall x :: begin <= x < end ==> x !in view
  }

  lemma UnheldInside(view: map<int, byte>, iv: Interval)
    requires Unheld(view, iv.begin, iv.end)
    ensures forall x :: In(iv, x) ==> x !in view
  {
  }

  /** The intervals over a range replaced by one new interval. */
  lemma ReplacedIntervals(
    ivs: set<Interval>, contents: map<int, byte>, addr: int, end: int, iv: Interval, regions: seq<Region>)
    requires AllGood(ivs, regions) && Holds(ivs, contents)
    requires 0 <= iv.begin < iv.end <= MEM_SIZE && |iv.data| == iv.end - iv.begin
    requires InOneCacheable(regions, iv.begin, iv.end)
    requires Unheld(Without(contents, Overlap(ivs, addr, end)), iv.begin, iv.end)
    ensures var gone := Overlap(ivs, addr, end);
            && AllGood(ivs - gone + {iv}, regions)
            && Holds(ivs - gone + {iv}, Overwritten(Without(contents, gone), iv.begin, iv.data))
  {
    var gone := Overlap(ivs, addr, end);
    assert gone <= ivs;
    hide *;
    RemovedIntervals(ivs, contents, gone, regions);
    UnheldInside(Without(contents, gone), iv);
    StillGood(iv, regions);
    AddedInterval(ivs - gone, Without(contents, gone), iv, regions);
  }

  // ---- Sorted lists of intervals ----

  ghost predicate SortedApart(s: seq<Interval>) {
    forall i, j :: 0 <= i < j < |s| ==> s[i].end <= s[j].begin
  }

  /** list(...) followed by a sort on `begin`. */
  method SortByBegin(ivs: set<Interval>) returns (s: seq<Interval>)
    requires Apart(ivs) && forall iv :: iv in ivs ==> iv.begin < iv.end
    ensures SortedApart(s)
    ensures forall iv :: iv in s <==> iv in ivs
  {
    s := [];
    var todo := ivs;
    while todo != {}
      invariant todo <= ivs
      invariant forall iv :: iv in s <==> iv in ivs && iv !in todo
      invariant SortedApart(s)
      decreases |todo|
    {
      var x :| x in todo;
      var k := 0;
      while k < |s| && s[k].begin < x.begin
        invariant 0 <= k <= |s|
        invariant forall i :: 0 <= i < k ==> s[i].begin < x.begin
      {
        k := k + 1;
      }
      InsertApart(s, k, x, ivs);
      assert s == s[..k] + s[k..];
      s := s[..k] + [x] + s[k..];
      todo := todo - {x};
    }
  }

  lemma InsertApart(s: seq<Interval>, k: nat, x: Interval, ivs: set<Interval>)
    requires SortedApart(s) && k <= |s| && Apart(ivs) && x in ivs && x !in s
    requires forall iv :: iv in s ==> iv in ivs
    requires forall iv :: iv in ivs ==> iv.begin < iv.end
    requires forall i :: 0 <= i < k ==> s[i].begin < x.begin
    requires k < |s| ==> s[k].begin >= x.begin
    ensures SortedApart(s[..k] + [x] + s[k..])
  {
    forall i | 0 <= i < |s|
      ensures if i < k then s[i].end <= x.begin else x.end <= s[i].begin
    {
      assert s[i] in s && s[i] in ivs && s[i] != x;
    }
  }

  /** The sorted intervals run on from one another and reach over [addr, addr + size). */
  ghost predicate Chain(s: seq<Interval>, addr: int, size: nat) {
    && |s| > 0
    && (forall i :: 0 <= i < |s| ==> s[i].begin < s[i].end && s[i].begin < addr + size && s[i].end > addr)
    && (forall i :: 0 <= i < |s| - 1 ==> s[i].end == s[i + 1].begin)
    && s[0].begin <= addr && s[|s| - 1].end >= addr + size
  }

  /** Sorted, overlapping the request and leaving no address of it out: a chain. */
  lemma CoveringIsChain(s: seq<Interval>, ivs: set<Interval>, addr: int, size: nat)
    requires size > 0 && SortedApart(s) && forall iv :: iv in s <==> iv in ivs
    requires forall iv :: iv in ivs ==> iv.begin < iv.end && iv.begin < addr + size && iv.end > addr
    requires forall x :: addr <= x < addr + size ==> Covered(ivs, x)
    ensures Chain(s, addr, size)
  {
    var f := IndexCovering(s, ivs, addr);
    var l := IndexCovering(s, ivs, addr + size - 1);
    forall i | 0 <= i < |s|
      ensures s[i].begin < s[i].end && s[i].begin < addr + size && s[i].end > addr
    {
      assert s[i] in s;
    }
    Located(s, f, addr, 0);
    Located(s, l, addr + size - 1, |s| - 1);
    forall i | 0 <= i < |s| - 1
      ensures s[i].end == s[i + 1].begin
    {
      assert s[i].end <= s[i + 1].begin;
      if s[i].end < s[i + 1].begin {
        HoleUncovered(s, ivs, i);
      }
    }
  }

  lemma HoleUncovered(s: seq<Interval>, ivs: set<Interval>, i: int)
    requires SortedApart(s) && 0 <= i < |s| - 1 && s[i].end < s[i + 1].begin
    requires forall iv :: iv in s <==> iv in ivs
    requires forall iv :: iv in ivs ==> iv.begin < iv.end
    ensures !Covered(ivs, s[i].end)
  {
    forall iv | iv in ivs
      ensures !In(iv, s[i].end)
    {
      var k :| 0 <= k < |s| && s[k] == iv;
      assert k < i ==> s[k].end <= s[i].begin;
      assert s[i] in s;
      assert k > i + 1 ==> s[i + 1].end <= s[k].begin;
      assert s[i + 1] in s;
    }
  }

  /** In a sorted list the interval of a lower address comes earlier. */
  lemma Located(s: seq<Interval>, k: int, x: int, i: int)
    requires SortedApart(s) && 0 <= k < |s| && 0 <= i < |s| && In(s[k], x)
    ensures k < i ==> x < s[i].begin
    ensures k > i ==> x >= s[i].end
  {
  }

  lemma IndexCovering(s: seq<Interval>, ivs: set<Interval>, x: int) returns (k: int)
    requires Covered(ivs, x) && forall iv :: iv in s <==> iv in ivs
    ensures 0 <= k < |s| && In(s[k], x)
  {
    var iv :| iv in ivs && In(iv, x);
    assert iv in s;
    k :| 0 <= k < |s| && s[k] == iv;
  }

  /** Intervals running on from one another from `upto` to `last`. */
  ghost predicate Links(s: seq<Interval>, view: map<int, byte>, upto: int, last: int)
    reads s
  {
    && (forall i :: 0 <= i < |s| ==> s[i].begin < s[i].end && Shows(s[i], view))
    && (forall i :: 0 <= i < |s| - 1 ==> s[i].end == s[i + 1].begin)
    && if s == [] then upto == last else s[0].begin == upto && s[|s| - 1].end == last
  }

  lemma AllShow(s: seq<Interval>, all: set<Interval>, ivs: set<Interval>, contents: map<int, byte>)
    requires Holds(ivs, contents) && all <= ivs && forall iv :: iv in s <==> iv in all
    ensures forall i :: 0 <= i < |s| ==> Shows(s[i], contents)
  {
    forall i | 0 <= i < |s|
      ensures Shows(s[i], contents)
    {
      assert s[i] in s;
    }
  }

  lemma ChainLinks(s: seq<Interval>, view: map<int, byte>, addr: int, size: nat)
    requires Chain(s, addr, size) && forall i :: 0 <= i < |s| ==> Shows(s[i], view)
    ensures |s| > 0 && Links(s, view, s[0].begin, s[|s| - 1].end)
    ensures s[0].begin <= addr < s[0].end && s[|s| - 1].begin < addr + size <= s[|s| - 1].end
    ensures Shows(s[0], view)
    ensures |s| > 1 ==> s[0].end < addr + size && s[|s| - 1].begin > addr
  {
    if |s| > 1 {
      assert s[0].end == s[1].begin && s[1].begin < addr + size;
      assert s[|s| - 2].end == s[|s| - 1].begin;
    }
  }

  lemma LinksEmpty(s: seq<Interval>, view: map<int, byte>, upto: int, last: int)
    requires Links(s, view, upto, last)
    ensures s == [] ==> upto == last
  {
  }

  lemma LinksTail(s: seq<Interval>, view: map<int, byte>, upto: int, last: int)
    requires Links(s, view, upto, last) && s != []
    ensures Links(s[1..], view, s[0].end, last) && s[0].begin == upto && upto < s[0].end
    ensures Shows(s[0], view) && |s[0].data| == s[0].end - s[0].begin
    ensures s[1..] == [] ==> s[0].end == last
  {
  }

  lemma LinksInit(s: seq<Interval>, view: map<int, byte>, upto: int, last: int)
    requires Links(s, view, upto, last) && s != []
    ensures var iv := s[|s| - 1];
            && Links(s[..|s| - 1], view, upto, iv.begin) && iv.end == last && iv.begin < last
            && Shows(iv, view) && |iv.data| == iv.end - iv.begin
            && (s[..|s| - 1] == [] ==> iv.begin == upto)
  {
  }

  lemma FromNothing(view: map<int, byte>, addr: int)
    ensures From([], view, addr)
  {
  }

  lemma CutShows(iv: Interval, view: map<int, byte>, from: int, upto: int)
    requires Shows(iv, view) && iv.begin <= from <= upto <= iv.end
    ensures |iv.data| == iv.end - iv.begin
    ensures From(iv.data[from - iv.begin..upto - iv.begin], view, from)
    ensures from == iv.begin && upto == iv.end ==> From(iv.data, view, from)
    ensures upto == iv.end ==> From(iv.data[from - iv.begin..], view, from)
    ensures from == iv.begin ==> From(iv.data[..upto - iv.begin], view, from)
  {
    assert forall x :: from <= x < upto ==> In(iv, x);
    assert from == iv.begin && upto == iv.end ==> iv.data == iv.data[from - iv.begin..upto - iv.begin];
  }

  lemma HeadShows(iv: Interval, view: map<int, byte>, upto: int)
    requires Shows(iv, view) && iv.begin <= upto <= iv.end
    ensures |iv.data| == iv.end - iv.begin && From(iv.data[..upto - iv.begin], view, iv.begin)
  {
    CutShows(iv, view, iv.begin, upto);
  }

  lemma TailShows(iv: Interval, view: map<int, byte>, from: int)
    requires Shows(iv, view) && iv.begin <= from <= iv.end
    ensures |iv.data| == iv.end - iv.begin && From(iv.data[from - iv.begin..], view, from)
  {
    CutShows(iv, view, from, iv.end);
  }

  lemma FromConcat(a: seq<byte>, b: seq<byte>, view: map<int, byte>, addr: int)
    requires From(a, view, addr) && From(b, view, addr + |a|)
    ensures From(a + b, view, addr)
  {
    forall x | addr <= x < addr + |a| + |b|
      ensures x in view
    {
      FromAt(a, b, view, addr, x - addr);
    }
    forall i | 0 <= i < |a + b|
      ensures (a + b)[i] == view[addr + i]
    {
      FromAt(a, b, view, addr, i);
    }
  }

  lemma FromAt(a: seq<byte>, b: seq<byte>, view: map<int, byte>, addr: int, i: nat)
    requires From(a, view, addr) && From(b, view, addr + |a|) && i < |a + b|
    ensures addr + i in view && (a + b)[i] == view[addr + i]
  {
    if i < |a| {
      assert (a + b)[i] == a[i] && a[i] == view[addr + i];
    } else {
      var j := i - |a|;
      assert (a + b)[i] == b[j] && b[j] == view[addr + |a| + j] && addr + |a| + j == addr + i;
    }
  }

  /** `bytes` are the bytes of `view` from address `addr` on. */
  ghost predicate From(bytes: seq<byte>, view: map<int, byte>, addr: int) {
    forall i :: 0 <= i < |bytes| ==> addr + i in view && bytes[i] == view[addr + i]
  }

  class MemoryCache {
    const context: MemAp
    const core: Core
    const regions: seq<Region>   // the memory map of the core
    var cache: set<Interval>
    var metrics: CacheMetrics
    var runToken: int
    ghost var contents: map<int, byte>   // what the intervals hold, by address

    constructor (context: MemAp, core: Core, regions: seq<Region>)
      requires context.Valid() && ValidRegions(regions)
      ensures this.context == context && this.core == core && this.regions == regions && Valid()
      ensures cache == {} && contents == map[] && runToken == -1 && metrics == CacheMetrics(0, 0, 0, 0)
    {
      this.context := context;
      this.core := core;
      this.regions := regions;
      runToken := -1;
      cache := {};
      contents := map[];
      metrics := CacheMetrics(0, 0, 0, 0);
    }

    ghost predicate Valid()
      reads this, cache, core, context, context.dp, context.dp.probe
    {
      && context.Valid() && ValidRegions(regions)
      && AllGood(cache, regions) && Holds(cache, contents)
    }

    /** The whole system as the run theorems see it. */
    ghost function Abs(): Sys
      reads this, core, context, context.dp, context.dp.probe
    {
      Sys(context.Mem(), context.CswKnown(), context.Log(), core.State(), runToken, contents, metrics.hits, metrics.misses)
    }

    method ResetCache()
      modifies this`cache, this`metrics, this`contents
      ensures cache == {} && contents == map[] && metrics == CacheMetrics(0, 0, 0, 0)
    {
      cache := {};
      contents := map[];
      metrics := CacheMetrics(0, 0, 0, 0);
    }

    method Invalidate()
      requires Valid()
      modifies this`cache, this`metrics, this`contents
      ensures Valid() && Abs() == old(Abs()).(cached := map[], hits := 0, misses := 0)
    {
      ResetCache();
    }

    method CheckCache()
      requires Valid()
      modifies this
      ensures Valid() && Abs() == Checked(old(Abs())) && cache <= old(cache)
    {
      if core.running {
        ResetCache();
      } else if runToken != core.runToken {
        ResetCache();
        runToken := core.runToken;
      }
    }

    /** The intervals overlapping a request, and the gaps between them, whatever order the set is visited in. */
    method GetRanges(addr: int, count: nat) returns (cached: set<Interval>, uncached: set<Gap>)
      requires Valid() && count > 0
      ensures Valid() && cached == Overlap(cache, addr, addr + count)
      ensures GapsLeft(uncached, addr, addr + count, cached)
      ensures forall x :: addr <= x < addr + count ==> (InSomeGap(uncached, x) <==> x !in contents)
    {
      AllNonempty(cache, regions);
      cached := Overlap(cache, addr, addr + count);
      uncached := SplitRequest(cached, addr, addr + count);
      GapsAreUnheld(addr, addr + count, uncached);
    }

    lemma GapsAreUnheld(addr: int, end: int, uncached: set<Gap>)
      requires Valid() && GapsLeft(uncached, addr, end, Overlap(cache, addr, end))
      ensures forall x :: addr <= x < end ==> (InSomeGap(uncached, x) <==> x !in contents)
      ensures forall x :: addr <= x < end ==> (Covered(Overlap(cache, addr, end), x) <==> x in contents)
    {
      hide InSomeGap, Covered, In;
      forall x | addr <= x < end
        ensures Covered(Overlap(cache, addr, end), x) <==> x in contents
      {
        OverlapCovers(cache, addr, end, x);
        CoveredIsHeld(cache, contents, x);
      }
    }

    /** hits counts the requested bytes that are cached, misses the others. */
    method UpdateMetrics(cached: set<Interval>, uncached: set<Gap>, addr: int, size: nat)
      requires Valid() && size > 0
      requires cached == Overlap(cache, addr, addr + size)
      requires GapsLeft(uncached, addr, addr + size, cached)
      modifies this`metrics
      ensures Valid()
      ensures metrics.hits == old(metrics.hits) + CachedCount(contents, addr, size)
      ensures metrics.misses == old(metrics.misses) + size - CachedCount(contents, addr, size)
      ensures metrics.readCalls == old(metrics.readCalls) + 1 && metrics.bytesWritten == old(metrics.bytesWritten)
    {
      hide AllGood, Holds, GapsLeft, InSomeGap, Covered, Apart, MemAp.Valid, ValidRegions;
      ghost var inCache, missing;
      var cachedSize, uncachedSize;
      assert Apart(cached) by { AllNonempty(cache, regions); }
      assert forall iv :: iv in cached ==> iv.begin < iv.end by { AllNonempty(cache, regions); }
      cachedSize, inCache := CountCached(cached, addr, size);
      GapsAreUnheld(addr, addr + size, uncached);
      CountedIsPresent(inCache, cached, contents, addr, size);
      uncachedSize, missing := CountUncached(uncached, addr, addr + size, cached);
      SplitCount(inCache, missing, addr, size);
      metrics := metrics.(readCalls := metrics.readCalls + 1,
                          hits := metrics.hits + cachedSize, misses := metrics.misses + uncachedSize);
    }

    /** Fetches one gap from the target into a new cached interval. */
    method FetchGap(g: Gap) returns (r: Result<Interval>)
      requires Valid() && context.CswKnown()
      requires InOneCacheable(regions, g.begin, g.end) && 0 <= g.begin < g.end <= MEM_SIZE
      requires forall x :: g.begin <= x < g.end ==> x !in contents
      modifies this`cache, this`contents, context, context.dp, context.dp.probe
      ensures Valid() && context.Mem() == old(context.Mem())
      ensures if r.Ok? then context.Log() == old(context.Log()) else Tells(old(context.Log()), context.Log(), r.error)
      ensures r.Err? ==> cache == old(cache) && contents == old(contents)
      ensures context.CswKnown() || (r.Err? && !r.error.ProbeFailure?)
      ensures r.Ok? ==> cache == old(cache) + {r.value}
                        && r.value.begin == g.begin && r.value.end == g.end
                        && contents == Overwritten(old(contents), g.begin, context.Mem()[g.begin..g.end])
    {
      hide InOneCacheable, ValidRegions, AllGood, Holds, Overwritten, In, MemAp.Valid, MemAp.CswKnown, MemAp.Mem;
      var data := context.ReadMemoryBlock8(g.begin, g.end - g.begin);
      if data.Err? { return Err(data.error); }
      var iv := new Interval(g.begin, g.end, data.value);
      InMeans(iv);
      AddedInterval(cache, contents, iv, regions);
      cache := cache + {iv};
      contents := Overwritten(contents, iv.begin, iv.data);
      return Ok(iv);
    }

    /** One gap of those still to do. */
    method FetchStep(
      g: Gap, ghost was: map<int, byte>, ghost mem: seq<byte>, ghost uncached: set<Gap>, ghost todo: set<Gap>,
      ghost addr: int, ghost size: nat)
      returns (r: Result<Interval>)
      requires Valid() && context.CswKnown() && context.Mem() == mem
      requires Fetched(was, contents, mem, uncached, todo, addr, size)
      requires g in todo && todo <= uncached && GapsApart(uncached) && addr <= g.begin < g.end <= addr + size
      requires InMemory(addr, size) && InOneCacheable(regions, addr, addr + size)
      modifies this`cache, this`contents, context, context.dp, context.dp.probe
      ensures Valid() && context.Mem() == mem
      ensures if r.Ok? then context.Log() == old(context.Log()) else Tells(old(context.Log()), context.Log(), r.error)
      ensures r.Err? ==> Fetched(was, contents, mem, uncached, todo, addr, size)
      ensures context.CswKnown() || (r.Err? && !r.error.ProbeFailure?)
      ensures r.Ok? ==> cache == old(cache) + {r.value}
                        && addr <= r.value.begin && r.value.end <= addr + size
                        && Fetched(was, contents, mem, uncached, todo - {g}, addr, size)
    {
      assert 0 <= addr && addr + size <= MEM_SIZE;
      hide *;
      PartOfCacheable(regions, addr, addr + size, g.begin, g.end);
      FetchedNext(was, contents, mem, uncached, todo, addr, size, g);
      r := FetchGap(g);
    }

    /** Fetches the gaps in any order. On a fault the intervals already fetched stay cached. */
    method ReadUncached(uncached: set<Gap>, addr: int, size: nat) returns (r: Result<set<Interval>>)
      requires Valid() && context.CswKnown() && InMemory(addr, size)
      requires InOneCacheable(regions, addr, addr + size)
      requires forall g :: g in uncached ==> addr <= g.begin < g.end <= addr + size
      requires GapsApart(uncached)
      requires forall x :: addr <= x < addr + size ==> (InSomeGap(uncached, x) <==> x !in contents)
      modifies this`cache, this`contents, context, context.dp, context.dp.probe
      ensures Valid() && context.Mem() == old(context.Mem())
      ensures if r.Ok? then context.Log() == old(context.Log()) else Tells(old(context.Log()), context.Log(), r.error)
      ensures uncached == {} ==> r.Ok?
      ensures PartlyFilled(old(contents), context.Mem(), contents, addr, size)
      ensures context.CswKnown() || (r.Err? && !r.error.ProbeFailure?)
      ensures r.Ok? ==> contents == Filled(old(contents), context.Mem(), addr, size)
      ensures r.Ok? ==> cache == old(cache) + r.value
      ensures r.Ok? ==> forall iv :: iv in r.value ==> addr <= iv.begin && iv.end <= addr + size
    {
      hide *;
      ghost var mem, was := context.Mem(), contents;
      RequestFits(addr, size);
      FetchedAtFirst(was, mem, uncached, addr, size);
      var uncachedData: set<Interval> := {};
      var todo := uncached;
      while todo != {}
        invariant todo <= uncached
        invariant Valid() && context.CswKnown() && context.Mem() == mem && context.Log() == old(context.Log())
        invariant cache == old(cache) + uncachedData
        invariant forall iv :: iv in uncachedData ==> addr <= iv.begin && iv.end <= addr + size
        invariant Fetched(was, contents, mem, uncached, todo, addr, size)
        decreases |todo|
      {
        var g :| g in todo;
        var iv := FetchStep(g, was, mem, uncached, todo, addr, size);
        if iv.Err? {
          FetchedIsPartlyFilled(was, contents, mem, uncached, todo, addr, size);
          return Err(iv.error);
        }
        uncachedData := uncachedData + {iv.value};
        todo := todo - {g};
      }
      FetchedIsPartlyFilled(was, contents, mem, uncached, todo, addr, size);
      return Ok(uncachedData);
    }

    /** The intervals over a request, missing ones fetched, sorted by address. */
    method Read(addr: int, size: nat) returns (r: Result<seq<Interval>>)
      requires Valid() && context.CswKnown() && size > 0 && InMemory(addr, size)
      requires InOneCacheable(regions, addr, addr + size)
      modifies this, context, context.dp, context.dp.probe
      ensures Valid() && runToken == old(runToken) && context.Mem() == old(context.Mem())
      ensures if r.Ok? then context.Log() == old(context.Log()) else Tells(old(context.Log()), context.Log(), r.error)
      ensures CachedCount(old(contents), addr, size) == size ==> r.Ok?
      ensures metrics.hits == old(metrics.hits) + CachedCount(old(contents), addr, size)
      ensures metrics.misses == old(metrics.misses) + size - CachedCount(old(contents), addr, size)
      ensures metrics.readCalls == old(metrics.readCalls) + 1 && metrics.bytesWritten == old(metrics.bytesWritten)
      ensures PartlyFilled(old(contents), context.Mem(), contents, addr, size)
      ensures context.CswKnown() || (r.Err? && !r.error.ProbeFailure?)
      ensures r.Ok? ==> contents == Filled(old(contents), context.Mem(), addr, size)
      ensures r.Ok? ==> Chain(r.value, addr, size) && forall i :: 0 <= i < |r.value| ==> Shows(r.value[i], contents)
    {
      hide *;
      RequestFits(addr, size);
      ghost var mem, was, held := context.Mem(), cache, contents;
      var cached, uncached := GetRanges(addr, size);
      UpdateMetrics(cached, uncached, addr, size);
      GapsLeftAreApart(uncached, addr, addr + size, cached);
      AllHeldNoGaps(uncached, contents, addr, size);
      var uncachedData := ReadUncached(uncached, addr, size);
      if uncachedData.Err? { return Err(uncachedData.error); }
      var combined := Combine(cached, uncachedData.value, addr, size, was, held, mem);
      return Ok(combined);
    }

    method Combine(
      cached: set<Interval>, added: set<Interval>, addr: int, size: nat,
      ghost was: set<Interval>, ghost held: map<int, byte>, ghost mem: seq<byte>)
      returns (combined: seq<Interval>)
      requires Valid() && cache == was + added && cached == Overlap(was, addr, addr + size) && size > 0
      requires forall iv :: iv in added ==> addr <= iv.begin && iv.end <= addr + size
      requires 0 <= addr && addr + size <= |mem| && contents == Filled(held, mem, addr, size)
      ensures Valid() && Chain(combined, addr, size)
      ensures forall i :: 0 <= i < |combined| ==> Shows(combined[i], contents)
    {
      hide *;
      var all := cached + added;
      RequestTogether(addr, size, all, was, added, held, mem);
      combined := SortByBegin(all);
      CoveringIsChain(combined, all, addr, size);
      ValidHolds();
      AllShow(combined, all, cache, contents);
    }

    lemma ValidHolds()
      requires Valid()
      ensures Holds(cache, contents)
    {
    }

    /** With every byte of the request held, the overlapping old intervals and the new ones cover it, apart. */
    lemma RequestTogether(
      addr: int, size: nat, all: set<Interval>, was: set<Interval>, added: set<Interval>,
      held: map<int, byte>, mem: seq<byte>)
      requires Valid() && cache == was + added && all == Overlap(was, addr, addr + size) + added
      requires forall iv :: iv in added ==> addr <= iv.begin && iv.end <= addr + size
      requires 0 <= addr && addr + size <= |mem| && contents == Filled(held, mem, addr, size)
      ensures all <= cache && Apart(all)
      ensures forall iv :: iv in all ==> iv.begin < iv.end
      ensures forall iv :: iv in all ==> iv.begin < iv.end && iv.begin < addr + size && iv.end > addr
      ensures forall x :: addr <= x < addr + size ==> Covered(all, x)
    {
      hide InOneCacheable, MemAp.Valid, ValidRegions;
      AllNonempty(cache, regions);
      forall x | addr <= x < addr + size
        ensures Covered(all, x)
      {
        assert x in contents;
        var iv :| iv in cache && In(iv, x);
        assert iv in all;
      }
    }

    /** The bytes of the request, cut out of a chain of intervals. */
    method MergeData(chain: seq<Interval>, addr: int, size: nat, ghost view: map<int, byte>) returns (result: seq<byte>)
      requires size > 0 && Chain(chain, addr, size)
      requires forall i :: 0 <= i < |chain| ==> Shows(chain[i], view)
      ensures |result| == size && From(result, view, addr)
    {
      ChainLinks(chain, view, addr, size);
      hide *;
      result := [];
      var combined := chain;
      // fully contained subrange
      if |combined| > 0 && combined[0].begin < addr && combined[0].end > addr + size {
        var offset := addr - combined[0].begin;
        CutShows(combined[0], view, addr, addr + size);
        return combined[0].data[offset..offset + size];
      }
      ghost var upto, last := combined[0].begin, combined[|combined| - 1].end;
      FromNothing(view, addr);
      // leading ragged edge
      if |combined| > 0 && combined[0].begin < addr {
        var offset := addr - combined[0].begin;
        CutShows(combined[0], view, addr, combined[0].end);
        LinksTail(combined, view, upto, last);
        result := combined[0].data[offset..];
        upto := combined[0].end;
        combined := combined[1..];
      }
      var merged := MergeUpTo(combined, addr + size, upto, last, view);
      FromConcat(result, merged, view, addr);
      result := result + merged;
    }

    method ReadMemoryBlock8(addr: int, size: int) returns (r: Result<seq<byte>>)
      requires Valid() && context.CswKnown() && (size > 0 ==> InMemory(addr, size))
      modifies this, context, context.dp, context.dp.probe
      ensures Valid() && (context.CswKnown() || (r.Err? && !r.error.ProbeFailure?))
      ensures ReadStep(regions, old(Abs()), Abs(), addr, size, r)
    {
      if size <= 0 {
        return Ok([]);
      }
      ghost var s := Abs();
      MemoryFits();
      hide *;
      AbsIs();
      CheckCache();
      SameMemory(s);
      r := ReadChecked(s, addr, size);
    }

    /** The rest of a read, once the cache is known to be up to date; `s` is the state before that check. */
    method ReadChecked(ghost s: Sys, addr: int, size: int) returns (r: Result<seq<byte>>)
      requires Valid() && context.CswKnown() && size > 0 && InMemory(addr, size)
      requires |s.mem| == MEM_SIZE && s.mem == context.Mem() && Abs() == Checked(s)
      modifies this, context, context.dp, context.dp.probe
      ensures Valid() && (context.CswKnown() || (r.Err? && !r.error.ProbeFailure?))
      ensures ReadStep(regions, s, Abs(), addr, size, r)
    {
      MemoryFits();
      AbsIs();
      hide *;
      CheckRegionsMeans(regions, addr, size);
      var cacheable := CheckRegions(regions, addr, size);
      if cacheable.Err? {
        RefusedStep(regions, s, addr, size, cacheable.error);
        return Err(cacheable.error);
      }
      if cacheable.value {
        r := ReadFilling(s, addr, size);
      } else {
        r := ReadThrough(s, addr, size);
      }
    }

    /** A read inside a cacheable region, through the cache. */
    method ReadFilling(ghost s: Sys, addr: int, size: int) returns (r: Result<seq<byte>>)
      requires Valid() && context.CswKnown() && size > 0 && InMemory(addr, size)
      requires |s.mem| == MEM_SIZE && s.mem == context.Mem() && Abs() == Checked(s)
      requires CheckRegions(regions, addr, size) == Ok(true)
      modifies this, context, context.dp, context.dp.probe
      ensures Valid() && (context.CswKnown() || (r.Err? && !r.error.ProbeFailure?))
      ensures ReadStep(regions, s, Abs(), addr, size, r)
    {
      MemoryFits();
      hide *;
      CheckRegionsMeans(regions, addr, size);
      ghost var c := Abs();
      r := FillAndRead(addr, size);
      CacheableStep(regions, s, c, Abs(), addr, size, r);
    }

    /** What a cached read does, seen from outside. */
    method FillAndRead(addr: int, size: nat) returns (r: Result<seq<byte>>)
      requires Valid() && context.CswKnown() && size > 0 && InMemory(addr, size)
      requires InOneCacheable(regions, addr, addr + size)
      modifies this, context, context.dp, context.dp.probe
      ensures Valid() && (context.CswKnown() || (r.Err? && !r.error.ProbeFailure?))
      ensures Fills(old(Abs()), Abs(), addr, size, r)
    {
      MemoryFits();
      AbsIs();
      hide *;
      ghost var c, n := Abs(), CachedCount(contents, addr, size);
      r := ReadCacheable(addr, size);
      AbsIs();
      FillsWhen(c, Abs(), n, addr, size, r);
    }

    /** A read outside the cacheable regions passes the cache by. */
    method ReadThrough(ghost s: Sys, addr: int, size: int) returns (r: Result<seq<byte>>)
      requires Valid() && context.CswKnown() && size > 0 && InMemory(addr, size)
      requires |s.mem| == MEM_SIZE && s.mem == context.Mem() && Abs() == Checked(s)
      requires CheckRegions(regions, addr, size) == Ok(false)
      modifies context, context.dp, context.dp.probe
      ensures Valid() && (context.CswKnown() || (r.Err? && !r.error.ProbeFailure?))
      ensures ReadStep(regions, s, Abs(), addr, size, r)
    {
      MemoryFits();
      Components();
      AbsIs();
      hide *;
      r := context.ReadMemoryBlock8(addr, size);
      AbsIs();
      Composed();
      UncachedStep(regions, s, Abs(), addr, size, r);
    }

    lemma SameMemory(s: Sys)
      requires Abs() == Checked(s)
      ensures s.mem == context.Mem()
    {
    }

    lemma AbsIs()
      ensures Abs() == Sys(context.Mem(), context.CswKnown(), context.Log(), core.State(), runToken, contents, metrics.hits, metrics.misses)
    {
    }

    lemma RequestFits(addr: int, size: nat)
      requires Valid() && InMemory(addr, size)
      ensures 0 <= addr && addr + size <= |context.Mem()|
    {
    }

    lemma MemoryFits()
      requires Valid()
      ensures context.Valid() && ValidRegions(regions) && |context.Mem()| == MEM_SIZE
    {
    }

    /** Fetches what is missing and merges the intervals into the requested bytes. */
    method ReadCacheable(addr: int, size: nat) returns (r: Result<seq<byte>>)
      requires Valid() && context.CswKnown() && size > 0 && InMemory(addr, size)
      requires InOneCacheable(regions, addr, addr + size)
      modifies this, context, context.dp, context.dp.probe
      ensures Valid() && runToken == old(runToken) && context.Mem() == old(context.Mem())
      ensures if r.Ok? then context.Log() == old(context.Log()) else Tells(old(context.Log()), context.Log(), r.error)
      ensures CachedCount(old(contents), addr, size) == size ==> r.Ok?
      ensures metrics.hits == old(metrics.hits) + CachedCount(old(contents), addr, size)
      ensures metrics.misses == old(metrics.misses) + size - CachedCount(old(contents), addr, size)
      ensures metrics.readCalls == old(metrics.readCalls) + 1 && metrics.bytesWritten == old(metrics.bytesWritten)
      ensures PartlyFilled(old(contents), context.Mem(), contents, addr, size)
      ensures context.CswKnown() || (r.Err? && !r.error.ProbeFailure?)
      ensures r.Ok? ==> contents == Filled(old(contents), context.Mem(), addr, size)
                        && r.value == Seen(old(contents), context.Mem(), addr, size)
    {
      hide *;
      RequestFits(addr, size);
      ghost var held := contents;
      var combined := Read(addr, size);
      if combined.Err? {
        return Err(combined.error);
      }
      var result := MergeData(combined.value, addr, size, contents);
      MergedIsSeen(result, contents, held, context.Mem(), addr, size);
      return Ok(result);
    }

    method WriteMemoryBlock8(addr: int, value: seq<byte>) returns (r: Result<()>)
      requires Valid() && context.CswKnown() && (value != [] ==> InMemory(addr, |value|))
      modifies this, cache, context, context.dp, context.dp.probe
      ensures Valid() && (context.CswKnown() || (r.Err? && !r.error.ProbeFailure?))
      ensures WriteStep(regions, old(Abs()), Abs(), addr, value, r)
    {
      if |value| <= 0 {
        return Ok(());
      }
      hide Valid, InOneCacheable, CheckRegions, Overwritten, Update, Torn, MemAp.CswKnown, MemAp.Mem;
      CheckCache();
      CheckRegionsMeans(regions, addr, |value|);
      var cacheable := CheckRegions(regions, addr, |value|);
      if cacheable.Err? {
        return Err(cacheable.error);
      }
      r := context.WriteMemoryBlock8(addr, value);
      if r.Err? { return; }
      if cacheable.value {
        UpdateCache(addr, value);
      }
    }

    /** The cache's part of a write: the bytes written override what was cached. */
    method UpdateCache(addr: int, value: seq<byte>)
      requires Valid() && value != [] && InMemory(addr, |value|)
      requires InOneCacheable(regions, addr, addr + |value|)
      modifies this`cache, this`contents, this`metrics, cache
      ensures Valid() && contents == Overwritten(old(contents), addr, value)
      ensures metrics == old(metrics).(bytesWritten := old(metrics.bytesWritten) + |value|)
      ensures (exists iv :: iv in old(cache) && iv.begin <= addr && addr + |value| <= iv.end) ==> cache == old(cache)
    {
      var size := |value|;
      var end := addr + size;
      Components();
      AllNonempty(cache, regions);
      InsideIsAlone(cache, addr, end);
      var overlapping := Overlap(cache, addr, end);
      assert 0 <= addr && end <= MEM_SIZE && overlapping <= cache;
      hide *;
      var cached := SortByBegin(overlapping);
      metrics := metrics.(bytesWritten := metrics.bytesWritten + size);
      Composed();
      if |cached| > 0 {
        assert cached[0] in cached && cached[0] in overlapping && cached[0] in cache;
        if addr >= cached[0].begin && end <= cached[0].end {
          EditInPlace(cached[0], addr, value);
        } else {
          UpdateContiguous(cached, addr, value);
        }
      } else {
        assert overlapping == {};
        AddWhole(addr, value);
      }
    }

    /** Nothing cached in the range: the written bytes become an interval of their own. */
    method AddWhole(addr: int, value: seq<byte>)
      requires Valid() && value != [] && 0 <= addr && addr + |value| <= MEM_SIZE
      requires InOneCacheable(regions, addr, addr + |value|)
      requires Overlap(cache, addr, addr + |value|) == {}
      modifies this`cache, this`contents
      ensures Valid() && contents == Overwritten(old(contents), addr, value)
    {
      ghost var regions := this.regions;
      Components();
      hide *;
      NoOverlapUnheld(cache, contents, addr, addr + |value|);
      var iv := new Interval(addr, addr + |value|, value);
      InMeans(iv);
      StillGood(iv, regions);
      AddedInterval(cache, contents, iv, regions);
      cache := cache + {iv};
      contents := Overwritten(contents, addr, value);
      Composed();
    }

    lemma Components()
      requires Valid()
      ensures context.Valid() && ValidRegions(regions) && AllGood(cache, regions) && Holds(cache, contents)
    {
    }

    lemma Composed()
      requires context.Valid() && ValidRegions(regions) && AllGood(cache, regions) && Holds(cache, contents)
      ensures Valid()
    {
    }

    /** The write lies inside one cached interval: its bytes are replaced where they are. */
    method EditInPlace(iv: Interval, addr: int, value: seq<byte>)
      requires Valid() && iv in cache && value != []
      requires iv.begin <= addr && addr + |value| <= iv.end
      modifies iv, this`contents
      ensures Valid() && contents == Overwritten(old(contents), addr, value)
    {
      ghost var held, others, regions := contents, cache - {iv}, regions;
      Components();
      ShowsAll(cache, contents, iv, regions);
      RemovedIntervals(cache, contents, {iv}, regions);
      hide *;
      var beginOffset := addr - iv.begin;
      var endOffset := beginOffset + |value|;
      ghost var was := iv.data;
      iv.data := iv.data[..beginOffset] + value + iv.data[endOffset..];
      OnlyThisUnheld(held, iv);
      EditedOverlay(held, iv, was, addr, value);
      StillGood(iv, regions);
      AddedInterval(others, Without(held, {iv}), iv, regions);
      assert others + {iv} == cache;
      contents := Overwritten(contents, addr, value);
      Composed();
    }

    /** The write reaches over the ends of cached intervals: they are merged with it into one. */
    method UpdateContiguous(cached: seq<Interval>, addr: int, value: seq<byte>)
      requires Valid() && value != [] && InMemory(addr, |value|)
      requires InOneCacheable(regions, addr, addr + |value|)
      requires Listed(cached, cache, addr, addr + |value|)
      modifies this`cache, this`contents
      ensures Valid() && contents == Overwritten(old(contents), addr, value)
    {
      hide *;
      var begin, newEnd, data := EdgesAround(cached, addr, value);
      ReplaceOverlap(addr, addr + |value|, begin, newEnd, data, Overwritten(contents, addr, value));
    }

    /** The written bytes between the ragged edges of the intervals around them. */
    method EdgesAround(cached: seq<Interval>, addr: int, value: seq<byte>)
      returns (begin: int, newEnd: int, data: seq<byte>)
      requires Valid() && value != [] && InMemory(addr, |value|)
      requires InOneCacheable(regions, addr, addr + |value|)
      requires Listed(cached, cache, addr, addr + |value|)
      ensures Valid() && 0 <= begin < newEnd <= MEM_SIZE && |data| == newEnd - begin
      ensures InOneCacheable(regions, begin, newEnd)
      ensures var left := Without(contents, Overlap(cache, addr, addr + |value|));
              Unheld(left, begin, newEnd) && Overwritten(left, begin, data) == Overwritten(contents, addr, value)
    {
      Components();
      hide *;
      begin, newEnd, data := ContiguousData(cached, cache, addr, value, contents, regions);
    }

    /** remove_overlap, then one new interval over all that was removed. */
    method ReplaceOverlap(
      addr: int, end: int, begin: int, newEnd: int, data: seq<byte>, ghost after: map<int, byte>)
      requires Valid() && InOneCacheable(regions, begin, newEnd)
      requires 0 <= begin < newEnd <= MEM_SIZE && |data| == newEnd - begin
      requires Unheld(Without(contents, Overlap(cache, addr, end)), begin, newEnd)
      requires Overwritten(Without(contents, Overlap(cache, addr, end)), begin, data) == after
      modifies this`cache, this`contents
      ensures Valid() && contents == after
    {
      var iv := new Interval(begin, newEnd, data);
      Components();
      hide *;
      ReplacedIntervals(cache, contents, addr, end, iv, regions);
      cache := cache - Overlap(cache, addr, end) + {iv};
      contents := after;
      Composed();
    }
  }

  /** The intervals over a range, at least one, in address order. */
  ghost predicate Listed(cached: seq<Interval>, ivs: set<Interval>, addr: int, end: int) {
    && |cached| > 0 && SortedApart(cached)
    && (forall iv :: iv in cached ==> iv in Overlap(ivs, addr, end))
    && (forall iv :: iv in Overlap(ivs, addr, end) ==> iv in cached)
  }

  /** The bytes of one interval over all the overlapping ones: their ragged edges around the written bytes. */
  method ContiguousData(
    cached: seq<Interval>, ghost ivs: set<Interval>, addr: int, value: seq<byte>,
    ghost view: map<int, byte>, ghost regions: seq<Region>)
    returns (begin: int, newEnd: int, data: seq<byte>)
    requires AllGood(ivs, regions) && Holds(ivs, view)
    requires value != [] && InMemory(addr, |value|) && InOneCacheable(regions, addr, addr + |value|)
    requires Listed(cached, ivs, addr, addr + |value|)
    ensures 0 <= begin < newEnd <= MEM_SIZE && |data| == newEnd - begin && InOneCacheable(regions, begin, newEnd)
    ensures var gone := Overlap(ivs, addr, addr + |value|);
            && Unheld(Without(view, gone), begin, newEnd)
            && Overwritten(Without(view, gone), begin, data) == Overwritten(view, addr, value)
  {
    hide *;
    var end := addr + |value|;
    EdgeFacts(cached, ivs, view, addr, end, regions);
    var first, last := cached[0], cached[|cached| - 1];
    var leadData, trailData;
    begin, leadData := LeadingEdge(first, addr, end, view, regions);
    newEnd, trailData := TrailingEdge(last, addr, end, begin, view, regions);
    data := leadData + value + trailData;
    ContiguousOverlay(view, Overlap(ivs, addr, end), begin, leadData, addr, value, trailData);
  }

  /** What is known of the first and the last interval of the sorted overlap list. */
  lemma EdgeFacts(
    cached: seq<Interval>, ivs: set<Interval>, view: map<int, byte>, addr: int, end: int, regions: seq<Region>)
    requires AllGood(ivs, regions) && Holds(ivs, view) && InMemory(addr, end - addr) && addr < end
    requires Listed(cached, ivs, addr, end)
    ensures |cached| > 0 && 0 <= addr && end <= MEM_SIZE
    ensures var first, last := cached[0], cached[|cached| - 1];
            && Shows(first, view) && Good(first, regions) && first.begin < end && first.end > addr
            && Shows(last, view) && Good(last, regions) && last.begin < end && last.end > addr
    ensures var b := (if cached[0].begin < addr then cached[0].begin else addr);
            var e := (if cached[|cached| - 1].end > end then cached[|cached| - 1].end else end);
            var gone := Overlap(ivs, addr, end);
            && (forall x :: Covered(gone, x) ==> b <= x < e)
            && Unheld(Without(view, gone), b, e)
  {
    var first, last := cached[0], cached[|cached| - 1];
    assert first in cached && last in cached;
    assert 0 <= addr && end <= MEM_SIZE;
    hide *;
    EdgeInterval(first, ivs, view, cached, addr, end, regions);
    EdgeInterval(last, ivs, view, cached, addr, end, regions);
    AllNonempty(ivs, regions);
    EdgesEnclose(cached, ivs, view, addr, end);
  }

  /** The part of the first overlapping interval before the write. */
  method LeadingEdge(first: Interval, addr: int, end: int, ghost view: map<int, byte>, ghost regions: seq<Region>)
    returns (leadBegin: int, leadData: seq<byte>)
    requires Shows(first, view) && Good(first, regions) && first.begin < end && first.end > addr
    requires 0 <= addr < end && InOneCacheable(regions, addr, end)
    ensures leadBegin == (if first.begin < addr then first.begin else addr) && 0 <= leadBegin && |leadData| == addr - leadBegin
    ensures From(leadData, view, leadBegin) && InOneCacheable(regions, leadBegin, end)
  {
    hide *;
    GoodBounds(first, regions);
    FromNothing(view, addr);
    leadBegin, leadData := addr, [];
    if first.begin < addr && first.end > addr {
      var offset := addr - first.begin;
      HeadShows(first, view, addr);
      leadData := first.data[..offset];
      leadBegin := first.begin;
      JoinHead(regions, first.begin, first.end, addr, end);
    }
  }

  /** The part of the last overlapping interval after the write. */
  method TrailingEdge(
    tail: Interval, addr: int, end: int, ghost leadBegin: int, ghost view: map<int, byte>, ghost regions: seq<Region>)
    returns (trailEnd: int, trailData: seq<byte>)
    requires Shows(tail, view) && Good(tail, regions) && tail.begin < end && tail.end > addr
    requires leadBegin <= addr < end <= MEM_SIZE && InOneCacheable(regions, leadBegin, end)
    ensures trailEnd == (if tail.end > end then tail.end else end) && trailEnd <= MEM_SIZE && |trailData| == trailEnd - end
    ensures From(trailData, view, end) && InOneCacheable(regions, leadBegin, trailEnd)
  {
    hide *;
    GoodBounds(tail, regions);
    FromNothing(view, end);
    trailEnd, trailData := end, [];
    if tail.begin < end && tail.end > end {
      var offset := end - tail.begin;
      TailShows(tail, view, end);
      trailData := tail.data[offset..];
      trailEnd := tail.end;
      JoinTail(regions, leadBegin, end, tail.begin, tail.end);
    }
  }

  /** Merges a chain starting at `upto`, leaving out the trailing ragged edge past `end`. */
  method MergeUpTo(chain: seq<Interval>, end: int, ghost upto: int, ghost last: int, ghost view: map<int, byte>)
    returns (result: seq<byte>)
    requires Links(chain, view, upto, last) && end <= last
    requires chain == [] ==> upto == end
    requires chain != [] ==> chain[|chain| - 1].begin < end
    ensures |result| == end - upto && From(result, view, upto)
  {
    hide *;
    var combined := chain;
    var resultAppend: seq<byte> := [];
    ghost var stop := last;
    FromNothing(view, end);
    LinksEmpty(chain, view, upto, last);
    if |combined| > 0 && combined[|combined| - 1].end > end {
      var iv := combined[|combined| - 1];
      var offset := end - iv.begin;
      LinksInit(combined, view, upto, last);
      CutShows(iv, view, iv.begin, end);
      resultAppend := iv.data[..offset];
      stop := iv.begin;
      combined := combined[..|combined| - 1];
    } else if |combined| > 0 {
      LinksInit(combined, view, upto, last);
    }
    result := Merge(combined, upto, stop, view);
    FromConcat(result, resultAppend, view, upto);
    result := result + resultAppend;
  }

  method Merge(chain: seq<Interval>, ghost upto: int, ghost last: int, ghost view: map<int, byte>) returns (result: seq<byte>)
    requires Links(chain, view, upto, last)
    ensures |result| == last - upto && From(result, view, upto)
  {
    hide Links, Shows, From, In;
    result := [];
    FromNothing(view, upto);
    ghost var pos := upto;
    LinksEmpty(chain, view, upto, last);
    var combined := chain;
    while combined != []
      invariant |result| == pos - upto && From(result, view, upto)
      invariant Links(combined, view, pos, last) && (combined == [] ==> pos == last)
      decreases |combined|
    {
      var iv := combined[0];
      LinksTail(combined, view, pos, last);
      CutShows(iv, view, iv.begin, iv.end);
      FromConcat(result, iv.data, view, upto);
      result := result + iv.data;
      pos := iv.end;
      combined := combined[1..];
    }
  }

  /** The gaps that a set of intervals leaves in [addr, end). */
  method SplitRequest(cached: set<Interval>, addr: int, end: int) returns (uncached: set<Gap>)
    requires addr < end && forall iv :: iv in cached ==> iv.begin < iv.end
    ensures GapsLeft(uncached, addr, end, cached)
  {
    hide GapsLeft, CutSoFar;
    uncached := {Gap(addr, end)};
    ghost var seen: set<Interval> := {};
    WholeRequestIsGap(addr, end);
    var todo := cached;
    while todo != {}
      invariant todo <= cached && seen == cached - todo
      invariant GapsLeft(uncached, addr, end, seen)
      decreases |todo|
    {
      var cachedIv :| cachedIv in todo;
      GapsLeftAreApart(uncached, addr, end, seen);
      var newUncached := CutByInterval(uncached, cachedIv);
      CutAll(uncached, newUncached, cachedIv, addr, end, seen);
      uncached := newUncached;
      seen := seen + {cachedIv};
      todo := todo - {cachedIv};
    }
    assert seen == cached;
  }

  method CutByInterval(uncached: set<Gap>, cachedIv: Interval) returns (newUncached: set<Gap>)
    requires GapsApart(uncached) && forall g :: g in uncached ==> g.begin < g.end
    requires cachedIv.begin < cachedIv.end
    ensures CutSoFar(newUncached, uncached, cachedIv)
  {
    hide CutSoFar, GapsApart;
    newUncached := {};
    var left := uncached;
    ghost var done: set<Gap> := {};
    NothingCut(cachedIv);
    while left != {}
      invariant left <= uncached && done == uncached - left
      invariant CutSoFar(newUncached, done, cachedIv)
      decreases |left|
    {
      var uncachedIv :| uncachedIv in left;
      left := left - {uncachedIv};
      GapsSubset(uncached, done + {uncachedIv});
      CutOne(newUncached, done, cachedIv, uncachedIv);
      if cachedIv.end < uncachedIv.begin || cachedIv.begin > uncachedIv.end {
        newUncached := newUncached + {uncachedIv};
      } else {
        var pieces: set<Gap> := {};
        // begin segment
        if cachedIv.begin - uncachedIv.begin > 0 {
          pieces := pieces + {Gap(uncachedIv.begin, cachedIv.begin)};
        }
        // end segment
        if uncachedIv.end - cachedIv.end > 0 {
          pieces := pieces + {Gap(cachedIv.end, uncachedIv.end)};
        }
        assert pieces == Pieces(uncachedIv, cachedIv);
        newUncached := newUncached + pieces;
      }
      done := done + {uncachedIv};
    }
    assert done == uncached;
  }

  /** Bytes of the request in the intervals; `counted` are their addresses. */
  method CountCached(cached: set<Interval>, addr: int, size: nat) returns (cachedSize: nat, ghost counted: set<int>)
    requires Apart(cached) && size > 0
    requires forall iv :: iv in cached ==> iv.begin < iv.end && iv.begin < addr + size && iv.end > addr
    ensures |counted| == cachedSize
    ensures forall x :: x in counted <==> addr <= x < addr + size && Covered(cached, x)
  {
    hide Apart, Covered, Span, In;
    cachedSize := 0;
    counted := {};
    var todo := cached;
    NothingCovered();
    assert cached - todo == {};
    while todo != {}
      invariant todo <= cached && |counted| == cachedSize
      invariant forall x :: x in counted <==> addr <= x < addr + size && Covered(cached - todo, x)
      decreases |todo|
    {
      var iv :| iv in todo;
      var begin, end := iv.begin, iv.end;
      if iv.begin < addr { begin := addr; }
      if iv.end > addr + size { end := addr + size; }
      CountInterval(counted, cached, todo, iv, addr, size);
      counted := counted + Span(begin, end - begin);
      cachedSize := cachedSize + (end - begin);
      todo := todo - {iv};
    }
    assert cached - todo == cached;
  }

  method CountUncached(uncached: set<Gap>, addr: int, end: int, ghost taken: set<Interval>)
    returns (uncachedSize: nat, ghost missing: set<int>)
    requires GapsLeft(uncached, addr, end, taken)
    ensures |missing| == uncachedSize
    ensures forall x :: x in missing <==> addr <= x < end && !Covered(taken, x)
  {
    GapsLeftAreApart(uncached, addr, end, taken);
    hide GapsApart, InSomeGap, Covered, GapsLeft;
    uncachedSize := 0;
    missing := {};
    var left := uncached;
    NothingInGaps();
    assert uncached - left == {};
    while left != {}
      invariant left <= uncached && |missing| == uncachedSize
      invariant forall x :: x in missing <==> InSomeGap(uncached - left, x)
      decreases |left|
    {
      var g :| g in left;
      CountGap(missing, uncached, left, g);
      missing := missing + Span(g.begin, g.end - g.begin);
      uncachedSize := uncachedSize + (g.end - g.begin);
      left := left - {g};
    }
    assert uncached - left == uncached;
    forall x
      ensures InSomeGap(uncached, x) <==> addr <= x < end && !Covered(taken, x)
    {
      GapInside(uncached, addr, end, taken, x);
    }
  }

  lemma PartOfCacheable(regions: seq<Region>, begin: int, end: int, b: int, e: int)
    requires InOneCacheable(regions, begin, end) && begin <= b <= e <= end
    ensures InOneCacheable(regions, b, e)
  {
    var i :| 0 <= i < |regions| && regions[i].isCacheable && forall x :: begin <= x < end ==> OnlyRegionAt(regions, x, i);
  }

  /** Contents while the gaps `uncached` are fetched and `todo` are still missing. */
  ghost predicate Fetched(
    was: map<int, byte>, now: map<int, byte>, mem: seq<byte>,
    uncached: set<Gap>, todo: set<Gap>, addr: int, size: nat)
  {
    && 0 <= addr && addr + size <= |mem|
    && (forall x :: x in was ==> x in now && now[x] == was[x])
    && (forall x :: x in now && x !in was ==> addr <= x < addr + size && now[x] == mem[x])
    && (forall x :: addr <= x < addr + size ==> (x in now <==> !InSomeGap(todo, x)))
  }

  lemma FetchedAtFirst(was: map<int, byte>, mem: seq<byte>, uncached: set<Gap>, addr: int, size: nat)
    requires 0 <= addr && addr + size <= |mem|
    requires forall x :: addr <= x < addr + size ==> (InSomeGap(uncached, x) <==> x !in was)
    ensures Fetched(was, was, mem, uncached, uncached, addr, size)
  {
  }

  lemma FetchedNext(
    was: map<int, byte>, now: map<int, byte>, mem: seq<byte>,
    uncached: set<Gap>, todo: set<Gap>, addr: int, size: nat, g: Gap)
    requires Fetched(was, now, mem, uncached, todo, addr, size)
    requires g in todo && todo <= uncached && GapsApart(uncached) && addr <= g.begin < g.end <= addr + size
    ensures forall x :: g.begin <= x < g.end ==> x !in now
    ensures Fetched(was, Overwritten(now, g.begin, mem[g.begin..g.end]), mem, uncached, todo - {g}, addr, size)
  {
    hide Overwritten, InSomeGap, GapsApart;
    OverwrittenIs(now, g.begin, mem[g.begin..g.end]);
    forall x | InGap(g, x)
      ensures x !in now && !InSomeGap(todo - {g}, x)
    {
      GapAlone(uncached, todo, g, x);
    }
    forall x
      ensures InSomeGap(todo, x) <==> InSomeGap(todo - {g}, x) || InGap(g, x)
    {
      GapRemoved(todo, g, x);
    }
  }

  lemma GapAlone(uncached: set<Gap>, todo: set<Gap>, g: Gap, x: int)
    requires g in todo && todo <= uncached && GapsApart(uncached) && InGap(g, x)
    ensures InSomeGap(todo, x) && !InSomeGap(todo - {g}, x)
  {
  }

  lemma GapRemoved(todo: set<Gap>, g: Gap, x: int)
    requires g in todo
    ensures InSomeGap(todo, x) <==> InSomeGap(todo - {g}, x) || InGap(g, x)
  {
    assert todo == (todo - {g}) + {g};
    InUnion(todo - {g}, {g}, x);
    assert InGap(g, x) ==> g in {g};
  }

  lemma FetchedIsPartlyFilled(
    was: map<int, byte>, now: map<int, byte>, mem: seq<byte>,
    uncached: set<Gap>, todo: set<Gap>, addr: int, size: nat)
    requires Fetched(was, now, mem, uncached, todo, addr, size)
    ensures PartlyFilled(was, mem, now, addr, size)
    ensures todo == {} ==> now == Filled(was, mem, addr, size)
  {
    if todo == {} {
      NothingInGaps();
      var full := Filled(was, mem, addr, size);
      assert forall x :: x in now <==> x in full;
      assert forall x :: x in full ==> now[x] == full[x];
    }
  }

  /** When every requested byte is cached there is nothing to fetch. */
  lemma AllHeldNoGaps(uncached: set<Gap>, contents: map<int, byte>, addr: int, size: nat)
    requires forall g :: g in uncached ==> addr <= g.begin < g.end <= addr + size
    requires forall x :: addr <= x < addr + size ==> (InSomeGap(uncached, x) <==> x !in contents)
    ensures CachedCount(contents, addr, size) == size ==> uncached == {}
  {
    if uncached != {} {
      var g :| g in uncached;
      assert InGap(g, g.begin);
      OneMissing(contents, addr, size, g.begin);
    }
  }

  lemma OneMissing(contents: map<int, byte>, addr: int, size: nat, x: int)
    requires addr <= x < addr + size && x !in contents
    ensures CachedCount(contents, addr, size) < size
  {
    SubsetSize(Present(contents, addr, size), Span(addr, size) - {x});
  }

  lemma RefusedStep(regions: seq<Region>, s: Sys, addr: int, size: int, e: AdiError)
    requires |s.mem| == MEM_SIZE && size > 0 && InMemory(addr, size) && CheckRegions(regions, addr, size) == Err(e)
    ensures ReadStep(regions, s, Checked(s), addr, size, Err(e))
  {
  }

  lemma UncachedStep(regions: seq<Region>, s: Sys, c': Sys, addr: int, size: int, r: Result<seq<byte>>)
    requires |s.mem| == MEM_SIZE && size > 0 && InMemory(addr, size) && CheckRegions(regions, addr, size) == Ok(false)
    requires r.Ok? ==> r.value == s.mem[addr..addr + size]
    requires c' == Checked(s).(cswKnown := c'.cswKnown, failures := c'.failures) && Accessed(Checked(s), c', r)
    ensures ReadStep(regions, s, c', addr, size, r)
  {
    hide CheckRegions, Checked;
  }

  /** The requested bytes were counted, and the missing ones fetched; a failure may have fetched only some. */
  ghost predicate Fills(c: Sys, c': Sys, addr: int, size: nat, r: Result<seq<byte>>) {
    && 0 <= addr && addr + size <= |c.mem|
    && var n := CachedCount(c.cached, addr, size);
    && c' == c.(cached := c'.cached, hits := c.hits + n, misses := c.misses + size - n,
                cswKnown := c'.cswKnown, failures := c'.failures)
    && Accessed(c, c', r) && (n == size ==> r.Ok?)
    && PartlyFilled(c.cached, c.mem, c'.cached, addr, size)
    && (r.Ok? ==> r.value == Seen(c.cached, c.mem, addr, size) && c'.cached == Filled(c.cached, c.mem, addr, size))
  }

  lemma FillsWhen(c: Sys, c': Sys, n: nat, addr: int, size: nat, r: Result<seq<byte>>)
    requires 0 <= addr && addr + size <= |c.mem| && n == CachedCount(c.cached, addr, size)
    requires c'.mem == c.mem && c'.core == c.core && c'.cacheToken == c.cacheToken
    requires c'.hits == c.hits + n && c'.misses == c.misses + size - n
    requires PartlyFilled(c.cached, c.mem, c'.cached, addr, size) && Accessed(c, c', r) && (n == size ==> r.Ok?)
    requires r.Ok? ==> r.value == Seen(c.cached, c.mem, addr, size) && c'.cached == Filled(c.cached, c.mem, addr, size)
    ensures Fills(c, c', addr, size, r)
  {
    hide PartlyFilled, Seen, Filled, CachedCount;
  }

  lemma CacheableStep(regions: seq<Region>, s: Sys, c: Sys, c': Sys, addr: int, size: int, r: Result<seq<byte>>)
    requires |s.mem| == MEM_SIZE && size > 0 && InMemory(addr, size) && CheckRegions(regions, addr, size) == Ok(true)
    requires c == Checked(s) && c.mem == s.mem && Fills(c, c', addr, size, r)
    ensures ReadStep(regions, s, c', addr, size, r)
  {
    hide CheckRegions, Checked, PartlyFilled, Seen, Filled, CachedCount;
  }

  /** The merged bytes are the request as seen through the cache before it was filled. */
  lemma MergedIsSeen(result: seq<byte>, now: map<int, byte>, was: map<int, byte>, mem: seq<byte>, addr: int, size: nat)
    requires 0 <= addr && addr + size <= |mem| && now == Filled(was, mem, addr, size)
    requires |result| == size && From(result, now, addr)
    ensures result == Seen(was, mem, addr, size)
  {
    forall i | 0 <= i < size
      ensures result[i] == Seen(was, mem, addr, size)[i]
    {
      assert addr + i in Span(addr, size);
      assert now[addr + i] == (if addr + i in was then was[addr + i] else mem[addr + i]);
    }
  }

  /** Overriding what is left by merged data is overriding the whole by the written data. */
  lemma Overlay(
    contents: map<int, byte>, gone: set<Interval>, b: int, data: seq<byte>, addr: int, value: seq<byte>)
    requires b <= addr && addr + |value| <= b + |data|
    requires data[addr - b..addr - b + |value|] == value
    requires forall x :: b <= x < b + |data| && !(addr <= x < addr + |value|) ==> x in contents && data[x - b] == contents[x]
    requires forall x :: Covered(gone, x) ==> b <= x < b + |data|
    ensures Overwritten(Without(contents, gone), b, data) == Overwritten(contents, addr, value)
  {
    hide Overwritten;
    OverwrittenIs(Without(contents, gone), b, data);
    OverwrittenIs(contents, addr, value);
    var left, right := Overwritten(Without(contents, gone), b, data), Overwritten(contents, addr, value);
    forall x
      ensures x in left <==> x in right
      ensures x in left ==> left[x] == right[x]
    {
      if addr <= x < addr + |value| {
        assert data[addr - b..addr - b + |value|][x - addr] == data[x - b];
      }
    }
  }

  lemma EditedOverlay(contents: map<int, byte>, iv: Interval, was: seq<byte>, addr: int, value: seq<byte>)
    requires |was| == iv.end - iv.begin && iv.begin <= addr && addr + |value| <= iv.end
    requires forall x :: In(iv, x) ==> x in contents && contents[x] == was[x - iv.begin]
    requires iv.data == was[..addr - iv.begin] + value + was[addr - iv.begin + |value|..]
    ensures Overwritten(Without(contents, {iv}), iv.begin, iv.data) == Overwritten(contents, addr, value)
  {
    assert forall x :: Covered({iv}, x) ==> In(iv, x);
    assert forall x :: iv.begin <= x < iv.end ==> In(iv, x);
    Overlay(contents, {iv}, iv.begin, iv.data, addr, value);
  }

  lemma ShowsAll(ivs: set<Interval>, contents: map<int, byte>, iv: Interval, regions: seq<Region>)
    requires AllGood(ivs, regions) && Holds(ivs, contents) && iv in ivs
    ensures 0 <= iv.begin < iv.end <= MEM_SIZE && |iv.data| == iv.end - iv.begin
    ensures InOneCacheable(regions, iv.begin, iv.end)
    ensures forall x :: In(iv, x) ==> x in contents && contents[x] == iv.data[x - iv.begin]
  {
  }

  lemma GoodBounds(iv: Interval, regions: seq<Region>)
    requires Good(iv, regions)
    ensures 0 <= iv.begin < iv.end <= MEM_SIZE && |iv.data| == iv.end - iv.begin
    ensures InOneCacheable(regions, iv.begin, iv.end)
  {
  }

  lemma StillGood(iv: Interval, regions: seq<Region>)
    requires 0 <= iv.begin < iv.end <= MEM_SIZE && |iv.data| == iv.end - iv.begin
    requires InOneCacheable(regions, iv.begin, iv.end)
    ensures Good(iv, regions)
  {
  }

  lemma OnlyThisUnheld(contents: map<int, byte>, iv: Interval)
    ensures forall x :: In(iv, x) ==> x !in Without(contents, {iv})
  {
    assert forall x :: In(iv, x) ==> Covered({iv}, x) by { assert iv in {iv}; }
  }

  lemma ContiguousOverlay(
    contents: map<int, byte>, gone: set<Interval>,
    b: int, lead: seq<byte>, addr: int, value: seq<byte>, trail: seq<byte>)
    requires b + |lead| == addr && From(lead, contents, b) && From(trail, contents, addr + |value|)
    requires forall x :: Covered(gone, x) ==> b <= x < addr + |value| + |trail|
    ensures var data := lead + value + trail;
            Overwritten(Without(contents, gone), b, data) == Overwritten(contents, addr, value)
  {
    var data := lead + value + trail;
    forall x | b <= x < b + |data| && !(addr <= x < addr + |value|)
      ensures x in contents && data[x - b] == contents[x]
    {
      if x < addr {
        assert data[x - b] == lead[x - b];
      } else {
        assert data[x - b] == trail[x - addr - |value|];
      }
    }
    Overlay(contents, gone, b, data, addr, value);
  }

  /** What is known of an interval from the sorted overlap list. */
  lemma EdgeInterval(
    iv: Interval, ivs: set<Interval>, contents: map<int, byte>, cached: seq<Interval>, addr: int, end: int, regions: seq<Region>)
    requires AllGood(ivs, regions) && Holds(ivs, contents)
    requires iv in cached && forall j :: j in cached <==> j in Overlap(ivs, addr, end)
    ensures iv in ivs && Shows(iv, contents) && Good(iv, regions) && iv.begin < end && iv.end > addr
  {
  }

  /** The overlapping intervals reach no further than the first and the last of them, and everything held
      between these ends is held by them. */
  lemma EdgesEnclose(cached: seq<Interval>, ivs: set<Interval>, contents: map<int, byte>, addr: int, end: int)
    requires Holds(ivs, contents) && |cached| > 0 && SortedApart(cached) && addr < end
    requires forall iv :: iv in ivs ==> iv.begin < iv.end
    requires forall iv :: iv in cached <==> iv in Overlap(ivs, addr, end)
    ensures var b := (if cached[0].begin < addr then cached[0].begin else addr);
            var e := (if cached[|cached| - 1].end > end then cached[|cached| - 1].end else end);
            var gone := Overlap(ivs, addr, end);
            && (forall x :: Covered(gone, x) ==> b <= x < e)
            && Unheld(Without(contents, gone), b, e)
  {
    var first, tail := cached[0], cached[|cached| - 1];
    var b, e := (if first.begin < addr then first.begin else addr), (if tail.end > end then tail.end else end);
    var gone := Overlap(ivs, addr, end);
    assert first in cached && tail in cached;
    forall iv, x | iv in gone && In(iv, x)
      ensures b <= x < e
    {
      var k :| 0 <= k < |cached| && cached[k] == iv;
      assert k > 0 ==> first.end <= iv.begin;
      assert k < |cached| - 1 ==> iv.end <= tail.begin;
    }
    forall x | b <= x < e && x in contents
      ensures Covered(gone, x)
    {
      var iv :| iv in ivs && In(iv, x);
      if x < addr {
        assert first in gone && In(first, x);
      } else if x >= end {
        assert tail in gone && In(tail, x);
      } else {
        assert iv in gone;
      }
    }
  }

  lemma JoinHead(regions: seq<Region>, hb: int, he: int, b: int, end: int)
    requires InOneCacheable(regions, hb, he) && InOneCacheable(regions, b, end)
    requires hb < b < he && b < end
    ensures InOneCacheable(regions, hb, end)
  {
    hide *;
    InOneCacheableJoins(regions, hb, he, b, end);
    PartOfCacheable(regions, hb, if he > end then he else end, hb, end);
  }

  lemma JoinTail(regions: seq<Region>, b: int, end: int, tb: int, te: int)
    requires InOneCacheable(regions, b, end) && InOneCacheable(regions, tb, te)
    requires b < end && tb < end < te
    ensures InOneCacheable(regions, b, te)
  {
    if b <= tb {
      InOneCacheableJoins(regions, b, end, tb, te);
    } else {
      InOneCacheableJoins(regions, tb, te, b, end);
      PartOfCacheable(regions, tb, te, b, te);
    }
  }

  lemma NoOverlapUnheld(ivs: set<Interval>, contents: map<int, byte>, addr: int, end: int)
    requires Holds(ivs, contents) && Overlap(ivs, addr, end) == {}
    ensures forall x :: addr <= x < end ==> x !in contents
  {
    forall x | addr <= x < end
      ensures x !in contents
    {
      forall iv | iv in ivs
        ensures !In(iv, x)
      {
        assert iv !in Overlap(ivs, addr, end);
      }
    }
  }

  lemma NothingCovered()
    ensures forall x :: !Covered({}, x)
  {
  }

  lemma NothingInGaps()
    ensures forall x :: !InSomeGap({}, x)
  {
  }

  lemma SplitCount(a: set<int>, b: set<int>, addr: int, size: nat)
    requires forall x :: x in b <==> addr <= x < addr + size && x !in a
    requires a <= Span(addr, size)
    ensures |a| + |b| == size
  {
    assert Span(addr, size) == a + b && a !! b;
  }

  lemma WholeRequestIsGap(addr: int, end: int)
    requires addr < end
    ensures GapsLeft({Gap(addr, end)}, addr, end, {})
  {
    forall x | addr <= x < end
      ensures InSomeGap({Gap(addr, end)}, x)
    {
      assert Gap(addr, end) in {Gap(addr, end)} && InGap(Gap(addr, end), x);
    }
  }

  lemma GapsLeftAreApart(gaps: set<Gap>, addr: int, end: int, taken: set<Interval>)
    requires GapsLeft(gaps, addr, end, taken)
    ensures GapsApart(gaps) && forall g :: g in gaps ==> addr <= g.begin < g.end <= end
  {
  }

  lemma AllNonempty(ivs: set<Interval>, regions: seq<Region>)
    requires AllGood(ivs, regions)
    ensures Apart(ivs) && forall iv :: iv in ivs ==> iv.begin < iv.end
    ensures forall part :: part <= ivs ==> Apart(part)
  {
  }

  /** An interval that holds a whole request is the only one that overlaps it. */
  lemma InsideIsAlone(ivs: set<Interval>, addr: int, end: int)
    requires Apart(ivs) && addr < end
    ensures forall iv :: iv in ivs && iv.begin <= addr && end <= iv.end ==> Overlap(ivs, addr, end) == {iv}
  {
  }

  lemma NothingCut(c: Interval)
    ensures CutSoFar({}, {}, c)
  {
  }

  lemma GapsSubset(gaps: set<Gap>, part: set<Gap>)
    requires GapsApart(gaps) && part <= gaps
    ensures GapsApart(part)
  {
  }

  /** Inside the request, the overlapping intervals cover what all intervals cover. */
  lemma OverlapCovers(ivs: set<Interval>, addr: int, end: int, x: int)
    requires addr <= x < end
    ensures Covered(Overlap(ivs, addr, end), x) <==> Covered(ivs, x)
  {
    if Covered(ivs, x) {
      var iv :| iv in ivs && In(iv, x);
      assert iv in Overlap(ivs, addr, end);
    }
  }

  lemma GapInside(gaps: set<Gap>, addr: int, end: int, taken: set<Interval>, x: int)
    requires GapsLeft(gaps, addr, end, taken)
    ensures InSomeGap(gaps, x) <==> addr <= x < end && !Covered(taken, x)
  {
  }

  lemma CountedIsPresent(counted: set<int>, cached: set<Interval>, view: map<int, byte>, addr: int, size: nat)
    requires forall x :: x in counted <==> addr <= x < addr + size && Covered(cached, x)
    requires forall x :: addr <= x < addr + size ==> (Covered(cached, x) <==> x in view)
    ensures counted == Present(view, addr, size)
  {
    hide Covered;
    forall x
      ensures x in counted <==> x in Present(view, addr, size)
    {
      assert x in Present(view, addr, size) <==> addr <= x < addr + size && x in view;
    }
  }

  lemma CoveredWithOneMore(ivs: set<Interval>, iv: Interval)
    ensures forall x :: Covered(ivs + {iv}, x) <==> Covered(ivs, x) || In(iv, x)
  {
    forall x
      ensures Covered(ivs + {iv}, x) <==> Covered(ivs, x) || In(iv, x)
    {
      if Covered(ivs, x) {
        var j :| j in ivs && In(j, x);
        assert j in ivs + {iv};
      }
      assert iv in ivs + {iv};
    }
  }

  lemma CountInterval(counted: set<int>, cached: set<Interval>, todo: set<Interval>, iv: Interval, addr: int, size: nat)
    requires Apart(cached) && todo <= cached && iv in todo && size > 0
    requires iv.begin < iv.end && iv.begin < addr + size && iv.end > addr
    requires forall x :: x in counted <==> addr <= x < addr + size && Covered(cached - todo, x)
    ensures var begin := if iv.begin < addr then addr else iv.begin;
            var end := if iv.end > addr + size then addr + size else iv.end;
            && begin < end
            && |counted + Span(begin, end - begin)| == |counted| + (end - begin)
            && forall x :: x in counted + Span(begin, end - begin) <==>
                 addr <= x < addr + size && Covered(cached - (todo - {iv}), x)
  {
    var begin := if iv.begin < addr then addr else iv.begin;
    var end := if iv.end > addr + size then addr + size else iv.end;
    assert cached - (todo - {iv}) == (cached - todo) + {iv};
    hide Covered, Apart;
    CoveredWithOneMore(cached - todo, iv);
    NotYetCovered(cached, todo, iv);
    forall x | x in Span(begin, end - begin)
      ensures x !in counted
    {
    }
  }

  lemma NotYetCovered(cached: set<Interval>, todo: set<Interval>, iv: Interval)
    requires Apart(cached) && iv in todo && todo <= cached
    ensures forall x :: In(iv, x) ==> !Covered(cached - todo, x)
  {
    forall x | In(iv, x)
      ensures !Covered(cached - todo, x)
    {
      forall j | j in cached - todo
        ensures !In(j, x)
      {
        assert j in cached && iv in cached && j != iv;
      }
    }
  }

  lemma CountGap(missing: set<int>, uncached: set<Gap>, left: set<Gap>, g: Gap)
    requires GapsApart(uncached) && left <= uncached && g in left && g.begin < g.end
    requires forall x :: x in missing <==> InSomeGap(uncached - left, x)
    ensures |missing + Span(g.begin, g.end - g.begin)| == |missing| + (g.end - g.begin)
    ensures forall x :: x in missing + Span(g.begin, g.end - g.begin) <==> InSomeGap(uncached - (left - {g}), x)
  {
    var now := uncached - (left - {g});
    assert now == (uncached - left) + {g};
    forall x
      ensures InSomeGap(now, x) <==> InSomeGap(uncached - left, x) || InGap(g, x)
    {
      InUnion(uncached - left, {g}, x);
      assert InGap(g, x) ==> g in {g};
    }
    assert missing !! Span(g.begin, g.end - g.begin) by {
      forall x | x in missing
        ensures x !in Span(g.begin, g.end - g.begin)
      {
        var h :| h in uncached - left && InGap(h, x);
        assert h in uncached && g in uncached && h != g;
      }
    }
  }
}

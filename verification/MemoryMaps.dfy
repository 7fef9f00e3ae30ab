/** Address ranges with inclusive ends, splitting a range, and the sorted list of memory regions. */
module MemoryMaps {

  datatype Range = Range(start: int, end: int)

  datatype Region = Region(start: int, end: int, name: string, isCacheable: bool)

  /** The constructor's assertion: a range may be empty, but no shorter. */
  predicate ValidBounds(start: int, end: int) {
    end >= start - 1
  }

  /** A start and a length make a range exactly when the length is not negative. */
  lemma LengthMakesRange(start: int, length: int)
    ensures ValidBounds(start, start + length - 1) <==> length >= 0
  {
  }

  predicate ContainsAddress(start: int, end: int, address: int) {
    start <= address <= end
  }

  predicate ContainsRange(r: Region, start: int, end: int) {
    ContainsAddress(r.start, r.end, start) && ContainsAddress(r.start, r.end, end)
  }

  predicate IntersectsRange(r: Region, start: int, end: int) {
    || (start <= r.start && end >= r.start)
    || (start <= r.end && end >= r.end)
    || (start >= r.start && end <= r.end)
  }

  predicate SharesAddress(r: Region, start: int, end: int) {
    exists x :: start <= x <= end && ContainsAddress(r.start, r.end, x)
  }

  /** The addresses at which a region makes a range intersect it: its own, and for an empty region the two
      addresses around its start. */
  predicate Touches(r: Region, x: int) {
    ContainsAddress(r.start, r.end, x) || (r.end == r.start - 1 && (x == r.start || x == r.end))
  }

  lemma IntersectsIffTouched(r: Region, start: int, end: int)
    requires ValidBounds(r.start, r.end) && start <= end
    ensures IntersectsRange(r, start, end) <==> exists x :: start <= x <= end && Touches(r, x)
  {
    if IntersectsRange(r, start, end) {
      var x := if start <= r.start <= end then r.start else if start <= r.end <= end then r.end else start;
      assert Touches(r, x);
    }
  }

  /** "Intersect at any point" is what the test decides for every range exactly when the region is not empty. */
  lemma IntersectsIsSharingExactlyWhenNonempty(r: Region)
    requires ValidBounds(r.start, r.end)
    ensures (forall start, end :: start <= end ==> (IntersectsRange(r, start, end) <==> SharesAddress(r, start, end)))
            <==> r.start <= r.end
  {
    if r.start <= r.end {
      forall start, end | start <= end
        ensures IntersectsRange(r, start, end) <==> SharesAddress(r, start, end)
      {
        IntersectsIffTouched(r, start, end);
        if SharesAddress(r, start, end) {
          var x :| start <= x <= end && ContainsAddress(r.start, r.end, x);
          assert Touches(r, x);
        }
      }
    } else {
      assert IntersectsRange(r, r.start, r.start) && !SharesAddress(r, r.start, r.start);
    }
  }

  // ---- Splitting a range ----

  predicate Ascending(s: seq<int>) {
    forall i, j :: 0 <= i < j < |s| ==> s[i] <= s[j]
  }

  /** sorted() */
  method Sorted(s: seq<int>) returns (t: seq<int>)
    ensures Ascending(t)
    ensures forall x :: x in t <==> x in s
  {
    t := [];
    for n := 0 to |s|
      invariant Ascending(t)
      invariant forall x :: x in t <==> x in s[..n]
    {
      var k := 0;
      while k < |t| && t[k] <= s[n]
        invariant 0 <= k <= |t|
        invariant forall i :: 0 <= i < k ==> t[i] <= s[n]
      {
        k := k + 1;
      }
      var u := t[..k] + [s[n]] + t[k..];
      forall x
        ensures x in u <==> x in s[..n + 1]
      {
        assert t == t[..k] + t[k..];
        assert s[..n + 1] == s[..n] + [s[n]];
        assert x in u <==> x in t || x == s[n];
      }
      t := u;
    }
    assert s[..|s|] == s;
  }

  method Contained(start: int, end: int, addresses: seq<int>) returns (t: seq<int>)
    ensures forall x :: x in t <==> x in addresses && ContainsAddress(start, end, x)
  {
    t := [];
    for n := 0 to |addresses|
      invariant forall x :: x in t <==> x in addresses[..n] && ContainsAddress(start, end, x)
    {
      assert addresses[..n + 1] == addresses[..n] + [addresses[n]];
      if ContainsAddress(start, end, addresses[n]) {
        t := t + [addresses[n]];
      }
    }
    assert addresses[..|addresses|] == addresses;
  }

  /** The pieces are nonempty and follow one another from `start` up to, but not including, `next`. */
  predicate Tiles(pieces: seq<Range>, start: int, next: int) {
    && (forall i :: 0 <= i < |pieces| ==> pieces[i].start <= pieces[i].end)
    && (forall i :: 0 <= i < |pieces| - 1 ==> pieces[i + 1].start == pieces[i].end + 1)
    && (if pieces == [] then next == start else pieces[0].start == start && pieces[|pieces| - 1].end + 1 == next)
  }

  /** The places where the pieces are cut. */
  predicate CutAt(pieces: seq<Range>, x: int) {
    exists i :: 1 <= i < |pieces| && pieces[i].start == x
  }

  /** Splits [start, end] at the given addresses, in whatever order, number and range they come. */
  method SplitByAddress(start: int, end: int, addresses: seq<int>) returns (pieces: seq<Range>)
    requires ValidBounds(start, end)
    ensures Tiles(pieces, start, end + 1)
    ensures forall x :: CutAt(pieces, x) <==> x in addresses && start < x <= end
  {
    hide CutAt;
    NoCuts();
    var inside := Contained(start, end, addresses);
    var points := Sorted(inside);
    pieces := [];
    var prev := start;
    for n := 0 to |points|
      invariant start <= prev <= end + 1
      invariant Tiles(pieces, start, prev)
      invariant n > 0 ==> prev == points[n - 1]
      invariant pieces != [] ==> prev > start
      invariant n == 0 ==> prev == start
      invariant forall x :: CutAt(pieces, x) || (pieces != [] && x == prev) <==> x in points[..n] && start < x <= end
    {
      var a := points[n];
      assert a in points;
      assert points[..n + 1] == points[..n] + [a];
      ghost var before := pieces;
      if a > prev {
        pieces := pieces + [Range(prev, a - 1)];
        AppendedCut(before, Range(prev, a - 1));
      } else {
        assert n > 0 ==> points[n - 1] in points[..n];
      }
      prev := a;
    }
    assert points[..|points|] == points;
    if prev <= end {
      AppendedCut(pieces, Range(prev, end));
      pieces := pieces + [Range(prev, end)];
    }
  }

  lemma NoCuts()
    ensures forall x :: !CutAt([], x)
  {
  }

  lemma AppendedCut(pieces: seq<Range>, r: Range)
    ensures forall x :: CutAt(pieces + [r], x) <==> CutAt(pieces, x) || (pieces != [] && x == r.start)
  {
    var longer := pieces + [r];
    forall x
      ensures CutAt(longer, x) <==> CutAt(pieces, x) || (pieces != [] && x == r.start)
    {
      if CutAt(pieces, x) {
        var i :| 1 <= i < |pieces| && pieces[i].start == x;
        assert longer[i].start == x;
      }
      if pieces != [] && x == r.start {
        assert longer[|pieces|].start == x;
      }
      if CutAt(longer, x) {
        var i :| 1 <= i < |longer| && longer[i].start == x;
        assert i < |pieces| ==> pieces[i].start == x;
      }
    }
  }

  // ---- The region list ----

  function GetIntersectingRegions(regions: seq<Region>, start: int, end: int): seq<Region> {
    if regions == [] then []
    else (if IntersectsRange(regions[0], start, end) then [regions[0]] else [])
         + GetIntersectingRegions(regions[1..], start, end)
  }

  lemma {:induction false} NoIntersecting(regions: seq<Region>, start: int, end: int)
    ensures |GetIntersectingRegions(regions, start, end)| == 0
            <==> forall i :: 0 <= i < |regions| ==> !IntersectsRange(regions[i], start, end)
  {
    if regions != [] {
      NoIntersecting(regions[1..], start, end);
      assert forall i :: 1 <= i < |regions| ==> regions[i] == regions[1..][i - 1];
      assert forall i :: 0 <= i < |regions| - 1 ==> regions[1..][i] == regions[i + 1];
    }
  }

  /** One match in the list is one matching position in the map. */
  lemma {:induction false} OneIntersecting(regions: seq<Region>, start: int, end: int) returns (i: int)
    requires |GetIntersectingRegions(regions, start, end)| == 1
    ensures 0 <= i < |regions| && GetIntersectingRegions(regions, start, end)[0] == regions[i]
    ensures forall j :: 0 <= j < |regions| ==> (IntersectsRange(regions[j], start, end) <==> j == i)
  {
    var rest := regions[1..];
    assert forall j :: 0 <= j < |rest| ==> rest[j] == regions[j + 1];
    if IntersectsRange(regions[0], start, end) {
      NoIntersecting(rest, start, end);
      i := 0;
      forall j | 1 <= j < |regions|
        ensures !IntersectsRange(regions[j], start, end)
      {
        assert regions[j] == rest[j - 1];
      }
    } else {
      var k := OneIntersecting(rest, start, end);
      i := k + 1;
      forall j | 1 <= j < |regions|
        ensures IntersectsRange(regions[j], start, end) <==> j == i
      {
        assert regions[j] == rest[j - 1];
      }
    }
  }

  /** One matching position in the map is the one match. */
  lemma {:induction false} OnlyIntersecting(regions: seq<Region>, start: int, end: int, i: nat)
    requires i < |regions|
    requires forall j :: 0 <= j < |regions| ==> (IntersectsRange(regions[j], start, end) <==> j == i)
    ensures GetIntersectingRegions(regions, start, end) == [regions[i]]
  {
    var rest := regions[1..];
    assert forall j :: 0 <= j < |rest| ==> rest[j] == regions[j + 1];
    if i == 0 {
      NoIntersecting(rest, start, end);
    } else {
      OnlyIntersecting(rest, start, end, i - 1);
    }
  }

  predicate ValidRegions(regions: seq<Region>) {
    forall i :: 0 <= i < |regions| ==> ValidBounds(regions[i].start, regions[i].end)
  }

  /** Region `i` and no other has to do with address x. */
  ghost predicate OnlyRegionAt(regions: seq<Region>, x: int, i: int) {
    && 0 <= i < |regions|
    && ContainsAddress(regions[i].start, regions[i].end, x)
    && forall j :: 0 <= j < |regions| && Touches(regions[j], x) ==> j == i
  }

  /** [begin, end) lies in one cacheable region and touches no other. */
  ghost predicate InOneCacheable(regions: seq<Region>, begin: int, end: int) {
    exists i :: 0 <= i < |regions| && regions[i].isCacheable
                && forall x :: begin <= x < end ==> OnlyRegionAt(regions, x, i)
  }

  ghost predicate CacheableAt(regions: seq<Region>, x: int) {
    exists i :: OnlyRegionAt(regions, x, i) && regions[i].isCacheable
  }

  lemma InOneCacheableAt(regions: seq<Region>, begin: int, end: int, x: int)
    requires InOneCacheable(regions, begin, end) && begin <= x < end
    ensures CacheableAt(regions, x)
  {
    var i :| 0 <= i < |regions| && regions[i].isCacheable
             && forall y :: begin <= y < end ==> OnlyRegionAt(regions, y, i);
    assert OnlyRegionAt(regions, x, i);
  }

  /** Overlapping stretches of one cacheable region join to such a stretch. */
  lemma InOneCacheableJoins(regions: seq<Region>, b: int, e: int, b': int, e': int)
    requires InOneCacheable(regions, b, e) && InOneCacheable(regions, b', e')
    requires b <= b' < e
    ensures InOneCacheable(regions, b, if e < e' then e' else e)
  {
    if b' < e' {
      var i :| 0 <= i < |regions| && regions[i].isCacheable && forall x :: b <= x < e ==> OnlyRegionAt(regions, x, i);
      var j :| 0 <= j < |regions| && regions[j].isCacheable && forall x :: b' <= x < e' ==> OnlyRegionAt(regions, x, j);
      assert OnlyRegionAt(regions, b', i) && OnlyRegionAt(regions, b', j);
      assert i == j;
      var m := if e < e' then e' else e;
      assert forall x :: b <= x < m ==> OnlyRegionAt(regions, x, i);
    }
  }

  /** The name the added copy gets: `freshName` stands for what uniquify_name returns on a clash. */
  function AddedCopy(regions: seq<Region>, region: Region, freshName: string): Region {
    if region.name != "" && exists i :: 0 <= i < |regions| && regions[i].name == region.name
    then region.(name := freshName)
    else region
  }

  ghost predicate InBounds(regions: seq<Region>, start: int, end: int) {
    forall r :: r in regions ==> ContainsAddress(start, end, r.start) && ContainsAddress(start, end, r.end)
  }

  ghost predicate SortedByStart(regions: seq<Region>) {
    forall i, j :: 0 <= i < j < |regions| ==> regions[i].start <= regions[j].start
  }

  /** Only unnamed regions share a name. */
  ghost predicate UniqueNames(regions: seq<Region>) {
    forall i, j :: 0 <= i < j < |regions| && regions[i].name == regions[j].name ==> regions[i].name == ""
  }

  function Inserted(regions: seq<Region>, k: nat, added: Region): (r: seq<Region>)
    requires k <= |regions|
  {
    regions[..k] + [added] + regions[k..]
  }

  lemma InsertedElements(regions: seq<Region>, k: nat, added: Region)
    requires k <= |regions|
    ensures multiset(Inserted(regions, k, added)) == multiset(regions) + multiset{added}
    ensures forall r :: r in Inserted(regions, k, added) <==> r in regions || r == added
  {
    assert regions == regions[..k] + regions[k..];
  }

  lemma InsertedInBounds(regions: seq<Region>, k: nat, added: Region, start: int, end: int)
    requires k <= |regions| && InBounds(regions, start, end)
    requires ContainsAddress(start, end, added.start) && ContainsAddress(start, end, added.end)
    ensures InBounds(Inserted(regions, k, added), start, end)
  {
    InsertedElements(regions, k, added);
  }

  /** The copy is the region itself, but for its name when that is taken; no region has the name it gets, unless it has
      none. */
  lemma AddedCopyFits(regions: seq<Region>, region: Region, freshName: string)
    requires forall i :: 0 <= i < |regions| ==> regions[i].name != freshName
    ensures var added := AddedCopy(regions, region, freshName);
            && added.start == region.start && added.end == region.end && added.isCacheable == region.isCacheable
            && (added.name != region.name ==> added.name == freshName && region.name != "")
            && (added.name == region.name || exists i :: 0 <= i < |regions| && regions[i].name == region.name)
            && forall i :: 0 <= i < |regions| && regions[i].name == added.name ==> added.name == ""
  {
  }

  lemma InsertedSorted(regions: seq<Region>, k: nat, added: Region)
    requires k <= |regions| && SortedByStart(regions)
    requires forall i :: 0 <= i < k ==> regions[i].start <= added.start
    requires forall i :: k <= i < |regions| ==> added.start < regions[i].start
    ensures SortedByStart(Inserted(regions, k, added))
  {
  }

  lemma InsertedUnique(regions: seq<Region>, k: nat, added: Region)
    requires k <= |regions| && UniqueNames(regions)
    requires forall i :: 0 <= i < |regions| && regions[i].name == added.name ==> added.name == ""
    ensures UniqueNames(Inserted(regions, k, added))
  {
  }

  class MemoryMap {
    const start: int
    const end: int
    var regions: seq<Region>

    constructor (start: int, end: int)
      ensures this.start == start && this.end == end && regions == [] && Valid()
    {
      this.start := start;
      this.end := end;
      regions := [];
    }

    ghost predicate Valid()
      reads this
    {
      InBounds(regions, start, end) && SortedByStart(regions) && UniqueNames(regions)
    }

    /** Out of bounds is an error; otherwise the copy goes into the list. The source sorts by an order that
        also holds between ranges of equal start and length; by start address it is decided either way. */
    method AddRegion(region: Region, freshName: string) returns (ok: bool)
      requires Valid()
      requires forall i :: 0 <= i < |regions| ==> regions[i].name != freshName
      modifies this
      ensures Valid()
      ensures ok <==> ContainsAddress(start, end, region.start) && ContainsAddress(start, end, region.end)
      ensures if ok then multiset(regions) == multiset(old(regions)) + multiset{AddedCopy(old(regions), region, freshName)}
              else regions == old(regions)
    {
      hide Inserted, UniqueNames, AddedCopy, InBounds;
      var added := AddedCopy(regions, region, freshName);
      AddedCopyFits(regions, region, freshName);
      ok := ContainsAddress(start, end, added.start) && ContainsAddress(start, end, added.end);
      if !ok { return; }
      var k := |regions|;
      while k > 0 && added.start < regions[k - 1].start
        invariant 0 <= k <= |regions|
        invariant forall i :: k <= i < |regions| ==> added.start < regions[i].start
      {
        k := k - 1;
      }
      InsertedElements(regions, k, added);
      InsertedInBounds(regions, k, added, start, end);
      InsertedSorted(regions, k, added);
      InsertedUnique(regions, k, added);
      regions := Inserted(regions, k, added);
    }
  }
}

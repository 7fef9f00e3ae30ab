/** Sector erase: which sectors a list of address ranges erases, and between which flash inits and cleanups. */
module FlashErasers {
  import opened Bytes

  datatype SubRegion = SubRegion(start: int, end: int, sectorSize: int)

  /** A memory region; `end` is its last address. Subregions may have other sector sizes. */
  datatype FlashRegion = FlashRegion(
    start: int, end: int, isFlash: bool, sectorSize: int, subregions: seq<SubRegion>)

  /** What the eraser asks of the flash of region `r`. */
  datatype Event = FlashInit(r: nat) | EraseSector(r: nat, addr: int) | FlashCleanup(r: nat)

  /** An address, a range up to but not including `end`, or a start and a length. */
  datatype Spec = Address(addr: int) | Range(start: int, end: int) | Length(start: int, length: int)

  function ConvertSpec(s: Spec): (int, int) {
    match s
    case Address(a) => (a, a + 1)
    case Range(a, b) => (a, b)
    case Length(a, n) => (a, a + n)
  }

  predicate ValidSizes(regions: seq<FlashRegion>) {
    forall i :: 0 <= i < |regions| ==>
      && regions[i].sectorSize > 0
      && forall j :: 0 <= j < |regions[i].subregions| ==> regions[i].subregions[j].sectorSize > 0
  }

  // ---- Sectors ----

  /** The first region that contains the address. */
  function RegionAt(regions: seq<FlashRegion>, a: int): (r: Option<nat>)
    ensures r.Some? ==> r.value < |regions| && regions[r.value].start <= a <= regions[r.value].end
    ensures r.None? ==> forall i :: 0 <= i < |regions| ==> !(regions[i].start <= a <= regions[i].end)
    ensures r.Some? ==> forall i :: 0 <= i < r.value ==> !(regions[i].start <= a <= regions[i].end)
  {
    RegionFrom(regions, a, 0)
  }

  function RegionFrom(regions: seq<FlashRegion>, a: int, from: nat): (r: Option<nat>)
    requires from <= |regions|
    requires forall i :: 0 <= i < from ==> !(regions[i].start <= a <= regions[i].end)
    ensures r.Some? ==> r.value < |regions| && regions[r.value].start <= a <= regions[r.value].end
    ensures r.None? ==> forall i :: 0 <= i < |regions| ==> !(regions[i].start <= a <= regions[i].end)
    ensures r.Some? ==> forall i :: 0 <= i < r.value ==> !(regions[i].start <= a <= regions[i].end)
    decreases |regions| - from
  {
    if from == |regions| then None
    else if regions[from].start <= a <= regions[from].end then Some(from)
    else RegionFrom(regions, a, from + 1)
  }

  predicate FlashAt(regions: seq<FlashRegion>, a: int) {
    RegionAt(regions, a).Some? && regions[RegionAt(regions, a).value].isFlash
  }

  /** The sector size that holds at an address: that of the first subregion there, or of the region. */
  function SubSize(subs: seq<SubRegion>, a: int, otherwise: int): (size: int)
    requires otherwise > 0 && forall j :: 0 <= j < |subs| ==> subs[j].sectorSize > 0
    ensures size > 0
  {
    if subs == [] then otherwise
    else if subs[0].start <= a <= subs[0].end then subs[0].sectorSize
    else SubSize(subs[1..], a, otherwise)
  }

  function SizeAt(regions: seq<FlashRegion>, a: int): (size: int)
    requires ValidSizes(regions) && FlashAt(regions, a)
    ensures size > 0
  {
    var region := regions[RegionAt(regions, a).value];
    SubSize(region.subregions, a, region.sectorSize)
  }

  /** The start of the sector that holds an address. */
  function BaseOf(regions: seq<FlashRegion>, a: int): (b: int)
    requires ValidSizes(regions) && FlashAt(regions, a)
    ensures b <= a < b + SizeAt(regions, a)
  {
    a - a % SizeAt(regions, a)
  }

  /** Sectors fit: every address of a flash address' sector is in the same region and has the same sector size. */
  ghost predicate SectorsFit(regions: seq<FlashRegion>)
    requires ValidSizes(regions)
  {
    forall a, x :: FlashAt(regions, a) && BaseOf(regions, a) <= x < BaseOf(regions, a) + SizeAt(regions, a) ==>
      RegionAt(regions, x) == RegionAt(regions, a) && SizeAt(regions, x) == SizeAt(regions, a)
  }

  /** The first address from `a` on that is `end` or not in flash. */
  function FlashEnd(regions: seq<FlashRegion>, a: int, end: int): (s: int)
    ensures a >= end ==> s == a
    ensures a < end ==> a <= s <= end && forall y :: a <= y < s ==> FlashAt(regions, y)
    ensures a < end && s < end ==> !FlashAt(regions, s)
    decreases end - a
  {
    if a >= end || !FlashAt(regions, a) then a else FlashEnd(regions, a + 1, end)
  }

  // ---- What erasing does ----

  datatype Plan = Plan(events: seq<Event>, current: Option<nat>)

  /** Switching from the flash in use to that of region `r`. */
  function Switch(current: Option<nat>, r: nat): seq<Event> {
    if current == Some(r) then []
    else (if current.Some? then [FlashCleanup(current.value)] else []) + [FlashInit(r)]
  }

  /** Erasing [a, end), sector by sector, up to the first address outside flash. */
  function EraseRange(regions: seq<FlashRegion>, a: int, end: int, current: Option<nat>): Plan
    requires ValidSizes(regions)
    decreases end - a
  {
    if a >= end || !FlashAt(regions, a) then Plan([], current)
    else
      var r := RegionAt(regions, a).value;
      var base := BaseOf(regions, a);
      var rest := EraseRange(regions, base + SizeAt(regions, a), end, Some(r));
      Plan(Switch(current, r) + [EraseSector(r, base)] + rest.events, rest.current)
  }

  function EraseSpecs(regions: seq<FlashRegion>, specs: seq<Spec>): Plan
    requires ValidSizes(regions)
    decreases |specs|
  {
    if specs == [] then Plan([], None)
    else
      var before := EraseSpecs(regions, specs[..|specs| - 1]);
      var (a, end) := ConvertSpec(specs[|specs| - 1]);
      var last := EraseRange(regions, a, end, before.current);
      Plan(before.events + last.events, last.current)
  }

  function CleanedUp(p: Plan): seq<Event> {
    p.events + (if p.current.Some? then [FlashCleanup(p.current.value)] else [])
  }

  // ---- Inits and cleanups ----

  /** The flash in use after the events, or an error: a flash is inited when none is in use, and erases and cleanups
      are of the flash in use. */
  function Brackets(events: seq<Event>, current: Option<nat>): Option<Option<nat>>
    decreases |events|
  {
    if events == [] then Some(current)
    else
      var before := Brackets(events[..|events| - 1], current);
      if before.None? then None
      else
        match events[|events| - 1]
        case FlashInit(r) => if before.value.None? then Some(Some(r)) else None
        case EraseSector(r, _) => if before.value == Some(r) then before else None
        case FlashCleanup(r) => if before.value == Some(r) then Some(None) else None
  }

  lemma {:induction false} BracketsSplit(a: seq<Event>, b: seq<Event>, current: Option<nat>)
    ensures Brackets(a + b, current) ==
            if Brackets(a, current).None? then None else Brackets(b, Brackets(a, current).value)
    decreases |b|
  {
    if b == [] {
      assert a + b == a;
    } else {
      assert (a + b)[..|a + b| - 1] == a + b[..|b| - 1];
      BracketsSplit(a, b[..|b| - 1], current);
    }
  }

  lemma BracketsOne(e: Event, current: Option<nat>)
    ensures Brackets([e], current) ==
            match e
            case FlashInit(r) => if current.None? then Some(Some(r)) else None
            case EraseSector(r, _) => if current == Some(r) then Some(current) else None
            case FlashCleanup(r) => if current == Some(r) then Some(None) else None
  {
    assert [e][..0] == [];
  }

  lemma SwitchBrackets(current: Option<nat>, r: nat)
    ensures Brackets(Switch(current, r), current) == Some(Some(r))
  {
    BracketsOne(FlashInit(r), None);
    if current.Some? && current != Some(r) {
      BracketsOne(FlashCleanup(current.value), current);
      BracketsSplit([FlashCleanup(current.value)], [FlashInit(r)], current);
    } else if current.None? {
      assert Switch(current, r) == [FlashInit(r)];
    }
  }

  lemma StepBrackets(current: Option<nat>, r: nat, base: int, rest: seq<Event>, after: Option<nat>)
    requires Brackets(rest, Some(r)) == Some(after)
    ensures Brackets(Switch(current, r) + [EraseSector(r, base)] + rest, current) == Some(after)
  {
    SwitchBrackets(current, r);
    BracketsOne(EraseSector(r, base), Some(r));
    hide *;
    BracketsSplit(Switch(current, r), [EraseSector(r, base)], current);
    BracketsSplit(Switch(current, r) + [EraseSector(r, base)], rest, current);
  }

  lemma {:induction false} RangeBrackets(regions: seq<FlashRegion>, a: int, end: int, current: Option<nat>)
    requires ValidSizes(regions)
    ensures var p := EraseRange(regions, a, end, current); Brackets(p.events, current) == Some(p.current)
    decreases end - a
  {
    hide ValidSizes, RegionAt, SizeAt, Switch;
    if a < end && FlashAt(regions, a) {
      var r, base := RegionAt(regions, a).value, BaseOf(regions, a);
      var rest := EraseRange(regions, base + SizeAt(regions, a), end, Some(r));
      RangeBrackets(regions, base + SizeAt(regions, a), end, Some(r));
      StepBrackets(current, r, base, rest.events, rest.current);
    }
  }

  lemma {:induction false} SpecsBracket(regions: seq<FlashRegion>, specs: seq<Spec>)
    requires ValidSizes(regions)
    ensures var p := EraseSpecs(regions, specs); Brackets(p.events, None) == Some(p.current)
    decreases |specs|
  {
    hide ValidSizes, EraseRange;
    if specs != [] {
      var n := |specs| - 1;
      SpecsBracket(regions, specs[..n]);
      var before := EraseSpecs(regions, specs[..n]);
      var (a, end) := ConvertSpec(specs[n]);
      RangeBrackets(regions, a, end, before.current);
      BracketsSplit(before.events, EraseRange(regions, a, end, before.current).events, None);
    }
  }

  /** Over all specs, every erase is between the init and the cleanup of its own flash, and inits and cleanups
      alternate and balance. */
  lemma ErasesAreBracketed(regions: seq<FlashRegion>, specs: seq<Spec>)
    requires ValidSizes(regions)
    ensures Brackets(CleanedUp(EraseSpecs(regions, specs)), None) == Some(None)
  {
    hide ValidSizes, EraseSpecs;
    var p := EraseSpecs(regions, specs);
    SpecsBracket(regions, specs);
    if p.current.Some? {
      BracketsOne(FlashCleanup(p.current.value), p.current);
      BracketsSplit(p.events, [FlashCleanup(p.current.value)], None);
    } else {
      assert CleanedUp(p) == p.events;
    }
  }

  // ---- The sectors erased ----

  function Erased(events: seq<Event>): seq<int> {
    if events == [] then []
    else (if events[0].EraseSector? then [events[0].addr] else []) + Erased(events[1..])
  }

  lemma {:induction false} ErasedSplit(a: seq<Event>, b: seq<Event>)
    ensures Erased(a + b) == Erased(a) + Erased(b)
  {
    if a == [] {
      assert a + b == b;
    } else {
      var first := if a[0].EraseSector? then [a[0].addr] else [];
      assert (a + b)[1..] == a[1..] + b && (a + b)[0] == a[0];
      ErasedSplit(a[1..], b);
      assert Erased(a + b) == first + Erased(a[1..] + b);
      assert first + (Erased(a[1..]) + Erased(b)) == first + Erased(a[1..]) + Erased(b);
    }
  }

  lemma ErasedStep(current: Option<nat>, r: nat, base: int, rest: seq<Event>)
    ensures Erased(Switch(current, r) + [EraseSector(r, base)] + rest) == [base] + Erased(rest)
  {
    var s := Switch(current, r);
    ErasedSplit(s, [EraseSector(r, base)]);
    ErasedSplit(s + [EraseSector(r, base)], rest);
    assert Erased([EraseSector(r, base)][1..]) == [];
    assert Erased(s) == [] by {
      if |s| == 1 { assert s[1..] == []; }
      if |s| == 2 { assert s[1..][1..] == []; }
    }
  }

  /** All addresses of a sector have the same sector start. */
  lemma SameSector(regions: seq<FlashRegion>, a: int, x: int)
    requires ValidSizes(regions) && SectorsFit(regions) && FlashAt(regions, a)
    requires BaseOf(regions, a) <= x < BaseOf(regions, a) + SizeAt(regions, a)
    ensures FlashAt(regions, x) && BaseOf(regions, x) == BaseOf(regions, a)
  {
    var size := SizeAt(regions, a);
    assert RegionAt(regions, x) == RegionAt(regions, a) && SizeAt(regions, x) == size;
    hide SectorsFit, RegionAt, SubSize, ValidSizes, SizeAt;
    SameBlock(a, x, size);
  }

  lemma SameBlock(a: int, x: int, size: int)
    requires size > 0 && a - a % size <= x < a - a % size + size
    ensures x - x % size == a - a % size
  {
    var p, q := a / size, x / size;
    assert a - a % size == p * size && x - x % size == q * size;
    Between(p, q, size);
  }

  lemma Between(p: int, q: int, size: int)
    requires size > 0 && p * size - size < q * size < p * size + size
    ensures p == q
  {
    var d := q - p;
    assert d * size == q * size - p * size;
    if d >= 1 { AtLeast(d, size); }
    if d <= -1 { AtLeast(-d, size); }
  }

  lemma AtLeast(d: int, size: int)
    requires d >= 1 && size > 0
    ensures d * size >= size
  {
  }

  ghost predicate Meets(regions: seq<FlashRegion>, b: int, from: int, upto: int)
    requires ValidSizes(regions)
  {
    exists y :: from <= y < upto && FlashAt(regions, y) && BaseOf(regions, y) == b
  }

  lemma {:induction false} FlashEndSkips(regions: seq<FlashRegion>, a: int, b: int, end: int)
    requires a <= b <= end && forall y :: a <= y < b ==> FlashAt(regions, y)
    ensures FlashEnd(regions, a, end) == FlashEnd(regions, b, end)
    decreases b - a
  {
    hide FlashAt;
    if a < b {
      assert FlashAt(regions, a);
      FlashEndSkips(regions, a + 1, b, end);
    }
  }

  /** An address past a sector starts no earlier. */
  lemma BasePastSector(regions: seq<FlashRegion>, a: int, y: int)
    requires ValidSizes(regions) && SectorsFit(regions) && FlashAt(regions, a) && FlashAt(regions, y)
    requires BaseOf(regions, a) + SizeAt(regions, a) <= y
    ensures BaseOf(regions, y) >= BaseOf(regions, a) + SizeAt(regions, a)
  {
    var last := BaseOf(regions, a) + SizeAt(regions, a) - 1;
    SameSector(regions, a, last);
    assert SizeAt(regions, last) == SizeAt(regions, a);
    hide SectorsFit, RegionAt, SizeAt, FlashAt, ValidSizes;
    if BaseOf(regions, y) <= last {
      SameSector(regions, y, last);
    }
  }

  /** What the first sector of a range adds. */
  lemma FirstSector(regions: seq<FlashRegion>, a: int, end: int, b: int)
    requires ValidSizes(regions) && SectorsFit(regions) && a < end && FlashAt(regions, a)
    ensures var next := BaseOf(regions, a) + SizeAt(regions, a);
            && (Meets(regions, b, a, FlashEnd(regions, a, end))
                <==> b == BaseOf(regions, a) || Meets(regions, b, next, FlashEnd(regions, next, end)))
            && (Meets(regions, b, next, FlashEnd(regions, next, end)) ==> b >= next)
  {
    var base, next := BaseOf(regions, a), BaseOf(regions, a) + SizeAt(regions, a);
    var e, within := FlashEnd(regions, a, end), if next < end then next else end;
    forall y | a <= y < next
      ensures FlashAt(regions, y) && BaseOf(regions, y) == base
    {
      SameSector(regions, a, y);
    }
    FlashEndSkips(regions, a, within, end);
    hide FlashAt, BaseOf, SizeAt, SectorsFit, ValidSizes, FlashEnd;
    if Meets(regions, b, a, e) {
      var y :| a <= y < e && FlashAt(regions, y) && BaseOf(regions, y) == b;
      assert y < next ==> b == base;
      assert y >= next ==> next < end;
    }
    if Meets(regions, b, next, FlashEnd(regions, next, end)) {
      var y :| next <= y < FlashEnd(regions, next, end) && FlashAt(regions, y) && BaseOf(regions, y) == b;
      assert next < end;
      BasePastSector(regions, a, y);
    }
  }

  predicate Increasing(s: seq<int>) {
    forall i, j :: 0 <= i < j < |s| ==> s[i] < s[j]
  }

  /** One range erases, in increasing order, exactly the sectors that hold an address of the range before the first
      address outside flash. */
  lemma {:induction false} ErasedExactly(regions: seq<FlashRegion>, a: int, end: int, current: Option<nat>)
    requires ValidSizes(regions) && SectorsFit(regions)
    ensures var bases := Erased(EraseRange(regions, a, end, current).events);
            && (forall b :: b in bases <==> Meets(regions, b, a, FlashEnd(regions, a, end)))
            && Increasing(bases)
    decreases end - a
  {
    hide BaseOf, SizeAt, SectorsFit, ValidSizes, Meets, RegionAt, Switch, Erased;
    if a >= end || !FlashAt(regions, a) {
      NothingErased();
      forall b
        ensures !Meets(regions, b, a, FlashEnd(regions, a, end))
      {
        NothingMet(regions, b, a, FlashEnd(regions, a, end));
      }
    } else {
      var r, base := RegionAt(regions, a).value, BaseOf(regions, a);
      var next := base + SizeAt(regions, a);
      var rest := EraseRange(regions, next, end, Some(r));
      ErasedStep(current, r, base, rest.events);
      ErasedExactly(regions, next, end, Some(r));
      var bases, later := Erased(EraseRange(regions, a, end, current).events), Erased(rest.events);
      assert bases == [base] + later;
      forall b
        ensures b in bases <==> Meets(regions, b, a, FlashEnd(regions, a, end))
      {
        FirstSector(regions, a, end, b);
      }
      forall j | 0 <= j < |later|
        ensures later[j] > base
      {
        assert later[j] in later;
        FirstSector(regions, a, end, later[j]);
      }
      FirstBelow(base, later);
    }
  }

  lemma FirstBelow(base: int, later: seq<int>)
    requires forall j :: 0 <= j < |later| ==> later[j] > base
    requires Increasing(later)
    ensures Increasing([base] + later)
  {
    forall i, j | 0 <= i < j < |[base] + later|
      ensures ([base] + later)[i] < ([base] + later)[j]
    {
      if i > 0 { assert later[i - 1] < later[j - 1]; }
    }
  }

  lemma NothingErased()
    ensures Erased([]) == []
  {
  }

  lemma NothingMet(regions: seq<FlashRegion>, b: int, from: int, upto: int)
    requires ValidSizes(regions) && from >= upto
    ensures !Meets(regions, b, from, upto)
  {
  }

  // ---- The sectors of a list of specs ----

  /** The addresses a spec is about: one address, a range up to but not including its end, or so many from a start. */
  predicate Names(s: Spec, x: int) {
    match s
    case Address(a) => x == a
    case Range(a, b) => a <= x < b
    case Length(a, n) => a <= x < a + n
  }

  /** Sector `b` holds an address of the spec, all addresses of the spec before which are in flash, too. */
  ghost predicate IsErasedBy(regions: seq<FlashRegion>, s: Spec, b: int)
    requires ValidSizes(regions)
  {
    exists x :: Names(s, x) && FlashAt(regions, x) && BaseOf(regions, x) == b
                && forall y :: Names(s, y) && y < x ==> FlashAt(regions, y)
  }

  /** These are the sectors of one spec, in increasing order. */
  ghost predicate SectorsOf(regions: seq<FlashRegion>, s: Spec, bases: seq<int>)
    requires ValidSizes(regions)
  {
    Increasing(bases) && forall b :: b in bases <==> IsErasedBy(regions, s, b)
  }

  /** These are the sectors of the specs, one spec after another. */
  ghost predicate SectorsInTurn(regions: seq<FlashRegion>, specs: seq<Spec>, bases: seq<int>)
    requires ValidSizes(regions)
    decreases |specs|
  {
    if specs == [] then bases == []
    else
      exists k :: 0 <= k <= |bases|
                  && SectorsInTurn(regions, specs[..|specs| - 1], bases[..k])
                  && SectorsOf(regions, specs[|specs| - 1], bases[k..])
  }

  lemma ConvertedNames(s: Spec, x: int)
    ensures Names(s, x) <==> ConvertSpec(s).0 <= x < ConvertSpec(s).1
  {
  }

  lemma BeforeFlashEnd(regions: seq<FlashRegion>, a: int, end: int, x: int)
    requires a <= x < end && FlashAt(regions, x)
    ensures x < FlashEnd(regions, a, end) <==> forall y :: a <= y < x ==> FlashAt(regions, y)
  {
    hide FlashAt;
    var e := FlashEnd(regions, a, end);
    if x >= e {
      assert !FlashAt(regions, e);
    }
  }

  /** One spec erases exactly its sectors, in increasing order. */
  lemma SpecErasesExactly(regions: seq<FlashRegion>, s: Spec, current: Option<nat>)
    requires ValidSizes(regions) && SectorsFit(regions)
    ensures var (a, end) := ConvertSpec(s); SectorsOf(regions, s, Erased(EraseRange(regions, a, end, current).events))
  {
    hide ConvertSpec, Names, Erased, EraseRange, FlashAt, BaseOf, FlashEnd, SectorsFit, Increasing;
    var (a, end) := ConvertSpec(s);
    ErasedExactly(regions, a, end, current);
    forall x
      ensures Names(s, x) <==> a <= x < end
    {
      ConvertedNames(s, x);
    }
    forall b
      ensures Meets(regions, b, a, FlashEnd(regions, a, end)) <==> IsErasedBy(regions, s, b)
    {
      FlashEndInside(regions, a, end);
      forall x | a <= x < end && FlashAt(regions, x)
        ensures x < FlashEnd(regions, a, end) <==> forall y :: a <= y < x ==> FlashAt(regions, y)
      {
        BeforeFlashEnd(regions, a, end, x);
      }
      MeetsIsErased(regions, s, b, a, end);
    }
  }

  lemma FlashEndInside(regions: seq<FlashRegion>, a: int, end: int)
    ensures FlashEnd(regions, a, end) <= if a < end then end else a
  {
  }

  lemma MeetsIsErased(regions: seq<FlashRegion>, s: Spec, b: int, a: int, end: int)
    requires ValidSizes(regions)
    requires FlashEnd(regions, a, end) <= if a < end then end else a
    requires forall x :: Names(s, x) <==> a <= x < end
    requires forall x :: a <= x < end && FlashAt(regions, x) ==>
               (x < FlashEnd(regions, a, end) <==> forall y :: a <= y < x ==> FlashAt(regions, y))
    ensures Meets(regions, b, a, FlashEnd(regions, a, end)) <==> IsErasedBy(regions, s, b)
  {
    hide Names, FlashAt, BaseOf, FlashEnd;
    if Meets(regions, b, a, FlashEnd(regions, a, end)) {
      var x :| a <= x < FlashEnd(regions, a, end) && FlashAt(regions, x) && BaseOf(regions, x) == b;
      assert Names(s, x);
    }
    if IsErasedBy(regions, s, b) {
      var x :| Names(s, x) && FlashAt(regions, x) && BaseOf(regions, x) == b
               && forall y :: Names(s, y) && y < x ==> FlashAt(regions, y);
      assert forall y :: a <= y < x ==> FlashAt(regions, y);
    }
  }

  /** A list of specs erases, spec by spec, exactly the sectors that hold an address the spec names before its first
      one outside flash. */
  lemma {:induction false} SpecsEraseExactly(regions: seq<FlashRegion>, specs: seq<Spec>)
    requires ValidSizes(regions) && SectorsFit(regions)
    ensures SectorsInTurn(regions, specs, Erased(EraseSpecs(regions, specs).events))
    decreases |specs|
  {
    hide ConvertSpec, EraseRange, SectorsFit, SectorsOf;
    if specs != [] {
      var n := |specs| - 1;
      SpecsEraseExactly(regions, specs[..n]);
      var before := EraseSpecs(regions, specs[..n]);
      var (a, end) := ConvertSpec(specs[n]);
      var last := EraseRange(regions, a, end, before.current);
      SpecErasesExactly(regions, specs[n], before.current);
      hide Erased;
      ErasedSplit(before.events, last.events);
      var done, bases := Erased(before.events), Erased(EraseSpecs(regions, specs).events);
      assert bases[..|done|] == done && bases[|done|..] == Erased(last.events);
    }
  }

  /** Every erase is of a sector that starts in the region whose flash does it. */
  ghost predicate InOwnFlash(regions: seq<FlashRegion>, events: seq<Event>) {
    forall e :: e in events && e.EraseSector? ==> RegionAt(regions, e.addr) == Some(e.r) && regions[e.r].isFlash
  }

  lemma {:induction false} RangeInOwnFlash(regions: seq<FlashRegion>, a: int, end: int, current: Option<nat>)
    requires ValidSizes(regions) && SectorsFit(regions)
    ensures InOwnFlash(regions, EraseRange(regions, a, end, current).events)
    decreases end - a
  {
    hide ValidSizes, SizeAt, SectorsFit, RegionAt;
    if a < end && FlashAt(regions, a) {
      var r, base := RegionAt(regions, a).value, BaseOf(regions, a);
      RangeInOwnFlash(regions, base + SizeAt(regions, a), end, Some(r));
      SectorStart(regions, a);
    }
  }

  lemma SectorStart(regions: seq<FlashRegion>, a: int)
    requires ValidSizes(regions) && SectorsFit(regions) && FlashAt(regions, a)
    ensures RegionAt(regions, BaseOf(regions, a)) == RegionAt(regions, a)
  {
    assert BaseOf(regions, a) <= BaseOf(regions, a) < BaseOf(regions, a) + SizeAt(regions, a);
    hide SizeAt, BaseOf, RegionAt;
  }

  lemma {:induction false} ErasesInOwnFlash(regions: seq<FlashRegion>, specs: seq<Spec>)
    requires ValidSizes(regions) && SectorsFit(regions)
    ensures InOwnFlash(regions, EraseSpecs(regions, specs).events)
    decreases |specs|
  {
    hide ValidSizes, EraseRange, SectorsFit, ConvertSpec, RegionAt;
    if specs != [] {
      var n := |specs| - 1;
      ErasesInOwnFlash(regions, specs[..n]);
      var (a, end) := ConvertSpec(specs[n]);
      RangeInOwnFlash(regions, a, end, EraseSpecs(regions, specs[..n]).current);
    }
  }

  predicate InSub(sub: SubRegion, a: int) {
    sub.start <= a <= sub.end
  }

  predicate SubAligned(sub: SubRegion, size: int)
    requires size > 0
  {
    sub.start % size == 0 && (sub.end + 1) % size == 0
  }

  predicate Covered(region: FlashRegion, a: int) {
    exists j :: 0 <= j < |region.subregions| && InSub(region.subregions[j], a)
  }

  /** Subregions lie in their region, apart from each other, and start and end at multiples of their own sector size;
      unless they cover the region, all boundaries are also multiples of the region's. */
  ghost predicate Tiled(region: FlashRegion)
    requires region.sectorSize > 0
    requires forall j :: 0 <= j < |region.subregions| ==> region.subregions[j].sectorSize > 0
  {
    var subs := region.subregions;
    && (forall j :: 0 <= j < |subs| ==>
          region.start <= subs[j].start && subs[j].end <= region.end && SubAligned(subs[j], subs[j].sectorSize))
    && (forall j, k :: 0 <= j < k < |subs| ==> subs[j].end < subs[k].start || subs[k].end < subs[j].start)
    && ((forall a :: region.start <= a <= region.end ==> Covered(region, a))
        || (region.start % region.sectorSize == 0 && (region.end + 1) % region.sectorSize == 0
            && forall j :: 0 <= j < |subs| ==> SubAligned(subs[j], region.sectorSize)))
  }

  /** Regions apart from each other, with every boundary at a multiple of the sector sizes beside it. */
  ghost predicate AlignedApart(regions: seq<FlashRegion>)
    requires ValidSizes(regions)
  {
    && (forall i :: 0 <= i < |regions| ==> Tiled(regions[i]))
    && (forall i, j :: 0 <= i < j < |regions| ==>
          regions[i].end < regions[j].start || regions[j].end < regions[i].start)
  }

  lemma {:induction false} SubSizeIs(subs: seq<SubRegion>, a: int, otherwise: int, j: nat)
    requires otherwise > 0 && forall k :: 0 <= k < |subs| ==> subs[k].sectorSize > 0
    requires j <= |subs| && forall k :: 0 <= k < |subs| && k != j ==> !InSub(subs[k], a)
    requires j < |subs| ==> InSub(subs[j], a)
    ensures SubSize(subs, a, otherwise) == if j < |subs| then subs[j].sectorSize else otherwise
  {
    if subs != [] && j > 0 {
      assert !InSub(subs[0], a);
      SubSizeIs(subs[1..], a, otherwise, j - 1);
    }
  }

  /** A block that meets an aligned range lies inside it. */
  lemma BlockInside(a: int, start: int, end: int, size: int)
    requires size > 0 && start <= a < end && start % size == 0 && end % size == 0
    ensures start <= a - a % size && a - a % size + size <= end
  {
    var p, q, k := start / size, end / size, a / size;
    Multiples(start, size);
    Multiples(end, size);
    Multiples(a, size);
    NotPast(p, k, size);
    NotPast(k + 1, q, size);
  }

  lemma Multiples(a: int, size: int)
    requires size > 0
    ensures a == a / size * size + a % size && 0 <= a % size < size
    ensures (a / size + 1) * size == a / size * size + size
  {
  }

  lemma NotPast(p: int, k: int, size: int)
    requires size > 0
    ensures p * size < k * size + size ==> p <= k && p * size <= k * size
  {
    assert (p - k) * size == p * size - k * size;
    if p > k {
      AtLeast(p - k, size);
    } else if p < k {
      AtLeast(k - p, size);
      assert (k - p) * size == k * size - p * size;
    }
  }

  /** In an aligned region the sector of an address lies in the region, and has one size throughout. */
  lemma SectorInRegion(region: FlashRegion, a: int, x: int)
    requires region.sectorSize > 0
    requires forall j :: 0 <= j < |region.subregions| ==> region.subregions[j].sectorSize > 0
    requires Tiled(region) && region.start <= a <= region.end
    requires var size := SubSize(region.subregions, a, region.sectorSize); a - a % size <= x < a - a % size + size
    ensures region.start <= x <= region.end
    ensures SubSize(region.subregions, x, region.sectorSize) == SubSize(region.subregions, a, region.sectorSize)
  {
    hide SubAligned, SubSize;
    var subs := region.subregions;
    if Covered(region, a) {
      var j :| 0 <= j < |subs| && InSub(subs[j], a);
      SubSizeIs(subs, a, region.sectorSize, j);
      SubBlockInside(subs[j], a, subs[j].sectorSize);
      SubSizeIs(subs, x, region.sectorSize, j);
    } else {
      SubSizeIs(subs, a, region.sectorSize, |subs|);
      BlockInside(a, region.start, region.end + 1, region.sectorSize);
      SameBlock(a, x, region.sectorSize);
      forall k | 0 <= k < |subs|
        ensures !InSub(subs[k], x)
      {
        if InSub(subs[k], x) { SubBlockInside(subs[k], x, region.sectorSize); }
      }
      SubSizeIs(subs, x, region.sectorSize, |subs|);
    }
  }

  lemma SubBlockInside(sub: SubRegion, a: int, size: int)
    requires size > 0 && SubAligned(sub, size) && InSub(sub, a)
    ensures sub.start <= a - a % size && a - a % size + size <= sub.end + 1
  {
    BlockInside(a, sub.start, sub.end + 1, size);
  }

  /** Aligned regions apart from each other, with or without subregions, are enough for sectors to fit. */
  lemma AlignedFit(regions: seq<FlashRegion>)
    requires ValidSizes(regions) && AlignedApart(regions)
    ensures SectorsFit(regions)
  {
    hide Tiled, SubSize;
    forall a, x | FlashAt(regions, a) && BaseOf(regions, a) <= x < BaseOf(regions, a) + SizeAt(regions, a)
      ensures RegionAt(regions, x) == RegionAt(regions, a) && SizeAt(regions, x) == SizeAt(regions, a)
    {
      SectorInRegion(regions[RegionAt(regions, a).value], a, x);
    }
  }

  // ---- The eraser ----

  /** The flash algorithms on the target; any call may fail, and then does nothing more. */
  class FlashDevice {
    var log: seq<Event>
    ghost var failures: nat   // calls that failed

    constructor ()
      ensures log == [] && failures == 0
    {
      log, failures := [], 0;
    }

    method Call(e: Event) returns (ok: bool)
      modifies this
      ensures log == old(log) + (if ok then [e] else [])
      ensures failures == old(failures) + (if ok then 0 else 1)
    {
      ok := *;
      if ok { log := log + [e]; } else { failures := failures + 1; }
    }
  }

  class FlashEraser {
    const regions: seq<FlashRegion>
    const device: FlashDevice

    constructor (regions: seq<FlashRegion>, device: FlashDevice)
      ensures this.regions == regions && this.device == device
    {
      this.regions, this.device := regions, device;
    }

    /** Erases every sector of the listed ranges. A flash that fails ends the erase part way, uncleaned. */
    method SectorErase(specs: seq<Spec>) returns (ok: bool)
      requires ValidSizes(regions)
      modifies device
      ensures device.failures == old(device.failures) + (if ok then 0 else 1)
      ensures ok ==> device.log == old(device.log) + CleanedUp(EraseSpecs(regions, specs))
      ensures !ok ==> device.log <= old(device.log) + CleanedUp(EraseSpecs(regions, specs))
    {
      hide ValidSizes, EraseRange, EraseSpecs;
      ghost var before := device.log;
      var current: Option<nat> := None;
      NoSpecs(regions, specs);
      for i := 0 to |specs|
        invariant device.log == before + EraseSpecs(regions, specs[..i]).events
        invariant current == EraseSpecs(regions, specs[..i]).current && device.failures == old(device.failures)
      {
        var (start, end) := ConvertSpec(specs[i]);
        NextSpec(regions, specs, i);
        ghost var soFar := EraseSpecs(regions, specs[..i]).events;
        ghost var events := EraseRange(regions, start, end, current).events;
        ok, current := EraseOne(start, end, current);
        if !ok {
          PlanGrows(regions, specs, i + 1);
          PrefixOfSum(before, soFar, device.log, events, CleanedUp(EraseSpecs(regions, specs)));
          return;
        }
        assert before + soFar + events == before + (soFar + events);
      }
      assert specs[..|specs|] == specs;
      ok := true;
      if current.Some? {
        ok := device.Call(FlashCleanup(current.value));
      }
    }

    /** The inner loop, over one range: `inUse` and `current` are the region whose flash is in use. */
    method EraseOne(start: int, end: int, inUse: Option<nat>) returns (ok: bool, current: Option<nat>)
      requires ValidSizes(regions)
      modifies device
      ensures device.failures == old(device.failures) + (if ok then 0 else 1)
      ensures var p := EraseRange(regions, start, end, inUse);
              if ok then device.log == old(device.log) + p.events && current == p.current
              else device.log <= old(device.log) + p.events
    {
      hide *;
      ghost var whole := EraseRange(regions, start, end, inUse);
      ghost var all := Plan(device.log + whole.events, whole.current);
      ReachesWhole(device.log, whole);
      var sector := start;
      current := inUse;
      while sector < end
        invariant Reaches(device.log, EraseRange(regions, sector, end, current), all)
        invariant device.failures == old(device.failures)
        decreases end - sector
      {
        var region := RegionAt(regions, sector);
        NotInFlash(regions, sector, region);
        if region.None? || !regions[region.value].isFlash { break; }
        var size := SizeAt(regions, sector);
        ok := EraseSectorAt(sector, end, current, region.value, size, all);
        if !ok { return; }
        current := region;
        sector := BaseOf(regions, sector) + size;
      }
      RangeDone(regions, sector, end, current);
      Reached(device.log, current, all);
      ok := true;
    }

    /** Aligns down to the sector, switches flash, and erases. */
    method EraseSectorAt(addr: int, ghost end: int, current: Option<nat>, r: nat, size: int, ghost all: Plan)
      returns (ok: bool)
      requires ValidSizes(regions) && addr < end && FlashAt(regions, addr)
      requires RegionAt(regions, addr) == Some(r) && size == SizeAt(regions, addr)
      requires Reaches(device.log, EraseRange(regions, addr, end, current), all)
      modifies device
      ensures device.failures == old(device.failures) + (if ok then 0 else 1)
      ensures if ok then Reaches(device.log, EraseRange(regions, BaseOf(regions, addr) + size, end, Some(r)), all)
              else device.log <= all.events
    {
      hide *;
      NextSector(regions, addr, end, current);
      ghost var rest := EraseRange(regions, BaseOf(regions, addr) + size, end, Some(r));
      ghost var step := Switch(current, r) + [EraseSector(r, BaseOf(regions, addr))];
      StepForward(device.log, step, rest, EraseRange(regions, addr, end, current), all);
      var sector, delta := addr, addr % size;
      BaseIs(regions, addr);
      if delta != 0 { sector := sector - delta; }
      ghost var reached := device.log + step;
      ok := EraseStep(current, r, sector);
      PrefixOfPrefix(device.log, reached, all.events);
    }

    /** Switches to the flash of region `r` if another is in use, and erases one sector. */
    method EraseStep(current: Option<nat>, r: nat, sector: int) returns (ok: bool)
      modifies device
      ensures device.failures == old(device.failures) + (if ok then 0 else 1)
      ensures var step := Switch(current, r) + [EraseSector(r, sector)];
              if ok then device.log == old(device.log) + step else device.log <= old(device.log) + step
    {
      if current != Some(r) {
        if current.Some? {
          ok := device.Call(FlashCleanup(current.value));
          if !ok { return; }
        }
        ok := device.Call(FlashInit(r));
        if !ok { return; }
      }
      ok := device.Call(EraseSector(r, sector));
    }
  }

  lemma BaseIs(regions: seq<FlashRegion>, a: int)
    requires ValidSizes(regions) && FlashAt(regions, a)
    ensures BaseOf(regions, a) == a - a % SizeAt(regions, a)
  {
    hide SizeAt;
  }

  lemma NoSpecs(regions: seq<FlashRegion>, specs: seq<Spec>)
    requires ValidSizes(regions)
    ensures EraseSpecs(regions, specs[..0]) == Plan([], None)
  {
  }

  lemma NextSpec(regions: seq<FlashRegion>, specs: seq<Spec>, i: nat)
    requires ValidSizes(regions) && i < |specs|
    ensures var before := EraseSpecs(regions, specs[..i]);
            var (a, end) := ConvertSpec(specs[i]);
            var last := EraseRange(regions, a, end, before.current);
            EraseSpecs(regions, specs[..i + 1]) == Plan(before.events + last.events, last.current)
  {
    assert specs[..i + 1][..i] == specs[..i];
  }

  lemma {:induction false} PlanGrows(regions: seq<FlashRegion>, specs: seq<Spec>, n: nat)
    requires ValidSizes(regions) && n <= |specs|
    ensures EraseSpecs(regions, specs[..n]).events <= CleanedUp(EraseSpecs(regions, specs))
    decreases |specs| - n
  {
    hide ValidSizes, EraseRange, EraseSpecs;
    if n == |specs| {
      assert specs[..n] == specs;
    } else {
      NextSpec(regions, specs, n);
      PlanGrows(regions, specs, n + 1);
    }
  }

  lemma PrefixOfSum(before: seq<Event>, soFar: seq<Event>, log: seq<Event>, events: seq<Event>, all: seq<Event>)
    requires log <= before + soFar + events && soFar + events <= all
    ensures log <= before + all
  {
    assert before + soFar + events == before + (soFar + events);
    assert before + (soFar + events) <= before + all;
  }

  /** What is logged, and what `rest` will add, make up `all`. */
  ghost predicate Reaches(log: seq<Event>, rest: Plan, all: Plan) {
    log + rest.events == all.events && rest.current == all.current
  }

  lemma ReachesWhole(log: seq<Event>, p: Plan)
    ensures Reaches(log, p, Plan(log + p.events, p.current))
  {
  }

  lemma StepForward(log: seq<Event>, step: seq<Event>, rest: Plan, whole: Plan, all: Plan)
    requires Reaches(log, whole, all) && whole == Plan(step + rest.events, rest.current)
    ensures Reaches(log + step, rest, all)
    ensures log + step <= all.events
  {
    assert log + step + rest.events == log + (step + rest.events);
  }

  lemma PrefixOfPrefix(log: seq<Event>, reached: seq<Event>, all: seq<Event>)
    ensures log <= reached <= all ==> log <= all
  {
  }

  lemma Reached(log: seq<Event>, current: Option<nat>, all: Plan)
    ensures Reaches(log, Plan([], current), all) ==> log == all.events && current == all.current
  {
    assert log + [] == log;
  }

  lemma NotInFlash(regions: seq<FlashRegion>, a: int, region: Option<nat>)
    requires region == RegionAt(regions, a)
    ensures FlashAt(regions, a) <==> region.Some? && regions[region.value].isFlash
  {
  }

  lemma NextSector(regions: seq<FlashRegion>, a: int, end: int, current: Option<nat>)
    requires ValidSizes(regions) && a < end
    ensures FlashAt(regions, a) ==>
              var r := RegionAt(regions, a).value;
              var base := BaseOf(regions, a);
              var rest := EraseRange(regions, base + SizeAt(regions, a), end, Some(r));
              EraseRange(regions, a, end, current)
              == Plan(Switch(current, r) + [EraseSector(r, base)] + rest.events, rest.current)
  {
    hide RegionAt, SizeAt, BaseOf, Switch;
  }

  lemma RangeDone(regions: seq<FlashRegion>, a: int, end: int, current: Option<nat>)
    requires ValidSizes(regions)
    ensures a >= end || !FlashAt(regions, a) ==> EraseRange(regions, a, end, current) == Plan([], current)
  {
  }
}

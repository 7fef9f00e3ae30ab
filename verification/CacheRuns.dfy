/** The memory cache as a state machine: what each call does to target memory and to the cached bytes, and
    what therefore holds over every run of calls, resumes, resets, steps, halts and target activity. */
module CacheRuns {
  import opened Bytes
  import opened AdiHardware
  import opened Cores
  import opened MemoryMaps

  /** `cached` maps addresses to cached bytes; `hits` and `misses` are the cache's metrics; `cswKnown` says that the
      MEM-AP's own CSW cache is true; `failures` are the accesses below the cache that failed. */
  datatype Sys = Sys(
    mem: seq<byte>, cswKnown: bool, failures: seq<Failure>, core: RunState,
    cacheToken: int, cached: map<int, byte>, hits: int, misses: int)

  ghost predicate InMemory(addr: int, size: int) {
    0 <= addr && 0 <= size && addr + size <= MEM_SIZE
  }

  /** An access must lie in one region; outside all regions it passes uncached. */
  function CheckRegions(regions: seq<Region>, addr: int, count: int): Result<bool> {
    var hit := GetIntersectingRegions(regions, addr, addr + count - 1);
    if |hit| == 0 then Ok(false)
    else if |hit| > 1 || !ContainsRange(hit[0], addr, addr + count - 1) then Err(TransferFault)
    else Ok(hit[0].isCacheable)
  }

  /** A cacheable access has one cacheable region to itself; an uncached one touches no cacheable address. */
  lemma CheckRegionsMeans(regions: seq<Region>, addr: int, count: int)
    requires ValidRegions(regions) && count > 0
    ensures CheckRegions(regions, addr, count) == Ok(true) ==> InOneCacheable(regions, addr, addr + count)
    ensures CheckRegions(regions, addr, count) == Ok(false) ==>
              forall x :: addr <= x < addr + count ==> !CacheableAt(regions, x)
  {
    var last := addr + count - 1;
    var hit := GetIntersectingRegions(regions, addr, last);
    NoIntersecting(regions, addr, last);
    forall i | 0 <= i < |regions|
      ensures IntersectsRange(regions[i], addr, last) <==> exists x :: addr <= x <= last && Touches(regions[i], x)
    {
      IntersectsIffTouched(regions[i], addr, last);
    }
    if |hit| == 0 {
      forall x | addr <= x < addr + count
        ensures !CacheableAt(regions, x)
      {
        forall i | 0 <= i < |regions|
          ensures !OnlyRegionAt(regions, x, i)
        {
          assert !Touches(regions[i], x);
        }
      }
    } else if |hit| == 1 && ContainsRange(hit[0], addr, last) {
      var i := OneIntersecting(regions, addr, last);
      forall x | addr <= x < addr + count
        ensures OnlyRegionAt(regions, x, i)
      {
      }
      forall x | addr <= x < addr + count
        ensures CacheableAt(regions, x) ==> regions[i].isCacheable
      {
        assert Touches(regions[i], x);
      }
    }
  }

  /** Every address of the access is in region `i` and has to do with no other. */
  ghost predicate WithinRegion(regions: seq<Region>, addr: int, count: int, i: int) {
    forall x :: addr <= x < addr + count ==> OnlyRegionAt(regions, x, i)
  }

  /** No region has to do with any address of the access. */
  ghost predicate OutsideRegions(regions: seq<Region>, addr: int, count: int) {
    forall x, i :: addr <= x < addr + count && 0 <= i < |regions| ==> !Touches(regions[i], x)
  }

  /** An access inside one region has that region's cacheability, one outside all regions is uncached, and any other
      is refused. */
  lemma CheckRegionsExactly(regions: seq<Region>, addr: int, count: int)
    requires ValidRegions(regions) && count > 0
    ensures forall i :: 0 <= i < |regions| && WithinRegion(regions, addr, count, i) ==>
              CheckRegions(regions, addr, count) == Ok(regions[i].isCacheable)
    ensures OutsideRegions(regions, addr, count) ==> CheckRegions(regions, addr, count) == Ok(false)
    ensures !OutsideRegions(regions, addr, count) && (forall i :: !WithinRegion(regions, addr, count, i)) ==>
              CheckRegions(regions, addr, count) == Err(TransferFault)
  {
    var last := addr + count - 1;
    var hit := GetIntersectingRegions(regions, addr, last);
    forall i | 0 <= i < |regions|
      ensures IntersectsRange(regions[i], addr, last) <==> exists x :: addr <= x <= last && Touches(regions[i], x)
    {
      IntersectsIffTouched(regions[i], addr, last);
    }
    NoIntersecting(regions, addr, last);
    forall i | 0 <= i < |regions| && WithinRegion(regions, addr, count, i)
      ensures CheckRegions(regions, addr, count) == Ok(regions[i].isCacheable)
    {
      assert OnlyRegionAt(regions, addr, i) && OnlyRegionAt(regions, last, i);
      assert Touches(regions[i], addr);
      forall j | 0 <= j < |regions| && IntersectsRange(regions[j], addr, last)
        ensures j == i
      {
        var x :| addr <= x <= last && Touches(regions[j], x);
        assert OnlyRegionAt(regions, x, i);
      }
      OnlyIntersecting(regions, addr, last, i);
    }
    if |hit| == 1 && ContainsRange(hit[0], addr, last) {
      var i := OneIntersecting(regions, addr, last);
      assert WithinRegion(regions, addr, count, i);
    }
  }

  // ---- One call ----

  /** The check every access starts with: an out-of-date or running core empties the cache. */
  function Checked(s: Sys): Sys {
    if s.core.running then s.(cached := map[], hits := 0, misses := 0)
    else if s.cacheToken != s.core.token then s.(cached := map[], hits := 0, misses := 0, cacheToken := s.core.token)
    else s
  }

  predicate CheckEmpties(s: Sys) {
    s.core.running || s.cacheToken != s.core.token
  }

  /** The bytes of [addr, addr+size) as seen through the cache. */
  function Seen(cached: map<int, byte>, mem: seq<byte>, addr: int, size: nat): (r: seq<byte>)
    requires 0 <= addr && addr + size <= |mem|
    ensures |r| == size
  {
    seq<byte>(size, i requires 0 <= i < size =>
      if addr + i in cached then cached[addr + i] else mem[addr + i])
  }

  /** The cache after every missing byte of [addr, addr+size) was fetched. */
  function Filled(cached: map<int, byte>, mem: seq<byte>, addr: int, size: nat): map<int, byte>
    requires 0 <= addr && addr + size <= |mem|
  {
    (map x: int | x in Span(addr, size) :: mem[x]) + cached
  }

  /** The cache part way through that, when a fetch failed. */
  ghost predicate PartlyFilled(was: map<int, byte>, mem: seq<byte>, now: map<int, byte>, addr: int, size: nat)
    requires 0 <= addr && addr + size <= |mem|
  {
    var full := Filled(was, mem, addr, size);
    && (forall x :: x in was ==> x in now)
    && (forall x :: x in now ==> x in full && now[x] == full[x])
  }

  /** The addresses addr, ..., addr + size - 1. */
  function Span(addr: int, size: nat): (r: set<int>)
    ensures forall x :: x in r <==> addr <= x < addr + size
    ensures |r| == size
  {
    if size == 0 then {} else Span(addr, size - 1) + {addr + size - 1}
  }

  function Present(cached: map<int, byte>, addr: int, size: nat): set<int> {
    set x: int | x in Span(addr, size) && x in cached
  }

  /** How many of the requested bytes are in the cache. */
  function CachedCount(cached: map<int, byte>, addr: int, size: nat): nat {
    |Present(cached, addr, size)|
  }

  /** The call reached the target. It raises exactly when one access below failed, with that access' error; and only
      an access that failed, and not in the probe, can leave the CSW cache wrong. */
  ghost predicate Accessed<T>(c: Sys, c': Sys, r: Result<T>) {
    && (c'.cswKnown || (r.Err? && !r.error.ProbeFailure?))
    && (if r.Ok? then c'.failures == c.failures else Tells(c.failures, c'.failures, r.error))
  }

  function Overwritten(cached: map<int, byte>, addr: int, data: seq<byte>): map<int, byte> {
    cached + (map x: int | x in Span(addr, |data|) :: data[x - addr])
  }

  ghost predicate ReadStep(regions: seq<Region>, s: Sys, s': Sys, addr: int, size: int, r: Result<seq<byte>>)
    requires |s.mem| == MEM_SIZE && (size > 0 ==> InMemory(addr, size))
  {
    if size <= 0 then s' == s && r == Ok([])
    else
      var c := Checked(s);
      match CheckRegions(regions, addr, size)
      case Err(e) => s' == c && r == Err(e)
      case Ok(false) =>
        && s' == c.(cswKnown := s'.cswKnown, failures := s'.failures) && Accessed(c, s', r)
        && (r.Ok? ==> r.value == s.mem[addr..addr + size])
      case Ok(true) =>
        var n := CachedCount(c.cached, addr, size);
        && s' == c.(cached := s'.cached, hits := c.hits + n, misses := c.misses + (size - n),
                    cswKnown := s'.cswKnown, failures := s'.failures)
        && Accessed(c, s', r) && (n == size ==> r.Ok?)
        && PartlyFilled(c.cached, c.mem, s'.cached, addr, size)
        && (r.Ok? ==> r.value == Seen(c.cached, c.mem, addr, size) && s'.cached == Filled(c.cached, c.mem, addr, size))
  }

  /** Target first, then the cache; a target write that fails may have stored the first bytes of the data. */
  ghost predicate WriteStep(regions: seq<Region>, s: Sys, s': Sys, addr: int, data: seq<byte>, r: Result<()>)
    requires |s.mem| == MEM_SIZE && (data != [] ==> InMemory(addr, |data|))
  {
    if data == [] then s' == s && r.Ok?
    else
      var c := Checked(s);
      match CheckRegions(regions, addr, |data|)
      case Err(e) => s' == c && r == Err(e)
      case Ok(cacheable) =>
        if r.Ok?
        then s' == c.(mem := Update(s.mem, addr, data),
                      cached := if cacheable then Overwritten(c.cached, addr, data) else c.cached)
        else
          && s' == c.(mem := s'.mem, cswKnown := s'.cswKnown, failures := s'.failures) && Accessed(c, s', r)
          && Torn(s.mem, s'.mem, addr, data)
  }

  // ---- Runs ----

  datatype Event =
    | Read(addr: int, size: int, got: Result<seq<byte>>)
    | Write(addr: int, data: seq<byte>, done: Result<()>)
    | Invalidate
    | Resume            // does nothing unless halted
    | Reset             // the core runs afterwards
    | StepCore          // one atomic step; does nothing unless halted
    | Halt              // by request, or on its own at a breakpoint
    | TargetActs        // target code changes memory; only while running

  /** One event. Reads and writes are made while the MEM-AP's CSW cache is true; a reset makes it so. */
  ghost predicate Next(regions: seq<Region>, s: Sys, e: Event, s': Sys)
    requires |s.mem| == MEM_SIZE
  {
    && |s'.mem| == MEM_SIZE
    && match e
       case Read(addr, size, got) =>
         s.cswKnown && (size > 0 ==> InMemory(addr, size)) && ReadStep(regions, s, s', addr, size, got)
       case Write(addr, data, done) =>
         s.cswKnown && (data != [] ==> InMemory(addr, |data|)) && WriteStep(regions, s, s', addr, data, done)
       case Invalidate => s' == s.(cached := map[], hits := 0, misses := 0)
       case Resume => s' == s.(core := Resumed(s.core))
       case Reset => s' == s.(core := WasReset(s.core), mem := s'.mem, cswKnown := true)
       case StepCore => s' == if s.core.running then s else s.(core := Stepped(s.core), mem := s'.mem)
       case Halt => s' == s.(core := Halted(s.core))
       case TargetActs => s' == if s.core.running then s.(mem := s'.mem) else s
  }

  /** A debugger attaches: the core's token is 0, the cache has seen none. */
  ghost predicate Init(s: Sys) {
    && |s.mem| == MEM_SIZE && s.cswKnown
    && s.core.token == 0 && s.cacheToken == -1 && s.cached == map[] && s.hits == s.misses == 0
  }

  /** The cached addresses of a write whose byte is not yet what the write would make it. */
  ghost function Disagreeing(cached: map<int, byte>, addr: int, data: seq<byte>): set<int> {
    set x | x in Span(addr, |data|) && x in cached && cached[x] != data[x - addr]
  }

  /** The write does not get as far as the target. */
  predicate Refused(regions: seq<Region>, addr: int, data: seq<byte>) {
    CheckRegions(regions, addr, |data|).Err?
  }

  /** The addresses a failed target write may have left different from the cache: those whose cached byte it would
      have changed. They stay in doubt until the cache is emptied or the bytes are written again. */
  ghost function InDoubt(regions: seq<Region>, s: Sys, doubt: set<int>, e: Event): set<int> {
    match e
    case Read(_, size, _) => if size > 0 && CheckEmpties(s) then {} else doubt
    case Write(addr, data, done) =>
      if data == [] then doubt
      else
        var left := if CheckEmpties(s) then {} else doubt;
        if done.Ok? then left - Span(addr, |data|)
        else if Refused(regions, addr, data) then left
        else left + Disagreeing(Checked(s).cached, addr, data)
    case Invalidate => {}
    case _ => doubt
  }

  /** What every step keeps. While the core runs, the cache's token is strictly older than the core's; while it
      is halted with equal tokens, every cached byte not in doubt equals memory. Only cacheable addresses are
      ever cached. */
  ghost predicate Inv(regions: seq<Region>, s: Sys, doubt: set<int>) {
    && |s.mem| == MEM_SIZE
    && s.cacheToken <= s.core.token
    && (s.core.running ==> s.cacheToken < s.core.token)
    && (forall x :: x in s.cached ==> 0 <= x < MEM_SIZE && CacheableAt(regions, x))
    && (!CheckEmpties(s) ==> forall x :: x in s.cached && x !in doubt ==> s.cached[x] == s.mem[x])
  }

  lemma CheckedKeeps(regions: seq<Region>, s: Sys, doubt: set<int>)
    requires Inv(regions, s, doubt)
    ensures var c := Checked(s);
            && c.mem == s.mem && c.core.token == s.core.token && c.core.running == s.core.running
            && (forall x :: x in c.cached ==> 0 <= x < MEM_SIZE && CacheableAt(regions, x))
            && (forall x :: x in c.cached && x !in (if CheckEmpties(s) then {} else doubt) ==> c.cached[x] == c.mem[x])
            && c.cacheToken <= c.core.token && (c.core.running ==> c.cacheToken < c.core.token)
  {
  }

  lemma ReadKeeps(regions: seq<Region>, s: Sys, doubt: set<int>, e: Event, s': Sys)
    requires ValidRegions(regions) && Inv(regions, s, doubt) && e.Read? && Next(regions, s, e, s')
    ensures Inv(regions, s', InDoubt(regions, s, doubt, e))
  {
    CheckedKeeps(regions, s, doubt);
    if e.size > 0 {
      CheckRegionsMeans(regions, e.addr, e.size);
      forall x | e.addr <= x < e.addr + e.size && CheckRegions(regions, e.addr, e.size) == Ok(true)
        ensures CacheableAt(regions, x)
      {
        InOneCacheableAt(regions, e.addr, e.addr + e.size, x);
      }
    }
  }

  lemma WriteKeeps(regions: seq<Region>, s: Sys, doubt: set<int>, e: Event, s': Sys)
    requires ValidRegions(regions) && Inv(regions, s, doubt) && e.Write? && Next(regions, s, e, s')
    ensures Inv(regions, s', InDoubt(regions, s, doubt, e))
  {
    hide Update, CheckRegions, InOneCacheable, CacheableAt, OnlyRegionAt, ContainsRange;
    CheckedKeeps(regions, s, doubt);
    if e.data != [] {
      var n := |e.data|;
      CheckRegionsMeans(regions, e.addr, n);
      forall x | e.addr <= x < e.addr + n && CheckRegions(regions, e.addr, n) == Ok(true)
        ensures CacheableAt(regions, x)
      {
        InOneCacheableAt(regions, e.addr, e.addr + n, x);
      }
      forall x | 0 <= x < MEM_SIZE
        ensures Update(s.mem, e.addr, e.data)[x] ==
                if e.addr <= x < e.addr + n then e.data[x - e.addr] else s.mem[x]
      {
        UpdateAt(s.mem, e.addr, e.data, x);
      }
      if e.done.Err? && Torn(s.mem, s'.mem, e.addr, e.data) { TornBytes(s.mem, s'.mem, e.addr, e.data); }
    }
  }

  /** After a torn write each byte is as before or as written. */
  lemma TornBytes(m: seq<byte>, m': seq<byte>, addr: int, data: seq<byte>)
    requires 0 <= addr && addr + |data| <= |m| && Torn(m, m', addr, data)
    ensures |m'| == |m|
    ensures forall x :: 0 <= x < |m| ==> m'[x] == m[x] || (addr <= x < addr + |data| && m'[x] == data[x - addr])
  {
    hide Update;
    var k :| 0 <= k <= |data| && m' == Update(m, addr, data[..k]);
    forall x | 0 <= x < |m|
      ensures m'[x] == m[x] || (addr <= x < addr + |data| && m'[x] == data[x - addr])
    {
      UpdateAt(m, addr, data[..k], x);
    }
  }

  lemma NextKeeps(regions: seq<Region>, s: Sys, doubt: set<int>, e: Event, s': Sys)
    requires ValidRegions(regions) && Inv(regions, s, doubt) && Next(regions, s, e, s')
    ensures Inv(regions, s', InDoubt(regions, s, doubt, e))
  {
    match e
    case Read(_, _, _) => ReadKeeps(regions, s, doubt, e, s');
    case Write(_, _, _) => WriteKeeps(regions, s, doubt, e, s');
    case _ =>
  }

  /** A read returns, byte by byte, what target memory holds, except at addresses in doubt. */
  lemma ReadIsCurrent(regions: seq<Region>, s: Sys, doubt: set<int>, e: Event, s': Sys)
    requires ValidRegions(regions) && Inv(regions, s, doubt) && Next(regions, s, e, s')
    requires e.Read? && e.size > 0 && e.got.Ok?
    ensures |e.got.value| == e.size
    ensures forall i :: 0 <= i < e.size && e.addr + i !in InDoubt(regions, s, doubt, e) ==> e.got.value[i] == s'.mem[e.addr + i]
  {
    hide CheckRegions, CacheableAt, Update, Torn, PartlyFilled, Filled, CachedCount, Tells, Span;
    CheckedKeeps(regions, s, doubt);
  }

  /** A run: the states it passes through, one event between each two. */
  ghost predicate IsRun(regions: seq<Region>, states: seq<Sys>, events: seq<Event>) {
    && |states| == |events| + 1
    && Init(states[0])
    && forall i :: 0 <= i < |events| ==> |states[i].mem| == MEM_SIZE && Next(regions, states[i], events[i], states[i + 1])
  }

  ghost function DoubtAfter(regions: seq<Region>, states: seq<Sys>, events: seq<Event>, n: nat): set<int>
    requires n <= |events| < |states|
  {
    if n == 0 then {} else InDoubt(regions, states[n - 1], DoubtAfter(regions, states, events, n - 1), events[n - 1])
  }

  lemma {:induction false} RunKeeps(regions: seq<Region>, states: seq<Sys>, events: seq<Event>, n: nat)
    requires ValidRegions(regions) && IsRun(regions, states, events) && n <= |events|
    ensures Inv(regions, states[n], DoubtAfter(regions, states, events, n))
  {
    if n > 0 {
      RunKeeps(regions, states, events, n - 1);
      NextKeeps(regions, states[n - 1], DoubtAfter(regions, states, events, n - 1), events[n - 1], states[n]);
    }
  }

  /** A write that leaves no cached byte in doubt: it succeeds, is refused, or has nothing to change in the cache. */
  ghost predicate SafeWrite(regions: seq<Region>, s: Sys, e: Event)
    requires e.Write?
  {
    e.done.Ok? || Refused(regions, e.addr, e.data) || Disagreeing(Checked(s).cached, e.addr, e.data) == {}
  }

  /** A run in which all writes were safe puts nothing in doubt. */
  lemma {:induction false} SafeWritesNoDoubt(regions: seq<Region>, states: seq<Sys>, events: seq<Event>, n: nat)
    requires n <= |events| < |states|
    requires forall i :: 0 <= i < n && events[i].Write? ==> SafeWrite(regions, states[i], events[i])
    ensures DoubtAfter(regions, states, events, n) == {}
  {
    if n > 0 {
      SafeWritesNoDoubt(regions, states, events, n - 1);
      assert events[n - 1].Write? ==> SafeWrite(regions, states[n - 1], events[n - 1]);
    }
  }

  /** Over every run, every successful read returns the target's current bytes, except those that a failed
      write put in doubt. */
  lemma EveryReadIsCurrent(regions: seq<Region>, states: seq<Sys>, events: seq<Event>, n: nat)
    requires ValidRegions(regions) && IsRun(regions, states, events) && n < |events|
    requires events[n].Read? && events[n].size > 0 && events[n].got.Ok?
    ensures var e, mem := events[n], states[n + 1].mem;
            && |e.got.value| == e.size
            && forall i :: 0 <= i < e.size && e.addr + i !in DoubtAfter(regions, states, events, n + 1) ==>
                 e.got.value[i] == mem[e.addr + i]
  {
    RunKeeps(regions, states, events, n);
    ReadIsCurrent(regions, states[n], DoubtAfter(regions, states, events, n), events[n], states[n + 1]);
  }

  /** In a run whose writes were all safe, every successful read is exactly the memory slice. */
  lemma EveryReadIsExact(regions: seq<Region>, states: seq<Sys>, events: seq<Event>, n: nat)
    requires ValidRegions(regions) && IsRun(regions, states, events) && n < |events|
    requires events[n].Read? && events[n].size > 0 && events[n].got.Ok?
    requires forall i :: 0 <= i < n && events[i].Write? ==> SafeWrite(regions, states[i], events[i])
    ensures var e := events[n];
            InMemory(e.addr, e.size) && e.got.value == states[n + 1].mem[e.addr..e.addr + e.size]
  {
    EveryReadIsCurrent(regions, states, events, n);
    SafeWritesNoDoubt(regions, states, events, n + 1);
  }

  /** Whatever part of it arrives, a failing write leaves the cache in agreement with memory exactly when it is
      refused, or every cached byte of its range already has the value it would write. */
  lemma FailedWriteSafeExactlyWhen(regions: seq<Region>, s: Sys, addr: int, data: seq<byte>, error: AdiError)
    requires ValidRegions(regions) && Inv(regions, s, {}) && s.cswKnown
    requires data != [] && InMemory(addr, |data|)
    ensures (forall s' :: Next(regions, s, Write(addr, data, Err(error)), s') ==> Inv(regions, s', {}))
            <==> SafeWrite(regions, s, Write(addr, data, Err(error)))
  {
    hide CheckRegions;
    var e, c := Write(addr, data, Err(error)), Checked(s);
    if CheckRegions(regions, addr, |data|).Ok? && Disagreeing(c.cached, addr, data) != {} {
      var x :| x in Disagreeing(c.cached, addr, data);
      var k := x - addr + 1;
      var s' := c.(mem := Update(s.mem, addr, data[..k]), failures := c.failures + [Faulted(error)]);
      UpdateAt(s.mem, addr, data[..k], x);
      assert Torn(s.mem, s'.mem, addr, data);
      assert Next(regions, s, e, s');
      assert !Inv(regions, s', {});
    } else {
      forall s' | Next(regions, s, e, s')
        ensures Inv(regions, s', {})
      {
        if CheckRegions(regions, addr, |data|).Ok? {
          WriteKeeps(regions, s, {}, e, s');
        }
      }
    }
  }

  /** Such a failure exists: one cached byte, a write that changes the target and then reports a fault. */
  lemma FailedWriteLeavesStaleByte(mem: seq<byte>)
    requires |mem| == MEM_SIZE && mem[0] == 1
    ensures var regions := [Region(0, 15, "ram", true)];
            var s := Sys(mem, true, [], RunState(false, 1), 1, map[0 := 1], 0, 1);
            var write := Write(0, [2], Err(TransferFault));
            var s' := s.(mem := mem[0 := 2], failures := [Faulted(TransferFault)]);
            var read := Read(0, 1, Ok([1]));
            && Inv(regions, s, {}) && Next(regions, s, write, s')
            && Next(regions, s', read, s'.(hits := 1)) && s'.mem[0] == 2
  {
    var regions := [Region(0, 15, "ram", true)];
    var s := Sys(mem, true, [], RunState(false, 1), 1, map[0 := 1], 0, 1);
    var s' := s.(mem := mem[0 := 2], failures := [Faulted(TransferFault)]);
    assert [2][..1] == [2];
    assert s'.mem == Update(s.mem, 0, [2][..1]);
    assert Torn(s.mem, s'.mem, 0, [2]);
    assert OnlyRegionAt(regions, 0, 0);
    assert CacheableAt(regions, 0);
    assert regions[1..] == [];
    assert GetIntersectingRegions(regions, 0, 0) == [regions[0]];
    assert CheckRegions(regions, 0, 1) == Ok(true);
    assert Seen(s'.cached, s'.mem, 0, 1) == [1];
    assert Filled(s'.cached, s'.mem, 0, 1) == s'.cached;
    assert Present(s'.cached, 0, 1) == {0};
  }

  /** A read raises only when it is neither inside one region nor outside all, and then before the target is touched,
      or when one access to the target failed; a read of cached bytes alone does not raise. */
  lemma ReadRaisesOnlyWhen(regions: seq<Region>, s: Sys, e: Event, s': Sys)
    requires ValidRegions(regions) && |s.mem| == MEM_SIZE && Next(regions, s, e, s') && e.Read? && e.size > 0
    ensures OutsideRegions(regions, e.addr, e.size) || (exists i :: WithinRegion(regions, e.addr, e.size, i)) ==>
              if e.got.Ok? then s'.failures == s.failures else Tells(s.failures, s'.failures, e.got.error)
    ensures !OutsideRegions(regions, e.addr, e.size) && (forall i :: !WithinRegion(regions, e.addr, e.size, i)) ==>
              e.got == Err(TransferFault) && s' == Checked(s)
  {
    hide CheckRegions, Seen, Filled, PartlyFilled, CachedCount, Tells;
    CheckRegionsExactly(regions, e.addr, e.size);
    if i :| WithinRegion(regions, e.addr, e.size, i) {
      assert OnlyRegionAt(regions, e.addr, i);
    }
  }

  // ---- Metrics ----

  /** Bytes of cached reads since the cache was last emptied. */
  ghost function ReadBytesCounted(regions: seq<Region>, s: Sys, e: Event, total: int): int {
    match e
    case Read(addr, size, _) =>
      if size <= 0 then total
      else (if CheckEmpties(s) then 0 else total) + (if CheckRegions(regions, addr, size) == Ok(true) then size else 0)
    case Write(_, data, _) => if data != [] && CheckEmpties(s) then 0 else total
    case Invalidate => 0
    case _ => total
  }

  ghost function CountedAfter(regions: seq<Region>, states: seq<Sys>, events: seq<Event>, n: nat): int
    requires n <= |events| < |states|
  {
    if n == 0 then 0
    else ReadBytesCounted(regions, states[n - 1], events[n - 1], CountedAfter(regions, states, events, n - 1))
  }

  /** Over every run, hits plus misses is the number of bytes of cached reads since the last reset of the metrics. */
  lemma {:induction false} MetricsCountReads(regions: seq<Region>, states: seq<Sys>, events: seq<Event>, n: nat)
    requires IsRun(regions, states, events) && n <= |events|
    ensures states[n].hits + states[n].misses == CountedAfter(regions, states, events, n)
  {
    if n > 0 {
      MetricsCountReads(regions, states, events, n - 1);
      StepCountsReads(regions, states[n - 1], events[n - 1], states[n]);
    }
  }

  lemma StepCountsReads(regions: seq<Region>, s: Sys, e: Event, s': Sys)
    requires |s.mem| == MEM_SIZE && Next(regions, s, e, s')
    ensures s'.hits + s'.misses == ReadBytesCounted(regions, s, e, s.hits + s.misses)
  {
    hide PartlyFilled, Seen, Filled, Torn, Update, CheckRegions, Span, CachedCount, Overwritten, Accessed;
    if e.Read? && e.size > 0 {
      CachedCountFits(Checked(s).cached, e.addr, e.size);
    }
  }

  lemma SubsetSize(a: set<int>, b: set<int>)
    requires a <= b
    ensures |a| <= |b|
  {
    assert b == a + (b - a);
  }

  lemma CachedCountFits(cached: map<int, byte>, addr: int, size: nat)
    ensures CachedCount(cached, addr, size) <= size
  {
    SubsetSize(Present(cached, addr, size), Span(addr, size));
  }
}

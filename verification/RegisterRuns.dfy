/** The register cache as a state machine: what it keeps over every run of reads, writes and core events, which
    entries can go stale, and when. */
module RegisterRuns {
  import opened Bytes
  import opened BitFields
  import opened Cores
  import opened CoreRegisters
  import opened RegisterTransfers
  import opened BankedTransfers
  import opened CortexMCores

  type Cached = map<int, bv64>

  const CFBP_WORDS: set<int> := {CFBP, CFBP_S, CFBP_NS}
  const COMBINED_WORDS: seq<int> := [CFBP, CFBP_S, CFBP_NS, XPSR]
  const PSR_VIEWS: set<int> := {0x1_0000, 0x1_0001, 0x1_0002, 0x1_0005, 0x1_0006, 0x1_0007}
  const STACK_POINTERS: set<int> := {13, 17, 18, 24, 25, 26, 27}

  /** The registers that are fields of a combined word. */
  function Fields(s: int): set<int> {
    if s == XPSR then PSR_VIEWS else {s * 0x100, s * 0x100 + 1, s * 0x100 + 2, s * 0x100 + 3}
  }

  /** One CFBP field in all three banks. */
  function Variants(lane: int): set<int> {
    {CFBP * 0x100 + lane, CFBP_S * 0x100 + lane, CFBP_NS * 0x100 + lane}
  }

  const ALL_CFBP: set<int> := Variants(0) + Variants(1) + Variants(2) + Variants(3) + CFBP_WORDS

  predicate Any(regs: seq<int>, group: set<int>) {
    exists r :: r in regs && r in group
  }

  // ---- One call ----

  function Asked(regs: seq<int>): set<int> {
    set r | r in regs
  }

  /** The requested registers that are cached. */
  function Held(cached: Cached, regs: seq<int>): set<int> {
    set r | r in regs && r in cached
  }

  function Missing(cached: Cached, regs: seq<int>): set<int> {
    set r | r in regs && r !in cached
  }

  /** Whether a combined word has to be read: it or one of its fields is missing. */
  predicate Meets(missing: set<int>, s: int) {
    exists r :: r in missing && (r == s || r in Fields(s))
  }

  /** The registers read from the core: the missing ones, and the combined words they need. */
  function ReadSet(missing: set<int>, words: seq<int>): set<int> {
    missing + set s | s in words && Meets(missing, s)
  }

  /** The entries that come with the combined words that are read. */
  function WordsRefreshed(missing: set<int>, words: seq<int>): set<int>
    decreases |words|
  {
    if words == [] then {}
    else
      var s := words[|words| - 1];
      WordsRefreshed(missing, words[..|words| - 1]) + (if Meets(missing, s) then Fields(s) + {s} else {})
  }

  /** The entries that a read brings up to date. */
  function Refreshed(missing: set<int>): set<int> {
    WordsRefreshed(missing, COMBINED_WORDS) + missing
  }

  function Refresh(cached: Cached, f: RegFile, news: set<int>): Cached {
    cached + (map r | r in news :: ReadOne(f, r))
  }

  function AfterRead(cached: Cached, f: RegFile, regs: seq<int>): Cached {
    Refresh(cached, f, Refreshed(Missing(cached, regs)))
  }

  function Stored(cached: Cached, es: seq<Entry>): Cached
    decreases |es|
  {
    if es == [] then cached
    else Stored(cached, es[..|es| - 1])[es[|es| - 1].reg := es[|es| - 1].data]
  }

  /** A group of registers that goes as soon as one of it is written. */
  function Dropped(regs: seq<int>, group: set<int>): set<int> {
    if Any(regs, group) then group else {}
  }

  function EvictedCfbp(regs: seq<int>, repaired: bool): set<int> {
    if Any(regs, CFBP_WORDS) then ALL_CFBP
    else
      Dropped(regs, Variants(0)) + Dropped(regs, Variants(1)) + Dropped(regs, Variants(2)) + Dropped(regs, Variants(3))
      + (if repaired && Any(regs, ALL_CFBP) then CFBP_WORDS else {})
  }

  /** The entries dropped by a write. With `repaired`, a written CFBP field also drops the combined words. */
  function Evicted(regs: seq<int>, repaired: bool): set<int> {
    EvictedCfbp(regs, repaired) + Dropped(regs, PSR_VIEWS + {XPSR}) + Dropped(regs, STACK_POINTERS)
  }

  function Regs(es: seq<Entry>): (regs: seq<int>)
    ensures |regs| == |es| && forall i :: 0 <= i < |es| ==> regs[i] == es[i].reg
  {
    seq<int>(|es|, i requires 0 <= i < |es| => es[i].reg)
  }

  function AfterWrite(cached: Cached, es: seq<Entry>, repaired: bool): Cached {
    Stored(cached, es) - Evicted(Regs(es), repaired)
  }

  // ---- What stays right ----

  /** Which selectors can name the same storage: stack pointers, and banks of CFBP. */
  ghost predicate Wired(f: RegFile) {
    forall s, t :: s != t && f.Cell(s) == f.Cell(t) ==>
      (IsStackPointer(s) && IsStackPointer(t)) || (IsCfbpWord(s) && IsCfbpWord(t))
  }

  predicate Right(f: RegFile, cached: Cached, r: int) {
    r in cached && cached[r] == ReadOne(f, r)
  }

  /** The registers the cache keeps right: no s- and d-registers, and no combined CFBP words unless repaired. */
  predicate Covered(r: int, repaired: bool) {
    Known(r) && !IsSingle(r) && !IsDouble(r) && (repaired || !IsCfbpWord(r))
  }

  predicate Coherent(f: RegFile, cached: Cached, repaired: bool) {
    forall r :: r in cached && Covered(r, repaired) ==> Right(f, cached, r)
  }

  /** Values written to registers that are one whole word fit that word. */
  predicate Fits(e: Entry) {
    !IsDouble(e.reg) && !IsField(e.reg) ==> Wide(Low(e.data)) == e.data
  }

  lemma ReadKeepsCoherent(f: RegFile, cached: Cached, regs: seq<int>, repaired: bool)
    requires Coherent(f, cached, repaired)
    ensures Coherent(f, AfterRead(cached, f, regs), repaired)
    ensures forall i :: 0 <= i < |regs| ==> regs[i] in AfterRead(cached, f, regs)
    ensures forall i :: 0 <= i < |regs| && Covered(regs[i], repaired) ==>
              AfterRead(cached, f, regs)[regs[i]] == ReadOne(f, regs[i])
  {
    hide ReadOne, Covered, Meets, Fields;
    var now := AfterRead(cached, f, regs);
    assert forall r :: r in now ==> r in Refreshed(Missing(cached, regs)) || r in cached;
    forall i | 0 <= i < |regs|
      ensures regs[i] in now
    {
      assert regs[i] in Missing(cached, regs) || regs[i] in cached;
    }
  }

  /** Writing `q` can change covered register `r` only if it is `r`, or drops `r` from the cache. */
  lemma OverlapEvicts(f: RegFile, r: int, q: int, regs: seq<int>, repaired: bool)
    requires Wired(f) && Covered(r, repaired) && Known(q) && q in regs && Overlap(f, r, q)
    ensures r == q || r in Evicted(regs, repaired)
  {
    hide MaskOf, RegFile.Cell, Disjoint;
    var s, t :| s in Selectors(r) && t in Selectors(q) && f.Cell(s) == f.Cell(t) && !Disjoint(MaskOf(q), MaskOf(r));
    assert s == t || (IsStackPointer(s) && IsStackPointer(t)) || (IsCfbpWord(s) && IsCfbpWord(t));
    if IsCfbpWord(s) {
      CfbpEvicts(r, q, regs, repaired);
    } else if s == XPSR {
      PsrEvicts(r, q, regs, repaired);
    } else if IsStackPointer(s) {
      StackPointerEvicts(r, q, regs, repaired);
    }
  }

  lemma FieldInVariants(r: int)
    requires IsCfbpField(r) && Known(r)
    ensures r in Variants(r % 4)
  {
  }

  lemma CfbpEvicts(r: int, q: int, regs: seq<int>, repaired: bool)
    requires IsCfbpWord(Selector(r)) && IsCfbpWord(Selector(q)) && Covered(r, repaired) && Known(q) && q in regs
    requires !Disjoint(MaskOf(q), MaskOf(r))
    ensures r in Evicted(regs, repaired)
  {
    hide MaskOf, Disjoint, FieldMask;
    if IsCfbpField(q) {
      FieldInVariants(q);
      if IsCfbpField(r) {
        if q % 4 != r % 4 { FieldsOfOneWord(q, r); }
        FieldInVariants(r);
        hide *;
        VariantsEvicted(regs, r, q, r % 4, repaired);
      } else {
        assert repaired && r in CFBP_WORDS;
        hide *;
        WordsEvicted(regs, r, q, q % 4);
      }
    } else {
      assert q in CFBP_WORDS;
      if IsCfbpField(r) { FieldInVariants(r); }
      assert r in ALL_CFBP;
      hide *;
      AllEvicted(regs, r, q, repaired);
    }
  }

  lemma AllEvicted(regs: seq<int>, r: int, q: int, repaired: bool)
    requires q in regs && q in CFBP_WORDS && r in ALL_CFBP
    ensures r in Evicted(regs, repaired)
  {
    hide Variants;
  }

  lemma VariantsEvicted(regs: seq<int>, r: int, q: int, lane: int, repaired: bool)
    requires 0 <= lane < 4 && q in regs && q in Variants(lane) && r in Variants(lane)
    ensures r in Evicted(regs, repaired)
  {
    hide Variants;
    assert Any(regs, Variants(lane));
    assert r in ALL_CFBP;
  }

  lemma WordsEvicted(regs: seq<int>, r: int, q: int, lane: int)
    requires 0 <= lane < 4 && q in regs && q in Variants(lane) && r in CFBP_WORDS
    ensures r in Evicted(regs, true)
  {
    hide Variants;
    assert q in ALL_CFBP;
    assert r in ALL_CFBP;
  }

  lemma PsrEvicts(r: int, q: int, regs: seq<int>, repaired: bool)
    requires Selector(r) == XPSR == Selector(q) && Known(r) && Known(q) && q in regs
    ensures r in Evicted(regs, repaired)
  {
    assert q in PSR_VIEWS + {XPSR} && r in PSR_VIEWS + {XPSR};
  }

  lemma StackPointerEvicts(r: int, q: int, regs: seq<int>, repaired: bool)
    requires IsStackPointer(r) && IsStackPointer(q) && q in regs
    ensures r in Evicted(regs, repaired)
  {
    assert q in STACK_POINTERS && r in STACK_POINTERS;
  }

  /** Whether reading `m` from the core brings the value of `r` with it: they are parts of one combined word. */
  ghost predicate BroughtBy(m: int, r: int) {
    m == r || (Selector(m) == Selector(r) && Selector(r) in {16, 20, 34, 35})
  }

  /** A read fetches exactly the missing registers and what comes with them; every other entry stays. */
  lemma FillsExactly(cached: Cached, f: RegFile, regs: seq<int>, r: int)
    requires Known(r) && forall i :: 0 <= i < |regs| ==> Known(regs[i])
    ensures var brought := exists i :: 0 <= i < |regs| && regs[i] !in cached && BroughtBy(regs[i], r);
            var now := AfterRead(cached, f, regs);
            && (r in now <==> r in cached || brought)
            && (r in now ==> now[r] == if brought then ReadOne(f, r) else cached[r])
  {
    var missing := Missing(cached, regs);
    FillsOf(missing, r);
    forall m | m in missing
      ensures exists i :: 0 <= i < |regs| && regs[i] == m
    {
      var i :| 0 <= i < |regs| && regs[i] == m;
    }
    hide Refreshed, BroughtBy, Known, ReadOne;
  }

  lemma FillsOf(missing: set<int>, r: int)
    requires Known(r) && forall m :: m in missing ==> Known(m)
    ensures r in Refreshed(missing) <==> exists m :: m in missing && BroughtBy(m, r)
  {
    forall m, s | m in missing && s in COMBINED_WORDS
      ensures m == s || m in Fields(s) <==> Selector(m) == s
    {
      PartsOf(m, s);
    }
    forall s | s in COMBINED_WORDS
      ensures r == s || r in Fields(s) <==> Selector(r) == s
    {
      PartsOf(r, s);
    }
    WordsBring(missing, COMBINED_WORDS, r);
    hide Selector, Fields, Known, WordsRefreshed;
    if m :| m in missing && m != r && BroughtBy(m, r) {
      var s := Selector(r);
      var i := if s == 20 then 0 else if s == 34 then 1 else if s == 35 then 2 else 3;
      assert COMBINED_WORDS[i] == s;
      assert Meets(missing, COMBINED_WORDS[i]);
    }
  }

  lemma PartsOf(m: int, s: int)
    requires Known(m) && s in {16, 20, 34, 35}
    ensures m == s || m in Fields(s) <==> Selector(m) == s
  {
  }

  lemma {:induction false} WordsBring(missing: set<int>, words: seq<int>, r: int)
    ensures r in WordsRefreshed(missing, words) <==>
            exists i :: 0 <= i < |words| && Meets(missing, words[i]) && (r == words[i] || r in Fields(words[i]))
    decreases |words|
  {
    if words != [] {
      WordsBring(missing, words[..|words| - 1], r);
      hide Meets, Fields;
    }
  }

  /** Whether a write of `q` drops `r`: two stack pointers, two parts of xPSR, a combined CFBP word and any part of
      any bank, or one CFBP field and the same field of any bank. */
  ghost predicate DroppedBy(q: int, r: int) {
    || (IsStackPointer(q) && IsStackPointer(r))
    || (Selector(q) == 16 == Selector(r))
    || (q in {20, 34, 35} && Selector(r) in {20, 34, 35})
    || (IsCfbpField(q) && IsCfbpField(r) && q % 0x100 == r % 0x100)
  }

  /** A write drops exactly these entries; every other one survives it, whatever else is written. */
  lemma DropsExactly(cached: Cached, es: seq<Entry>, r: int)
    requires Known(r) && forall i :: 0 <= i < |es| ==> Known(es[i].reg)
    ensures var dropped := exists i :: 0 <= i < |es| && DroppedBy(es[i].reg, r);
            var listed := exists i :: 0 <= i < |es| && es[i].reg == r;
            r in AfterWrite(cached, es, false) <==> (r in cached || listed) && !dropped
  {
    StoredIs(cached, es, r);
    DropsOf(Regs(es), r);
  }

  lemma DropsOf(regs: seq<int>, r: int)
    requires Known(r) && forall i :: 0 <= i < |regs| ==> Known(regs[i])
    ensures r in Evicted(regs, false) <==> exists i :: 0 <= i < |regs| && DroppedBy(regs[i], r)
  {
    forall i | 0 <= i < |regs|
      ensures regs[i] in regs
      ensures DroppedBy(regs[i], r) <==> InOneGroup(regs[i], r)
    {
      DropsGroups(regs[i], r);
    }
    hide IsStackPointer, Selector, IsCfbpField, DroppedBy;
    if r in Evicted(regs, false) {
      var q :| q in regs && InOneGroup(q, r);
      var i :| 0 <= i < |regs| && regs[i] == q;
      assert DroppedBy(regs[i], r);
    }
  }

  ghost predicate InOneGroup(q: int, r: int) {
    || (q in STACK_POINTERS && r in STACK_POINTERS)
    || (q in PSR_VIEWS + {XPSR} && r in PSR_VIEWS + {XPSR})
    || (q in CFBP_WORDS && r in ALL_CFBP)
    || (q in Variants(0) && r in Variants(0)) || (q in Variants(1) && r in Variants(1))
    || (q in Variants(2) && r in Variants(2)) || (q in Variants(3) && r in Variants(3))
  }

  lemma DropsGroups(q: int, r: int)
    requires Known(q) && Known(r)
    ensures DroppedBy(q, r) <==> InOneGroup(q, r)
  {
    GroupsOf(q);
    GroupsOf(r);
    hide IsStackPointer, Selector, IsCfbpField, Variants, Known;
  }

  lemma GroupsOf(r: int)
    requires Known(r)
    ensures IsStackPointer(r) <==> r in STACK_POINTERS
    ensures Selector(r) == 16 <==> r in PSR_VIEWS + {XPSR}
    ensures Selector(r) in {20, 34, 35} <==> r in ALL_CFBP
    ensures r in {20, 34, 35} <==> r in CFBP_WORDS
    ensures IsCfbpField(r) ==> 0 <= r % 0x100 < 4
    ensures forall k :: 0 <= k < 4 ==> (IsCfbpField(r) && r % 0x100 == k <==> r in Variants(k))
  {
  }

  /** The entry of a listed register is its last value; the other entries are as they were. */
  lemma {:induction false} StoredIs(cached: Cached, es: seq<Entry>, r: int)
    ensures var now := Stored(cached, es);
            var k := LastWord(es, r);
            && (k >= 0 ==> r in now && now[r] == es[k].data)
            && (k < 0 ==> (r in now <==> r in cached) && (r in now ==> now[r] == cached[r]))
    decreases |es|
  {
    if es != [] {
      StoredIs(cached, es[..|es| - 1], r);
    }
  }

  lemma WiredApart(f: RegFile, r: int)
    requires Wired(f)
    ensures SinglesApart(f)
    ensures !IsStackPointer(r) && !IsCfbpWord(r) ==> ApartFrom(f, r)
  {
  }

  /** A stored value that was not dropped is what the core then holds. */
  lemma ListedIsRight(f: RegFile, es: seq<Entry>, r: int, k: nat, repaired: bool)
    requires Wired(f) && Covered(r, repaired) && r !in Evicted(Regs(es), repaired)
    requires k == LastWord(es, r) && forall i :: 0 <= i < |es| ==> Known(es[i].reg) && Fits(es[i])
    ensures es[k].data == ReadOne(WriteBatch(f, es), r)
  {
    PlainWhenKept(es, k, r, repaired);
    WiredApart(f, r);
    forall j | k < j < |es|
      ensures !Overlap(f, r, es[j].reg)
    {
      assert Regs(es)[j] == es[j].reg;
      if Overlap(f, r, es[j].reg) { OverlapEvicts(f, r, es[j].reg, Regs(es), repaired); }
    }
    hide WriteBatch, WriteInOrder, Joined, Wide, Low, Overlap, SinglesApart, ApartFrom, Wired;
    WriteThenRead(f, es, k);
    NoFieldOf(es, r);
    BatchAt(f, es, r);
  }

  /** A listed register that keeps its entry is neither a field nor a word other registers share. */
  lemma PlainWhenKept(es: seq<Entry>, k: nat, r: int, repaired: bool)
    requires k < |es| && es[k].reg == r && Covered(r, repaired) && r !in Evicted(Regs(es), repaired)
    ensures !IsField(r) && !IsCombined(r) && !IsStackPointer(r)
  {
    hide MaskOf, FieldMask, PsrMask;
    assert Regs(es)[k] == r;
    assert r in Regs(es);
    if IsField(r) || IsCombined(r) {
      KeptIsNotCombined(Regs(es), r, repaired);
    }
    if IsStackPointer(r) { StackPointerEvicts(r, r, Regs(es), repaired); }
  }

  lemma KeptIsNotCombined(regs: seq<int>, r: int, repaired: bool)
    requires r in regs && Covered(r, repaired) && (IsField(r) || IsCombined(r))
    ensures r in Evicted(regs, repaired)
  {
    if Selector(r) == XPSR {
      PsrEvicts(r, r, regs, repaired);
    } else {
      MaskIsSomething(r);
      CfbpEvicts(r, r, regs, repaired);
    }
  }

  lemma MaskIsSomething(r: int)
    requires Known(r)
    ensures !Disjoint(MaskOf(r), MaskOf(r))
  {
  }

  lemma NoFieldOf(es: seq<Entry>, r: int)
    ensures !IsCombined(r) ==> !HasField(es, r)
  {
  }

  lemma KeptIsRight(f: RegFile, es: seq<Entry>, r: int, repaired: bool)
    requires Wired(f) && Covered(r, repaired) && r !in Evicted(Regs(es), repaired)
    requires LastWord(es, r) < 0 && forall i :: 0 <= i < |es| ==> Known(es[i].reg)
    ensures ReadOne(WriteBatch(f, es), r) == ReadOne(f, r)
  {
    hide Covered, Evicted, WriteBatch, ReadOne, Overlap, Wired, Known;
    forall i | 0 <= i < |es|
      ensures !Overlap(f, r, es[i].reg)
    {
      assert Regs(es)[i] == es[i].reg;
      if Overlap(f, r, es[i].reg) { OverlapEvicts(f, r, es[i].reg, Regs(es), repaired); }
    }
    BatchKeeps(f, es, r);
  }

  /** A write keeps every covered entry right. */
  lemma WriteKeepsCoherent(f: RegFile, cached: Cached, es: seq<Entry>, repaired: bool)
    requires Wired(f) && Coherent(f, cached, repaired)
    requires forall i :: 0 <= i < |es| ==> Known(es[i].reg) && Fits(es[i])
    ensures Coherent(WriteBatch(f, es), AfterWrite(cached, es, repaired), repaired)
  {
    hide Covered, Evicted, WriteBatch, ReadOne, Stored, Wired, Known, Fits;
    var now := AfterWrite(cached, es, repaired);
    forall r | r in now && Covered(r, repaired)
      ensures Right(WriteBatch(f, es), now, r)
    {
      StoredIs(cached, es, r);
      var k := LastWord(es, r);
      if k >= 0 {
        ListedIsRight(f, es, r, k, repaired);
      } else {
        KeptIsRight(f, es, r, repaired);
        assert Right(f, cached, r);
      }
    }
  }

  // ---- Runs ----

  /** `stuck` are the selectors of all transfers that did not complete. */
  datatype Sys = Sys(file: RegFile, stuck: seq<int>, core: RunState, cacheToken: int, cached: Cached)

  datatype Event =
    | Read(regs: seq<int>, got: Outcome<seq<bv64>>)
    | Write(regs: seq<int>, data: seq<bv64>, done: Outcome<()>)
    | Invalidate
    | Resume            // does nothing unless halted
    | Reset             // the core runs afterwards
    | StepCore          // one atomic step; does nothing unless halted
    | Halt              // by request, or on its own at a breakpoint
    | TargetActs        // target code changes registers; only while running

  /** A running core, or one that ran since, empties the cache. */
  function Checked(s: Sys): Sys {
    if s.core.running then s.(cached := map[])
    else if s.cacheToken != s.core.token then s.(cached := map[], cacheToken := s.core.token)
    else s
  }

  ghost predicate ReadStep(supported: set<int>, s: Sys, s': Sys, regs: seq<int>, r: Outcome<seq<bv64>>) {
    var c := Checked(s);
    if !Supports(supported, regs) then s' == c && r == Failed(Unavailable)
    else if s.core.running then s' == c && r == Failed(NotHalted)
    else if r.Failed? then
      && s' == c.(cached := map[], stuck := s'.stuck) && Missing(c.cached, regs) != {}
      && r.error.NotReady? && Blames(c.stuck, s'.stuck, r)
    else
      && s' == c.(cached := AfterRead(c.cached, c.file, regs))
      && |r.value| == |regs|
      && forall i :: 0 <= i < |regs| ==> regs[i] in s'.cached && r.value[i] == s'.cached[regs[i]]
  }

  ghost predicate WriteStep(
    supported: set<int>, s: Sys, s': Sys, regs: seq<int>, data: seq<bv64>, r: Outcome<()>, repaired: bool)
    requires |regs| == |data|
  {
    var c := Checked(s);
    var es := Zip(regs, data);
    if !Supports(supported, regs) then s' == c && r == Failed(Unavailable)
    else if s.core.running then s' == c && r == Failed(NotHalted)
    else if r.Failed? then
      && s' == c.(cached := map[], file := s'.file, stuck := s'.stuck) && TouchesOnly(c.file, s'.file, es)
      && r.error.NotReady? && Blames(c.stuck, s'.stuck, r)
    else s' == c.(cached := AfterWrite(c.cached, es, repaired), file := WriteBatch(c.file, es))
  }

  /** One event. With `repaired`, writes use the eviction that also drops the combined CFBP words. */
  ghost predicate Next(supported: set<int>, s: Sys, e: Event, s': Sys, repaired: bool) {
    && s'.file.phys == s.file.phys
    && match e
       case Read(regs, got) => ReadStep(supported, s, s', regs, got)
       case Write(regs, data, done) =>
         && |regs| == |data|
         && (forall x :: x in Zip(regs, data) ==> Fits(x))
         && WriteStep(supported, s, s', regs, data, done, repaired)
       case Invalidate => s' == s.(cached := map[])
       case Resume => s' == s.(core := Resumed(s.core))
       case Reset => s' == s.(core := WasReset(s.core), file := s'.file)
       case StepCore => s' == if s.core.running then s else s.(core := Stepped(s.core), file := s'.file)
       case Halt => s' == s.(core := Halted(s.core))
       case TargetActs => s' == if s.core.running then s.(file := s'.file) else s
  }

  ghost predicate Init(s: Sys) {
    s.core.token == 0 && s.cacheToken == -1 && s.cached == map[] && Wired(s.file)
  }

  /** What every step keeps: a running core's token is newer than the cache's, and a halted core with equal
      tokens holds what the cache says of every covered register. */
  ghost predicate Inv(s: Sys, repaired: bool) {
    && Wired(s.file)
    && s.cacheToken <= s.core.token
    && (s.core.running ==> s.cacheToken < s.core.token)
    && (!s.core.running && s.cacheToken == s.core.token ==> Coherent(s.file, s.cached, repaired))
  }

  lemma WiredStays(f: RegFile, g: RegFile)
    requires Wired(f) && f.phys == g.phys
    ensures Wired(g)
  {
    forall s, t | s != t && g.Cell(s) == g.Cell(t)
      ensures (IsStackPointer(s) && IsStackPointer(t)) || (IsCfbpWord(s) && IsCfbpWord(t))
    {
      assert f.Cell(s) == g.Cell(s) && f.Cell(t) == g.Cell(t);
    }
  }

  lemma CheckedCoherent(s: Sys, repaired: bool)
    requires Inv(s, repaired)
    ensures var c := Checked(s);
            && c.file == s.file && c.core == s.core && c.cacheToken <= c.core.token
            && (c.core.running ==> c.cacheToken < c.core.token) && (!c.core.running ==> c.cacheToken == c.core.token)
            && Coherent(c.file, c.cached, repaired)
  {
  }

  lemma NextKeeps(supported: set<int>, s: Sys, e: Event, s': Sys, repaired: bool)
    requires ValidRegisters(supported) && Inv(s, repaired) && Next(supported, s, e, s', repaired)
    ensures Inv(s', repaired)
  {
    hide Coherent, Wired, AfterRead, AfterWrite, WriteBatch, Fits, Known, TouchesOnly;
    WiredStays(s.file, s'.file);
    CheckedCoherent(s, repaired);
    EmptyCoherent(s'.file, repaired);
    match e
    case Read(regs, got) =>
      ReadKeepsCoherent(s.file, Checked(s).cached, regs, repaired);
    case Write(regs, data, done) =>
      var es := Zip(regs, data);
      if Supports(supported, regs) {
        forall i | 0 <= i < |es|
          ensures Known(es[i].reg) && Fits(es[i])
        {
          assert es[i] in es && regs[i] in regs;
        }
        WriteKeepsCoherent(s.file, Checked(s).cached, es, repaired);
      }
    case _ =>
  }

  lemma EmptyCoherent(f: RegFile, repaired: bool)
    ensures Coherent(f, map[], repaired)
  {
  }

  ghost predicate IsRun(supported: set<int>, states: seq<Sys>, events: seq<Event>, repaired: bool) {
    && |states| == |events| + 1
    && Init(states[0])
    && forall i :: 0 <= i < |events| ==> Next(supported, states[i], events[i], states[i + 1], repaired)
  }

  lemma {:induction false} RunKeeps(supported: set<int>, states: seq<Sys>, events: seq<Event>, n: nat, repaired: bool)
    requires ValidRegisters(supported) && IsRun(supported, states, events, repaired) && n <= |events|
    ensures Inv(states[n], repaired)
  {
    hide Next, ValidRegisters, Coherent, Wired;
    if n > 0 {
      RunKeeps(supported, states, events, n - 1, repaired);
      NextKeeps(supported, states[n - 1], events[n - 1], states[n], repaired);
    } else {
      EmptyCoherent(states[0].file, repaired);
    }
  }

  /** Over every run, a read gives at every covered register what reading the core directly would give. With the
      repaired eviction the combined CFBP words are covered too. */
  lemma EveryRegisterReadIsCurrent(
    supported: set<int>, states: seq<Sys>, events: seq<Event>, n: nat, repaired: bool)
    requires ValidRegisters(supported) && IsRun(supported, states, events, repaired) && n < |events|
    requires events[n].Read? && events[n].got.Done?
    ensures var regs, values := events[n].regs, events[n].got.value;
            && |values| == |regs|
            && forall i :: 0 <= i < |regs| && Covered(regs[i], repaired) ==>
                 values[i] == ReadOne(states[n + 1].file, regs[i])
  {
    hide Coherent, Wired, AfterRead, AfterWrite, WriteBatch, Fits, Known, ReadOne, Covered, ValidRegisters;
    RunKeeps(supported, states, events, n, repaired);
    var s := states[n];
    assert Next(supported, s, events[n], states[n + 1], repaired);
    CheckedCoherent(s, repaired);
    ReadKeepsCoherent(s.file, Checked(s).cached, events[n].regs, repaired);
  }

  // ---- What goes stale, and exactly when ----

  /** Each byte of the word that the list writes is given the value it has already. */
  predicate WritesBack(es: seq<Entry>, s: int, w: bv32) {
    forall i :: 0 <= i < |es| && FieldOf(es[i].reg, s) && LastWord(es, es[i].reg) == i ==>
      Cut(es[i].reg, Low(es[i].data)) == Part(es[i].reg, w)
  }

  /** A byte of the word reads as the last value written to it, or as before. */
  lemma {:induction false} FieldsOverReads(es: seq<Entry>, s: int, w: bv32, r: int)
    requires IsCfbpWord(s) && FieldOf(r, s) && Known(r) && forall i :: 0 <= i < |es| ==> Known(es[i].reg)
    ensures var k := LastWord(es, r);
            Part(r, FieldsOver(es, s, w)) == if k >= 0 then Cut(r, Low(es[k].data)) else Part(r, w)
    decreases |es|
  {
    hide Part, Cut, Low, Inserted, MaskOf, Known;
    if es != [] {
      var n := |es| - 1;
      FieldsOverReads(es[..n], s, w, r);
      var e, v := es[n], FieldsOver(es[..n], s, w);
      assert Known(e.reg);
      if e.reg == r {
        PartOfInserted(r, v, Low(e.data));
      } else if FieldOf(e.reg, s) {
        OtherByte(r, e.reg, s, v, Low(e.data));
      }
    }
  }

  lemma OtherByte(r: int, q: int, s: int, w: bv32, d: bv32)
    requires IsCfbpWord(s) && FieldOf(r, s) && FieldOf(q, s) && r != q && Known(r) && Known(q)
    ensures Part(r, Inserted(q, w, d)) == Part(r, w)
  {
    hide Part, Inserted, MaskOf, Masked;
    FieldsOfOneWord(q, r);
    InsertedKeeps(q, w, d, MaskOf(r));
    PartIsItsBits(r, Inserted(q, w, d), w);
  }

  /** A word is its four bytes. */
  lemma FourBytes(s: int, a: bv32, b: bv32)
    requires IsCfbpWord(s)
    requires forall r :: FieldOf(r, s) && Known(r) ==> Part(r, a) == Part(r, b)
    ensures a == b
  {
    hide FieldAt, FieldMask;
    var r := s * 0x100;
    assert Part(r, a) == Part(r, b) && Part(r + 1, a) == Part(r + 1, b);
    assert Part(r + 2, a) == Part(r + 2, b) && Part(r + 3, a) == Part(r + 3, b);
    BytesOfWord(a, b);
  }

  lemma BytesOfWord(a: bv32, b: bv32)
    requires FieldAt(0, a) == FieldAt(0, b) && FieldAt(1, a) == FieldAt(1, b)
    requires FieldAt(2, a) == FieldAt(2, b) && FieldAt(3, a) == FieldAt(3, b)
    ensures a == b
  {
  }

  lemma SameWordExactlyWhen(es: seq<Entry>, s: int, w: bv32)
    requires IsCfbpWord(s) && forall i :: 0 <= i < |es| ==> Known(es[i].reg)
    ensures FieldsOver(es, s, w) == w <==> WritesBack(es, s, w)
  {
    hide Part, Cut, Low, Known, FieldOf, FieldsOver;
    if FieldsOver(es, s, w) == w {
      forall i | 0 <= i < |es| && FieldOf(es[i].reg, s) && LastWord(es, es[i].reg) == i
        ensures Cut(es[i].reg, Low(es[i].data)) == Part(es[i].reg, w)
      {
        FieldsOverReads(es, s, w, es[i].reg);
      }
    }
    if WritesBack(es, s, w) {
      forall r | FieldOf(r, s) && Known(r)
        ensures Part(r, FieldsOver(es, s, w)) == Part(r, w)
      {
        FieldsOverReads(es, s, w, r);
      }
      FourBytes(s, FieldsOver(es, s, w), w);
    }
  }

  /** A cached combined CFBP word survives a write of CFBP fields. It is right afterwards exactly when no field in its
      storage is written, or the bank written last gets every byte back that it has already. */
  lemma CfbpEntryRightExactlyWhen(f: RegFile, cached: Cached, es: seq<Entry>, s: int)
    requires Wired(f) && IsCfbpWord(s) && Right(f, cached, s)
    requires forall i :: 0 <= i < |es| ==> Known(es[i].reg) && !IsCfbpWord(es[i].reg)
    ensures s in AfterWrite(cached, es, false)
    ensures Right(WriteBatch(f, es), AfterWrite(cached, es, false), s)
            <==> var last := LastGathered(f, es, s); last.None? || WritesBack(es, last.value, f.Word(s))
  {
    WordRead(f, s);
    WordRead(WriteBatch(f, es), s);
    hide WriteBatch, FieldsOver, Wide, Stored, WriteInOrder, WritesBack, Evicted, ReadOne, Low, Right, Known, Wired,
         LastGathered, InOrderOver;
    CfbpEntryStays(f, cached, es, s);
    WiredBanks(f);
    BatchAtBank(f, es, s);
    var last := LastGathered(f, es, s);
    if last.Some? {
      GatheredIsCfbp(f, es, s);
      SameWordExactlyWhen(es, last.value, f.Word(s));
    } else {
      NothingInBank(f, es, s, f.Word(s));
    }
    LowOfWide(f.Word(s));
    LowOfWide(WriteBatch(f, es).Word(s));
  }

  lemma WiredBanks(f: RegFile)
    requires Wired(f)
    ensures OnlyBanksShare(f)
  {
  }

  lemma GatheredIsCfbp(f: RegFile, es: seq<Entry>, s: int)
    requires OnlyBanksShare(f) && IsCfbpWord(s) && LastGathered(f, es, s).Some?
    ensures IsCfbpWord(LastGathered(f, es, s).value)
  {
    hide LastGathered, Collected;
    LastGatheredIsLast(f, es, s);
    CollectedIs(f, es, s);
    LastInIs(f, Collected(f, es).extra, s);
  }

  lemma {:induction false} NothingInBank(f: RegFile, es: seq<Entry>, s: int, w: bv32)
    requires OnlyBanksShare(f) && IsCfbpWord(s) && LastGathered(f, es, s).None?
    requires forall i :: 0 <= i < |es| ==> !IsCfbpWord(es[i].reg)
    ensures InOrderOver(f, es, s, w) == w
    decreases |es|
  {
    hide Inserted, Low, HasField;
    if es != [] {
      NothingInBank(f, es[..|es| - 1], s, w);
    }
  }

  lemma WordRead(f: RegFile, s: int)
    requires IsCfbpWord(s)
    ensures ReadOne(f, s) == Wide(f.Word(s))
  {
    hide Wide, Joined;
  }

  lemma CfbpEntryStays(f: RegFile, cached: Cached, es: seq<Entry>, s: int)
    requires IsCfbpWord(s) && s in cached && forall i :: 0 <= i < |es| ==> !IsCfbpWord(es[i].reg)
    ensures s in AfterWrite(cached, es, false) && AfterWrite(cached, es, false)[s] == cached[s]
    ensures forall g :: Right(g, AfterWrite(cached, es, false), s) <==> cached[s] == ReadOne(g, s)
  {
    hide Stored, Evicted, ReadOne;
    StoredIs(cached, es, s);
    WordNotEvicted(Regs(es), s);
  }

  lemma WordNotEvicted(regs: seq<int>, s: int)
    requires IsCfbpWord(s) && !Any(regs, CFBP_WORDS)
    ensures s !in Evicted(regs, false)
  {
    assert s !in Variants(0) && s !in Variants(1) && s !in Variants(2) && s !in Variants(3);
    assert s !in PSR_VIEWS + {XPSR} && s !in STACK_POINTERS;
    hide Variants, Any;
  }

  /** Cache CFBP, write CONTROL, and the cached CFBP is wrong from then on. */
  lemma StaleCfbp()
    ensures var f := RegFile(map[], map[]);
            var cached := AfterRead(map[], f, [CFBP]);
            var es := [Entry(CFBP * 0x100 + 3, 1)];
            && Right(f, cached, CFBP)
            && CFBP in AfterWrite(cached, es, false)
            && !Right(WriteBatch(f, es), AfterWrite(cached, es, false), CFBP)
  {
    hide *;
    var f, control := RegFile(map[], map[]), CFBP * 0x100 + 3;
    var es := [Entry(control, 1)];
    CfbpCached(f);
    ControlChanges(f, es);
    OneFieldGathered(f, control, 1);
    assert forall i :: 0 <= i < |es| ==> es[i].reg == control;
    CfbpEntryRightExactlyWhen(f, AfterRead(map[], f, [CFBP]), es, CFBP);
  }

  lemma CfbpCached(f: RegFile)
    ensures Right(f, AfterRead(map[], f, [CFBP]), CFBP)
  {
    hide ReadOne, AfterRead;
    ReadKeepsCoherent(f, map[], [CFBP], true);
    assert [CFBP][0] in AfterRead(map[], f, [CFBP]);
  }

  lemma ControlChanges(f: RegFile, es: seq<Entry>)
    requires f == RegFile(map[], map[]) && es == [Entry(CFBP * 0x100 + 3, 1)]
    ensures Wired(f) && IsCfbpWord(CFBP) && Known(es[0].reg) && !IsCfbpWord(es[0].reg)
    ensures IsField(es[0].reg) && Selector(es[0].reg) == CFBP
    ensures !WritesBack(es, CFBP, f.Word(CFBP))
  {
    var control := es[0].reg;
    assert LastWord(es, control) == 0 && FieldOf(control, CFBP);
    assert Cut(control, Low(1)) == 1 && Part(control, f.Word(CFBP)) == 0;
  }

  lemma OneFieldGathered(f: RegFile, r: int, d: bv64)
    requires IsField(r)
    ensures LastGathered(f, [Entry(r, d)], Selector(r)) == Some(Selector(r))
  {
    assert [Entry(r, d)][..0] == [];
  }

  lemma FloatNotEvicted(regs: seq<int>, r: int, repaired: bool)
    requires IsSingle(r) || IsDouble(r)
    ensures r !in Evicted(regs, repaired)
  {
    assert r !in Variants(0) && r !in Variants(1) && r !in Variants(2) && r !in Variants(3) && r !in CFBP_WORDS;
    assert r !in PSR_VIEWS + {XPSR} && r !in STACK_POINTERS;
    hide Variants, Any;
  }

  /** Single `s` is the low, or the high, half of double `d`. */
  predicate IsHalf(s: int, d: int, high: bool) {
    IsDouble(d) && s == if high then -d + 1 else -d
  }

  /** The word of single `s` after the list's singles and doubles, in order, starting from `w`. */
  function FloatOver(es: seq<Entry>, s: int, w: bv32): bv32
    decreases |es|
  {
    if es == [] then w
    else
      var e := es[|es| - 1];
      if e.reg == s || IsHalf(s, e.reg, false) then Low(e.data)
      else if IsHalf(s, e.reg, true) then High(e.data)
      else FloatOver(es[..|es| - 1], s, w)
  }

  lemma {:induction false} FloatInOrder(f: RegFile, es: seq<Entry>, s: int)
    requires Wired(f) && IsSingle(s)
    ensures WriteInOrder(f, es).Word(s) == FloatOver(es, s, f.Word(s))
    decreases |es|
  {
    hide Low, High, Inserted, Wired, IsDouble, WriteOne;
    if es != [] {
      var n := |es| - 1;
      FloatInOrder(f, es[..n], s);
      var g := WriteInOrder(f, es[..n]);
      WiredStays(f, g);
      FloatStep(g, es[n], s);
    }
  }

  lemma FloatStep(g: RegFile, e: Entry, s: int)
    requires Wired(g) && IsSingle(s)
    ensures WriteOne(g, e).Word(s) ==
            if e.reg == s || IsHalf(s, e.reg, false) then Low(e.data)
            else if IsHalf(s, e.reg, true) then High(e.data)
            else g.Word(s)
  {
    hide Low, High, Inserted, RegFile.Put, RegFile.Word, RegFile.Cell;
    assert forall t :: t != s ==> g.Cell(t) != g.Cell(s);
    if !IsField(e.reg) && !IsDouble(e.reg) {
      WholeInserted(e.reg, g.Word(e.reg), Low(e.data));
    }
  }

  /** What a list leaves in a float register. */
  function FloatLeft(f: RegFile, es: seq<Entry>, r: int): bv64 {
    if IsDouble(r) then Joined(FloatOver(es, -r, f.Word(-r)), FloatOver(es, -r + 1, f.Word(-r + 1)))
    else Wide(FloatOver(es, r, f.Word(r)))
  }

  lemma FloatAfterBatch(f: RegFile, es: seq<Entry>, r: int)
    requires Wired(f) && (IsSingle(r) || IsDouble(r))
    ensures ReadOne(WriteBatch(f, es), r) == FloatLeft(f, es, r)
  {
    hide Wired, WriteBatch, WriteInOrder, FloatOver, Joined, Wide, HasField, RegFile.Word, ApartFrom;
    if IsDouble(r) {
      WiredApart(f, -r);
      WiredApart(f, -r + 1);
      BatchAt(f, es, -r);
      BatchAt(f, es, -r + 1);
      FloatInOrder(f, es, -r);
      FloatInOrder(f, es, -r + 1);
    } else {
      WiredApart(f, r);
      BatchAt(f, es, r);
      FloatInOrder(f, es, r);
      SingleReads(WriteBatch(f, es), r);
    }
  }

  lemma SingleReads(f: RegFile, r: int)
    requires IsSingle(r)
    ensures ReadOne(f, r) == Wide(f.Word(r))
  {
    hide Wide, Joined;
  }

  /** The entry of a register after a write: its last value in the list, or what was cached. */
  function EntryAfter(cached: Cached, es: seq<Entry>, r: int): bv64
    requires r in cached || r in Regs(es)
  {
    ListedHasLast(es, r);
    var k := LastWord(es, r);
    if k >= 0 then es[k].data else cached[r]
  }

  lemma ListedHasLast(es: seq<Entry>, r: int)
    ensures r in Regs(es) <==> LastWord(es, r) >= 0
  {
    var k := LastWord(es, r);
    assert k >= 0 ==> Regs(es)[k] == es[k].reg;
  }

  /** After a write of any list, every float register that was cached or listed has an entry. It is right exactly when
      it is what the singles and doubles of the list, in order, leave in the register. */
  lemma FloatEntryRightExactlyWhen(f: RegFile, cached: Cached, es: seq<Entry>, r: int)
    requires Wired(f) && (IsSingle(r) || IsDouble(r))
    ensures var now := AfterWrite(cached, es, false);
            && (r in now <==> r in cached || r in Regs(es))
            && (r in now ==> now[r] == EntryAfter(cached, es, r))
            && (r in now ==> (Right(WriteBatch(f, es), now, r) <==> EntryAfter(cached, es, r) == FloatLeft(f, es, r)))
  {
    hide Wired, Evicted, WriteBatch, Stored, FloatLeft, ReadOne, IsDouble, IsSingle;
    StoredIs(cached, es, r);
    FloatNotEvicted(Regs(es), r, false);
    FloatAfterBatch(f, es, r);
    ListedHasLast(es, r);
  }

  /** For a cached single that the list does not name: right exactly when the list's doubles leave its word as it is. */
  lemma SingleEntryRightExactlyWhen(f: RegFile, cached: Cached, es: seq<Entry>, r: int)
    requires Wired(f) && IsSingle(r) && Right(f, cached, r) && r !in Regs(es)
    ensures Right(WriteBatch(f, es), AfterWrite(cached, es, false), r) <==> FloatOver(es, r, f.Word(r)) == f.Word(r)
  {
    hide Wired, AfterWrite, WriteBatch, FloatOver, Wide, Joined, Low, RegFile.Word;
    FloatEntryRightExactlyWhen(f, cached, es, r);
    SingleReads(f, r);
    LowOfWide(f.Word(r));
    LowOfWide(FloatOver(es, r, f.Word(r)));
    ListedHasLast(es, r);
  }

  /** For a cached double that the list does not name: right exactly when both of its words are left as they are. */
  lemma DoubleEntryRightExactlyWhen(f: RegFile, cached: Cached, es: seq<Entry>, r: int)
    requires Wired(f) && IsDouble(r) && Right(f, cached, r) && r !in Regs(es)
    ensures Right(WriteBatch(f, es), AfterWrite(cached, es, false), r) <==>
            FloatOver(es, -r, f.Word(-r)) == f.Word(-r) && FloatOver(es, -r + 1, f.Word(-r + 1)) == f.Word(-r + 1)
  {
    hide Wired, AfterWrite, WriteBatch, FloatOver, Wide, Joined, Low, High, RegFile.Word;
    FloatEntryRightExactlyWhen(f, cached, es, r);
    SplitJoined(f.Word(-r), f.Word(-r + 1));
    SplitJoined(FloatOver(es, -r, f.Word(-r)), FloatOver(es, -r + 1, f.Word(-r + 1)));
    ListedHasLast(es, r);
  }
}

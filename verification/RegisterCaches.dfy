/** The register cache itself: every call is one step of the register runs. */
module RegisterCaches {
  import opened Bytes
  import opened CoreRegisters
  import opened RegisterTransfers
  import opened CortexMCores
  import opened RegisterRuns

  /** Any order will do: the elements of a set as a list. */
  method SetToList<T(==)>(s: set<T>) returns (list: seq<T>)
    ensures |list| == |s| && forall x :: x in list <==> x in s
  {
    list := [];
    var todo := s;
    while todo != {}
      invariant todo <= s && |list| + |todo| == |s|
      invariant forall x :: x in list <==> x in s - todo
      decreases |todo|
    {
      var x :| x in todo;
      list, todo := list + [x], todo - {x};
    }
  }

  lemma RefreshMore(cached: Cached, f: RegFile, a: set<int>, b: set<int>)
    ensures Refresh(Refresh(cached, f, a), f, b) == Refresh(cached, f, a + b)
  {
    hide ReadOne;
    var x, y := Refresh(Refresh(cached, f, a), f, b), Refresh(cached, f, a + b);
    assert forall r :: r in x <==> r in cached || r in a || r in b;
    assert forall r :: r in y <==> r in cached || r in a || r in b;
  }

  lemma RefreshOne(cached: Cached, f: RegFile, a: set<int>, r: int)
    ensures Refresh(cached, f, a)[r := ReadOne(f, r)] == Refresh(cached, f, a + {r})
  {
    hide ReadOne;
    var x, y := Refresh(cached, f, a)[r := ReadOne(f, r)], Refresh(cached, f, a + {r});
    assert forall q :: q in x <==> q in cached || q in a || q == r;
    assert forall q :: q in y <==> q in cached || q in a || q == r;
  }

  /** The word of a combined register and its fields, as one word read from the core gives them. */
  function WordEntries(s: int, v: bv64): Cached {
    (map r | r in Fields(s) :: Wide(Part(r, Low(v))))[s := v]
  }

  lemma WordEntriesAreReads(f: RegFile, s: int)
    requires IsCombined(s)
    ensures WordEntries(s, ReadOne(f, s)) == map r | r in Fields(s) + {s} :: ReadOne(f, r)
  {
    forall r | r in Fields(s)
      ensures ReadOne(f, r) == Wide(Part(r, f.Word(s)))
    {
      FieldReads(f, s, r);
    }
    WholeReads(f, s);
    EntriesAreMap(s, ReadOne(f, s), f);
  }

  lemma EntriesAreMap(s: int, v: bv64, f: RegFile)
    requires v == ReadOne(f, s) && forall r :: r in Fields(s) ==> ReadOne(f, r) == Wide(Part(r, Low(v)))
    ensures WordEntries(s, v) == map r | r in Fields(s) + {s} :: ReadOne(f, r)
  {
    hide Wide, Part, Low, ReadOne, Fields;
    var m := map r | r in Fields(s) + {s} :: ReadOne(f, r);
    assert m.Keys == WordEntries(s, v).Keys;
  }

  lemma FieldReads(f: RegFile, s: int, r: int)
    requires IsCombined(s) && r in Fields(s)
    ensures ReadOne(f, r) == Wide(Part(r, f.Word(s)))
  {
    FieldSelects(s, r);
    hide Wide, Part, Joined, IsDouble, Selector, Fields;
  }

  lemma WholeReads(f: RegFile, s: int)
    requires IsCombined(s)
    ensures Low(ReadOne(f, s)) == f.Word(s)
  {
    hide Wide, Low, Joined;
    LowOfWide(f.Word(s));
  }

  /** A word added to the list to be read is not a field of another combined word. */
  lemma MeetsStays(missing: set<int>, list: seq<int>, s: int)
    requires IsCombined(s)
    requires forall x :: x in missing ==> x in list
    requires forall x :: x in list ==> x in missing || (IsCombined(x) && x != s)
    ensures Any(list, Fields(s) + {s}) <==> Meets(missing, s)
  {
    assert forall x :: IsCombined(x) ==> x !in Fields(s);
    hide Fields;
    if Any(list, Fields(s) + {s}) {
      var x :| x in list && x in Fields(s) + {s};
      assert x in missing && (x == s || x in Fields(s));
    }
    if Meets(missing, s) {
      var x :| x in missing && (x == s || x in Fields(s));
      assert x in list && x in Fields(s) + {s};
    }
  }

  lemma FieldsAreSupported(supported: set<int>, missing: set<int>, s: int)
    requires ValidRegisters(supported) && IsCombined(s) && Meets(missing, s)
    requires forall x :: x in missing ==> x in supported
    ensures s in supported
  {
    var x :| x in missing && (x == s || x in Fields(s));
    if x != s {
      FieldSelects(s, x);
      hide Fields, IsField, Selector, Known;
    }
  }

  lemma FieldSelects(s: int, x: int)
    requires IsCombined(s) && x in Fields(s)
    ensures IsField(x) && Selector(x) == s && !IsDouble(x)
  {
  }

  /** The missing registers, in any order, with the combined words that go with them; and for each combined word
      whether it is read. */
  method ListToRead(missing: set<int>, words: seq<int>) returns (list: seq<int>, flags: seq<bool>)
    requires CombinedWords(words)
    ensures Lists(list, ReadSet(missing, words))
    ensures |flags| == |words| && forall i :: 0 <= i < |flags| ==> flags[i] == Meets(missing, words[i])
  {
    hide *;
    list := SetToList(missing);
    flags := [];
    ListFirst(missing, words, list);
    for i := 0 to |words|
      invariant |flags| == i && forall j :: 0 <= j < i ==> flags[j] == Meets(missing, words[j])
      invariant Lists(list, ReadSet(missing, words[..i]))
    {
      var s := words[i];
      ListNext(missing, words, list, i);
      var needed := Any(list, Fields(s) + {s});
      flags := flags + [needed];
      if needed && s !in list {
        list := list + [s];
      }
    }
  }

  ghost predicate Lists(list: seq<int>, s: set<int>) {
    |list| == |s| && forall x :: x in list <==> x in s
  }

  lemma ListFirst(missing: set<int>, words: seq<int>, list: seq<int>)
    requires |list| == |missing| && forall x :: x in list <==> x in missing
    ensures Lists(list, ReadSet(missing, words[..0])) && words[..|words|] == words
  {
    hide Meets;
    assert ReadSet(missing, words[..0]) == missing;
  }

  lemma ListNext(missing: set<int>, words: seq<int>, list: seq<int>, i: nat)
    requires CombinedWords(words) && i < |words| && Lists(list, ReadSet(missing, words[..i]))
    ensures var s := words[i];
            && (Any(list, Fields(s) + {s}) <==> Meets(missing, s))
            && Lists(if Meets(missing, s) && s !in list then list + [s] else list, ReadSet(missing, words[..i + 1]))
  {
    hide Meets, Fields, Any, ReadSet;
    ReadSetNext(missing, words, i);
    MeetsStays(missing, list, words[i]);
  }

  ghost predicate CombinedWords(words: seq<int>) {
    (forall i :: 0 <= i < |words| ==> IsCombined(words[i]))
    && forall i, j :: 0 <= i < j < |words| ==> words[i] != words[j]
  }

  lemma ReadSetNext(missing: set<int>, words: seq<int>, i: nat)
    requires CombinedWords(words) && i < |words|
    ensures ReadSet(missing, words[..i + 1]) ==
            if Meets(missing, words[i]) then ReadSet(missing, words[..i]) + {words[i]} else ReadSet(missing, words[..i])
    ensures forall x :: x in missing ==> x in ReadSet(missing, words[..i])
    ensures forall x :: x in ReadSet(missing, words[..i]) ==> x in missing || (IsCombined(x) && x != words[i])
  {
    hide Meets, IsCombined;
    assert words[..i + 1] == words[..i] + [words[i]];
  }

  lemma RefreshAt(cached: Cached, f: RegFile, news: set<int>, r: int)
    ensures r in Refresh(cached, f, news) <==> r in cached || r in news
    ensures r in news ==> Refresh(cached, f, news)[r] == ReadOne(f, r)
    ensures r !in news && r in cached ==> Refresh(cached, f, news)[r] == cached[r]
  {
    hide ReadOne;
  }

  lemma WordsNext(cached: Cached, f: RegFile, missing: set<int>, words: seq<int>, i: nat)
    requires CombinedWords(words) && i < |words|
    ensures var s := words[i];
            Refresh(cached, f, WordsRefreshed(missing, words[..i + 1])) ==
            if Meets(missing, s) then Refresh(cached, f, WordsRefreshed(missing, words[..i])) + WordEntries(s, ReadOne(f, s))
            else Refresh(cached, f, WordsRefreshed(missing, words[..i]))
  {
    var s := words[i];
    assert words[..i + 1][..i] == words[..i];
    WordEntriesAreReads(f, s);
    RefreshMore(cached, f, WordsRefreshed(missing, words[..i]), Fields(s) + {s});
    hide ReadOne, WordEntries, Fields, Meets, IsCombined;
    assert WordsRefreshed(missing, words[..i]) + {} == WordsRefreshed(missing, words[..i]);
  }

  class RegisterCache {
    const core: CortexM
    var cache: Cached
    var hits: int
    var misses: int
    var writes: int
    var runToken: int

    constructor (core: CortexM)
      ensures this.core == core && cache == map[] && runToken == -1 && hits == misses == writes == 0
    {
      this.core, cache, runToken := core, map[], -1;
      hits, misses, writes := 0, 0, 0;
    }

    ghost function View(): Sys
      reads this, core, core.run, core.hw
    {
      Sys(core.hw.file, core.hw.stuck, core.run.State(), runToken, cache)
    }

    method Invalidate()
      modifies `cache, `hits, `misses, `writes
      ensures cache == map[] && hits == misses == writes == 0
    {
      cache := map[];
      hits, misses, writes := 0, 0, 0;
    }

    /** Empties the cache when the core runs or ran since; returns whether it runs. */
    method CheckCache() returns (running: bool)
      modifies this
      ensures View() == Checked(old(View())) && running == core.run.running
      ensures core.run.running || old(runToken) != core.run.runToken ==> hits == misses == writes == 0
      ensures !core.run.running && old(runToken) == core.run.runToken ==>
                hits == old(hits) && misses == old(misses) && writes == old(writes)
    {
      if core.run.running {
        Invalidate();
        return true;
      }
      if runToken != core.run.runToken {
        Invalidate();
        runToken := core.run.runToken;
      }
      return false;
    }

    /** read_core_registers_raw */
    method Read(regs: seq<int>) returns (r: Outcome<seq<bv64>>)
      requires ValidRegisters(core.supported)
      modifies this, core.hw`file, core.hw`dcrdr, core.hw`ready, core.hw`stuck
      ensures ReadStep(core.supported, old(View()), View(), regs, r)
      ensures r.Done? && !core.run.running ==>
                var was := Checked(old(View())).cached;
                var anew := old(runToken) != core.run.runToken;
                && hits == (if anew then 0 else old(hits)) + |Held(was, regs)|
                && misses == (if anew then 0 else old(misses)) + |ReadSet(Missing(was, regs), COMBINED_WORDS)|
                && writes == if anew then 0 else old(writes)
    {
      hide Refresh, ReadOne, AfterRead, Refreshed;
      var running := CheckCache();
      if running {
        r := core.ReadCoreRegisters(regs);
        return;
      }
      if !Supports(core.supported, regs) { return Failed(Unavailable); }
      r := ReadHalted(regs);
    }

    method ReadHalted(regs: seq<int>) returns (r: Outcome<seq<bv64>>)
      requires ValidRegisters(core.supported) && Supports(core.supported, regs) && !core.run.running
      modifies this, core.hw`file, core.hw`dcrdr, core.hw`ready, core.hw`stuck
      ensures core.hw.file == old(core.hw.file) && runToken == old(runToken)
      ensures Blames(old(core.hw.stuck), core.hw.stuck, r)
      ensures r.Failed? ==> r.error.NotReady? && cache == map[] && Missing(old(cache), regs) != {}
      ensures r.Done? ==> cache == AfterRead(old(cache), core.hw.file, regs) && ResultsFrom(r.value, regs, cache)
      ensures r.Done? ==> hits == old(hits) + |Held(old(cache), regs)| && writes == old(writes)
      ensures r.Done? ==> misses == old(misses) + |ReadSet(Missing(old(cache), regs), COMBINED_WORDS)|
    {
      hide *;
      ghost var was, missing := cache, Missing(cache, regs);
      var cachedSet := Held(cache, regs);
      hits := hits + |cachedSet|;
      CachedOrMissing(was, regs);
      AfterReadIs(was, core.hw.file, regs);
      var readList, flags := ListToRead(Asked(regs) - cachedSet, COMBINED_WORDS);
      misses := misses + |readList|;
      ListsMean(readList, missing, COMBINED_WORDS);
      var values: seq<bv64> := [];
      ReadNothing(core.hw.file);
      if readList != [] {
        ReadListSupported(core.supported, regs, missing, COMBINED_WORDS, readList);
        SomethingMissing(missing, COMBINED_WORDS, readList);
        var read := core.ReadCoreRegisters(readList);
        if read.Failed? {
          Invalidate();
          return Failed(read.error);
        }
        DoneBlamesNone(old(core.hw.stuck), core.hw.stuck, read);
        values := read.value;
      }
      UpdateWords(COMBINED_WORDS, readList, values, flags, missing, was);
      var results := CollectResults(
        regs, cachedSet, readList, values, missing, WordsRefreshed(missing, COMBINED_WORDS), was);
      r := Done(results);
      DoneBlamesNone(old(core.hw.stuck), core.hw.stuck, r);
    }

    /** Every combined word that was read updates its own entry and those of its fields. */
    method UpdateWords(
      words: seq<int>, list: seq<int>, values: seq<bv64>, flags: seq<bool>, ghost missing: set<int>, ghost was: Cached)
      requires CombinedWords(words) && values == ReadAll(core.hw.file, list) && Lists(list, ReadSet(missing, words))
      requires |flags| == |words| && forall i :: 0 <= i < |flags| ==> flags[i] == Meets(missing, words[i])
      requires cache == was
      modifies `cache
      ensures cache == Refresh(was, core.hw.file, WordsRefreshed(missing, words))
    {
      ghost var f := core.hw.file;
      NothingRefreshed(was, f);
      hide ReadOne, Refresh, WordEntries, Meets, Fields, CombinedWords;
      for i := 0 to |words|
        invariant cache == Refresh(was, f, WordsRefreshed(missing, words[..i]))
      {
        WordsNext(was, f, missing, words, i);
        if flags[i] {
          assert words[i] in ReadSet(missing, words);
          var v := ValueOf(list, values, words[i]);
          cache := cache + WordEntries(words[i], v);
        }
      }
      assert words[..|words|] == words;
    }

    /** values[list.index(reg)] */
    method ValueOf(list: seq<int>, values: seq<bv64>, reg: int) returns (v: bv64)
      requires values == ReadAll(core.hw.file, list) && reg in list
      ensures v == ReadOne(core.hw.file, reg)
    {
      hide ReadOne;
      var k := First(list, reg);
      v := values[k];
    }

    /** The results in the order asked for, each missing register entering the cache. */
    method CollectResults(
      regs: seq<int>, cachedSet: set<int>, list: seq<int>, values: seq<bv64>,
      ghost missing: set<int>, ghost words: set<int>, ghost was: Cached)
      returns (results: seq<bv64>)
      requires values == ReadAll(core.hw.file, list) && forall x :: x in missing ==> x in list
      requires missing == Missing(was, regs) && cachedSet == Held(was, regs)
      requires cache == Refresh(was, core.hw.file, words)
      modifies `cache
      ensures cache == Refresh(was, core.hw.file, words + missing)
      ensures ResultsFrom(results, regs, cache)
    {
      ghost var f := core.hw.file;
      ghost var final := Refresh(was, f, words + missing);
      results := [];
      assert words + MissingIn(missing, regs[..0]) == words;
      assert regs[..|regs|] == regs && MissingIn(missing, regs) == missing;
      NoResults(final);
      assert regs[..0] == [];
      assert forall x :: x in regs ==> (x in missing <==> x !in was) && (x in cachedSet <==> x !in missing);
      hide *;
      for i := 0 to |regs|
        invariant cache == Refresh(was, f, words + MissingIn(missing, regs[..i]))
        invariant ResultsFrom(results, regs[..i], final)
      {
        var reg := regs[i];
        assert reg in regs;
        ResultsNext(was, f, words, missing, regs, i);
        ResultsSnoc(results, regs, i, final);
        if reg in cachedSet {
          results := results + [cache[reg]];
        } else {
          var v := ValueOf(list, values, reg);
          results := results + [v];
          cache := cache[reg := v];
        }
      }
    }

    /** write_core_registers_raw */
    method Write(regs: seq<int>, data: seq<bv64>) returns (r: Outcome<()>)
      requires |regs| == |data|
      modifies this, core.hw`file, core.hw`dcrdr, core.hw`ready, core.hw`stuck
      ensures WriteStep(core.supported, old(View()), View(), regs, data, r, false)
      ensures core.hw.file.phys == old(core.hw.file.phys)
      ensures r.Done? && !core.run.running ==>
                var anew := old(runToken) != core.run.runToken;
                && hits == (if anew then 0 else old(hits)) && misses == (if anew then 0 else old(misses))
                && writes == (if anew then 0 else old(writes)) + |regs|
    {
      hide AfterWrite, WriteBatch, TouchesOnly;
      var running := CheckCache();
      if running {
        r := core.WriteCoreRegisters(regs, data);
        TouchesKeepsPhys(old(core.hw.file), core.hw.file, regs, data, r);
        return;
      }
      if !Supports(core.supported, regs) { return Failed(Unavailable); }
      ghost var was, f := cache, core.hw.file;
      writes := writes + |regs|;
      StoreAndEvict(regs, data);
      r := core.WriteCoreRegisters(regs, data);
      TouchesKeepsPhys(f, core.hw.file, regs, data, r);
      if r.Failed? {
        Invalidate();
      }
    }

    /** The written values enter the cache; then the registers that share bits with them leave it. */
    method StoreAndEvict(regs: seq<int>, data: seq<bv64>)
      requires |regs| == |data|
      modifies `cache
      ensures cache == AfterWrite(old(cache), Zip(regs, data), false)
    {
      ghost var was, es := cache, Zip(regs, data);
      hide *;
      StoredNothing(was, es);
      for i := 0 to |regs|
        invariant cache == Stored(was, es[..i])
      {
        StoredNext(was, es, i);
        cache := cache[regs[i] := data[i]];
      }
      RegsOfZip(regs, data);
      EvictCfbp(regs);
      if Any(regs, PSR_VIEWS + {XPSR}) {
        cache := cache - (PSR_VIEWS + {XPSR});
      }
      if Any(regs, STACK_POINTERS) {
        cache := cache - STACK_POINTERS;
      }
      EvictedParts(Stored(was, es), regs);
      AfterWriteIs(was, es);
    }

    /** A combined word drops all CFBP registers, a field its variants in all banks. */
    method EvictCfbp(regs: seq<int>)
      modifies `cache
      ensures cache == old(cache) - EvictedCfbp(regs, false)
    {
      hide Any, Variants;
      if Any(regs, CFBP_WORDS) {
        cache := cache - ALL_CFBP;
      } else {
        ghost var was := cache;
        assert was - FieldsEvicted(regs, 0) == was;
        for pos := 0 to 4
          invariant cache == was - FieldsEvicted(regs, pos)
        {
          RemoveTwice(was, FieldsEvicted(regs, pos), Dropped(regs, Variants(pos)));
          if Any(regs, Variants(pos)) {
            cache := cache - Variants(pos);
          }
        }
        FourFields(regs);
      }
    }
  }

  ghost function FieldsEvicted(regs: seq<int>, n: nat): set<int> {
    if n == 0 then {} else FieldsEvicted(regs, n - 1) + Dropped(regs, Variants(n - 1))
  }

  lemma FourFields(regs: seq<int>)
    requires !Any(regs, CFBP_WORDS)
    ensures FieldsEvicted(regs, 4) == EvictedCfbp(regs, false)
  {
    hide Any, Variants, Dropped;
    assert FieldsEvicted(regs, 4) == FieldsEvicted(regs, 3) + Dropped(regs, Variants(3));
    assert FieldsEvicted(regs, 3) == FieldsEvicted(regs, 2) + Dropped(regs, Variants(2));
    assert FieldsEvicted(regs, 2) == FieldsEvicted(regs, 1) + Dropped(regs, Variants(1));
  }

  lemma RemoveTwice(cached: Cached, a: set<int>, b: set<int>)
    ensures cached - a - b == cached - (a + b)
    ensures b == {} ==> cached - (a + b) == cached - a
  {
  }

  lemma EvictedParts(cached: Cached, regs: seq<int>)
    ensures cached - EvictedCfbp(regs, false) - Dropped(regs, PSR_VIEWS + {XPSR}) - Dropped(regs, STACK_POINTERS)
            == cached - Evicted(regs, false)
    ensures forall c: Cached, group: set<int> :: c - Dropped(regs, group) == if Any(regs, group) then c - group else c
  {
    hide Any, EvictedCfbp;
    forall c: Cached, group: set<int>
      ensures c - Dropped(regs, group) == if Any(regs, group) then c - group else c
    {
      assert c - {} == c;
    }
    RemoveTwice(cached, EvictedCfbp(regs, false), Dropped(regs, PSR_VIEWS + {XPSR}));
    RemoveTwice(cached, EvictedCfbp(regs, false) + Dropped(regs, PSR_VIEWS + {XPSR}), Dropped(regs, STACK_POINTERS));
  }

  lemma AfterWriteIs(cached: Cached, es: seq<Entry>)
    ensures AfterWrite(cached, es, false) == Stored(cached, es) - Evicted(Regs(es), false)
  {
  }

  lemma RegsOfZip(regs: seq<int>, data: seq<bv64>)
    requires |regs| == |data|
    ensures Regs(Zip(regs, data)) == regs && Zip(regs, data)[..|regs|] == Zip(regs, data)
  {
  }

  lemma StoredNothing(cached: Cached, es: seq<Entry>)
    ensures Stored(cached, es[..0]) == cached
  {
  }

  lemma StoredNext(cached: Cached, es: seq<Entry>, i: nat)
    requires i < |es|
    ensures Stored(cached, es[..i + 1]) == Stored(cached, es[..i])[es[i].reg := es[i].data]
  {
    assert es[..i + 1][..i] == es[..i];
  }

  lemma TouchesKeepsPhys(f: RegFile, g: RegFile, regs: seq<int>, data: seq<bv64>, r: Outcome<()>)
    requires |regs| == |data|
    requires r.Done? ==> g == WriteBatch(f, Zip(regs, data))
    requires r.Failed? ==> TouchesOnly(f, g, Zip(regs, data))
    ensures g.phys == f.phys
  {
  }

  /** `results` are the cache entries of `regs`, position by position. */
  ghost predicate ResultsFrom(results: seq<bv64>, regs: seq<int>, cached: Cached) {
    |results| == |regs| && forall i :: 0 <= i < |regs| ==> regs[i] in cached && results[i] == cached[regs[i]]
  }

  lemma NoResults(cached: Cached)
    ensures ResultsFrom([], [], cached)
  {
  }

  lemma ResultsSnoc(results: seq<bv64>, regs: seq<int>, i: nat, cached: Cached)
    requires i < |regs| && ResultsFrom(results, regs[..i], cached)
    ensures regs[i] in cached ==> ResultsFrom(results + [cached[regs[i]]], regs[..i + 1], cached)
  {
  }

  lemma CachedOrMissing(was: Cached, regs: seq<int>)
    ensures Asked(regs) - Held(was, regs) == Missing(was, regs) && forall x :: x in Missing(was, regs) ==> x in regs
    ensures CombinedWords(COMBINED_WORDS)
  {
  }

  lemma AfterReadIs(was: Cached, f: RegFile, regs: seq<int>)
    ensures var missing := Missing(was, regs);
            AfterRead(was, f, regs) == Refresh(was, f, WordsRefreshed(missing, COMBINED_WORDS) + missing)
  {
    hide Refresh, WordsRefreshed, Missing;
  }

  lemma ListsMean(list: seq<int>, missing: set<int>, words: seq<int>)
    requires Lists(list, ReadSet(missing, words))
    ensures |list| == |ReadSet(missing, words)|
    ensures forall x :: x in missing ==> x in list
    ensures forall x :: x in list ==> x in ReadSet(missing, words)
  {
    hide Meets;
  }

  lemma ReadNothing(f: RegFile)
    ensures ReadAll(f, []) == []
  {
  }

  ghost function MissingIn(missing: set<int>, regs: seq<int>): set<int> {
    set r | r in regs && r in missing
  }

  lemma ResultsNext(was: Cached, f: RegFile, words: set<int>, missing: set<int>, regs: seq<int>, i: nat)
    requires i < |regs| && (regs[i] in missing <==> regs[i] !in was)
    ensures var r := regs[i];
            var now := Refresh(was, f, words + MissingIn(missing, regs[..i]));
            var next := Refresh(was, f, words + MissingIn(missing, regs[..i + 1]));
            var final := Refresh(was, f, words + missing);
            && r in final
            && (r in missing ==> next == now[r := ReadOne(f, r)] && final[r] == ReadOne(f, r))
            && (r !in missing ==> next == now && r in now && final[r] == now[r])
  {
    hide ReadOne, Refresh;
    var r, done := regs[i], words + MissingIn(missing, regs[..i]);
    assert regs[..i + 1] == regs[..i] + [r];
    assert MissingIn(missing, regs[..i + 1]) ==
           if r in missing then MissingIn(missing, regs[..i]) + {r} else MissingIn(missing, regs[..i]);
    RefreshAt(was, f, done, r);
    RefreshAt(was, f, words + missing, r);
    if r in missing {
      RefreshOne(was, f, done, r);
      assert words + MissingIn(missing, regs[..i + 1]) == done + {r};
    }
  }

  lemma NothingRefreshed(was: Cached, f: RegFile)
    ensures Refresh(was, f, {}) == was
  {
  }

  lemma ReadListSupported(supported: set<int>, regs: seq<int>, missing: set<int>, words: seq<int>, list: seq<int>)
    requires ValidRegisters(supported) && Supports(supported, regs) && forall x :: x in missing ==> x in regs
    requires CombinedWords(words) && forall x :: x in list ==> x in ReadSet(missing, words)
    ensures Supports(supported, list)
  {
    hide ValidRegisters, Meets, IsCombined;
    forall x | x in list
      ensures x in supported
    {
      if x !in missing { FieldsAreSupported(supported, missing, x); }
    }
  }

  lemma SomethingMissing(missing: set<int>, words: seq<int>, list: seq<int>)
    requires list != [] && forall x :: x in list ==> x in ReadSet(missing, words)
    ensures missing != {}
  {
    hide Fields;
    var x := list[0];
    assert x in list;
  }
}

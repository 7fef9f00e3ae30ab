/** The core's register transfer loops, over the debug registers DCRSR, DCRDR and DHCSR. */
module CortexMCores {
  import opened Bytes
  import opened Cores
  import opened CoreRegisters
  import opened RegisterTransfers

  /** The debug hardware: a transfer may fail to complete, which shows as a clear S_REGRDY. */
  class DebugRegisters {
    var file: RegFile
    var dcrdr: bv32
    var ready: bool
    ghost var stuck: seq<int>   // the selectors of the transfers that did not complete

    constructor (file: RegFile)
      ensures this.file == file
    {
      this.file, dcrdr, ready := file, 0, true;
    }

    method WriteDcrdr(value: bv32)
      modifies `dcrdr
      ensures dcrdr == value
    {
      dcrdr := value;
    }

    /** Starts a transfer between DCRDR and the selected register. */
    method WriteDcrsr(selector: int, regWnR: bool)
      modifies `file, `dcrdr, `ready, `stuck
      ensures regWnR ==> dcrdr == old(dcrdr) && file in {old(file), old(file).Put(selector, dcrdr)}
      ensures regWnR && ready ==> file == old(file).Put(selector, dcrdr)
      ensures !regWnR ==> file == old(file) && (ready ==> dcrdr == file.Word(selector))
      ensures stuck == old(stuck) + if ready then [] else [selector]
    {
      ready := *;
      if !ready { stuck := stuck + [selector]; }
      var reached: bool := *;
      if regWnR {
        if ready || reached {
          file := file.Put(selector, dcrdr);
        }
      } else if ready {
        dcrdr := file.Word(selector);
      } else {
        dcrdr := *;
      }
    }
  }

  function SelectorsOf(regs: seq<int>): seq<int> {
    seq<int>(|regs|, i requires 0 <= i < |regs| => Selector(regs[i]))
  }

  /** What a call adds to the transfers that did not complete: those of the registers it reports, and none when it
      reports none. */
  ghost predicate Blames<T>(before: seq<int>, after: seq<int>, r: Outcome<T>) {
    if r.Failed? && r.error.NotReady? then r.error.regs != [] && after == before + SelectorsOf(r.error.regs)
    else after == before
  }

  lemma DoneBlamesNone<T>(before: seq<int>, after: seq<int>, r: Outcome<T>)
    requires r.Done?
    ensures Blames(before, after, r) <==> after == before
  {
  }

  /** Of the first `n` selectors, those whose transfer did not complete. */
  function Unfinished(selectors: seq<int>, ready: seq<bool>, n: nat): seq<int>
    requires n <= |ready| && n <= |selectors|
  {
    if n == 0 then []
    else Unfinished(selectors, ready, n - 1) + if ready[n - 1] then [] else [selectors[n - 1]]
  }

  lemma {:induction false} UnfinishedKeeps(selectors: seq<int>, ready: seq<bool>, more: seq<bool>, n: nat)
    requires n <= |ready| && n <= |selectors|
    ensures Unfinished(selectors, ready + more, n) == Unfinished(selectors, ready, n)
  {
    if n > 0 { UnfinishedKeeps(selectors, ready, more, n - 1); }
  }

  lemma UnfinishedNext(selectors: seq<int>, ready: seq<bool>, b: bool)
    requires |ready| < |selectors|
    ensures Unfinished(selectors, ready + [b], |ready| + 1)
            == Unfinished(selectors, ready, |ready|) + if b then [] else [selectors[|ready|]]
  {
    UnfinishedKeeps(selectors, ready, [b], |ready|);
  }

  lemma {:induction false} UnfinishedFrom(selectors: seq<int>, ready: seq<bool>, n: nat)
    requires n <= |ready| && n <= |selectors|
    ensures forall x :: x in Unfinished(selectors, ready, n) ==> x in selectors
  {
    if n > 0 { UnfinishedFrom(selectors, ready, n - 1); }
  }

  lemma SelectorsSnoc(regs: seq<int>, r: int)
    ensures SelectorsOf(regs + [r]) == SelectorsOf(regs) + [Selector(r)]
  {
  }

  /** The selectors of gathered words. */
  function Written(list: seq<WordWrite>): (selectors: seq<int>)
    ensures |selectors| == |list| && forall k :: 0 <= k < |list| ==> selectors[k] == list[k].selector
  {
    seq<int>(|list|, k requires 0 <= k < |list| => list[k].selector)
  }

  // ---- Lists of registers ----

  /** What a list of registers reads as, position by position. */
  function ReadAll(f: RegFile, regs: seq<int>): (values: seq<bv64>)
    ensures |values| == |regs|
  {
    seq<bv64>(|regs|, i requires 0 <= i < |regs| => ReadOne(f, regs[i]))
  }

  /** [reg for reg in regs if reg is a double], and the others. */
  function Doubles(regs: seq<int>, wanted: bool): (r: seq<int>)
    ensures forall x :: x in r <==> x in regs && IsDouble(x) == wanted
    ensures |r| <= |regs|
  {
    if regs == [] then []
    else if IsDouble(regs[0]) == wanted then [regs[0]] + Doubles(regs[1..], wanted)
    else Doubles(regs[1..], wanted)
  }

  /** The two singles of each double, in order. */
  method Halves(doubles: seq<int>) returns (singles: seq<int>)
    requires forall x :: x in doubles ==> IsDouble(x)
    ensures |singles| == 2 * |doubles|
    ensures forall i :: 0 <= i < |doubles| ==> singles[2 * i] == -doubles[i] && singles[2 * i + 1] == -doubles[i] + 1
    ensures forall x :: x in singles ==> !IsDouble(x)
  {
    singles := [];
    for i := 0 to |doubles|
      invariant |singles| == 2 * i
      invariant forall j :: 0 <= j < i ==> singles[2 * j] == -doubles[j] && singles[2 * j + 1] == -doubles[j] + 1
      invariant forall x :: x in singles ==> !IsDouble(x)
    {
      assert doubles[i] in doubles;
      singles := singles + [-doubles[i], -doubles[i] + 1];
    }
  }

  lemma NoDoubles(regs: seq<int>)
    requires forall x :: x in regs ==> !IsDouble(x)
    ensures Doubles(regs, true) == []
  {
    var r := Doubles(regs, true);
    assert forall i :: 0 <= i < |r| ==> r[i] in r;
  }

  /** list.index(x) */
  method First(list: seq<int>, x: int) returns (k: nat)
    requires x in list
    ensures k < |list| && list[k] == x
  {
    k := 0;
    while list[k] != x
      invariant k < |list| && x in list[k..]
      decreases |list| - k
    {
      k := k + 1;
    }
  }

  /** The registers a core has: from the table, and with every field its word. */
  predicate ValidRegisters(supported: set<int>) {
    forall r :: r in supported ==> Known(r) && (IsField(r) ==> Selector(r) in supported)
  }

  predicate Supports(supported: set<int>, regs: seq<int>) {
    forall r :: r in regs ==> r in supported
  }

  class CortexM {
    const hw: DebugRegisters
    const run: Core
    const supported: set<int>

    constructor (hw: DebugRegisters, run: Core, supported: set<int>)
      ensures this.hw == hw && this.run == run && this.supported == supported
    {
      this.hw, this.run, this.supported := hw, run, supported;
    }

    method Resume()
      modifies run
      ensures run.State() == Resumed(old(run.State()))
    {
      run.Resume();
    }

    /** One atomic step of a halted core: any register may change. */
    method Step()
      modifies run, hw`file
      ensures run.State() == Stepped(old(run.State())) && hw.file.phys == old(hw.file.phys)
      ensures run.running ==> hw.file == old(hw.file)
    {
      run.Step();
      if run.running { return; }
      var cells: map<int, bv32> := *;
      hw.file := RegFile(hw.file.phys, cells);
    }

    method Reset()
      modifies run, hw`file
      ensures run.State() == WasReset(old(run.State())) && hw.file.phys == old(hw.file.phys)
    {
      run.Reset();
      var cells: map<int, bv32> := *;
      hw.file := RegFile(hw.file.phys, cells);
    }

    /** check_reg_list, then the read. */
    method ReadCoreRegisters(regs: seq<int>) returns (r: Outcome<seq<bv64>>)
      modifies hw`file, hw`dcrdr, hw`ready, hw`stuck
      ensures Blames(old(hw.stuck), hw.stuck, r)
      ensures hw.file == old(hw.file)
      ensures r.Done? ==> r.value == ReadAll(hw.file, regs)
      ensures r == Failed(Unavailable) <==> !Supports(supported, regs)
      ensures r == Failed(NotHalted) <==> Supports(supported, regs) && run.running
    {
      if !Supports(supported, regs) { return Failed(Unavailable); }
      r := ReadRegisters(regs);
    }

    method WriteCoreRegisters(regs: seq<int>, data: seq<bv64>) returns (r: Outcome<()>)
      requires |regs| == |data|
      modifies hw`file, hw`dcrdr, hw`ready, hw`stuck
      ensures Blames(old(hw.stuck), hw.stuck, r)
      ensures r.Done? ==> hw.file == WriteBatch(old(hw.file), Zip(regs, data))
      ensures r.Failed? ==> TouchesOnly(old(hw.file), hw.file, Zip(regs, data))
      ensures r == Failed(Unavailable) <==> !Supports(supported, regs)
      ensures r == Failed(NotHalted) <==> Supports(supported, regs) && run.running
      ensures r.Failed? && !r.error.NotReady? ==> hw.file == old(hw.file)
    {
      if !Supports(supported, regs) { return Failed(Unavailable); }
      r := WriteRegisters(regs, data);
    }

    /** Reads a list of registers; doubles are read as pairs of singles first. */
    method ReadRegisters(regs: seq<int>) returns (r: Outcome<seq<bv64>>)
      modifies hw`file, hw`dcrdr, hw`ready, hw`stuck
      ensures Blames(old(hw.stuck), hw.stuck, r)
      ensures hw.file == old(hw.file)
      ensures r.Done? ==> r.value == ReadAll(hw.file, regs)
      ensures r == Failed(NotHalted) <==> run.running
      ensures r.Failed? && !r.error.NotHalted? ==> r.error.NotReady?
      decreases |Doubles(regs, true)|
    {
      if run.running { return Failed(NotHalted); }
      ghost var f := hw.file;
      var doubles := Doubles(regs, true);
      var plain := regs;
      var singleValues: seq<bv64> := [];
      if |doubles| > 0 {
        plain := Doubles(regs, false);
        var singles := Halves(doubles);
        NoDoubles(singles);
        var read := ReadRegisters(singles);
        if read.Failed? { return read; }
        singleValues := read.value;
      } else {
        assert forall x :: x in regs && IsDouble(x) ==> x in doubles;
      }
      var transferred := ReadPlain(plain);
      if transferred.Failed? { return transferred; }
      var values := transferred.value;
      if |doubles| > 0 {
        values := Merge(regs, doubles, singleValues, plain, values);
      }
      return Done(values);
    }

    /** All transfers are started, then all results collected and cut to their registers. */
    method ReadPlain(regs: seq<int>) returns (r: Outcome<seq<bv64>>)
      requires !run.running && forall x :: x in regs ==> !IsDouble(x)
      modifies hw`file, hw`dcrdr, hw`ready, hw`stuck
      ensures Blames(old(hw.stuck), hw.stuck, r)
      ensures hw.file == old(hw.file)
      ensures r.Done? ==> r.value == ReadAll(hw.file, regs)
      ensures r.Failed? ==> r.error.NotReady?
    {
      hide Part, Wide, Joined, ReadOne;
      var ready, words := StartReads(regs);
      r := CollectReads(regs, ready, words);
    }

    method StartReads(regs: seq<int>) returns (ready: seq<bool>, words: seq<bv32>)
      requires !run.running
      modifies hw`file, hw`dcrdr, hw`ready, hw`stuck
      ensures hw.file == old(hw.file) && |ready| == |words| == |regs|
      ensures forall j :: 0 <= j < |regs| && ready[j] ==> words[j] == hw.file.Word(Selector(regs[j]))
      ensures hw.stuck == old(hw.stuck) + Unfinished(SelectorsOf(regs), ready, |regs|)
    {
      hide RegFile.Word, Selector;
      ready, words := [], [];
      for i := 0 to |regs|
        invariant hw.file == old(hw.file) && |ready| == |words| == i
        invariant forall j :: 0 <= j < i && ready[j] ==> words[j] == hw.file.Word(Selector(regs[j]))
        invariant hw.stuck == old(hw.stuck) + Unfinished(SelectorsOf(regs), ready, i)
      {
        hw.WriteDcrsr(Selector(regs[i]), false);
        UnfinishedNext(SelectorsOf(regs), ready, hw.ready);
        ready, words := ready + [hw.ready], words + [hw.dcrdr];
      }
    }

    method CollectReads(regs: seq<int>, ready: seq<bool>, words: seq<bv32>) returns (r: Outcome<seq<bv64>>)
      requires |ready| == |words| == |regs| && forall x :: x in regs ==> !IsDouble(x)
      requires forall j :: 0 <= j < |regs| && ready[j] ==> words[j] == hw.file.Word(Selector(regs[j]))
      ensures var unfinished := Unfinished(SelectorsOf(regs), ready, |regs|);
              if unfinished == [] then r.Done? && r.value == ReadAll(hw.file, regs)
              else r.Failed? && r.error.NotReady? && SelectorsOf(r.error.regs) == unfinished
    {
      hide Part, Wide, Joined;
      var values: seq<bv64>, fails: seq<int> := [], [];
      for i := 0 to |regs|
        invariant |values| == i && SelectorsOf(fails) == Unfinished(SelectorsOf(regs), ready, i)
        invariant fails == [] ==> forall j :: 0 <= j < i ==> values[j] == ReadOne(hw.file, regs[j])
      {
        SelectorsSnoc(fails, regs[i]);
        if !ready[i] { fails := fails + [regs[i]]; }
        assert regs[i] in regs;
        values := values + [Wide(Part(regs[i], words[i]))];
      }
      return if fails != [] then Failed(NotReady(fails)) else Done(values);
    }

    /** Doubles are joined from their halves, the others taken from their own read. */
    method Merge(regs: seq<int>, doubles: seq<int>, singleValues: seq<bv64>, plain: seq<int>, values: seq<bv64>)
      returns (results: seq<bv64>)
      requires doubles == Doubles(regs, true) && plain == Doubles(regs, false)
      requires values == ReadAll(hw.file, plain) && |singleValues| == 2 * |doubles|
      requires forall i :: 0 <= i < |doubles| ==>
                 singleValues[2 * i] == ReadOne(hw.file, -doubles[i])
                 && singleValues[2 * i + 1] == ReadOne(hw.file, -doubles[i] + 1)
      ensures results == ReadAll(hw.file, regs)
    {
      hide Part, Wide, Joined, ReadOne, IsDouble;
      results := [];
      for i := 0 to |regs|
        invariant |results| == i
        invariant forall j :: 0 <= j < i ==> results[j] == ReadOne(hw.file, regs[j])
      {
        assert regs[i] in regs;
        if IsDouble(regs[i]) {
          var k := First(doubles, regs[i]);
          HalvesJoin(hw.file, regs[i]);
          results := results + [(singleValues[2 * k + 1] << 32) | singleValues[2 * k]];
        } else {
          var k := First(plain, regs[i]);
          results := results + [values[k]];
        }
      }
    }

    lemma HalvesJoin(f: RegFile, r: int)
      requires IsDouble(r)
      ensures ReadOne(f, r) == (ReadOne(f, -r + 1) << 32) | ReadOne(f, -r)
    {
      assert !IsField(-r) && !IsField(-r + 1) && !IsDouble(-r) && !IsDouble(-r + 1);
    }

    /** Writes a list of registers: plain words first, then xPSR, then the CFBP words, each combined word once. */
    method WriteRegisters(regs: seq<int>, data: seq<bv64>) returns (r: Outcome<()>)
      requires |regs| == |data|
      modifies hw`file, hw`dcrdr, hw`ready, hw`stuck
      ensures Blames(old(hw.stuck), hw.stuck, r)
      ensures r.Done? ==> hw.file == WriteBatch(old(hw.file), Zip(regs, data))
      ensures r == Failed(NotHalted) <==> run.running
      ensures r.Failed? && !r.error.NotHalted? ==> r.error.NotReady?
      ensures run.running ==> hw.file == old(hw.file)
      ensures r.Failed? ==> TouchesOnly(old(hw.file), hw.file, Zip(regs, data))
    {
      if run.running { return Failed(NotHalted); }
      var gathered := Gather(regs, data);
      if gathered.Failed? { return Failed(gathered.error); }
      var p := gathered.value;
      ghost var f, es := hw.file, Zip(regs, data);
      var list := p.words;
      if p.xpsr.Some? {
        list := list + [WordWrite(XPSR, p.xpsr.value)];
      }
      list := list + p.extra;
      assert list == All(p) by { assert p.words + [] == p.words; }
      AllFromList(f, es);
      r := SendWords(list);
      TouchesFewer(f, hw.file, list, es);
      if r.Failed? { WordSelectors(list, es, r.error.regs); }
    }

    /** The words to write. A combined word starts from what the core holds, read when it is first needed. */
    method Gather(regs: seq<int>, data: seq<bv64>) returns (r: Outcome<Pending>)
      requires !run.running && |regs| == |data|
      modifies hw`file, hw`dcrdr, hw`ready, hw`stuck
      ensures Blames(old(hw.stuck), hw.stuck, r)
      ensures hw.file == old(hw.file)
      ensures r.Done? ==> r.value == Collected(hw.file, Zip(regs, data))
      ensures r.Failed? ==> r.error.NotReady?
    {
      ghost var f, es := hw.file, Zip(regs, data);
      hide Inserted, Low, High, Collected, CollectStep, PlainWrites, PutExtra;
      var words: seq<WordWrite>, xpsr: Option<bv32>, extra: seq<WordWrite> := [], None, [];
      NothingCollected(f);
      for i := 0 to |regs|
        invariant hw.file == f && !run.running && hw.stuck == old(hw.stuck)
        invariant Pending(words, xpsr, extra) == Collected(f, es[..i])
      {
        var reg, d := regs[i], data[i];
        ghost var p := Pending(words, xpsr, extra);
        CollectedNext(f, es, i);
        CollectStepIs(f, p, es[i]);
        if IsDouble(reg) {
          words := words + [WordWrite(-reg, Low(d)), WordWrite(-reg + 1, High(d))];
        } else if IsCfbpField(reg) {
          var put := GatherField(extra, reg, d, p);
          if put.Failed? { return Failed(put.error); }
          extra := put.value;
        } else if IsPsrView(reg) {
          if xpsr.None? {
            var read := ReadRegisters([XPSR]);
            if read.Failed? { return Failed(read.error); }
            ReadsWord(f, XPSR);
            xpsr := Some(Low(read.value[0]));
          }
          xpsr := Some(Inserted(reg, xpsr.value, Low(d)));
        } else {
          words := words + [WordWrite(reg, Low(d))];
        }
      }
      assert es[..|regs|] == es;
      return Done(Pending(words, xpsr, extra));
    }

    /** Changes one byte of a CFBP word, of the gathered write if there is one. */
    method GatherField(extra: seq<WordWrite>, reg: int, d: bv64, ghost p: Pending) returns (r: Outcome<seq<WordWrite>>)
      requires !run.running && IsCfbpField(reg) && p.extra == extra
      modifies hw`file, hw`dcrdr, hw`ready, hw`stuck
      ensures Blames(old(hw.stuck), hw.stuck, r)
      ensures hw.file == old(hw.file)
      ensures r.Done? ==> var s := reg / 0x100; r.value == PutExtra(extra, s, Inserted(reg, Base(hw.file, p, s), Low(d)))
      ensures r.Failed? ==> r.error.NotReady?
    {
      hide Inserted, Low, PutExtra, Base;
      var s := reg / 0x100;
      var k := 0;
      while k < |extra| && extra[k].selector != s
        invariant k <= |extra| && forall j :: 0 <= j < k ==> extra[j].selector != s
      {
        k := k + 1;
      }
      PutExtraAt(hw.file, p, s, k);
      if k < |extra| {
        return Done(extra[k := WordWrite(s, Inserted(reg, extra[k].value, Low(d)))]);
      }
      var read := ReadRegisters([s]);
      if read.Failed? { return Failed(read.error); }
      ReadsWord(hw.file, s);
      return Done(extra + [WordWrite(s, Inserted(reg, Low(read.value[0]), Low(d)))]);
    }

    /** Writes the words one after another, then checks that every transfer completed. */
    method SendWords(list: seq<WordWrite>) returns (r: Outcome<()>)
      requires !run.running
      modifies hw`file, hw`dcrdr, hw`ready, hw`stuck
      ensures r.Done? ==> hw.stuck == old(hw.stuck)
      ensures r.Failed? ==> r.error.NotReady? && r.error.regs != [] && hw.stuck == old(hw.stuck) + r.error.regs
      ensures r.Failed? ==> forall x :: x in r.error.regs ==> x in Written(list)
      ensures r.Done? ==> hw.file == WriteWords(old(hw.file), list)
      ensures WordsTouchOnly(old(hw.file), hw.file, list)
    {
      var ready := StartWrites(list);
      r := CheckWrites(list, ready);
      UnfinishedFrom(Written(list), ready, |list|);
    }

    method SendWord(w: WordWrite)
      requires !run.running
      modifies hw`file, hw`dcrdr, hw`ready, hw`stuck
      ensures hw.file == old(hw.file).Put(w.selector, w.value) || (!hw.ready && hw.file == old(hw.file))
      ensures hw.stuck == old(hw.stuck) + if hw.ready then [] else [w.selector]
    {
      hw.WriteDcrdr(w.value);
      hw.WriteDcrsr(w.selector, true);
    }

    method StartWrites(list: seq<WordWrite>) returns (ready: seq<bool>)
      requires !run.running
      modifies hw`file, hw`dcrdr, hw`ready, hw`stuck
      ensures |ready| == |list| && WordsTouchOnly(old(hw.file), hw.file, list)
      ensures false !in ready ==> hw.file == WriteWords(old(hw.file), list)
      ensures hw.stuck == old(hw.stuck) + Unfinished(Written(list), ready, |list|)
    {
      hide *;
      ghost var f := hw.file;
      TouchesNothing(f, list);
      NoWordsWritten(f, Written(list));
      assert list[..0] == [];
      ready := [];
      for i := 0 to |list|
        invariant |ready| == i && WordsTouchOnly(f, hw.file, list)
        invariant false !in ready ==> hw.file == WriteWords(f, list[..i])
        invariant hw.stuck == old(hw.stuck) + Unfinished(Written(list), ready, i)
      {
        WriteNext(f, list, i);
        ghost var was := hw.file;
        SendWord(list[i]);
        TouchesNext(f, was, list, i);
        UnfinishedNext(Written(list), ready, hw.ready);
        ready := ready + [hw.ready];
      }
      assert list[..|list|] == list;
    }

    method CheckWrites(list: seq<WordWrite>, ready: seq<bool>) returns (r: Outcome<()>)
      requires |ready| == |list|
      ensures var unfinished := Unfinished(Written(list), ready, |list|);
              if unfinished == [] then r.Done? && false !in ready
              else r.Failed? && r.error == NotReady(unfinished)
    {
      var fails: seq<int> := [];
      for i := 0 to |list|
        invariant fails == Unfinished(Written(list), ready, i)
        invariant fails == [] ==> false !in ready[..i]
      {
        if !ready[i] { fails := fails + [list[i].selector]; }
      }
      return if fails != [] then Failed(NotReady(fails)) else Done(());
    }
  }

  lemma NoWordsWritten(f: RegFile, selectors: seq<int>)
    ensures WriteWords(f, []) == f && Unfinished(selectors, [], 0) == []
  {
  }

  lemma TouchesNothing(f: RegFile, ws: seq<WordWrite>)
    ensures WordsTouchOnly(f, f, ws)
  {
  }

  /** Words that are written are whole words: each is its own selector. */
  lemma WordSelectors(list: seq<WordWrite>, es: seq<Entry>, words: seq<int>)
    requires FromList(list, es) && forall x :: x in words ==> x in Written(list)
    ensures SelectorsOf(words) == words
  {
    forall i | 0 <= i < |words|
      ensures Selector(words[i]) == words[i]
    {
      assert words[i] in Written(list);
      var k :| 0 <= k < |list| && Written(list)[k] == words[i];
      assert Named(list[k].selector, es);
    }
  }

  lemma NothingCollected(f: RegFile)
    ensures Collected(f, []) == Pending([], None, [])
  {
  }

  lemma CollectedNext(f: RegFile, es: seq<Entry>, i: nat)
    requires i < |es|
    ensures Collected(f, es[..i + 1]) == CollectStep(f, Collected(f, es[..i]), es[i])
  {
    assert es[..i + 1][..i] == es[..i];
  }

  lemma CollectStepIs(f: RegFile, p: Pending, e: Entry)
    ensures var q := CollectStep(f, p, e);
            if IsDouble(e.reg) then
              q == p.(words := p.words + [WordWrite(-e.reg, Low(e.data)), WordWrite(-e.reg + 1, High(e.data))])
            else if IsCfbpField(e.reg) then
              q == p.(extra := PutExtra(p.extra, e.reg / 0x100,
                                        Inserted(e.reg, Base(f, p, e.reg / 0x100), Low(e.data))))
            else if IsPsrView(e.reg) then
              q == p.(xpsr := Some(Inserted(e.reg, Base(f, p, XPSR), Low(e.data))))
            else
              q == p.(words := p.words + [WordWrite(e.reg, Low(e.data))])
  {
    hide Inserted, Low, High, PutExtra, Base;
  }

  lemma PutExtraAt(f: RegFile, p: Pending, s: int, k: nat)
    requires k <= |p.extra| && forall j :: 0 <= j < k ==> p.extra[j].selector != s
    requires k < |p.extra| ==> p.extra[k].selector == s
    requires IsCfbpWord(s)
    ensures k < |p.extra| ==> Base(f, p, s) == p.extra[k].value
                              && forall w :: PutExtra(p.extra, s, w) == p.extra[k := WordWrite(s, w)]
    ensures k == |p.extra| ==> Base(f, p, s) == f.Word(s)
                               && forall w :: PutExtra(p.extra, s, w) == p.extra + [WordWrite(s, w)]
  {
    hide IndexOf;
    assert IndexOf(p.extra, s) == k;
  }

  lemma ReadsWord(f: RegFile, s: int)
    requires IsCombined(s)
    ensures Low(ReadAll(f, [s])[0]) == f.Word(s)
  {
    hide Low, Wide, Joined, RegFile.Word;
    LowOfWide(f.Word(s));
  }

  // ---- What a write can touch, even when it fails ----

  ghost predicate Touches(f: RegFile, es: seq<Entry>, t: int) {
    exists i, s :: 0 <= i < |es| && s in Selectors(es[i].reg) && f.Cell(s) == f.Cell(t)
  }

  ghost predicate TouchesOnly(f: RegFile, g: RegFile, es: seq<Entry>) {
    g.phys == f.phys && forall t :: g.Word(t) != f.Word(t) ==> Touches(f, es, t)
  }

  ghost predicate WordsTouchOnly(f: RegFile, g: RegFile, ws: seq<WordWrite>) {
    && g.phys == f.phys
    && forall t :: g.Word(t) != f.Word(t) ==> exists k :: 0 <= k < |ws| && f.Cell(ws[k].selector) == f.Cell(t)
  }

  lemma WriteNext(f: RegFile, ws: seq<WordWrite>, i: nat)
    requires i < |ws|
    ensures WriteWords(f, ws[..i + 1]) == WriteWords(f, ws[..i]).Put(ws[i].selector, ws[i].value)
  {
    assert ws[..i + 1][..i] == ws[..i];
  }

  lemma TouchesNext(f: RegFile, g: RegFile, ws: seq<WordWrite>, i: nat)
    requires i < |ws| && WordsTouchOnly(f, g, ws)
    ensures WordsTouchOnly(f, g.Put(ws[i].selector, ws[i].value), ws)
  {
    SameCells(f, g);
  }

  ghost predicate FromList(ws: seq<WordWrite>, es: seq<Entry>) {
    forall k :: 0 <= k < |ws| ==> Named(ws[k].selector, es)
  }

  /** Selector `s` is a word of one of the listed registers. */
  ghost predicate Named(s: int, es: seq<Entry>) {
    exists i :: 0 <= i < |es| && s in Selectors(es[i].reg)
  }

  lemma {:induction false} CollectedFromList(f: RegFile, es: seq<Entry>)
    ensures var p := Collected(f, es);
            FromList(p.words, es) && FromList(XpsrWrite(p.xpsr), es) && FromList(p.extra, es)
    decreases |es|
  {
    hide Inserted, Low, High, Base, IndexOf;
    if es != [] {
      var n := |es| - 1;
      CollectedFromList(f, es[..n]);
      var p, e := Collected(f, es[..n]), es[n];
      FromLonger(p.words, es);
      FromLonger(XpsrWrite(p.xpsr), es);
      FromLonger(p.extra, es);
      assert forall s :: s in Selectors(e.reg) ==> Named(s, es);
      hide Named, PlainWrites, PutExtra;
      PlainFromList(e, es);
      PutExtraFromList(p.extra, Selector(e.reg), Inserted(e.reg, Base(f, p, Selector(e.reg)), Low(e.data)), es);
    }
  }

  lemma PlainFromList(e: Entry, es: seq<Entry>)
    requires forall s :: s in Selectors(e.reg) ==> Named(s, es)
    ensures FromList(PlainWrites(e), es)
  {
    hide Low, High, Named;
  }

  lemma PutExtraFromList(ws: seq<WordWrite>, s: int, w: bv32, es: seq<Entry>)
    requires FromList(ws, es)
    ensures Named(s, es) ==> FromList(PutExtra(ws, s, w), es)
  {
    hide Named;
  }

  lemma FromLonger(ws: seq<WordWrite>, es: seq<Entry>)
    requires es != [] && FromList(ws, es[..|es| - 1])
    ensures FromList(ws, es)
  {
    forall k | 0 <= k < |ws|
      ensures Named(ws[k].selector, es)
    {
      var i :| 0 <= i < |es| - 1 && ws[k].selector in Selectors(es[..|es| - 1][i].reg);
      assert es[i] == es[..|es| - 1][i];
    }
  }

  lemma AllFromList(f: RegFile, es: seq<Entry>)
    ensures FromList(All(Collected(f, es)), es)
  {
    hide Collected, Named;
    CollectedFromList(f, es);
  }

  lemma TouchesFewer(f: RegFile, g: RegFile, ws: seq<WordWrite>, es: seq<Entry>)
    requires WordsTouchOnly(f, g, ws) && FromList(ws, es)
    ensures TouchesOnly(f, g, es)
  {
    hide Selectors, RegFile.Word, RegFile.Cell;
    forall t | g.Word(t) != f.Word(t)
      ensures Touches(f, es, t)
    {
      var k :| 0 <= k < |ws| && f.Cell(ws[k].selector) == f.Cell(t);
      assert Named(ws[k].selector, es);
    }
  }
}

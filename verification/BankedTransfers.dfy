/** Batched register writes where the CFBP banks may share storage: which gathered word is written last, and when the
    batch still leaves what the list in order leaves. */
module BankedTransfers {
  import opened Bytes
  import opened BitFields
  import opened CoreRegisters
  import opened RegisterTransfers

  /** The CFBP words may share storage with each other; nothing else shares storage with a combined word. */
  ghost predicate OnlyBanksShare(f: RegFile) {
    forall s, t :: IsCombined(s) && s != t && f.Cell(s) == f.Cell(t) ==> IsCfbpWord(s) && IsCfbpWord(t)
  }

  /** Register `r` is the word of `s`, or some bits of it, or of a bank in the same storage. */
  predicate InBank(f: RegFile, r: int, s: int) {
    !IsDouble(r) && f.Cell(Selector(r)) == f.Cell(s)
  }

  /** The word of `s` after the list in order. */
  function InOrderOver(f: RegFile, es: seq<Entry>, s: int, w: bv32): bv32
    decreases |es|
  {
    if es == [] then w
    else
      var e := es[|es| - 1];
      var v := InOrderOver(f, es[..|es| - 1], s, w);
      if InBank(f, e.reg, s) then Inserted(e.reg, v, Low(e.data)) else v
  }

  lemma {:induction false} InOrderAtBank(f: RegFile, es: seq<Entry>, s: int)
    requires OnlyBanksShare(f) && IsCombined(s)
    ensures WriteInOrder(f, es).Word(s) == InOrderOver(f, es, s, f.Word(s))
    decreases |es|
  {
    hide Inserted, Low, High, WriteOne, InBank, OnlyBanksShare;
    if es != [] {
      var n := |es| - 1;
      InOrderAtBank(f, es[..n], s);
      var g := WriteInOrder(f, es[..n]);
      OneAtBank(f, g, es[n], s);
    }
  }

  lemma OneAtBank(f: RegFile, g: RegFile, e: Entry, s: int)
    requires OnlyBanksShare(f) && g.phys == f.phys && IsCombined(s)
    ensures WriteOne(g, e).Word(s) == if InBank(f, e.reg, s) then Inserted(e.reg, g.Word(s), Low(e.data)) else g.Word(s)
  {
    hide Inserted, Low, High;
    SameCells(f, g);
    if IsDouble(e.reg) {
      assert !IsCombined(-e.reg) && !IsCombined(-e.reg + 1);
      assert f.Cell(-e.reg) != f.Cell(s) && f.Cell(-e.reg + 1) != f.Cell(s);
    }
  }

  // ---- The word that is written last ----

  /** Among the gathered words in the storage of `s`, the selector of the last: the bank whose first field entry comes
      last in the list. */
  function LastGathered(f: RegFile, es: seq<Entry>, s: int): Option<int>
    decreases |es|
  {
    if es == [] then None
    else
      var r := es[|es| - 1].reg;
      var before := LastGathered(f, es[..|es| - 1], s);
      if IsField(r) && InBank(f, r, s) && (before.None? || !HasField(es[..|es| - 1], Selector(r)))
      then Some(Selector(r)) else before
  }

  function LastIn(f: RegFile, ws: seq<WordWrite>, s: int): Option<int>
    decreases |ws|
  {
    if ws == [] then None
    else
      var t := ws[|ws| - 1].selector;
      if f.Cell(t) == f.Cell(s) then Some(t) else LastIn(f, ws[..|ws| - 1], s)
  }

  lemma {:induction false} LastInIs(f: RegFile, ws: seq<WordWrite>, s: int)
    ensures LastIn(f, ws, s).None? <==> forall k :: 0 <= k < |ws| ==> f.Cell(ws[k].selector) != f.Cell(s)
    ensures LastIn(f, ws, s).Some? ==>
              var t := LastIn(f, ws, s).value;
              f.Cell(t) == f.Cell(s) && exists k :: 0 <= k < |ws| && ws[k].selector == t
    decreases |ws|
  {
    if ws != [] {
      var n := |ws| - 1;
      LastInIs(f, ws[..n], s);
      assert ws[n].selector == ws[n].selector;
      if f.Cell(ws[n].selector) != f.Cell(s) && LastIn(f, ws[..n], s).Some? {
        var t := LastIn(f, ws[..n], s).value;
        var k :| 0 <= k < n && ws[..n][k].selector == t;
        assert ws[k].selector == t;
      }
    }
  }

  lemma {:induction false} LastInSameSelectors(f: RegFile, a: seq<WordWrite>, b: seq<WordWrite>, s: int)
    requires |a| == |b| && forall k :: 0 <= k < |a| ==> a[k].selector == b[k].selector
    ensures LastIn(f, a, s) == LastIn(f, b, s)
    decreases |a|
  {
    if a != [] {
      LastInSameSelectors(f, a[..|a| - 1], b[..|b| - 1], s);
    }
  }

  /** Gathered words written one after another: the last one in the storage of `s` stays. */
  lemma {:induction false} LastStays(f: RegFile, g: RegFile, ws: seq<WordWrite>, s: int)
    requires ExtraGood(ws) && g.phys == f.phys
    ensures var last := LastIn(f, ws, s);
            && (last.None? ==> WriteWords(g, ws).Word(s) == g.Word(s))
            && (last.Some? ==> var k := IndexOf(ws, last.value);
                               k < |ws| && WriteWords(g, ws).Word(s) == ws[k].value)
    decreases |ws|
  {
    hide IndexOf, RegFile.Cell, RegFile.Word, RegFile.Put;
    if ws != [] {
      var n := |ws| - 1;
      LastStays(f, g, ws[..n], s);
      SameCells(f, WriteWords(g, ws[..n]));
      if f.Cell(ws[n].selector) == f.Cell(s) {
        IndexIs(ws, n);
      } else if LastIn(f, ws[..n], s).Some? {
        var k := IndexOf(ws[..n], LastIn(f, ws[..n], s).value);
        assert ws[..n][k] == ws[k];
        IndexIs(ws, k);
      }
    }
  }

  lemma IndexIs(ws: seq<WordWrite>, k: nat)
    requires ExtraGood(ws) && k < |ws|
    ensures IndexOf(ws, ws[k].selector) == k
  {
    var m := IndexOf(ws, ws[k].selector);
    assert m <= k;
  }

  /** The last gathered word can be told from the list. */
  lemma {:induction false} LastGatheredIsLast(f: RegFile, es: seq<Entry>, s: int)
    requires OnlyBanksShare(f) && IsCfbpWord(s)
    ensures LastIn(f, Collected(f, es).extra, s) == LastGathered(f, es, s)
    decreases |es|
  {
    hide Inserted, Low, High, FieldsOver, Base, HasField, IndexOf, PutExtra;
    if es != [] {
      var n := |es| - 1;
      LastGatheredIsLast(f, es[..n], s);
      var p, e := Collected(f, es[..n]), es[n];
      if IsCfbpField(e.reg) {
        var t := Selector(e.reg);
        CollectedIs(f, es[..n], t);
        PutLast(f, p.extra, t, Inserted(e.reg, Base(f, p, t), Low(e.data)), s);
      } else {
        assert CollectStep(f, p, e).extra == p.extra;
        assert IsField(e.reg) ==> Selector(e.reg) == XPSR;
      }
    }
  }

  lemma PutLast(f: RegFile, ws: seq<WordWrite>, t: int, v: bv32, s: int)
    ensures LastIn(f, PutExtra(ws, t, v), s) ==
            if f.Cell(t) == f.Cell(s) && (LastIn(f, ws, s).None? || IndexOf(ws, t) == |ws|) then Some(t)
            else LastIn(f, ws, s)
  {
    var k := IndexOf(ws, t);
    LastInIs(f, ws, s);
    if k < |ws| {
      LastInSameSelectors(f, ws, PutExtra(ws, t, v), s);
    } else {
      assert (ws + [WordWrite(t, v)])[..|ws|] == ws;
    }
  }

  /** Words without a field of the bank: the plain writes do what the list in order does. */
  lemma {:induction false} PlainAtBank(f: RegFile, es: seq<Entry>, s: int)
    requires OnlyBanksShare(f) && IsCombined(s) && LastGathered(f, es, s).None?
    ensures WriteWords(f, Collected(f, es).words).Word(s) == InOrderOver(f, es, s, f.Word(s))
    decreases |es|
  {
    hide Inserted, Low, High, InBank, OnlyBanksShare, HasField, Base, PutExtra, PlainWrites;
    if es != [] {
      var n := |es| - 1;
      PlainAtBank(f, es[..n], s);
      var p, e := Collected(f, es[..n]), es[n];
      assert CollectStep(f, p, e).words == p.words + PlainWrites(e) by { PlainStep(f, p, e); }
      WriteWordsSplit(f, p.words, PlainWrites(e));
      PlainEntryAtBank(f, WriteWords(f, p.words), e, s);
    }
  }

  lemma PlainStep(f: RegFile, p: Pending, e: Entry)
    ensures CollectStep(f, p, e).words == p.words + PlainWrites(e)
  {
    hide Inserted, Low, High, Base, PutExtra;
  }

  lemma PlainEntryAtBank(f: RegFile, g: RegFile, e: Entry, s: int)
    requires OnlyBanksShare(f) && g.phys == f.phys && IsCombined(s) && !(IsField(e.reg) && InBank(f, e.reg, s))
    ensures WriteWords(g, PlainWrites(e)).Word(s)
            == if InBank(f, e.reg, s) then Inserted(e.reg, g.Word(s), Low(e.data)) else g.Word(s)
  {
    hide Inserted, Low, High, WriteWords;
    SameCells(f, g);
    if IsDouble(e.reg) {
      WriteTwo(g, -e.reg, Low(e.data), -e.reg + 1, High(e.data));
      assert !IsCombined(-e.reg) && !IsCombined(-e.reg + 1);
      assert f.Cell(-e.reg) != f.Cell(s) && f.Cell(-e.reg + 1) != f.Cell(s);
    } else if IsField(e.reg) {
      NothingWritten(g);
    } else {
      WriteSingle(g, e.reg, Low(e.data));
      WholeInserted(e.reg, g.Word(s), Low(e.data));
    }
  }

  /** A batched write leaves in a combined word what the fields of the last gathered bank make of the present word;
      where no field is written, what the list in order leaves. */
  lemma BatchAtBank(f: RegFile, es: seq<Entry>, s: int)
    requires OnlyBanksShare(f) && IsCombined(s)
    ensures var last := LastGathered(f, es, s);
            && (last.Some? ==> f.Cell(last.value) == f.Cell(s)
                               && WriteBatch(f, es).Word(s) == FieldsOver(es, last.value, f.Word(s)))
            && (last.None? ==> WriteBatch(f, es).Word(s) == InOrderOver(f, es, s, f.Word(s)))
  {
    hide FieldsOver, InOrderOver, HasField, RegFile.Cell, RegFile.Word;
    if s == XPSR {
      XpsrAlone(f, es);
      BatchAt(f, es, XPSR);
      InOrderAtBank(f, es, XPSR);
    } else {
      var p := Collected(f, es);
      var g, xs := WriteWords(f, p.words), XpsrWrite(p.xpsr);
      var h := WriteWords(g, xs);
      WriteWordsSplit(f, p.words, xs);
      WriteWordsSplit(f, p.words + xs, p.extra);
      XpsrElsewhere(f, g, p.xpsr, s);
      CollectedIs(f, es, s);
      LastStays(f, h, p.extra, s);
      LastInIs(f, p.extra, s);
      LastGatheredIsLast(f, es, s);
      var last := LastGathered(f, es, s);
      if last.Some? {
        CollectedIs(f, es, last.value);
        SameCellSameWord(f, last.value, s);
      } else {
        PlainAtBank(f, es, s);
      }
    }
  }

  lemma SameCellSameWord(f: RegFile, t: int, s: int)
    requires f.Cell(t) == f.Cell(s)
    ensures f.Word(t) == f.Word(s)
  {
  }

  lemma XpsrElsewhere(f: RegFile, g: RegFile, xpsr: Option<bv32>, s: int)
    requires OnlyBanksShare(f) && g.phys == f.phys && IsCfbpWord(s)
    ensures WriteWords(g, XpsrWrite(xpsr)).Word(s) == g.Word(s)
  {
    hide WriteWords, RegFile.Word;
    SameCells(f, g);
    assert f.Cell(XPSR) != f.Cell(s);
    if xpsr.Some? {
      WriteSingle(g, XPSR, xpsr.value);
    } else {
      NothingWritten(g);
    }
  }

  lemma {:induction false} XpsrAlone(f: RegFile, es: seq<Entry>)
    requires OnlyBanksShare(f)
    ensures ApartFrom(f, XPSR)
    ensures LastGathered(f, es, XPSR) == if HasField(es, XPSR) then Some(XPSR) else None
    decreases |es|
  {
    hide HasField, RegFile.Cell;
    if es != [] {
      XpsrAlone(f, es[..|es| - 1]);
      HasFieldSnoc(es, XPSR);
    } else {
      assert !HasField([], XPSR) by { NoFieldInNothing(XPSR); }
    }
  }

  lemma NoFieldInNothing(s: int)
    ensures !HasField([], s)
  {
  }

  // ---- When the batch is the list in order ----

  /** Under `mask`, whatever entries other than fields of `t` leave in the storage of `s` to the end of the list, the
      fields of `t` before them make of `w` anyway. */
  predicate OthersHarmless(f: RegFile, es: seq<Entry>, s: int, t: int, w: bv32, mask: bv32)
    decreases |es|
  {
    if es == [] then true
    else
      var e, before := es[|es| - 1], es[..|es| - 1];
      if !InBank(f, e.reg, s) then OthersHarmless(f, before, s, t, w, mask)
      else
        var v := FieldsOver(before, t, w);
        && (FieldOf(e.reg, t) || Agree(Inserted(e.reg, v, Low(e.data)), v, mask))
        && OthersHarmless(f, before, s, t, w, Without(mask, MaskOf(e.reg)))
  }

  lemma {:induction false} OthersHarmlessExactlyWhen(f: RegFile, es: seq<Entry>, s: int, t: int, w: bv32, mask: bv32)
    requires f.Cell(t) == f.Cell(s)
    ensures Agree(FieldsOver(es, t, w), InOrderOver(f, es, s, w), mask) <==> OthersHarmless(f, es, s, t, w, mask)
    decreases |es|
  {
    hide Inserted, Low, Agree, Without, MaskOf, InBank, FieldOf;
    if es == [] {
      Alike(w, mask);
    } else {
      var n := |es| - 1;
      var e := es[n];
      var a, b := FieldsOver(es[..n], t, w), InOrderOver(f, es[..n], s, w);
      FieldInBank(f, e.reg, t, s);
      if !InBank(f, e.reg, s) {
        OthersHarmlessExactlyWhen(f, es[..n], s, t, w, mask);
      } else {
        OthersHarmlessExactlyWhen(f, es[..n], s, t, w, Without(mask, MaskOf(e.reg)));
        if FieldOf(e.reg, t) {
          InsertedAgree(e.reg, a, b, Low(e.data), mask);
        } else {
          InsertedInOne(e.reg, a, b, Low(e.data), mask);
        }
      }
    }
  }

  lemma Alike(w: bv32, mask: bv32)
    ensures Agree(w, w, mask)
  {
  }

  lemma FieldInBank(f: RegFile, r: int, t: int, s: int)
    requires f.Cell(t) == f.Cell(s)
    ensures FieldOf(r, t) ==> InBank(f, r, s)
  {
  }

  /** `a` is what `b` becomes under a write exactly when the write would not change `a` and both agree elsewhere. */
  lemma InsertedInOne(r: int, a: bv32, b: bv32, d: bv32, mask: bv32)
    ensures Agree(a, Inserted(r, b, d), mask)
            <==> Agree(Inserted(r, a, d), a, mask) && Agree(a, b, Without(mask, MaskOf(r)))
  {
    hide Inserted, MaskOf;
    InsertedAgree(r, a, b, d, mask);
    var outside := Without(mask, MaskOf(r));
    OutsideIsDisjoint(mask, MaskOf(r));
    InsertedKeeps(r, b, d, outside);
    hide Disjoint, Masked, Without;
    if Agree(a, Inserted(r, b, d), mask) {
      AgreeOnPart(a, Inserted(r, b, d), mask, MaskOf(r));
    }
  }

  lemma OutsideIsDisjoint(mask: bv32, m: bv32)
    ensures Disjoint(m, Without(mask, m))
  {
  }

  lemma AgreeOnPart(a: bv32, b: bv32, mask: bv32, m: bv32)
    requires Agree(a, b, mask)
    ensures Agree(a, b, Without(mask, m))
  {
    assert a & (mask & !m) == (a & mask) & !m;
    assert b & (mask & !m) == (b & mask) & !m;
  }

  /** No bank loses to the one written last. */
  predicate BankHarmless(f: RegFile, es: seq<Entry>, s: int) {
    var last := LastGathered(f, es, s);
    last.Some? ==> OthersHarmless(f, es, s, last.value, f.Word(s), ALL_ONES)
  }

  /** With CFBP banks in any storage, a batched write leaves what the list in order leaves, exactly when no entry has
      an effect that the fields of the bank written last undo. */
  lemma BankedBatchIsInOrderExactlyWhen(f: RegFile, es: seq<Entry>)
    requires OnlyBanksShare(f)
    ensures SameWords(WriteBatch(f, es), WriteInOrder(f, es)) <==> forall s :: IsCombined(s) ==> BankHarmless(f, es, s)
  {
    hide WriteBatch, WriteInOrder, HasField, OthersHarmless, LastGathered, FieldsOver, InOrderOver, IsCombined;
    forall s
      ensures WriteBatch(f, es).Word(s) == WriteInOrder(f, es).Word(s) <==> (IsCombined(s) ==> BankHarmless(f, es, s))
    {
      if IsCombined(s) {
        BatchAtBank(f, es, s);
        InOrderAtBank(f, es, s);
        var last, w := LastGathered(f, es, s), f.Word(s);
        if last.Some? {
          OthersHarmlessExactlyWhen(f, es, s, last.value, w, ALL_ONES);
          WholeIsItsBits(FieldsOver(es, last.value, w), InOrderOver(f, es, s, w));
        }
      } else {
        UncombinedApart(f, s);
        BatchAt(f, es, s);
      }
    }
  }

  lemma UncombinedApart(f: RegFile, s: int)
    requires OnlyBanksShare(f) && !IsCombined(s)
    ensures ApartFrom(f, s)
  {
  }

  /** With the secure CFBP bank stored in the same word as the unbanked one, CONTROL := 1 and PRIMASK_S := 1 in one
      batch lose the first write: the second bank's word was gathered before it. */
  lemma SharedBanksDiffer()
    ensures var f := RegFile(map[CFBP_S := CFBP], map[]);
            var es := [Entry(CFBP * 0x100 + 3, 1), Entry(CFBP_S * 0x100, 1)];
            WriteBatch(f, es).Word(CFBP) == 1 && WriteInOrder(f, es).Word(CFBP) == 0x0100_0001
  {
    var f := RegFile(map[CFBP_S := CFBP], map[]);
    var control, primask := CFBP * 0x100 + 3, CFBP_S * 0x100;
    assert Inserted(control, 0, 1) == 0x0100_0000 && Inserted(primask, 0, 1) == 1;
    assert Inserted(primask, 0x0100_0000, 1) == 0x0100_0001 && Low(1) == 1;
    hide *;
    TwoFieldsGathered(f, control, primask, 1, 1);
    TwoFieldsInOrder(f, control, primask, 1, 1);
    SharedFile();
  }

  lemma SharedFile()
    ensures var f := RegFile(map[CFBP_S := CFBP], map[]);
            && f.Word(CFBP) == 0 && f.Cell(CFBP_S) == f.Cell(CFBP)
            && Selector(CFBP * 0x100 + 3) == CFBP && Selector(CFBP_S * 0x100) == CFBP_S
            && IsCfbpField(CFBP * 0x100 + 3) && IsCfbpField(CFBP_S * 0x100)
  {
  }

  /** Two fields of different banks in one batch: two gathered words, the second written last. */
  lemma TwoFieldsGathered(f: RegFile, q: int, r: int, d: bv64, e: bv64)
    requires IsCfbpField(q) && IsCfbpField(r) && Selector(q) != Selector(r) && f.Cell(Selector(q)) == f.Cell(Selector(r))
    ensures WriteBatch(f, [Entry(q, d), Entry(r, e)]).Word(Selector(q)) == Inserted(r, f.Word(Selector(r)), Low(e))
  {
    hide Inserted, Low, High, RegFile.Word;
    var s, t := Selector(q), Selector(r);
    var v, w := WordWrite(s, Inserted(q, f.Word(s), Low(d))), WordWrite(t, Inserted(r, f.Word(t), Low(e)));
    assert [Entry(q, d), Entry(r, e)][..1] == [Entry(q, d)] && [Entry(q, d)][..0] == [];
    assert Collected(f, [Entry(q, d)]) == Pending([], None, [v]);
    assert Collected(f, [Entry(q, d), Entry(r, e)]) == Pending([], None, [v, w]);
    assert All(Pending([], None, [v, w])) == [v, w];
    WriteTwo(f, s, v.value, t, w.value);
  }

  lemma TwoFieldsInOrder(f: RegFile, q: int, r: int, d: bv64, e: bv64)
    requires IsCfbpField(q) && IsCfbpField(r) && f.Cell(Selector(q)) == f.Cell(Selector(r))
    ensures WriteInOrder(f, [Entry(q, d), Entry(r, e)]).Word(Selector(q))
            == Inserted(r, Inserted(q, f.Word(Selector(q)), Low(d)), Low(e))
  {
    hide Inserted, Low, High, RegFile.Word;
    assert [Entry(q, d), Entry(r, e)][..1] == [Entry(q, d)] && [Entry(q, d)][..0] == [];
    assert WriteInOrder(f, [Entry(q, d)]) == WriteOne(f, Entry(q, d));
  }
}

/** Reading and writing lists of core registers through DCRSR and DCRDR: a batched read is one read per position,
    and a batched write is the list written in order, exactly when no word is mixed with its own fields to effect. */
module RegisterTransfers {
  import opened Bytes
  import opened BitFields
  import opened CoreRegisters

  datatype RegError = NotHalted | NotReady(regs: seq<int>) | Unavailable

  datatype Outcome<+T> = Done(value: T) | Failed(error: RegError)

  /** The registers behind the DCRSR selectors: selectors that name the same storage share a cell. */
  datatype RegFile = RegFile(phys: map<int, int>, cells: map<int, bv32>) {
    function Cell(s: int): int {
      if s in phys then phys[s] else s
    }

    function Word(s: int): bv32 {
      if Cell(s) in cells then cells[Cell(s)] else 0
    }

    function Put(s: int, w: bv32): (f: RegFile)
      ensures f.phys == phys && f.Word(s) == w
      ensures forall t :: f.Cell(t) == Cell(t)
      ensures forall t :: Cell(t) != Cell(s) ==> f.Word(t) == Word(t)
      ensures forall t :: Cell(t) == Cell(s) ==> f.Word(t) == w
    {
      RegFile(phys, cells[Cell(s) := w])
    }
  }

  ghost predicate SameWords(f: RegFile, g: RegFile) {
    forall s :: f.Word(s) == g.Word(s)
  }

  datatype Entry = Entry(reg: int, data: bv64)
  datatype WordWrite = WordWrite(selector: int, value: bv32)

  function Zip(regs: seq<int>, data: seq<bv64>): (es: seq<Entry>)
    requires |regs| == |data|
    ensures |es| == |regs|
    ensures forall i :: 0 <= i < |es| ==> es[i] == Entry(regs[i], data[i])
  {
    seq<Entry>(|regs|, i requires 0 <= i < |regs| => Entry(regs[i], data[i]))
  }

  // ---- One register at a time ----

  function ReadOne(f: RegFile, r: int): bv64 {
    if IsDouble(r) then Joined(f.Word(-r), f.Word(-r + 1)) else Wide(Part(r, f.Word(Selector(r))))
  }

  function WriteOne(f: RegFile, e: Entry): (g: RegFile)
    ensures g.phys == f.phys
  {
    if IsDouble(e.reg) then f.Put(-e.reg, Low(e.data)).Put(-e.reg + 1, High(e.data))
    else f.Put(Selector(e.reg), Inserted(e.reg, f.Word(Selector(e.reg)), Low(e.data)))
  }

  /** The list written one entry after the other. */
  function WriteInOrder(f: RegFile, es: seq<Entry>): (g: RegFile)
    ensures g.phys == f.phys
    decreases |es|
  {
    if es == [] then f else WriteOne(WriteInOrder(f, es[..|es| - 1]), es[|es| - 1])
  }

  /** The words a register is made of. */
  function Selectors(r: int): set<int> {
    if IsDouble(r) then {-r, -r + 1} else {Selector(r)}
  }

  /** Whether writing `r` can change what `q` reads as. */
  predicate Overlap(f: RegFile, q: int, r: int) {
    exists s, t :: s in Selectors(q) && t in Selectors(r) && f.Cell(s) == f.Cell(t) && !Disjoint(MaskOf(r), MaskOf(q))
  }

  /** A written value as it reads back: doubles keep 64 bits, fields their own bits. */
  function CutData(e: Entry): bv64 {
    if IsDouble(e.reg) then e.data else Wide(Cut(e.reg, Low(e.data)))
  }

  /** The two halves of every double are stored apart. */
  ghost predicate SinglesApart(f: RegFile) {
    forall r :: IsDouble(r) ==> f.Cell(-r) != f.Cell(-r + 1)
  }

  lemma WriteOneReadsBack(f: RegFile, e: Entry)
    requires IsDouble(e.reg) ==> f.Cell(-e.reg) != f.Cell(-e.reg + 1)
    ensures ReadOne(WriteOne(f, e), e.reg) == CutData(e)
  {
    hide Joined, Wide, Part, Cut, Inserted, Low, High;
    if IsDouble(e.reg) {
      JoinedSplit(e.data);
    } else {
      PartOfInserted(e.reg, f.Word(Selector(e.reg)), Low(e.data));
    }
  }

  lemma WriteOneKeepsWord(f: RegFile, e: Entry, s: int, mask: bv32)
    requires forall t :: t in Selectors(e.reg) && f.Cell(t) == f.Cell(s) ==> Disjoint(MaskOf(e.reg), mask)
    ensures Agree(WriteOne(f, e).Word(s), f.Word(s), mask)
  {
    hide Part, Inserted, Low, High, MaskOf, Masked, Disjoint;
    if IsDouble(e.reg) {
      assert -e.reg in Selectors(e.reg) && -e.reg + 1 in Selectors(e.reg);
      if f.Cell(-e.reg) == f.Cell(s) || f.Cell(-e.reg + 1) == f.Cell(s) {
        NothingBesidesAll(e.reg, WriteOne(f, e).Word(s), f.Word(s), mask);
      }
    } else {
      assert Selector(e.reg) in Selectors(e.reg);
      if f.Cell(Selector(e.reg)) == f.Cell(s) {
        InsertedKeeps(e.reg, f.Word(Selector(e.reg)), Low(e.data), mask);
      }
    }
  }

  lemma NothingBesidesAll(r: int, a: bv32, b: bv32, mask: bv32)
    requires IsDouble(r) && Disjoint(MaskOf(r), mask)
    ensures Agree(a, b, mask)
  {
    assert MaskOf(r) == ALL_ONES;
    assert mask & 0xFFFF_FFFF == mask;
  }

  lemma WriteOneKeeps(f: RegFile, e: Entry, q: int)
    requires !Overlap(f, q, e.reg)
    ensures ReadOne(WriteOne(f, e), q) == ReadOne(f, q)
  {
    hide Joined, Wide, Part, MaskOf, Disjoint, WriteOne, Agree;
    forall s | s in Selectors(q)
      ensures Agree(WriteOne(f, e).Word(s), f.Word(s), MaskOf(q))
    {
      WriteOneKeepsWord(f, e, s, MaskOf(q));
    }
    SameReads(WriteOne(f, e), f, q);
  }

  lemma WholeWord(r: int)
    requires !IsField(r)
    ensures MaskOf(r) == ALL_ONES
  {
  }

  /** Each value reads back, cut to its register, unless a later entry overlaps it. */
  lemma {:induction false} WriteThenRead(f: RegFile, es: seq<Entry>, i: nat)
    requires i < |es|
    requires SinglesApart(f)
    requires forall j :: i < j < |es| ==> !Overlap(f, es[i].reg, es[j].reg)
    ensures ReadOne(WriteInOrder(f, es), es[i].reg) == CutData(es[i])
    decreases |es|
  {
    hide ReadOne, WriteOne, CutData, IsDouble, Overlap;
    var n := |es| - 1;
    var g := WriteInOrder(f, es[..n]);
    if i == n {
      SameCells(f, g);
      assert SinglesApart(g);
      WriteOneReadsBack(g, es[n]);
    } else {
      WriteThenRead(f, es[..n], i);
      OverlapOnlyCells(f, g, es[i].reg, es[n].reg);
      WriteOneKeeps(g, es[n], es[i].reg);
    }
  }

  lemma SameCells(f: RegFile, g: RegFile)
    requires f.phys == g.phys
    ensures forall s :: f.Cell(s) == g.Cell(s)
  {
  }

  lemma OverlapOnlyCells(f: RegFile, g: RegFile, q: int, r: int)
    requires f.phys == g.phys
    ensures Overlap(f, q, r) == Overlap(g, q, r)
  {
    SameCells(f, g);
  }

  // ---- What a batched write sends ----

  /** The word writes gathered from a list: plain words, one xPSR, and one word per CFBP selector. */
  datatype Pending = Pending(words: seq<WordWrite>, xpsr: Option<bv32>, extra: seq<WordWrite>)

  /** The first gathered write of `s`. */
  function IndexOf(ws: seq<WordWrite>, s: int): (k: nat)
    ensures k <= |ws|
    ensures forall j :: 0 <= j < k ==> ws[j].selector != s
    ensures k < |ws| ==> ws[k].selector == s
  {
    if ws == [] || ws[0].selector == s then 0
    else
      var k := IndexOf(ws[1..], s);
      assert forall j :: 1 <= j < k + 1 ==> ws[j] == ws[1..][j - 1];
      k + 1
  }

  /** The gathered write of a combined word. */
  function Pended(p: Pending, s: int): Option<bv32> {
    if s == XPSR then p.xpsr
    else
      var k := IndexOf(p.extra, s);
      if k < |p.extra| then Some(p.extra[k].value) else None
  }

  /** What a field write of `s` starts from: the gathered word, or the register's present one. */
  function Base(f: RegFile, p: Pending, s: int): bv32 {
    if Pended(p, s).Some? then Pended(p, s).value else f.Word(s)
  }

  function PutExtra(ws: seq<WordWrite>, s: int, w: bv32): seq<WordWrite> {
    var k := IndexOf(ws, s);
    if k < |ws| then ws[k := WordWrite(s, w)] else ws + [WordWrite(s, w)]
  }

  /** A double is written as two words, a field not as a word of its own. */
  function PlainWrites(e: Entry): seq<WordWrite> {
    if IsDouble(e.reg) then [WordWrite(-e.reg, Low(e.data)), WordWrite(-e.reg + 1, High(e.data))]
    else if IsField(e.reg) then []
    else [WordWrite(e.reg, Low(e.data))]
  }

  function CollectStep(f: RegFile, p: Pending, e: Entry): Pending {
    if IsCfbpField(e.reg) then
      var s := e.reg / 0x100;
      p.(extra := PutExtra(p.extra, s, Inserted(e.reg, Base(f, p, s), Low(e.data))))
    else if IsPsrView(e.reg) then
      p.(xpsr := Some(Inserted(e.reg, Base(f, p, XPSR), Low(e.data))))
    else
      p.(words := p.words + PlainWrites(e))
  }

  function Collected(f: RegFile, es: seq<Entry>): Pending
    decreases |es|
  {
    if es == [] then Pending([], None, []) else CollectStep(f, Collected(f, es[..|es| - 1]), es[|es| - 1])
  }

  function XpsrWrite(xpsr: Option<bv32>): seq<WordWrite> {
    if xpsr.Some? then [WordWrite(XPSR, xpsr.value)] else []
  }

  function All(p: Pending): seq<WordWrite> {
    p.words + XpsrWrite(p.xpsr) + p.extra
  }

  function WriteWords(f: RegFile, ws: seq<WordWrite>): (g: RegFile)
    ensures g.phys == f.phys
    decreases |ws|
  {
    if ws == [] then f
    else WriteWords(f, ws[..|ws| - 1]).Put(ws[|ws| - 1].selector, ws[|ws| - 1].value)
  }

  /** The register file after a batched write. */
  function WriteBatch(f: RegFile, es: seq<Entry>): RegFile {
    WriteWords(f, All(Collected(f, es)))
  }

  // ---- One combined word under a list ----

  predicate FieldOf(r: int, s: int) {
    IsField(r) && Selector(r) == s
  }

  predicate HasField(es: seq<Entry>, s: int) {
    exists i :: 0 <= i < |es| && FieldOf(es[i].reg, s)
  }

  /** The word `w` of selector `s` after the field writes of the list, in order. */
  function FieldsOver(es: seq<Entry>, s: int, w: bv32): bv32
    decreases |es|
  {
    if es == [] then w
    else
      var e := es[|es| - 1];
      var v := FieldsOver(es[..|es| - 1], s, w);
      if FieldOf(e.reg, s) then Inserted(e.reg, v, Low(e.data)) else v
  }

  /** The same with the writes of the whole word taken in their place. */
  function AllOver(es: seq<Entry>, s: int, w: bv32): bv32
    decreases |es|
  {
    if es == [] then w
    else
      var e := es[|es| - 1];
      var v := AllOver(es[..|es| - 1], s, w);
      if FieldOf(e.reg, s) then Inserted(e.reg, v, Low(e.data)) else if e.reg == s then Low(e.data) else v
  }

  /** The bits of the word that the list's field writes cover. */
  function FieldBits(es: seq<Entry>, s: int): bv32
    decreases |es|
  {
    if es == [] then 0
    else
      var r := es[|es| - 1].reg;
      if FieldOf(r, s) then Either(FieldBits(es[..|es| - 1], s), MaskOf(r)) else FieldBits(es[..|es| - 1], s)
  }

  /** The last write of the whole word, or -1. */
  function LastWord(es: seq<Entry>, s: int): (k: int)
    ensures -1 <= k < |es|
    ensures k >= 0 ==> es[k].reg == s
    ensures forall i :: k < i < |es| ==> es[i].reg != s
    decreases |es|
  {
    if es == [] then -1 else if es[|es| - 1].reg == s then |es| - 1 else LastWord(es[..|es| - 1], s)
  }

  /** A list that writes a combined word and fields of it does no harm when the last such word, outside the fields
      written after it, is what the fields written before it already make of the present word. */
  predicate MixingHarmless(es: seq<Entry>, s: int, w: bv32) {
    var k := LastWord(es, s);
    k >= 0 && HasField(es, s) ==>
      Agree(Low(es[k].data), FieldsOver(es[..k], s, w), Without(ALL_ONES, FieldBits(es[k + 1..], s)))
  }

  lemma {:induction false} FieldsOverSplit(a: seq<Entry>, b: seq<Entry>, s: int, w: bv32)
    ensures FieldsOver(a + b, s, w) == FieldsOver(b, s, FieldsOver(a, s, w))
    ensures AllOver(a + b, s, w) == AllOver(b, s, AllOver(a, s, w))
    decreases |b|
  {
    hide Inserted, FieldOf, Low;
    if b == [] {
      assert a + b == a;
    } else {
      var n := |b| - 1;
      assert (a + b)[..|a + b| - 1] == a + b[..n];
      FieldsOverSplit(a, b[..n], s, w);
    }
  }

  lemma {:induction false} NoWordNoDifference(es: seq<Entry>, s: int, w: bv32)
    requires forall i :: 0 <= i < |es| ==> es[i].reg != s
    ensures AllOver(es, s, w) == FieldsOver(es, s, w)
    decreases |es|
  {
    hide Inserted, FieldOf, Low;
    if es != [] {
      NoWordNoDifference(es[..|es| - 1], s, w);
    }
  }

  lemma {:induction false} NoFieldNoChange(es: seq<Entry>, s: int, w: bv32)
    requires !HasField(es, s)
    ensures FieldsOver(es, s, w) == w
    decreases |es|
  {
    hide Inserted, FieldOf, Low;
    if es != [] {
      HasFieldSnoc(es, s);
      NoFieldNoChange(es[..|es| - 1], s, w);
    }
  }

  lemma HasFieldSnoc(es: seq<Entry>, s: int)
    requires es != []
    ensures HasField(es, s) <==> HasField(es[..|es| - 1], s) || FieldOf(es[|es| - 1].reg, s)
  {
    hide FieldOf;
    var n := |es| - 1;
    if HasField(es[..n], s) {
      var i :| 0 <= i < n && FieldOf(es[..n][i].reg, s);
      assert es[i] == es[..n][i];
    }
    if HasField(es, s) && !FieldOf(es[n].reg, s) {
      var i :| 0 <= i < |es| && FieldOf(es[i].reg, s);
      assert es[i] == es[..n][i];
    }
  }

  /** Two words put through the same field writes agree exactly where they agreed outside the fields. */
  lemma {:induction false} FieldsOverAgree(es: seq<Entry>, s: int, a: bv32, b: bv32, mask: bv32)
    ensures Agree(FieldsOver(es, s, a), FieldsOver(es, s, b), mask)
            <==> Agree(a, b, Without(mask, FieldBits(es, s)))
    decreases |es|
  {
    hide Inserted, FieldOf, Low, Agree, Without, Either, MaskOf;
    if es == [] {
      OutsideNothing(mask);
    } else {
      var n := |es| - 1;
      var r := es[n].reg;
      if FieldOf(r, s) {
        InsertedAgree(r, FieldsOver(es[..n], s, a), FieldsOver(es[..n], s, b), Low(es[n].data), mask);
        FieldsOverAgree(es[..n], s, a, b, Without(mask, MaskOf(r)));
        OutsideTwice(mask, MaskOf(r), FieldBits(es[..n], s));
        EitherSwaps(MaskOf(r), FieldBits(es[..n], s));
      } else {
        FieldsOverAgree(es[..n], s, a, b, mask);
      }
    }
  }

  /** Fields last is the same as everything in order, exactly when the mixing is harmless. */
  lemma HarmlessExactlyWhen(es: seq<Entry>, s: int, w: bv32)
    requires IsCombined(s) && HasField(es, s)
    ensures FieldsOver(es, s, w) == AllOver(es, s, w) <==> MixingHarmless(es, s, w)
  {
    hide Inserted, FieldOf, Low, Agree, Without, Either, MaskOf, HasField;
    var k := LastWord(es, s);
    if k < 0 {
      NoWordNoDifference(es, s, w);
    } else {
      var after := es[k + 1..];
      AroundTheWord(es, s, w, k);
      var x, y := FieldsOver(es[..k], s, w), Low(es[k].data);
      WholeIsItsBits(FieldsOver(after, s, y), FieldsOver(after, s, x));
      FieldsOverAgree(after, s, y, x, ALL_ONES);
    }
  }

  lemma AroundTheWord(es: seq<Entry>, s: int, w: bv32, k: nat)
    requires IsCombined(s) && k < |es| && es[k].reg == s
    requires forall i :: k < i < |es| ==> es[i].reg != s
    ensures FieldsOver(es, s, w) == FieldsOver(es[k + 1..], s, FieldsOver(es[..k], s, w))
    ensures AllOver(es, s, w) == FieldsOver(es[k + 1..], s, Low(es[k].data))
  {
    var upto, after := es[..k + 1], es[k + 1..];
    assert es == upto + after && upto[..k] == es[..k];
    assert !FieldOf(s, s);
    hide Inserted, FieldOf, Low;
    FieldsOverSplit(upto, after, s, w);
    NoWordNoDifference(after, s, Low(es[k].data));
  }

  // ---- A batched write against the list in order ----

  /** The three CFBP words and xPSR share no storage with each other or anything else. */
  ghost predicate CombinedApart(f: RegFile) {
    forall s, t :: IsCombined(s) && s != t ==> f.Cell(s) != f.Cell(t)
  }

  /** No combined word other than `s` itself shares the storage of `s`. */
  ghost predicate ApartFrom(f: RegFile, s: int) {
    forall t :: IsCombined(t) && t != s ==> f.Cell(t) != f.Cell(s)
  }

  ghost predicate ExtraGood(ws: seq<WordWrite>) {
    && (forall i :: 0 <= i < |ws| ==> IsCfbpWord(ws[i].selector))
    && (forall i, j :: 0 <= i < j < |ws| ==> ws[i].selector != ws[j].selector)
  }

  lemma PendedStep(f: RegFile, p: Pending, e: Entry, s: int)
    requires ExtraGood(p.extra) && IsCombined(s)
    ensures ExtraGood(CollectStep(f, p, e).extra)
    ensures Pended(CollectStep(f, p, e), s) ==
            if FieldOf(e.reg, s) then Some(Inserted(e.reg, Base(f, p, s), Low(e.data))) else Pended(p, s)
  {
    hide Inserted, Low, High, IndexOf, PutExtra, Base;
    if !IsDouble(e.reg) && IsCfbpField(e.reg) {
      var t := e.reg / 0x100;
      PutPending(p.extra, t, Inserted(e.reg, Base(f, p, t), Low(e.data)), s);
    }
  }

  lemma PutPending(ws: seq<WordWrite>, t: int, v: bv32, s: int)
    requires ExtraGood(ws) && IsCfbpWord(t)
    ensures var us := PutExtra(ws, t, v);
            var k, m := IndexOf(ws, s), IndexOf(us, s);
            && ExtraGood(us)
            && (s == t ==> m < |us| && us[m].value == v)
            && (s != t && k < |ws| ==> m < |us| && us[m] == ws[k])
            && (s != t && k == |ws| ==> m == |us|)
  {
    hide IndexOf;
    var us := PutExtra(ws, t, v);
    assert forall j :: 0 <= j < |ws| ==> us[j].selector == ws[j].selector;
    assert us[IndexOf(ws, t)] == WordWrite(t, v);
  }

  lemma {:induction false} CollectedIs(f: RegFile, es: seq<Entry>, s: int)
    requires IsCombined(s)
    ensures ExtraGood(Collected(f, es).extra)
    ensures Pended(Collected(f, es), s) == if HasField(es, s) then Some(FieldsOver(es, s, f.Word(s))) else None
    decreases |es|
  {
    hide Inserted, Low, CollectStep, FieldOf, Pended;
    if es == [] {
      NothingPended(s);
    } else {
      var n := |es| - 1;
      CollectedIs(f, es[..n], s);
      PendedStep(f, Collected(f, es[..n]), es[n], s);
      HasFieldSnoc(es, s);
      if !HasField(es[..n], s) {
        NoFieldNoChange(es[..n], s, f.Word(s));
      }
    }
  }

  lemma NothingPended(s: int)
    ensures Pended(Pending([], None, []), s) == None
  {
  }

  lemma {:induction false} WriteWordsSplit(f: RegFile, a: seq<WordWrite>, b: seq<WordWrite>)
    ensures WriteWords(f, a + b) == WriteWords(WriteWords(f, a), b)
    decreases |b|
  {
    if b == [] {
      assert a + b == a;
    } else {
      assert (a + b)[..|a + b| - 1] == a + b[..|b| - 1];
      WriteWordsSplit(f, a, b[..|b| - 1]);
    }
  }

  /** Words written to distinct cells: each cell holds its word, the others are untouched. */
  lemma {:induction false} WriteWordsAt(f: RegFile, ws: seq<WordWrite>, s: int)
    requires ApartFrom(f, s) && ExtraGood(ws)
    ensures var k := IndexOf(ws, s);
            WriteWords(f, ws).Word(s) == if k < |ws| then ws[k].value else f.Word(s)
    decreases |ws|
  {
    if ws != [] {
      var n := |ws| - 1;
      WriteWordsAt(f, ws[..n], s);
      var g := WriteWords(f, ws[..n]);
      SameCells(f, g);
      var k, m := IndexOf(ws, s), IndexOf(ws[..n], s);
      if ws[n].selector == s {
        assert forall j :: 0 <= j < n ==> ws[j].selector != s;
        assert m == n && k == n;
      } else {
        assert m < n ==> k == m;
        assert m == n ==> k == n + 1;
      }
    }
  }

  /** A gathered combined word is what its selector ends up with; all other selectors have their plain writes. */
  lemma AllAt(f: RegFile, p: Pending, s: int)
    requires ApartFrom(f, s) && ExtraGood(p.extra)
    ensures WriteWords(f, All(p)).Word(s) ==
            if IsCombined(s) && Pended(p, s).Some? then Pended(p, s).value else WriteWords(f, p.words).Word(s)
  {
    var g := WriteWords(f, p.words);
    var xs := XpsrWrite(p.xpsr);
    WriteWordsSplit(f, p.words, xs);
    WriteWordsSplit(f, p.words + xs, p.extra);
    var h := WriteWords(g, xs);
    SameCells(f, g);
    SameCells(f, h);
    XpsrWriteAt(g, p.xpsr, s);
    assert ApartFrom(h, s);
    WriteWordsAt(h, p.extra, s);
  }

  lemma XpsrWriteAt(g: RegFile, xpsr: Option<bv32>, s: int)
    requires ApartFrom(g, s)
    ensures WriteWords(g, XpsrWrite(xpsr)).Word(s) == if s == XPSR && xpsr.Some? then xpsr.value else g.Word(s)
  {
    if xpsr.Some? {
      var ws := XpsrWrite(xpsr);
      assert ws[..|ws| - 1] == [];
      assert WriteWords(g, ws) == g.Put(XPSR, xpsr.value);
    }
  }

  /** The plain writes alone: right at every word of which no field is written. */
  lemma {:induction false} PlainWordsAt(f: RegFile, es: seq<Entry>, s: int)
    requires ApartFrom(f, s) && !HasField(es, s)
    ensures WriteWords(f, Collected(f, es).words).Word(s) == WriteInOrder(f, es).Word(s)
    decreases |es|
  {
    hide Inserted, Low, FieldOf, HasField;
    if es != [] {
      var n := |es| - 1;
      HasFieldSnoc(es, s);
      PlainWordsAt(f, es[..n], s);
      PlainStepAt(f, Collected(f, es[..n]), WriteInOrder(f, es[..n]), es[n], s);
    }
  }

  lemma PlainStepAt(f: RegFile, p: Pending, g: RegFile, e: Entry, s: int)
    requires ApartFrom(f, s) && g.phys == f.phys && !FieldOf(e.reg, s)
    requires WriteWords(f, p.words).Word(s) == g.Word(s)
    ensures WriteWords(f, CollectStep(f, p, e).words).Word(s) == WriteOne(g, e).Word(s)
  {
    hide Inserted, Low, High, IndexOf, PutExtra, Base, WriteWords, RegFile.Word, RegFile.Put, WriteOne;
    assert CollectStep(f, p, e).words == p.words + PlainWrites(e);
    WriteWordsSplit(f, p.words, PlainWrites(e));
    SameCells(f, g);
    PlainWritesAt(WriteWords(f, p.words), g, e, s);
  }

  lemma PlainWritesAt(h: RegFile, g: RegFile, e: Entry, s: int)
    requires ApartFrom(g, s) && h.phys == g.phys && h.Word(s) == g.Word(s) && !FieldOf(e.reg, s)
    ensures WriteWords(h, PlainWrites(e)).Word(s) == WriteOne(g, e).Word(s)
  {
    hide Inserted, Low, High, WriteWords, RegFile.Put, RegFile.Word, RegFile.Cell, ApartFrom;
    if IsDouble(e.reg) {
      WriteTwo(h, -e.reg, Low(e.data), -e.reg + 1, High(e.data));
      PutBoth(h, g, -e.reg, Low(e.data), s);
      PutBoth(h.Put(-e.reg, Low(e.data)), g.Put(-e.reg, Low(e.data)), -e.reg + 1, High(e.data), s);
    } else if IsField(e.reg) {
      NothingWritten(h);
      PutElsewhere(g, Selector(e.reg), Inserted(e.reg, g.Word(Selector(e.reg)), Low(e.data)), s);
    } else {
      WriteSingle(h, e.reg, Low(e.data));
      WholeInserted(e.reg, g.Word(e.reg), Low(e.data));
      PutBoth(h, g, e.reg, Low(e.data), s);
    }
  }

  lemma PutBoth(h: RegFile, g: RegFile, t: int, w: bv32, s: int)
    requires h.phys == g.phys && h.Word(s) == g.Word(s)
    ensures h.Put(t, w).Word(s) == g.Put(t, w).Word(s)
  {
  }

  lemma PutElsewhere(g: RegFile, t: int, w: bv32, s: int)
    requires ApartFrom(g, s) && IsCombined(t) && s != t
    ensures g.Put(t, w).Word(s) == g.Word(s)
  {
  }

  lemma NothingWritten(f: RegFile)
    ensures WriteWords(f, []) == f
  {
  }

  lemma WriteSingle(f: RegFile, s: int, w: bv32)
    ensures WriteWords(f, [WordWrite(s, w)]) == f.Put(s, w)
  {
    assert [WordWrite(s, w)][..0] == [];
  }

  lemma WriteTwo(f: RegFile, s: int, w: bv32, t: int, v: bv32)
    ensures WriteWords(f, [WordWrite(s, w), WordWrite(t, v)]) == f.Put(s, w).Put(t, v)
  {
    var two := [WordWrite(s, w), WordWrite(t, v)];
    assert two[..1] == [WordWrite(s, w)];
    WriteSingle(f, s, w);
  }

  lemma WholeInserted(r: int, w: bv32, d: bv32)
    requires !IsField(r)
    ensures Inserted(r, w, d) == d
  {
    WholeReplaced(w, d);
  }

  /** In order, a combined word takes its field writes and its own writes as they come. */
  lemma {:induction false} InOrderAt(f: RegFile, es: seq<Entry>, s: int)
    requires CombinedApart(f) && IsCombined(s)
    ensures WriteInOrder(f, es).Word(s) == AllOver(es, s, f.Word(s))
    decreases |es|
  {
    hide Inserted, Low, High, WriteOne, FieldOf;
    if es != [] {
      var n := |es| - 1;
      InOrderAt(f, es[..n], s);
      var g := WriteInOrder(f, es[..n]);
      SameCells(f, g);
      OneAt(g, es[n], s);
    }
  }

  lemma OneAt(g: RegFile, e: Entry, s: int)
    requires CombinedApart(g) && IsCombined(s)
    ensures WriteOne(g, e).Word(s) ==
            if FieldOf(e.reg, s) then Inserted(e.reg, g.Word(s), Low(e.data))
            else if e.reg == s then Low(e.data) else g.Word(s)
  {
    hide Inserted, Low, High, RegFile.Put, RegFile.Word, RegFile.Cell;
    if !IsField(e.reg) && !IsDouble(e.reg) {
      WholeInserted(e.reg, g.Word(e.reg), Low(e.data));
    }
    assert Selector(e.reg) != s ==> g.Cell(Selector(e.reg)) != g.Cell(s);
    assert IsDouble(e.reg) ==> g.Cell(-e.reg) != g.Cell(s) && g.Cell(-e.reg + 1) != g.Cell(s);
  }

  lemma BatchAt(f: RegFile, es: seq<Entry>, s: int)
    requires ApartFrom(f, s)
    ensures IsCombined(s) && HasField(es, s) ==> WriteBatch(f, es).Word(s) == FieldsOver(es, s, f.Word(s))
    ensures !(IsCombined(s) && HasField(es, s)) ==> WriteBatch(f, es).Word(s) == WriteInOrder(f, es).Word(s)
  {
    CollectedIs(f, es, if IsCombined(s) then s else XPSR);
    AllAt(f, Collected(f, es), s);
    if !HasField(es, s) {
      PlainWordsAt(f, es, s);
    }
  }

  /** A batched write leaves what the list in order leaves, exactly when no combined word is mixed with its fields
      to effect. */
  lemma BatchIsInOrderExactlyWhen(f: RegFile, es: seq<Entry>)
    requires CombinedApart(f)
    ensures SameWords(WriteBatch(f, es), WriteInOrder(f, es))
            <==> forall s :: IsCombined(s) ==> MixingHarmless(es, s, f.Word(s))
  {
    hide WriteBatch, WriteInOrder, HasField, MixingHarmless, FieldsOver, AllOver, IsCombined;
    forall s
      ensures WriteBatch(f, es).Word(s) == WriteInOrder(f, es).Word(s)
              <==> (IsCombined(s) ==> MixingHarmless(es, s, f.Word(s)))
    {
      ApartFromAll(f, s);
      BatchAt(f, es, s);
      if IsCombined(s) {
        InOrderAt(f, es, s);
        if HasField(es, s) {
          HarmlessExactlyWhen(es, s, f.Word(s));
        } else {
          UnmixedIsHarmless(es, s, f.Word(s));
        }
      }
    }
  }

  lemma ApartFromAll(f: RegFile, s: int)
    requires CombinedApart(f)
    ensures ApartFrom(f, s)
  {
  }

  lemma UnmixedIsHarmless(es: seq<Entry>, s: int, w: bv32)
    requires !HasField(es, s) || forall i :: 0 <= i < |es| ==> es[i].reg != s
    ensures MixingHarmless(es, s, w)
  {
  }

  /** No combined word together with its own fields: the batched write is the list in order. */
  lemma UnmixedBatchIsInOrder(f: RegFile, es: seq<Entry>)
    requires CombinedApart(f)
    requires forall s :: IsCombined(s) ==> !HasField(es, s) || forall i :: 0 <= i < |es| ==> es[i].reg != s
    ensures SameWords(WriteBatch(f, es), WriteInOrder(f, es))
  {
    forall s | IsCombined(s)
      ensures MixingHarmless(es, s, f.Word(s))
    {
      UnmixedIsHarmless(es, s, f.Word(s));
    }
    BatchIsInOrderExactlyWhen(f, es);
  }

  /** Each value of a batched write reads back, cut to its register, unless a later entry overlaps it: for every
      list whose mixing is harmless. */
  lemma BatchThenRead(f: RegFile, es: seq<Entry>, i: nat)
    requires CombinedApart(f) && SinglesApart(f) && i < |es|
    requires forall s :: IsCombined(s) ==> MixingHarmless(es, s, f.Word(s))
    requires forall j :: i < j < |es| ==> !Overlap(f, es[i].reg, es[j].reg)
    ensures ReadOne(WriteBatch(f, es), es[i].reg) == CutData(es[i])
  {
    hide WriteBatch, WriteInOrder, MixingHarmless, Overlap, CombinedApart, SinglesApart, CutData, Part, Joined, Wide;
    BatchIsInOrderExactlyWhen(f, es);
    WriteThenRead(f, es, i);
  }

  /** CONTROL := 1 and then CFBP := 0, from all zeros: in order CFBP ends 0, batched it does not. */
  lemma MixedBatchDiffers()
    ensures var f, es := RegFile(map[], map[]), [Entry(CFBP * 0x100 + 3, 1), Entry(CFBP, 0)];
            && CombinedApart(f) && WriteInOrder(f, es).Word(CFBP) == 0
            && WriteBatch(f, es).Word(CFBP) == 0x0100_0000
  {
    var f, es := RegFile(map[], map[]), [Entry(CFBP * 0x100 + 3, 1), Entry(CFBP, 0)];
    assert es[..1] == [es[0]] && es[..1][..0] == [];
    assert FieldOf(es[0].reg, CFBP) && !FieldOf(CFBP, CFBP);
    BatchAt(f, es, CFBP);
    InOrderAt(f, es, CFBP);
    assert HasField(es, CFBP);
    assert FieldsOver(es[..1], CFBP, 0) == Inserted(CFBP * 0x100 + 3, 0, Low(1));
    assert FieldsOver(es, CFBP, 0) == FieldsOver(es[..1], CFBP, 0);
  }

  // ---- What a batched write leaves alone, whatever shares storage ----

  /** No entry of the list writes a bit of `mask` in the cell of `s`. */
  ghost predicate Spares(f: RegFile, es: seq<Entry>, s: int, mask: bv32) {
    forall i :: 0 <= i < |es| ==> EntrySpares(f, es[i].reg, s, mask)
  }

  ghost predicate EntrySpares(f: RegFile, r: int, s: int, mask: bv32) {
    forall t :: t in Selectors(r) && f.Cell(t) == f.Cell(s) ==> Disjoint(MaskOf(r), mask)
  }

  ghost predicate WritesKeep(f: RegFile, ws: seq<WordWrite>, s: int, mask: bv32) {
    forall k :: 0 <= k < |ws| && f.Cell(ws[k].selector) == f.Cell(s) ==> Agree(ws[k].value, f.Word(s), mask)
  }

  lemma {:induction false} WordsKept(f: RegFile, ws: seq<WordWrite>, s: int, mask: bv32)
    requires WritesKeep(f, ws, s, mask)
    ensures Agree(WriteWords(f, ws).Word(s), f.Word(s), mask)
    decreases |ws|
  {
    hide Masked;
    if ws != [] {
      WordsKept(f, ws[..|ws| - 1], s, mask);
      SameCells(f, WriteWords(f, ws[..|ws| - 1]));
    }
  }

  lemma PlainWritesKeep(f: RegFile, e: Entry, s: int, mask: bv32)
    requires EntrySpares(f, e.reg, s, mask)
    ensures WritesKeep(f, PlainWrites(e), s, mask)
  {
    hide Low, High, Masked, Disjoint, RegFile.Word, RegFile.Cell;
    var ws := PlainWrites(e);
    forall k | 0 <= k < |ws| && f.Cell(ws[k].selector) == f.Cell(s)
      ensures Agree(ws[k].value, f.Word(s), mask)
    {
      assert ws[k].selector in Selectors(e.reg);
      WholeWord(e.reg);
      AllTaken(ws[k].value, f.Word(s), mask);
    }
  }

  lemma AllTaken(a: bv32, b: bv32, mask: bv32)
    requires Disjoint(ALL_ONES, mask)
    ensures Agree(a, b, mask)
  {
    assert mask & 0xFFFF_FFFF == mask;
  }

  lemma BaseKeeps(f: RegFile, p: Pending, t: int, s: int, mask: bv32)
    requires WritesKeep(f, p.extra, s, mask) && WritesKeep(f, XpsrWrite(p.xpsr), s, mask)
    requires f.Cell(t) == f.Cell(s)
    ensures Agree(Base(f, p, t), f.Word(s), mask)
  {
    hide Masked;
    assert p.xpsr.Some? ==> XpsrWrite(p.xpsr)[0] == WordWrite(XPSR, p.xpsr.value);
  }

  lemma PutExtraKeeps(f: RegFile, ws: seq<WordWrite>, t: int, w: bv32, s: int, mask: bv32)
    requires WritesKeep(f, ws, s, mask)
    requires f.Cell(t) == f.Cell(s) ==> Agree(w, f.Word(s), mask)
    ensures WritesKeep(f, PutExtra(ws, t, w), s, mask)
  {
    hide Masked, RegFile.Word, RegFile.Cell;
  }

  lemma InsertedBaseKeeps(f: RegFile, p: Pending, e: Entry, s: int, mask: bv32)
    requires WritesKeep(f, p.extra, s, mask) && WritesKeep(f, XpsrWrite(p.xpsr), s, mask)
    requires EntrySpares(f, e.reg, s, mask) && IsField(e.reg) && f.Cell(Selector(e.reg)) == f.Cell(s)
    ensures Agree(Inserted(e.reg, Base(f, p, Selector(e.reg)), Low(e.data)), f.Word(s), mask)
  {
    hide Inserted, Low, Masked, Disjoint, Base;
    var t := Selector(e.reg);
    BaseKeeps(f, p, t, s, mask);
    assert t in Selectors(e.reg);
    InsertedKeeps(e.reg, Base(f, p, t), Low(e.data), mask);
  }

  lemma {:induction false} GatheredKeeps(f: RegFile, es: seq<Entry>, s: int, mask: bv32)
    requires Spares(f, es, s, mask)
    ensures var p := Collected(f, es);
            && WritesKeep(f, p.words, s, mask)
            && WritesKeep(f, p.extra, s, mask)
            && WritesKeep(f, XpsrWrite(p.xpsr), s, mask)
    decreases |es|
  {
    hide Inserted, Low, High, Masked, Agree, Base, PutExtra, PlainWrites, EntrySpares, RegFile.Word, RegFile.Cell;
    if es != [] {
      var n := |es| - 1;
      GatheredKeeps(f, es[..n], s, mask);
      var p, e := Collected(f, es[..n]), es[n];
      assert EntrySpares(f, e.reg, s, mask);
      PlainWritesKeep(f, e, s, mask);
      if IsField(e.reg) {
        var t := Selector(e.reg);
        if f.Cell(t) == f.Cell(s) {
          InsertedBaseKeeps(f, p, e, s, mask);
        }
        PutExtraKeeps(f, p.extra, t, Inserted(e.reg, Base(f, p, t), Low(e.data)), s, mask);
      }
    }
  }

  lemma BatchKeepsWord(f: RegFile, es: seq<Entry>, s: int, mask: bv32)
    requires Spares(f, es, s, mask)
    ensures Agree(WriteBatch(f, es).Word(s), f.Word(s), mask)
  {
    hide Agree, WriteWords, Collected;
    GatheredKeeps(f, es, s, mask);
    WordsKept(f, All(Collected(f, es)), s, mask);
  }

  /** A batched write leaves every register alone that no entry overlaps, whichever selectors share storage. */
  lemma BatchKeeps(f: RegFile, es: seq<Entry>, q: int)
    requires forall i :: 0 <= i < |es| ==> !Overlap(f, q, es[i].reg)
    ensures ReadOne(WriteBatch(f, es), q) == ReadOne(f, q)
  {
    hide Joined, Wide, Part, MaskOf, Disjoint, WriteBatch, Agree;
    forall s | s in Selectors(q)
      ensures Agree(WriteBatch(f, es).Word(s), f.Word(s), MaskOf(q))
    {
      assert Spares(f, es, s, MaskOf(q));
      BatchKeepsWord(f, es, s, MaskOf(q));
    }
    SameReads(WriteBatch(f, es), f, q);
  }

  lemma SameReads(g: RegFile, f: RegFile, q: int)
    requires forall s :: s in Selectors(q) ==> Agree(g.Word(s), f.Word(s), MaskOf(q))
    ensures ReadOne(g, q) == ReadOne(f, q)
  {
    hide Joined, Wide, Part, MaskOf, Agree;
    if IsDouble(q) {
      assert -q in Selectors(q) && -q + 1 in Selectors(q);
      WholeWord(q);
      WholeIsItsBits(g.Word(-q), f.Word(-q));
      WholeIsItsBits(g.Word(-q + 1), f.Word(-q + 1));
    } else {
      assert Selector(q) in Selectors(q);
      PartIsItsBits(q, g.Word(Selector(q)), f.Word(Selector(q)));
    }
  }
}

/** How core register numbers select a 32-bit word of the debug register file and the bits of it they mean. */
module CoreRegisters {
  import opened BitFields

  const APSR_MASK: bv32 := 0xF80F_0000
  const EPSR_MASK: bv32 := 0x0700_FC00
  const IPSR_MASK: bv32 := 0x0000_01FF
  const ALL_ONES: bv32 := 0xFFFF_FFFF

  const XPSR := 16
  const CFBP := 20
  const CFBP_S := 34
  const CFBP_NS := 35

  // ---- The numbering ----

  /** d0 to d15 have the negated number of their low single-precision half. */
  predicate IsDouble(r: int) {
    -0x5E <= r <= -0x40 && r % 2 == 0
  }

  predicate IsSingle(r: int) {
    0x40 <= r <= 0x5F
  }

  predicate IsCfbpWord(r: int) {
    r == CFBP || r == CFBP_S || r == CFBP_NS
  }

  predicate IsCfbpField(r: int) {
    r > 0 && IsCfbpWord(r / 0x100)
  }

  predicate IsPsrView(r: int) {
    0x1_0000 <= r <= 0x1_0007
  }

  predicate IsStackPointer(r: int) {
    r == 13 || r == 17 || r == 18 || 24 <= r <= 27
  }

  /** The registers of the table. */
  predicate Known(r: int) {
    || 0 <= r <= 18 || r == CFBP || 24 <= r <= 31 || 33 <= r <= 36
    || IsSingle(r) || IsDouble(r)
    || (IsCfbpField(r) && r % 0x100 < 4)
    || (IsPsrView(r) && r != 0x1_0003 && r != 0x1_0004)
  }

  /** The DCRSR selector of the word a register lives in; a double lives in two words. */
  function Selector(r: int): int {
    if IsCfbpField(r) then r / 0x100 else if IsPsrView(r) then XPSR else r
  }

  /** A register that is some bits of a word other registers share. */
  predicate IsField(r: int) {
    IsCfbpField(r) || IsPsrView(r)
  }

  predicate IsCombined(s: int) {
    s == XPSR || IsCfbpWord(s)
  }

  /** The bits of xPSR a view shows, from the low three bits of its number. */
  function PsrMask(r: int): bv32 {
    (if r % 2 != 0 then IPSR_MASK else 0)
    | (if r / 2 % 2 != 0 then EPSR_MASK else 0)
    | (if r / 4 % 2 == 0 then APSR_MASK else 0)
  }

  /** Byte `lane` of CONTROL, FAULTMASK, BASEPRI, PRIMASK as one word. */
  function FieldMask(lane: int): bv32 {
    if lane == 0 then 0xFF else if lane == 1 then 0xFF00 else if lane == 2 then 0xFF_0000 else 0xFF00_0000
  }

  function MaskOf(r: int): bv32 {
    if IsCfbpField(r) then FieldMask(r % 4) else if IsPsrView(r) then PsrMask(r) else ALL_ONES
  }

  // ---- Reading and replacing part of a word ----

  function FieldAt(lane: int, w: bv32): bv32 {
    if lane == 0 then w & 0xFF
    else if lane == 1 then (w >> 8) & 0xFF
    else if lane == 2 then (w >> 16) & 0xFF
    else (w >> 24) & 0xFF
  }

  function FieldPlaced(lane: int, d: bv32): bv32 {
    if lane == 0 then d & 0xFF
    else if lane == 1 then (d & 0xFF) << 8
    else if lane == 2 then (d & 0xFF) << 16
    else (d & 0xFF) << 24
  }

  /** What register `r` reads as, when its word is `w`. */
  function Part(r: int, w: bv32): bv32 {
    if IsCfbpField(r) then FieldAt(r % 4, w) else if IsPsrView(r) then Masked(w, PsrMask(r)) else w
  }

  function Placed(r: int, d: bv32): bv32 {
    if IsCfbpField(r) then FieldPlaced(r % 4, d) else if IsPsrView(r) then Masked(d, PsrMask(r)) else d
  }

  /** The word `w` with the bits of register `r` replaced by `d`. */
  function Inserted(r: int, w: bv32, d: bv32): bv32 {
    Replaced(w, MaskOf(r), Placed(r, d))
  }

  /** A value cut to the width of register `r`. */
  function Cut(r: int, d: bv32): bv32 {
    if IsCfbpField(r) then Masked(d, 0xFF) else if IsPsrView(r) then Masked(d, PsrMask(r)) else d
  }

  /** `a` and `b` have the same bits under `mask`. */
  predicate Agree(a: bv32, b: bv32, mask: bv32) {
    Masked(a, mask) == Masked(b, mask)
  }

  function Either(m: bv32, n: bv32): bv32 {
    m | n
  }

  predicate Disjoint(m: bv32, n: bv32) {
    m & n == 0
  }

  lemma PlacedInside(r: int, d: bv32)
    ensures Without(Placed(r, d), MaskOf(r)) == 0
  {
    hide FieldPlaced, FieldMask, Masked, Without, PsrMask;
    if IsCfbpField(r) {
      FieldInside(r % 4, d);
    } else if IsPsrView(r) {
      MaskedInside(d, PsrMask(r));
    } else {
      NothingOutside(d);
    }
  }

  lemma MaskedInside(d: bv32, mask: bv32)
    ensures Without(Masked(d, mask), mask) == 0
  {
  }

  lemma FieldInside(lane: int, d: bv32)
    requires 0 <= lane < 4
    ensures Without(FieldPlaced(lane, d), FieldMask(lane)) == 0
  {
    hide FieldPlaced, FieldMask, Without;
    if lane == 0 { Byte0Inside(d); } else if lane == 1 { Byte1Inside(d); }
    else if lane == 2 { Byte2Inside(d); } else { Byte3Inside(d); }
  }

  lemma Byte0Inside(d: bv32)
    ensures Without(FieldPlaced(0, d), FieldMask(0)) == 0
  {
  }

  lemma Byte1Inside(d: bv32)
    ensures Without(FieldPlaced(1, d), FieldMask(1)) == 0
  {
  }

  lemma Byte2Inside(d: bv32)
    ensures Without(FieldPlaced(2, d), FieldMask(2)) == 0
  {
  }

  lemma Byte3Inside(d: bv32)
    ensures Without(FieldPlaced(3, d), FieldMask(3)) == 0
  {
  }

  lemma NothingOutside(d: bv32)
    ensures Without(d, ALL_ONES) == 0
  {
  }

  /** A register reads as what was put into it, cut to its width. */
  lemma PartOfInserted(r: int, w: bv32, d: bv32)
    ensures Part(r, Inserted(r, w, d)) == Cut(r, d)
  {
    hide FieldAt, FieldPlaced, FieldMask, Masked, Replaced, PsrMask;
    if IsCfbpField(r) {
      FieldOfReplaced(r % 4, w, d);
    } else if IsPsrView(r) {
      ViewOfReplaced(PsrMask(r), w, d);
    } else {
      WholeReplaced(w, d);
    }
  }

  lemma FieldOfReplaced(lane: int, w: bv32, d: bv32)
    requires 0 <= lane < 4
    ensures FieldAt(lane, Replaced(w, FieldMask(lane), FieldPlaced(lane, d))) == Masked(d, 0xFF)
  {
    hide FieldAt, FieldPlaced, FieldMask, Masked, Replaced;
    if lane == 0 { Byte0OfReplaced(w, d); } else if lane == 1 { Byte1OfReplaced(w, d); }
    else if lane == 2 { Byte2OfReplaced(w, d); } else { Byte3OfReplaced(w, d); }
  }

  lemma Byte0OfReplaced(w: bv32, d: bv32)
    ensures FieldAt(0, Replaced(w, FieldMask(0), FieldPlaced(0, d))) == Masked(d, 0xFF)
  {
  }

  lemma Byte1OfReplaced(w: bv32, d: bv32)
    ensures FieldAt(1, Replaced(w, FieldMask(1), FieldPlaced(1, d))) == Masked(d, 0xFF)
  {
  }

  lemma Byte2OfReplaced(w: bv32, d: bv32)
    ensures FieldAt(2, Replaced(w, FieldMask(2), FieldPlaced(2, d))) == Masked(d, 0xFF)
  {
  }

  lemma Byte3OfReplaced(w: bv32, d: bv32)
    ensures FieldAt(3, Replaced(w, FieldMask(3), FieldPlaced(3, d))) == Masked(d, 0xFF)
  {
  }

  lemma ViewOfReplaced(mask: bv32, w: bv32, d: bv32)
    ensures Masked(Replaced(w, mask, Masked(d, mask)), mask) == Masked(d, mask)
  {
  }

  lemma WholeReplaced(w: bv32, d: bv32)
    ensures Replaced(w, ALL_ONES, d) == d
  {
  }

  /** A register's value depends on the bits of its mask, and on nothing else. */
  lemma PartIsItsBits(r: int, a: bv32, b: bv32)
    ensures Part(r, a) == Part(r, b) <==> Agree(a, b, MaskOf(r))
  {
    hide FieldAt, FieldMask, Masked, PsrMask;
    if IsCfbpField(r) {
      FieldIsItsBits(r % 4, a, b);
    } else if IsPsrView(r) {
      assert Agree(a, b, PsrMask(r)) <==> Masked(a, PsrMask(r)) == Masked(b, PsrMask(r));
    } else {
      WholeIsItsBits(a, b);
    }
  }

  lemma FieldIsItsBits(lane: int, a: bv32, b: bv32)
    requires 0 <= lane < 4
    ensures FieldAt(lane, a) == FieldAt(lane, b) <==> Agree(a, b, FieldMask(lane))
  {
    hide FieldAt, FieldMask, Agree;
    if lane == 0 { Byte0IsItsBits(a, b); } else if lane == 1 { Byte1IsItsBits(a, b); }
    else if lane == 2 { Byte2IsItsBits(a, b); } else { Byte3IsItsBits(a, b); }
  }

  lemma Byte0IsItsBits(a: bv32, b: bv32)
    ensures FieldAt(0, a) == FieldAt(0, b) <==> Agree(a, b, FieldMask(0))
  {
  }

  lemma Byte1IsItsBits(a: bv32, b: bv32)
    ensures FieldAt(1, a) == FieldAt(1, b) <==> Agree(a, b, FieldMask(1))
  {
  }

  lemma Byte2IsItsBits(a: bv32, b: bv32)
    ensures FieldAt(2, a) == FieldAt(2, b) <==> Agree(a, b, FieldMask(2))
  {
  }

  lemma Byte3IsItsBits(a: bv32, b: bv32)
    ensures FieldAt(3, a) == FieldAt(3, b) <==> Agree(a, b, FieldMask(3))
  {
  }

  lemma WholeIsItsBits(a: bv32, b: bv32)
    ensures a == b <==> Agree(a, b, ALL_ONES)
  {
  }

  /** Putting the same value into two words leaves them different exactly outside the register's bits. */
  lemma InsertedAgree(r: int, a: bv32, b: bv32, d: bv32, mask: bv32)
    ensures Agree(Inserted(r, a, d), Inserted(r, b, d), mask) <==> Agree(a, b, Without(mask, MaskOf(r)))
  {
    hide Replaced, Placed, MaskOf, Agree, Without;
    PlacedInside(r, d);
    ReplacedAgree(a, b, MaskOf(r), Placed(r, d), mask);
  }

  lemma ReplacedAgree(a: bv32, b: bv32, m: bv32, bits: bv32, mask: bv32)
    requires Without(bits, m) == 0
    ensures Agree(Replaced(a, m, bits), Replaced(b, m, bits), mask) <==> Agree(a, b, Without(mask, m))
  {
    hide Masked, Without, Replaced, Either, Disjoint;
    MaskedReplaced(a, m, bits, mask);
    MaskedReplaced(b, m, bits, mask);
    EitherCancels(Masked(a, Without(mask, m)), Masked(b, Without(mask, m)), Masked(bits, mask));
  }

  lemma MaskedReplaced(w: bv32, m: bv32, bits: bv32, mask: bv32)
    requires Without(bits, m) == 0
    ensures Masked(Replaced(w, m, bits), mask) == Either(Masked(w, Without(mask, m)), Masked(bits, mask))
    ensures Disjoint(Masked(w, Without(mask, m)), Masked(bits, mask))
  {
    assert ((w & !m) | bits) & mask == (w & (mask & !m)) | (bits & mask);
  }

  lemma EitherCancels(x: bv32, y: bv32, c: bv32)
    requires Disjoint(x, c) && Disjoint(y, c)
    ensures Either(x, c) == Either(y, c) <==> x == y
  {
  }

  lemma InsertedKeeps(r: int, w: bv32, d: bv32, mask: bv32)
    requires Disjoint(MaskOf(r), mask)
    ensures Agree(Inserted(r, w, d), w, mask)
  {
    hide Replaced, Placed, MaskOf, Agree, Without, Disjoint;
    PlacedInside(r, d);
    ReplacedKeeps(w, MaskOf(r), Placed(r, d), mask);
  }

  lemma ReplacedKeeps(w: bv32, m: bv32, bits: bv32, mask: bv32)
    requires Without(bits, m) == 0 && Disjoint(m, mask)
    ensures Agree(Replaced(w, m, bits), w, mask)
  {
  }

  lemma OutsideTwice(mask: bv32, m: bv32, n: bv32)
    ensures Without(Without(mask, m), n) == Without(mask, Either(m, n))
  {
    MaskedTwice(mask, m, n);
  }

  lemma MaskedTwice(mask: bv32, m: bv32, n: bv32)
    ensures (mask & !m) & !n == mask & !(m | n)
  {
  }

  lemma EitherSwaps(m: bv32, n: bv32)
    ensures Either(m, n) == Either(n, m)
  {
  }

  lemma OutsideNothing(mask: bv32)
    ensures Without(mask, 0) == mask
  {
  }

  /** Two registers with the same word, unless one is the whole word, are disjoint fields or PSR views. */
  lemma FieldsOfOneWord(q: int, r: int)
    requires IsCfbpField(q) && IsCfbpField(r) && q % 4 != r % 4
    ensures Disjoint(MaskOf(q), MaskOf(r))
  {
  }

  /** The six views are the unions of APSR, EPSR and IPSR their names say, and those three are disjoint. */
  lemma PsrViews()
    ensures Disjoint(PsrMask(0x1_0000), PsrMask(0x1_0005)) && Disjoint(PsrMask(0x1_0005), PsrMask(0x1_0006))
            && Disjoint(PsrMask(0x1_0000), PsrMask(0x1_0006))
    ensures PsrMask(0x1_0001) == Either(PsrMask(0x1_0000), PsrMask(0x1_0005))
    ensures PsrMask(0x1_0002) == Either(PsrMask(0x1_0000), PsrMask(0x1_0006))
    ensures PsrMask(0x1_0007) == Either(PsrMask(0x1_0005), PsrMask(0x1_0006))
  {
  }

  // ---- Where the registers are in their words ----

  /** APSR has the flags N, Z, C, V and Q in bits 31 to 27 of xPSR, and GE in 19 to 16. */
  lemma ApsrBits(w: bv32)
    ensures Part(0x1_0000, w) == ((w >> 27) << 27) | (((w >> 16) & 0xF) << 16)
  {
    ViewPart(0x1_0000, w);
    ViewMasks();
    hide *;
    ApsrMasked(w);
  }

  /** IPSR has the exception number in bits 8 to 0. */
  lemma IpsrBits(w: bv32)
    ensures Part(0x1_0005, w) == w & 0x1FF
  {
    ViewPart(0x1_0005, w);
    ViewMasks();
  }

  /** EPSR has T and ICI/IT in bits 26 to 24, and 15 to 10. */
  lemma EpsrBits(w: bv32)
    ensures Part(0x1_0006, w) == (((w >> 24) & 0x7) << 24) | (((w >> 10) & 0x3F) << 10)
  {
    ViewPart(0x1_0006, w);
    ViewMasks();
    hide *;
    EpsrMasked(w);
  }

  /** IAPSR, EAPSR and IEPSR are joined from those three. */
  lemma JoinedViews(w: bv32)
    ensures Part(0x1_0001, w) == Either(Part(0x1_0000, w), Part(0x1_0005, w))
    ensures Part(0x1_0002, w) == Either(Part(0x1_0000, w), Part(0x1_0006, w))
    ensures Part(0x1_0007, w) == Either(Part(0x1_0005, w), Part(0x1_0006, w))
  {
    hide *;
    PsrViews();
    IsView();
    ViewPart(0x1_0000, w);
    ViewPart(0x1_0001, w);
    ViewPart(0x1_0002, w);
    ViewPart(0x1_0005, w);
    ViewPart(0x1_0006, w);
    ViewPart(0x1_0007, w);
    MaskedUnion(w, PsrMask(0x1_0000), PsrMask(0x1_0005));
    MaskedUnion(w, PsrMask(0x1_0000), PsrMask(0x1_0006));
    MaskedUnion(w, PsrMask(0x1_0005), PsrMask(0x1_0006));
  }

  lemma IsView()
    ensures forall r :: 0x1_0000 <= r <= 0x1_0007 ==> IsPsrView(r)
  {
  }

  lemma ApsrMasked(w: bv32)
    ensures Masked(w, 0xF80F_0000) == ((w >> 27) << 27) | (((w >> 16) & 0xF) << 16)
  {
  }

  lemma EpsrMasked(w: bv32)
    ensures Masked(w, 0x0700_FC00) == (((w >> 24) & 0x7) << 24) | (((w >> 10) & 0x3F) << 10)
  {
  }

  lemma ViewMasks()
    ensures PsrMask(0x1_0000) == 0xF80F_0000 && PsrMask(0x1_0005) == 0x1FF && PsrMask(0x1_0006) == 0x0700_FC00
  {
  }

  lemma ViewPart(r: int, w: bv32)
    requires IsPsrView(r)
    ensures Part(r, w) == Masked(w, PsrMask(r))
  {
    hide PsrMask, FieldAt, Masked;
  }

  lemma MaskedUnion(w: bv32, m: bv32, n: bv32)
    ensures Masked(w, Either(m, n)) == Either(Masked(w, m), Masked(w, n))
  {
  }

  /** A CFBP word is PRIMASK, BASEPRI, FAULTMASK and CONTROL, joined from the low byte up; their numbers are the word's
      with 00 to 03 appended. */
  lemma CfbpBytes(s: int, w: bv32)
    requires s in {20, 34, 35}
    ensures var p := 0x100 * s;
            && w == Part(p, w) | (Part(p + 1, w) << 8) | (Part(p + 2, w) << 16) | (Part(p + 3, w) << 24)
            && Part(p, w) < 0x100 && Part(p + 1, w) < 0x100 && Part(p + 2, w) < 0x100 && Part(p + 3, w) < 0x100
  {
    assert forall lane :: 0 <= lane < 4 ==> Part(0x100 * s + lane, w) == FieldAt(lane, w);
    FourBytesJoin(w);
    hide Part, FieldAt;
  }

  lemma FourBytesJoin(w: bv32)
    ensures w == FieldAt(0, w) | (FieldAt(1, w) << 8) | (FieldAt(2, w) << 16) | (FieldAt(3, w) << 24)
    ensures FieldAt(0, w) < 0x100 && FieldAt(1, w) < 0x100 && FieldAt(2, w) < 0x100 && FieldAt(3, w) < 0x100
  {
  }

  /** The registers there are, and the word each is selected by. */
  lemma RegisterTable(r: int)
    ensures Known(r) <==>
            || r in {0, 1, 2, 3, 4, 5, 6, 7, 8, 9, 10, 11, 12, 13, 14, 15}              // r0 to r12, sp, lr, pc
            || r in {16, 17, 18, 24, 25, 26, 27}                                        // xpsr and the stack pointers
            || r in {28, 29, 30, 31, 33, 36}                                            // stack limits, fpscr, vpr
            || r in {20, 0x1400, 0x1401, 0x1402, 0x1403}                                // cfbp and its fields
            || r in {34, 0x2200, 0x2201, 0x2202, 0x2203}                                // cfbp_s
            || r in {35, 0x2300, 0x2301, 0x2302, 0x2303}                                // cfbp_ns
            || r in {0x1_0000, 0x1_0001, 0x1_0002, 0x1_0005, 0x1_0006, 0x1_0007}        // views of xpsr
            || 0x40 <= r < 0x40 + 32                                                    // s0 to s31
            || (exists d :: 0 <= d < 16 && r == -(0x40 + 2 * d))                        // d0 to d15
    ensures Known(r) && !IsDouble(r) ==>
              Selector(r) == if r >= 0x1_0000 then 16 else if r >= 0x100 then r / 0x100 else r
  {
    if IsDouble(r) {
      var d := (-r - 0x40) / 2;
      assert r == -(0x40 + 2 * d);
    }
  }

  // ---- Doubles ----

  function Low(d: bv64): bv32 {
    (d & 0xFFFF_FFFF) as bv32
  }

  function High(d: bv64): bv32 {
    ((d >> 32) & 0xFFFF_FFFF) as bv32
  }

  function Wide(w: bv32): bv64 {
    w as bv64
  }

  function Joined(low: bv32, high: bv32): bv64 {
    (Wide(high) << 32) | Wide(low)
  }

  lemma LowOfWide(w: bv32)
    ensures Low(Wide(w)) == w && High(Wide(w)) == 0
  {
  }

  lemma SplitJoined(low: bv32, high: bv32)
    ensures Low(Joined(low, high)) == low && High(Joined(low, high)) == high
  {
  }

  lemma JoinedSplit(d: bv64)
    ensures Joined(Low(d), High(d)) == d
  {
  }
}

/** The memory attribute fields of a MEM-AP's CSW: encoding, decoding, and changing them for a while. */
module CswFields {
  import opened BitFields
  import opened Bytes

  /** A plain or AXI MEM-AP, an APB-AP, and AHB-APs with four or with six HPROT bits. */
  datatype Kind = Plain | Apb | Ahb | AhbExt

  const HNONSEC_MASK: bv32 := 0x4000_0000

  /** The HPROT bits that exist in CSW. */
  function HprotBits(k: Kind): bv32 {
    match k
    case Plain => 0x7F00_0000
    case Apb => 0x7F00_0000
    case Ahb => 0x0F00_0000
    case AhbExt => 0x1F00_8000
  }

  /** The HPROT values they can hold: bit 5 does not exist in the extended form, bit 6 is CSW bit 15. */
  function HprotValues(k: Kind): bv32 {
    match k
    case Plain => 0x7F
    case Apb => 0x7F
    case Ahb => 0x0F
    case AhbExt => 0x5F
  }

  /** The values the driver lets through. */
  function HprotMask(k: Kind): bv32 {
    if k.Apb? then 0 else HprotValues(k)
  }

  function HnonsecMask(k: Kind): bv32 {
    if k.Ahb? || k.AhbExt? then 1 else 0
  }

  /** An HPROT value at its place in CSW. */
  function Spread(k: Kind, value: bv32): bv32 {
    if k.AhbExt? then ((value << 24) & 0x1F00_0000) | ((value << 9) & 0x8000) else value << 24
  }

  function Gathered(k: Kind, bits: bv32): bv32 {
    if k.AhbExt? then ((bits & 0x1F00_0000) >> 24) | ((bits & 0x8000) >> 9) else bits >> 24
  }

  function EncodeHprot(k: Kind, csw: bv32, value: bv32): bv32 {
    Spliced(csw, HprotBits(k), Spread(k, value))
  }

  function DecodeHprot(k: Kind, csw: bv32): bv32 {
    Gathered(k, Masked(csw, HprotBits(k)))
  }

  /** HNONSEC exists in AHB-APs only. */
  function EncodeHnonsec(k: Kind, csw: bv32, value: bv32): bv32 {
    if k.Ahb? || k.AhbExt? then Spliced(csw, HNONSEC_MASK, value << 30) else csw
  }

  function DecodeHnonsec(k: Kind, csw: bv32): bv32 {
    if k.Ahb? || k.AhbExt? then Masked(csw, HNONSEC_MASK) >> 30 else 0
  }

  /** `bits` cut to the mask, in place of what `w` has there. */
  function Spliced(w: bv32, mask: bv32, bits: bv32): bv32 {
    Replaced(w, mask, Masked(bits, mask))
  }

  lemma SplicedIs(w: bv32, mask: bv32, bits: bv32)
    ensures Masked(Spliced(w, mask, bits), mask) == Masked(bits, mask)
    ensures Without(Spliced(w, mask, bits), mask) == Without(w, mask)
  {
    hide Spliced, Masked, Without;
    SplicedInside(w, mask, bits);
    SplicedOutside(w, mask, bits);
  }

  lemma SplicedInside(w: bv32, mask: bv32, bits: bv32)
    ensures Masked(Spliced(w, mask, bits), mask) == Masked(bits, mask)
  {
  }

  lemma SplicedOutside(w: bv32, mask: bv32, bits: bv32)
    ensures Without(Spliced(w, mask, bits), mask) == Without(w, mask)
  {
  }

  lemma SplicedSame(w: bv32, mask: bv32, bits: bv32)
    requires Masked(bits, mask) == Masked(w, mask)
    ensures Spliced(w, mask, bits) == w
  {
  }

  // ---- Round trips ----

  /** What is encoded decodes to its existing bits; the rest of CSW stays; and encoding what is there changes
      nothing. */
  lemma HprotRoundTrip(k: Kind, csw: bv32, value: bv32)
    ensures DecodeHprot(k, EncodeHprot(k, csw, value)) == Masked(value, HprotValues(k))
    ensures Without(EncodeHprot(k, csw, value), HprotBits(k)) == Without(csw, HprotBits(k))
    ensures EncodeHprot(k, csw, DecodeHprot(k, csw)) == csw
  {
    hide Masked, Without, Spliced, Spread, Gathered, HprotBits, HprotValues;
    SplicedIs(csw, HprotBits(k), Spread(k, value));
    GatherSpread(k, value);
    SpreadGathered(k, csw);
    SplicedSame(csw, HprotBits(k), Spread(k, DecodeHprot(k, csw)));
  }

  lemma GatherSpread(k: Kind, value: bv32)
    ensures Gathered(k, Masked(Spread(k, value), HprotBits(k))) == Masked(value, HprotValues(k))
  {
  }

  lemma SpreadGathered(k: Kind, csw: bv32)
    ensures Masked(Spread(k, Gathered(k, Masked(csw, HprotBits(k)))), HprotBits(k)) == Masked(csw, HprotBits(k))
  {
  }

  lemma HnonsecRoundTrip(k: Kind, csw: bv32, value: bv32)
    ensures DecodeHnonsec(k, EncodeHnonsec(k, csw, value)) == Masked(value, HnonsecMask(k))
    ensures Without(EncodeHnonsec(k, csw, value), HNONSEC_MASK) == Without(csw, HNONSEC_MASK)
    ensures EncodeHnonsec(k, csw, DecodeHnonsec(k, csw)) == csw
  {
    hide Masked, Without, Spliced;
    if k.Ahb? || k.AhbExt? {
      SplicedIs(csw, HNONSEC_MASK, value << 30);
      OneBit(value, csw);
      SplicedSame(csw, HNONSEC_MASK, DecodeHnonsec(k, csw) << 30);
    } else {
      NoBits(value);
    }
  }

  lemma OneBit(value: bv32, csw: bv32)
    ensures Masked(value << 30, HNONSEC_MASK) >> 30 == Masked(value, 1)
    ensures Masked((Masked(csw, HNONSEC_MASK) >> 30) << 30, HNONSEC_MASK) == Masked(csw, HNONSEC_MASK)
  {
  }

  lemma NoBits(value: bv32)
    ensures Masked(value, 0) == 0
  {
  }

  /** Where the attributes are: HPROT from CSW bit 24 up, with bit 6 of the extended form at bit 15, and HNONSEC at
      bit 30. */
  lemma PlacesInCsw(k: Kind, csw: bv32, value: bv32)
    ensures k.Plain? || k.Apb? ==> (EncodeHprot(k, csw, value) >> 24) & 0x7F == value & 0x7F
    ensures k.Ahb? ==> (EncodeHprot(k, csw, value) >> 24) & 0xF == value & 0xF
    ensures k.AhbExt? ==> (EncodeHprot(k, csw, value) >> 24) & 0x1F == value & 0x1F
    ensures k.AhbExt? ==> (EncodeHprot(k, csw, value) >> 15) & 1 == (value >> 6) & 1
    ensures k.Ahb? || k.AhbExt? ==> (EncodeHnonsec(k, csw, value) >> 30) & 1 == value & 1
    ensures k.Plain? || k.Apb? ==> EncodeHnonsec(k, csw, value) == csw
  {
  }

  /** Which attributes a driver sets at all: an APB-AP none, and HNONSEC an AHB-AP only. */
  lemma SettableAttributes(k: Kind, value: bv32)
    ensures Masked(value, HprotMask(k)) ==
            match k
            case Plain => value & 0x7F
            case Apb => 0
            case Ahb => value & 0xF
            case AhbExt => value & 0x5F
    ensures Masked(value, HnonsecMask(k)) == if k.Ahb? || k.AhbExt? then value & 1 else 0
  {
  }

  /** Neither field disturbs the other, in any kind. */
  lemma FieldsApart(k: Kind, csw: bv32, value: bv32)
    ensures DecodeHprot(k, EncodeHnonsec(k, csw, value)) == DecodeHprot(k, csw)
    ensures DecodeHnonsec(k, EncodeHprot(k, csw, value)) == DecodeHnonsec(k, csw)
  {
  }

  /** Neither field touches the transfer size and increment fields the transfers rely on. */
  lemma FieldsKeepTransfers(k: Kind, csw: bv32, value: bv32)
    ensures Masked(EncodeHprot(k, csw, value), 0xFF) == Masked(csw, 0xFF)
    ensures Masked(EncodeHnonsec(k, csw, value), 0xFF) == Masked(csw, 0xFF)
  {
  }

  /** CSW is its HPROT field, its HNONSEC field and the rest. */
  function Rest(k: Kind, csw: bv32): bv32 {
    Without(Without(csw, HprotBits(k)), HNONSEC_MASK)
  }

  lemma FieldsAndRest(k: Kind, a: bv32, b: bv32)
    requires Rest(k, a) == Rest(k, b)
    requires DecodeHprot(k, a) == DecodeHprot(k, b) && DecodeHnonsec(k, a) == DecodeHnonsec(k, b)
    ensures a == b
  {
    match k
    case Plain => PlainFieldsAndRest(k, a, b);
    case Apb => PlainFieldsAndRest(k, a, b);
    case Ahb => AhbFieldsAndRest(a, b);
    case AhbExt => AhbExtFieldsAndRest(a, b);
  }

  lemma PlainFieldsAndRest(k: Kind, a: bv32, b: bv32)
    requires (k.Plain? || k.Apb?) && Rest(k, a) == Rest(k, b) && DecodeHprot(k, a) == DecodeHprot(k, b)
    ensures a == b
  {
  }

  lemma AhbFieldsAndRest(a: bv32, b: bv32)
    requires Rest(Ahb, a) == Rest(Ahb, b)
    requires DecodeHprot(Ahb, a) == DecodeHprot(Ahb, b) && DecodeHnonsec(Ahb, a) == DecodeHnonsec(Ahb, b)
    ensures a == b
  {
  }

  lemma AhbExtFieldsAndRest(a: bv32, b: bv32)
    requires Rest(AhbExt, a) == Rest(AhbExt, b)
    requires DecodeHprot(AhbExt, a) == DecodeHprot(AhbExt, b) && DecodeHnonsec(AhbExt, a) == DecodeHnonsec(AhbExt, b)
    ensures a == b
  {
  }

  lemma RestKept(k: Kind, a: bv32, b: bv32)
    ensures Without(a, HprotBits(k)) == Without(b, HprotBits(k)) ==> Rest(k, a) == Rest(k, b)
    ensures Without(a, HNONSEC_MASK) == Without(b, HNONSEC_MASK) ==> Rest(k, a) == Rest(k, b)
  {
    hide Without, HprotBits;
    WithoutSwaps(a, HprotBits(k), HNONSEC_MASK);
    WithoutSwaps(b, HprotBits(k), HNONSEC_MASK);
  }

  lemma WithoutSwaps(w: bv32, m: bv32, n: bv32)
    ensures Without(Without(w, m), n) == Without(Without(w, n), m)
  {
  }

  lemma NothingMasked(mask: bv32)
    ensures Masked(0, mask) == 0
  {
  }

  /** A value cut to the mask stays, and fits the field. */
  lemma MaskedTwice(value: bv32, mask: bv32)
    ensures Masked(Masked(value, mask), mask) == Masked(value, mask)
  {
  }

  lemma MaskFits(k: Kind, value: bv32)
    ensures Masked(Masked(value, HprotMask(k)), HprotValues(k)) == Masked(value, HprotMask(k))
  {
  }

  // ---- Changing the fields ----

  /** The attributes the driver keeps, and the base CSW value its transfers use. */
  class MemAttributes {
    const kind: Kind
    var csw: bv32
    var hprot: bv32
    var hnonsec: bv32

    constructor (kind: Kind, csw: bv32)
      ensures this.kind == kind && Valid() && hprot == 0 && hnonsec == 0
    {
      this.kind := kind;
      hprot, hnonsec := 0, 0;
      this.csw := EncodeHnonsec(kind, EncodeHprot(kind, csw, 0), 0);
      new;
      HprotRoundTrip(kind, csw, 0);
      HnonsecRoundTrip(kind, EncodeHprot(kind, csw, 0), 0);
      FieldsApart(kind, EncodeHprot(kind, csw, 0), 0);
      NothingMasked(HprotValues(kind));
      NothingMasked(HprotMask(kind));
      NothingMasked(HnonsecMask(kind));
    }

    /** CSW says what the attributes say. */
    ghost predicate Valid()
      reads this
    {
      && DecodeHprot(kind, csw) == hprot == Masked(hprot, HprotMask(kind))
      && DecodeHnonsec(kind, csw) == hnonsec == Masked(hnonsec, HnonsecMask(kind))
    }

    method SetHprot(value: bv32)
      requires Valid()
      modifies this`csw, this`hprot
      ensures Valid() && hprot == Masked(value, HprotMask(kind))
      ensures Without(csw, HprotBits(kind)) == Without(old(csw), HprotBits(kind))
    {
      hprot := Masked(value, HprotMask(kind));
      MaskedTwice(value, HprotMask(kind));
      HprotRoundTrip(kind, csw, hprot);
      MaskFits(kind, value);
      FieldsApart(kind, csw, hprot);
      hide *;
      csw := EncodeHprot(kind, csw, hprot);
    }

    method SetHnonsec(value: bv32)
      requires Valid()
      modifies this`csw, this`hnonsec
      ensures Valid() && hnonsec == Masked(value, HnonsecMask(kind))
      ensures Without(csw, HNONSEC_MASK) == Without(old(csw), HNONSEC_MASK)
    {
      hnonsec := Masked(value, HnonsecMask(kind));
      MaskedTwice(value, HnonsecMask(kind));
      HnonsecRoundTrip(kind, csw, hnonsec);
      FieldsApart(kind, csw, hnonsec);
      hide *;
      csw := EncodeHnonsec(kind, csw, hnonsec);
    }

    /** Entering a context that sets attributes for a while: what was there is kept, where it is changed. */
    method Enter(newHprot: Option<bv32>, newHnonsec: Option<bv32>) returns (saved: Saved)
      requires Valid()
      modifies this
      ensures Valid() && Rest(kind, csw) == Rest(kind, old(csw))
      ensures newHprot.Some? ==> saved.hprot == Some(old(hprot)) && hprot == Masked(newHprot.value, HprotMask(kind))
      ensures newHprot.None? ==> saved.hprot == None && hprot == old(hprot)
      ensures newHnonsec.Some? ==>
                saved.hnonsec == Some(old(hnonsec)) && hnonsec == Masked(newHnonsec.value, HnonsecMask(kind))
      ensures newHnonsec.None? ==> saved.hnonsec == None && hnonsec == old(hnonsec)
    {
      hide *;
      saved := Saved(None, None);
      if newHprot.Some? {
        saved := saved.(hprot := Some(hprot));
        SetHprot(newHprot.value);
        RestKept(kind, csw, old(csw));
      }
      ghost var between := csw;
      if newHnonsec.Some? {
        saved := saved.(hnonsec := Some(hnonsec));
        SetHnonsec(newHnonsec.value);
        RestKept(kind, csw, between);
      }
    }

    /** Leaving it: CSW is again what it was on entering, if between the two nothing but the saved attributes
        changed. */
    method Exit(saved: Saved, ghost was: bv32)
      requires Valid() && Rest(kind, csw) == Rest(kind, was)
      requires (if saved.hprot.Some? then saved.hprot.value else hprot) == DecodeHprot(kind, was)
      requires (if saved.hnonsec.Some? then saved.hnonsec.value else hnonsec) == DecodeHnonsec(kind, was)
      requires Masked(DecodeHprot(kind, was), HprotMask(kind)) == DecodeHprot(kind, was)
      requires Masked(DecodeHnonsec(kind, was), HnonsecMask(kind)) == DecodeHnonsec(kind, was)
      modifies this
      ensures Valid() && csw == was
    {
      hide Masked, Without, DecodeHprot, DecodeHnonsec, HprotMask, HnonsecMask, Rest;
      if saved.hprot.Some? {
        SetHprot(saved.hprot.value);
        RestKept(kind, csw, old(csw));
      }
      ghost var between := csw;
      if saved.hnonsec.Some? {
        SetHnonsec(saved.hnonsec.value);
        RestKept(kind, csw, between);
      }
      FieldsAndRest(kind, csw, was);
    }
  }

  datatype Saved = Saved(hprot: Option<bv32>, hnonsec: Option<bv32>)
}

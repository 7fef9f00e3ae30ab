/** The MEM-AP driver: cached CSW, single transfers through byte lanes, word blocks cut at the auto-increment
    page, and byte blocks cut into 8-, 16- and 32-bit accesses. */
module MemAps {
  import opened BitFields
  import opened Bytes
  import opened AdiHardware
  import opened DebugPorts

  /** Bytes in one transfer. */
  function Width(transferSize: int): nat {
    if transferSize == 8 then 1 else if transferSize == 16 then 2 else 4
  }

  function SizeCode(transferSize: int): int {
    if transferSize == 8 then 0 else if transferSize == 16 then 1 else 2
  }

  /** OR-ing a size code into a CSW whose size field is 0 changes that field only. */
  lemma SizedCsw(csw: word, transferSize: int)
    requires csw % 8 == 0 && SingleIncrement(csw)
    ensures csw + SizeCode(transferSize) < 0x1_0000_0000
    ensures (csw + SizeCode(transferSize)) % 8 == SizeCode(transferSize)
    ensures SingleIncrement(csw + SizeCode(transferSize))
  {
    var eighths := csw / 8;
    assert csw == 8 * eighths;
    assert (csw + SizeCode(transferSize)) / 8 == eighths && csw / 16 == eighths / 2;
    assert (csw + SizeCode(transferSize)) / 16 == eighths / 2;
  }

  /** `n` little-endian bytes as one number. */
  function Number(bs: seq<byte>): int
    requires |bs| == 1 || |bs| == 2 || |bs| == 4
  {
    if |bs| == 1 then bs[0]
    else if |bs| == 2 then bs[0] + 0x100 * bs[1]
    else WordOf(bs[0], bs[1], bs[2], bs[3])
  }

  function Pow256(lane: nat): int {
    if lane == 0 then 1 else if lane == 1 then 0x100 else if lane == 2 then 0x1_0000 else 0x100_0000
  }

  predicate Fits(data: int, transferSize: int) {
    0 <= data < (if transferSize == 8 then 0x100 else if transferSize == 16 then 0x1_0000 else 0x1_0000_0000)
  }

  lemma ShiftedByte(b: byte, lane: nat)
    requires lane < 4
    ensures b * Pow256(lane) < 0x1_0000_0000 && Lane(b * Pow256(lane), lane) == b
  {
  }

  lemma ShiftedHalfword(b0: byte, b1: byte, lane: nat)
    requires lane == 0 || lane == 2
    ensures var w := (b0 + 0x100 * b1) * Pow256(lane);
            w < 0x1_0000_0000 && Lane(w, lane) == b0 && Lane(w, lane + 1) == b1
  {
    if lane == 0 {
      LanesOfWord(b0, b1, 0, 0);
    } else {
      LanesOfWord(0, 0, b0, b1);
    }
  }

  /** Data shifted to its byte lane occupies exactly the lanes of the transfer. */
  lemma ShiftedLanes(data: int, lane: nat, n: nat, bs: seq<byte>)
    requires lane + n <= 4 && (n == 1 || (n == 2 && lane % 2 == 0) || n == 4)
    requires |bs| == n && data == Number(bs)
    ensures 0 <= data * Pow256(lane) < 0x1_0000_0000
    ensures Lanes(data * Pow256(lane), lane, n) == bs
  {
    if n == 1 {
      ShiftedByte(data, lane);
    } else if n == 2 {
      ShiftedHalfword(bs[0], bs[1], lane);
    } else {
      LanesOfWord(bs[0], bs[1], bs[2], bs[3]);
    }
  }

  /** The lanes of a word read back, shifted down and masked, are the bytes of the transfer. */
  lemma UnshiftedLanes(w: word, lane: nat, n: nat)
    requires lane + n <= 4 && (n == 1 || (n == 2 && lane % 2 == 0) || n == 4)
    ensures n == 1 ==> w / Pow256(lane) % 0x100 == Number(Lanes(w, lane, n))
    ensures n == 2 ==> w / Pow256(lane) % 0x1_0000 == Number(Lanes(w, lane, n))
    ensures n == 4 ==> w == Number(Lanes(w, lane, n))
  {
    if n == 1 {
      assert Lanes(w, lane, n)[0] == Lane(w, lane);
    } else if n == 2 {
      HalfwordLanes(w, lane);
    } else {
      WordOfLanes(w);
    }
  }

  lemma HalfwordLanes(w: word, lane: nat)
    requires lane == 0 || lane == 2
    ensures w / Pow256(lane) % 0x1_0000 == Lane(w, lane) + 0x100 * Lane(w, lane + 1)
  {
    if lane == 0 {
      LowHalf(w);
    } else {
      LowHalf(w / 0x1_0000);
    }
  }

  lemma LowHalf(w: nat)
    ensures w % 0x1_0000 == w % 0x100 + 0x100 * (w / 0x100 % 0x100)
  {
    var q := w / 0x100;
    assert w == 0x100 * q + w % 0x100 && q == 0x100 * (q / 0x100) + q % 0x100;
    assert w == 0x1_0000 * (q / 0x100) + (0x100 * (q % 0x100) + w % 0x100);
    assert w / 0x1_0000 == q / 0x100;
  }

  /** CSW cache and CSW register after a CSW write of `data` ended with `outcome`. */
  function CswAfterWrite(hardware: word, data: word, outcome: Result<()>): (int, word) {
    match outcome
    case Ok(_) => (data, data)
    case Err(e) => (if e.ProbeFailure? then -1 else data, hardware)
  }

  predicate CswTransparent(cached: int, hardware: word) {
    cached == -1 || cached == hardware
  }

  predicate SurvivesCswWrite(hardware: word, data: word, outcome: Result<()>) {
    var (cached, now) := CswAfterWrite(hardware, data, outcome);
    CswTransparent(cached, now)
  }

  /** A CSW write is safe for the cache, however it ends, exactly when it writes what CSW holds already: otherwise
      any transfer error leaves the value cached that the hardware never got. */
  lemma CswWriteSafeExactlyWhen(hardware: word, data: word)
    ensures (forall outcome :: SurvivesCswWrite(hardware, data, outcome)) <==> data == hardware
  {
    if forall outcome :: SurvivesCswWrite(hardware, data, outcome) {
      assert SurvivesCswWrite(hardware, data, Err(TransferFault));
    }
  }

  /** What a stale CSW cache does: the write that switches from bytes to words faults; the next word read finds its
      CSW value cached, and through the byte-sized access DRW may deliver a word that is not in memory. */
  lemma StaleCswReadsWrongWord(cfg: Config, ap: ApState)
    requires cfg.wrap > 0 && |ap.mem| == MEM_SIZE && ap.tar == 0 && ap.csw == 0x10 && ap.mem[0] == 0
    ensures var (cached, now) := CswAfterWrite(ap.csw, 0x12, Err(TransferFault));
            && cached == 0x12 && now == ap.csw && Defined(cfg, ap, Drw)
            && exists w: word :: ApReadMay(cfg, ap, Drw, w) && Unpacked([w]) != ap.mem[0..4]
  {
    var w: word := if ap.mem[1] == 0 then 0x100 else 0;
    assert Lanes(w, 0, 1) == ap.mem[0..1];
    UnpackedOne(w);
    assert Unpacked([w])[1] != ap.mem[0..4][1];
  }

  lemma {:induction false} OffsetSkipsMultiple(a: nat, page: nat, wrap: nat)
    requires page > 0 && Divides(page, wrap) && a >= wrap
    ensures Offset(a, page) == Offset(a - wrap, page)
    decreases wrap
  {
    if wrap > 0 {
      OffsetSkipsMultiple(a - page, page, wrap - page);
    }
  }

  /** The page offset can be taken from the position in the larger block. */
  lemma {:induction false} OffsetOfOffset(a: nat, page: nat, wrap: nat)
    requires page > 0 && wrap > 0 && Divides(page, wrap)
    ensures Offset(Offset(a, wrap), page) == Offset(a, page)
    decreases a
  {
    if a >= wrap {
      OffsetSkipsMultiple(a, page, wrap);
      OffsetOfOffset(a - wrap, page, wrap);
    }
  }

  lemma {:induction false} PageEndsInside(x: nat, n: nat, page: nat, wrap: nat)
    requires page > 0 && Divides(page, wrap) && x < wrap && Offset(x, page) + n <= page
    ensures x + n <= wrap
    decreases x
  {
    if x >= page {
      PageEndsInside(x - page, n, page, wrap - page);
    }
  }

  /** A stretch inside one software page is inside one stretch of the hardware's wrapping address. */
  lemma PageInsideWrap(addr: nat, n: nat, page: nat, wrap: nat)
    requires page > 0 && wrap > 0 && Divides(page, wrap)
    requires Offset(addr, page) + n <= page
    ensures Offset(addr, wrap) + n <= wrap
  {
    OffsetOfOffset(addr, page, wrap);
    PageEndsInside(Offset(addr, wrap), n, page, wrap);
  }

  lemma ApMaskLeavesNibble(cfg: Config)
    ensures Masked(ApMask(cfg), 0xF) == 0
  {
  }

  lemma RegisterInBank(mask: bv32, base: bv32, offset: bv32)
    requires Masked(mask, 0xF) == 0 && Masked(base, mask) == base && offset & 0xC == offset
    ensures AskedAddress(mask, base + offset) == base + offset
  {
  }

  function RegAddress(base: bv32, reg: ApReg): bv32 {
    match reg
    case Csw => base + MEM_AP_CSW
    case Tar => base + MEM_AP_TAR
    case Drw => base + MEM_AP_DRW
    case OtherReg(a) => a
  }

  lemma CswReached(mask: bv32, base: bv32)
    requires Masked(mask, 0xF) == 0 && Masked(base, mask) == base
    ensures AskedReg(mask, base, base + MEM_AP_CSW) == Csw
  {
    RegisterInBank(mask, base, MEM_AP_CSW);
  }

  lemma TarReached(mask: bv32, base: bv32)
    requires Masked(mask, 0xF) == 0 && Masked(base, mask) == base
    ensures AskedReg(mask, base, base + MEM_AP_TAR) == Tar
  {
    RegisterInBank(mask, base, MEM_AP_TAR);
  }

  lemma DrwReached(mask: bv32, base: bv32)
    requires Masked(mask, 0xF) == 0 && Masked(base, mask) == base
    ensures AskedReg(mask, base, base + MEM_AP_DRW) == Drw
  {
    RegisterInBank(mask, base, MEM_AP_DRW);
  }

  /** Reading or writing CSW, TAR or DRW by address reaches that register. */
  lemma RegAddressReaches(mask: bv32, base: bv32, reg: ApReg)
    requires Masked(mask, 0xF) == 0 && Masked(base, mask) == base && !reg.OtherReg?
    ensures AskedReg(mask, base, RegAddress(base, reg)) == reg
  {
    match reg
    case Csw => CswReached(mask, base);
    case Tar => TarReached(mask, base);
    case Drw => DrwReached(mask, base);
  }

  /** With CSW and TAR set up, one DRW access is one aligned access to flat memory. */
  predicate SetUp(cfg: Config, ap: ApState, addr: int, transferSize: int) {
    && cfg.wrap > 0 && |ap.mem| == MEM_SIZE && ap.tar == addr
    && transferSize in {8, 16, 32} && ap.csw % 8 == SizeCode(transferSize)
    && 0 <= addr && addr + Width(transferSize) <= MEM_SIZE && Aligned(addr, Width(transferSize))
  }

  lemma SetUpDefines(cfg: Config, ap: ApState, addr: int, transferSize: int)
    requires SetUp(cfg, ap, addr, transferSize)
    ensures Defined(cfg, ap, Drw) && TransferBytes(ap.csw) == Width(transferSize)
    ensures addr % 4 + Width(transferSize) <= 4
    ensures transferSize == 16 ==> addr / 2 % 2 * 2 == addr % 4
    ensures transferSize == 32 ==> addr % 4 == 0
  {
    AlignedLanesFit(addr, ap.csw);
  }

  lemma SingleWriteIsFlat(cfg: Config, ap: ApState, addr: int, data: int, transferSize: int)
    requires SetUp(cfg, ap, addr, transferSize) && Fits(data, transferSize)
    ensures Defined(cfg, ap, Drw)
    ensures var shifted := data * Pow256(addr % 4);
            && 0 <= shifted < 0x1_0000_0000
            && ApWrite(cfg, ap, Drw, shifted).mem == Update(ap.mem, addr, Lanes(data, 0, Width(transferSize)))
  {
    SetUpDefines(cfg, ap, addr, transferSize);
    var n := Width(transferSize);
    var bs := Lanes(data, 0, n);
    LanesMakeNumber(data, transferSize);
    ShiftedLanes(data, addr % 4, n, bs);
  }

  lemma LanesMakeNumber(data: int, transferSize: int)
    requires transferSize in {8, 16, 32} && Fits(data, transferSize)
    ensures Number(Lanes(data, 0, Width(transferSize))) == data
  {
    var bs := Lanes(data, 0, Width(transferSize));
    if transferSize == 32 { WordOfLanes(data); }
  }

  lemma SingleReadIsFlat(cfg: Config, ap: ApState, addr: int, w: word, transferSize: int)
    requires SetUp(cfg, ap, addr, transferSize)
    requires Defined(cfg, ap, Drw) && ApReadMay(cfg, ap, Drw, w)
    ensures var v := Number(ap.mem[addr..addr + Width(transferSize)]);
            && (transferSize == 8 ==> w / Pow256(addr % 4) % 0x100 == v)
            && (transferSize == 16 ==> w / Pow256(addr % 4) % 0x1_0000 == v)
            && (transferSize == 32 ==> w == v)
  {
    SetUpDefines(cfg, ap, addr, transferSize);
    UnshiftedLanes(w, addr % 4, Width(transferSize));
  }

  /** The leading bytes of a block that are not transferred as words: up to a byte and a halfword. */
  function HeadSize(addr: int, size: nat): nat {
    var odd := if size > 0 && addr % 2 == 1 then 1 else 0;
    if size - odd > 1 && (addr + odd) / 2 % 2 == 1 then odd + 2 else odd
  }

  lemma HeadIs(addr: int, size: nat)
    ensures var odd := if size > 0 && addr % 2 == 1 then 1 else 0;
            HeadSize(addr, size) == if size - odd > 1 && (addr + odd) / 2 % 2 == 1 then odd + 2 else odd
  {
  }

  /** After the head, what is left starts at a word if it has one, and at a halfword if it has one. */
  lemma HeadEndsAligned(addr: int, size: nat)
    ensures var head := HeadSize(addr, size);
            && head <= size
            && (size - head >= 4 ==> (addr + head) % 4 == 0)
            && (size - head >= 2 ==> (addr + head) % 2 == 0)
            && (addr % 4 == 0 ==> head == 0)
  {
    var q, r := addr / 4, addr % 4;
    InWord(addr, q, r);
    if r == 0 {
    } else if r == 3 {
      InWord(addr + 1, q + 1, 0);
    } else {
      InWord(addr + 1, q, r + 1);
      InWord(addr + (4 - r), q + 1, 0);
    }
  }

  /** An address by its word and its place in the word. */
  lemma InWord(a: int, q: int, r: int)
    requires a == 4 * q + r && 0 <= r < 4
    ensures a % 4 == r && a % 2 == r % 2
    ensures a / 2 % 2 == 1 <==> r >= 2
  {
    assert a / 4 == q;
    assert a / 2 == 2 * q + r / 2;
    assert (2 * q + r / 2) / 2 == q;
  }

  class MemAp {
    const dp: DebugPort
    const base: bv32     // AP address plus the offset of its control registers
    const transferSizes: set<int>
    const autoIncrementPageSize: nat
    var csw: word        // base CSW value, transfer size field 0
    var cachedCsw: int   // -1 when unknown

    constructor (dp: DebugPort, base: bv32, transferSizes: set<int>, page: nat, csw: word)
      requires dp.Valid() && |dp.probe.hw.ap.mem| == MEM_SIZE
      requires base == dp.probe.cfg.memApBase
      requires page >= 4 && page % 4 == 0 && Divides(page, dp.probe.cfg.wrap)
      requires csw % 8 == 0 && SingleIncrement(csw)
      ensures this.dp == dp && this.transferSizes == transferSizes && this.autoIncrementPageSize == page
      ensures Valid() && CswKnown() && this.csw == csw
    {
      this.dp := dp;
      this.base := base;
      this.transferSizes := transferSizes;
      autoIncrementPageSize := page;
      this.csw := csw;
      cachedCsw := -1;
    }

    ghost predicate Valid()
      reads this, dp, dp.probe
      ensures Valid() ==> |Mem()| == MEM_SIZE
    {
      && dp.Valid()
      && base == dp.probe.cfg.memApBase
      && autoIncrementPageSize >= 4 && autoIncrementPageSize % 4 == 0
      && Divides(autoIncrementPageSize, dp.probe.cfg.wrap)   // both divide 2^32, so they are powers of two
      && csw % 8 == 0 && SingleIncrement(csw)
      && -1 <= cachedCsw < MEM_SIZE
      && |Mem()| == MEM_SIZE
    }

    /** The CSW cache is transparent. */
    ghost predicate CswKnown()
      reads this, dp, dp.probe
    {
      CswTransparent(cachedCsw, dp.probe.hw.ap.csw)
    }

    ghost function Mem(): seq<byte>
      reads dp, dp.probe
    {
      dp.probe.hw.ap.mem
    }

    /** What has failed so far. */
    ghost function Log(): seq<Failure>
      reads dp, dp.probe
    {
      dp.probe.failures
    }

    /** The lock as it is held now, apart from leaks by failed SELECT writes. */
    ghost function LocksHeld(): Locks
      reads dp, dp.probe
    {
      var s := dp.LockState();
      s.(depth := s.depth - s.leaked, leaked := 0)
    }

    lemma ReachesReg(reg: ApReg)
      requires dp.probe.cfg.Valid() && base == dp.probe.cfg.memApBase && !reg.OtherReg?
      ensures dp.Asked(RegAddress(base, reg)) == reg
    {
      ApMaskLeavesNibble(dp.probe.cfg);
      RegAddressReaches(ApMask(dp.probe.cfg), base, reg);
    }

    method InvalidateCache()
      modifies this`cachedCsw
      ensures cachedCsw == -1
    {
      cachedCsw := -1;
    }

    /** Every reset clears the CSW cache. */
    method ResetDidOccur()
      requires Valid()
      modifies this`cachedCsw
      ensures Valid() && CswKnown() && cachedCsw == -1
    {
      InvalidateCache();
    }

    method HandleError(error: AdiError)
      requires Valid()
      modifies this`cachedCsw, dp, dp.probe
      ensures Valid() && cachedCsw == -1 && CswKnown() && dp.Recovered(error)
      ensures dp.probe.hw.ap == old(dp.probe.hw.ap) && LocksHeld() == old(LocksHeld()) && Log() == old(Log())
    {
      dp.HandleError(error);
      InvalidateCache();
    }

    method WriteReg(reg: ApReg, data: word) returns (r: Result<()>)
      requires Valid() && CswKnown() && !reg.OtherReg? && Defined(dp.probe.cfg, dp.probe.hw.ap, reg)
      modifies this`cachedCsw, dp, dp.probe
      ensures Valid() && LocksHeld() == old(LocksHeld())
      ensures r.Ok? ==> Log() == old(Log())
      ensures r.Err? ==> Log() == old(Log()) + [Faulted(r.error)] && dp.Recovered(r.error)
      ensures r.Ok? ==> dp.probe.hw.ap == ApWrite(dp.probe.cfg, old(dp.probe.hw.ap), reg, data)
      ensures r.Err? ==> dp.probe.hw.ap == old(dp.probe.hw.ap)
      ensures reg.Csw? ==> (cachedCsw, dp.probe.hw.ap.csw) == CswAfterWrite(old(dp.probe.hw.ap.csw), data, r)
      ensures !reg.Csw? ==> cachedCsw == old(cachedCsw) && CswKnown()
      ensures r.Ok? ==> CswKnown()
      ensures old(dp.probe.hw.ap.csw) == data ==> CswKnown()
      ensures reg.Csw? && data == old(cachedCsw) ==> unchanged(dp) && unchanged(dp.probe)
    {
      if reg == Csw {
        if data == cachedCsw {
          return Ok(());
        }
        cachedCsw := data;
      }
      ReachesReg(reg);
      r := dp.WriteAp(RegAddress(base, reg), data);
      if r.Err? && r.error.ProbeFailure? && reg == Csw {
        InvalidateCache();
      }
    }

    /** A cached CSW is returned without an access; so while the CSW cache is true, it is what the hardware holds. */
    method ReadReg(reg: ApReg) returns (r: Result<word>)
      requires Valid() && !reg.OtherReg? && Defined(dp.probe.cfg, dp.probe.hw.ap, reg)
      modifies dp, dp.probe
      ensures Valid() && LocksHeld() == old(LocksHeld())
      ensures r.Ok? ==> Log() == old(Log())
      ensures r.Err? ==> Log() == old(Log()) + [Faulted(r.error)] && dp.Recovered(r.error)
      ensures old(CswKnown()) ==> CswKnown() && (r.Ok? && reg.Csw? ==> r.value == old(dp.probe.hw.ap.csw))
      ensures reg.Csw? && cachedCsw != -1 ==> r == Ok(cachedCsw) && unchanged(dp) && unchanged(dp.probe)
      ensures r.Ok? && (reg.Csw? ==> cachedCsw == -1) ==>
                && ApReadMay(dp.probe.cfg, old(dp.probe.hw.ap), reg, r.value)
                && dp.probe.hw.ap == ApReadNext(dp.probe.cfg, old(dp.probe.hw.ap), reg)
      ensures r.Err? ==> dp.probe.hw.ap == old(dp.probe.hw.ap)
    {
      if reg == Csw && cachedCsw != -1 {
        return Ok(cachedCsw);
      }
      ReachesReg(reg);
      r := dp.ReadAp(RegAddress(base, reg));
    }

    /** Writes one naturally aligned byte, halfword or word. */
    method WriteMemory(addr: int, data: int, transferSize: int) returns (r: Result<()>)
      requires Valid() && CswKnown()
      requires transferSize in {8, 16, 32} && Fits(data, transferSize)
      requires 0 <= addr && addr + Width(transferSize) <= MEM_SIZE && Aligned(addr, Width(transferSize))
      modifies this`cachedCsw, dp, dp.probe
      ensures Valid() && LocksHeld() == old(LocksHeld())
      ensures r.Ok? ==> transferSize in transferSizes && Log() == old(Log())
      ensures r.Err? && transferSize in transferSizes ==> Log() == old(Log()) + [Faulted(r.error)] && dp.Recovered(r.error)
      ensures r.Err? && transferSize in transferSizes && old(cachedCsw) == csw + SizeCode(transferSize) ==> cachedCsw == -1
      ensures transferSize !in transferSizes ==>
                r == Err(TransferOther) && Log() == old(Log()) + [Unsupported] && dp.probe.hw == old(dp.probe.hw)
      ensures r.Ok? ==> CswKnown() && Mem() == Update(old(Mem()), addr, Lanes(data, 0, Width(transferSize)))
      ensures r.Err? ==> Mem() == old(Mem())
      ensures CswKnown() || (r.Err? && !r.error.ProbeFailure? && dp.probe.hw.ap == old(dp.probe.hw.ap))
      ensures old(dp.probe.hw.ap.csw) == csw + SizeCode(transferSize) ==> CswKnown()
    {
      dp.probe.Lock();
      r := DoWriteMemory(addr, data, transferSize);
      dp.probe.Unlock();
    }

    method DoWriteMemory(addr: int, data: int, transferSize: int) returns (r: Result<()>)
      requires Valid() && CswKnown()
      requires transferSize in {8, 16, 32} && Fits(data, transferSize)
      requires 0 <= addr && addr + Width(transferSize) <= MEM_SIZE && Aligned(addr, Width(transferSize))
      modifies this`cachedCsw, dp, dp.probe
      ensures Valid() && LocksHeld() == old(LocksHeld())
      ensures r.Ok? ==> transferSize in transferSizes && Log() == old(Log())
      ensures r.Err? && transferSize in transferSizes ==> Log() == old(Log()) + [Faulted(r.error)] && dp.Recovered(r.error)
      ensures r.Err? && transferSize in transferSizes && old(cachedCsw) == csw + SizeCode(transferSize) ==> cachedCsw == -1
      ensures transferSize !in transferSizes ==>
                r == Err(TransferOther) && Log() == old(Log()) + [Unsupported] && dp.probe.hw == old(dp.probe.hw)
      ensures r.Ok? ==> CswKnown() && Mem() == Update(old(Mem()), addr, Lanes(data, 0, Width(transferSize)))
      ensures r.Err? ==> Mem() == old(Mem())
      ensures CswKnown() || (r.Err? && !r.error.ProbeFailure? && dp.probe.hw.ap == old(dp.probe.hw.ap))
      ensures old(dp.probe.hw.ap.csw) == csw + SizeCode(transferSize) ==> CswKnown()
    {
      if transferSize !in transferSizes {
        dp.probe.failures := dp.probe.failures + [Unsupported];
        return Err(TransferOther);
      }
      SizedCsw(csw, transferSize);
      r := WriteReg(Csw, csw + SizeCode(transferSize));
      if r.Err? { return; }
      r := WriteReg(Tar, addr);
      if r.Ok? {
        SetUpDefines(dp.probe.cfg, dp.probe.hw.ap, addr, transferSize);
        SingleWriteIsFlat(dp.probe.cfg, dp.probe.hw.ap, addr, data, transferSize);
        var shifted := data;
        if transferSize == 8 {
          shifted := data * Pow256(addr % 4);
        } else if transferSize == 16 {
          shifted := data * Pow256(addr / 2 % 2 * 2);
        }
        r := WriteReg(Drw, shifted);
      }
      if r.Err? {
        HandleError(r.error);
      }
    }

    /** Reads one naturally aligned byte, halfword or word. */
    method ReadMemory(addr: int, transferSize: int) returns (r: Result<int>)
      requires Valid() && CswKnown()
      requires transferSize in {8, 16, 32}
      requires 0 <= addr && addr + Width(transferSize) <= MEM_SIZE && Aligned(addr, Width(transferSize))
      modifies this`cachedCsw, dp, dp.probe
      ensures Valid() && CswKnown() && LocksHeld() == old(LocksHeld())
      ensures r.Ok? ==> transferSize in transferSizes && Log() == old(Log())
      ensures r.Err? && transferSize in transferSizes ==> cachedCsw == -1 && Log() == old(Log()) + [Faulted(r.error)] && dp.Recovered(r.error)
      ensures transferSize !in transferSizes ==>
                r == Err(TransferOther) && Log() == old(Log()) + [Unsupported] && dp.probe.hw == old(dp.probe.hw)
      ensures Mem() == old(Mem())
      ensures r.Ok? ==> r.value == Number(Mem()[addr..addr + Width(transferSize)])
    {
      dp.probe.Lock();
      r := DoReadMemory(addr, transferSize);
      dp.probe.Unlock();
    }

    method DoReadMemory(addr: int, transferSize: int) returns (r: Result<int>)
      requires Valid() && CswKnown()
      requires transferSize in {8, 16, 32}
      requires 0 <= addr && addr + Width(transferSize) <= MEM_SIZE && Aligned(addr, Width(transferSize))
      modifies this`cachedCsw, dp, dp.probe
      ensures Valid() && CswKnown() && LocksHeld() == old(LocksHeld())
      ensures r.Ok? ==> transferSize in transferSizes && Log() == old(Log())
      ensures r.Err? && transferSize in transferSizes ==> cachedCsw == -1 && Log() == old(Log()) + [Faulted(r.error)] && dp.Recovered(r.error)
      ensures transferSize !in transferSizes ==>
                r == Err(TransferOther) && Log() == old(Log()) + [Unsupported] && dp.probe.hw == old(dp.probe.hw)
      ensures Mem() == old(Mem())
      ensures r.Ok? ==> r.value == Number(Mem()[addr..addr + Width(transferSize)])
    {
      hide Update, Lanes, Divides, Number;
      if transferSize !in transferSizes {
        dp.probe.failures := dp.probe.failures + [Unsupported];
        return Err(TransferOther);
      }
      SizedCsw(csw, transferSize);
      var w := WriteReg(Csw, csw + SizeCode(transferSize));
      if w.Ok? {
        w := WriteReg(Tar, addr);
      }
      if w.Err? {
        HandleError(w.error);
        return Err(w.error);
      }
      ghost var ap := dp.probe.hw.ap;
      SetUpDefines(dp.probe.cfg, ap, addr, transferSize);
      var res := ReadReg(Drw);
      if res.Err? {
        HandleError(res.error);
        return Err(res.error);
      }
      SingleReadIsFlat(dp.probe.cfg, ap, addr, res.value, transferSize);
      if transferSize == 8 {
        return Ok(res.value / Pow256(addr % 4) % 0x100);
      } else if transferSize == 16 {
        return Ok(res.value / Pow256(addr / 2 % 2 * 2) % 0x1_0000);
      } else {
        return Ok(res.value);
      }
    }

    // ---- Blocks of words ----

    lemma PageSizeFits()
      requires Valid()
      ensures autoIncrementPageSize >= 4 && autoIncrementPageSize % 4 == 0 && |Mem()| == MEM_SIZE
    {
    }

    /** Both page transfers start by writing CSW for words, and TAR; neither write is inside a `try`. */
    method PutAddress(addr: int) returns (r: Result<()>)
      requires Valid() && CswKnown() && 0 <= addr <= MEM_SIZE - 4 && addr % 4 == 0
      modifies this`cachedCsw, dp, dp.probe
      ensures Valid() && LocksHeld() == old(LocksHeld()) && Mem() == old(Mem())
      ensures r.Ok? ==> Log() == old(Log())
      ensures r.Err? ==> Log() == old(Log()) + [Faulted(r.error)] && dp.Recovered(r.error)
      ensures r.Ok? ==> CswKnown() && dp.probe.hw.ap.tar == addr && BlockReady(dp.probe.cfg, dp.probe.hw.ap)
      ensures r.Ok? ==> dp.probe.hw.ap.csw == csw + SizeCode(32)
      ensures CswKnown() || (r.Err? && !r.error.ProbeFailure? && dp.probe.hw.ap == old(dp.probe.hw.ap))
      ensures old(dp.probe.hw.ap.csw) == csw + SizeCode(32) ==> CswKnown()
    {
      hide Update, Lanes, Divides, Offset;
      SizedCsw(csw, 32);
      r := WriteReg(Csw, csw + SizeCode(32));
      if r.Err? { return; }
      r := WriteReg(Tar, addr);
    }

    /** One transaction's worth of words; it must not pass the auto-increment page. */
    method WriteBlock32Page(addr: int, data: seq<word>) returns (r: Result<()>)
      requires Valid() && CswKnown()
      requires |data| > 0 && PageSpan(addr, |data|, autoIncrementPageSize)
      modifies this`cachedCsw, dp, dp.probe
      ensures Valid() && LocksHeld() == old(LocksHeld())
      ensures r.Ok? ==> Log() == old(Log())
      ensures r.Err? ==> Log() == old(Log()) + [Faulted(r.error)] && dp.Recovered(r.error)
      ensures r.Ok? ==> CswKnown() && Mem() == Update(old(Mem()), addr, Unpacked(data))
      ensures r.Err? ==> TornWords(old(Mem()), Mem(), addr, data)
      ensures r.Err? && Mem() != old(Mem()) ==> cachedCsw == -1
      ensures CswKnown() || (r.Err? && !r.error.ProbeFailure? && dp.probe.hw.ap == old(dp.probe.hw.ap))
      ensures old(dp.probe.hw.ap.csw) == csw + SizeCode(32) ==> CswKnown()
      ensures r.Ok? ==> dp.probe.hw.ap.csw == csw + SizeCode(32)
    {
      hide Update, TornWords, Unpacked, WriteDrwAll, Offset, Divides;
      TornWordsAtStart(Mem(), addr, data);
      r := PutAddress(addr);
      if r.Err? { return; }
      ReachesReg(Drw);
      ghost var cfg, ap := dp.probe.cfg, dp.probe.hw.ap;
      PageInsideWrap(addr, 4 * |data|, autoIncrementPageSize, cfg.wrap);
      WriteDrwAllIsFlat(cfg, ap, data);
      r := dp.WriteApMultiple(RegAddress(base, Drw), data);
      if r.Err? {
        ghost var k :| 0 <= k <= |data| && dp.probe.hw.ap == WriteDrwAll(cfg, ap, data[..k]);
        WriteDrwAllIsFlat(cfg, ap, data[..k]);
        TornWordsAfter(ap.mem, addr, data, k);
        HandleError(r.error);
      }
    }

    method ReadBlock32Page(addr: int, size: nat) returns (r: Result<seq<word>>)
      requires Valid() && CswKnown()
      requires size > 0 && PageSpan(addr, size, autoIncrementPageSize)
      modifies this`cachedCsw, dp, dp.probe
      ensures Valid() && LocksHeld() == old(LocksHeld())
      ensures r.Ok? ==> Log() == old(Log())
      ensures r.Err? ==> Log() == old(Log()) + [Faulted(r.error)] && dp.Recovered(r.error)
      ensures Mem() == old(Mem())
      ensures r.Ok? ==> CswKnown() && |r.value| == size && Unpacked(r.value) == Mem()[addr..addr + 4 * size]
      ensures CswKnown() || (r.Err? && !r.error.ProbeFailure? && dp.probe.hw.ap == old(dp.probe.hw.ap))
      ensures old(dp.probe.hw.ap.csw) == csw + SizeCode(32) ==> CswKnown()
      ensures r.Ok? ==> dp.probe.hw.ap.csw == csw + SizeCode(32)
    {
      hide Unpacked, ReadDrwMay, ReadDrwNext, Offset, Divides;
      var w := PutAddress(addr);
      if w.Err? { return Err(w.error); }
      ReachesReg(Drw);
      ghost var cfg, ap := dp.probe.cfg, dp.probe.hw.ap;
      PageInsideWrap(addr, 4 * size, autoIncrementPageSize, cfg.wrap);
      r := dp.ReadApMultiple(RegAddress(base, Drw), size);
      if r.Err? {
        HandleError(r.error);
      } else {
        ReadDrwIsFlat(cfg, ap, r.value);
      }
    }

    method WriteMemoryBlock32(addr: int, data: seq<word>) returns (r: Result<()>)
      requires Valid() && CswKnown()
      requires 0 <= addr && addr % 4 == 0 && addr + 4 * |data| <= MEM_SIZE
      modifies this`cachedCsw, dp, dp.probe
      ensures Valid() && LocksHeld() == old(LocksHeld())
      ensures r.Ok? ==> Log() == old(Log())
      ensures r.Err? ==> Log() == old(Log()) + [Faulted(r.error)]
      ensures r.Ok? ==> CswKnown() && Mem() == Update(old(Mem()), addr, Unpacked(data))
      ensures r.Err? ==> TornWords(old(Mem()), Mem(), addr, data)
      ensures CswKnown() || (r.Err? && !r.error.ProbeFailure?)
      ensures old(dp.probe.hw.ap.csw) == csw + SizeCode(32) ==> CswKnown()
    {
      dp.probe.Lock();
      r := DoWriteMemoryBlock32(addr, data);
      dp.probe.Unlock();
    }

    method DoWriteMemoryBlock32(addr: int, data: seq<word>) returns (r: Result<()>)
      requires Valid() && CswKnown()
      requires 0 <= addr && addr % 4 == 0 && addr + 4 * |data| <= MEM_SIZE
      modifies this`cachedCsw, dp, dp.probe
      ensures Valid() && LocksHeld() == old(LocksHeld())
      ensures r.Ok? ==> Log() == old(Log())
      ensures r.Err? ==> Log() == old(Log()) + [Faulted(r.error)]
      ensures r.Ok? ==> CswKnown() && Mem() == Update(old(Mem()), addr, Unpacked(data))
      ensures r.Err? ==> TornWords(old(Mem()), Mem(), addr, data)
      ensures CswKnown() || (r.Err? && !r.error.ProbeFailure?)
      ensures old(dp.probe.hw.ap.csw) == csw + SizeCode(32) ==> CswKnown()
    {
      hide *;
      PageSizeFits();
      var a, rest, size := addr, data, |data|;
      r := Ok(());
      assert data[..0] == [];
      UpdateNothing(Mem(), addr);
      while size > 0
        invariant 0 <= size == |rest| <= |data| && rest == data[|data| - size..]
        invariant a == addr + 4 * (|data| - size)
        invariant Valid() && CswKnown() && LocksHeld() == old(LocksHeld()) && r.Ok?
        invariant old(dp.probe.hw.ap.csw) == csw + SizeCode(32) ==> dp.probe.hw.ap.csw == csw + SizeCode(32)
        invariant Log() == old(Log())
        invariant Mem() == Update(old(Mem()), addr, Unpacked(data[..|data| - size]))
      {
        PageStep(a, size, autoIncrementPageSize);
        var n := autoIncrementPageSize - Offset(a, autoIncrementPageSize);
        if size * 4 < n {
          n := size * 4;
        }
        var piece := rest[..n / 4];
        ghost var done := data[..|data| - size];
        r := WriteBlock32Page(a, piece);
        if r.Err? {
          assert piece == data[|done|..|done| + n / 4];
          TornWordsLater(old(Mem()), Mem(), addr, data, |done|, n / 4);
          break;
        }
        UnpackedAppend(done, piece);
        UpdateConcat(old(Mem()), addr, Unpacked(done), Unpacked(piece));
        assert data[..|data| - size + n / 4] == done + piece;
        rest := rest[n / 4..];
        size := size - n / 4;
        a := a + n;
      }
      if r.Ok? {
        assert data[..|data|] == data;
      }
    }

    method ReadMemoryBlock32(addr: int, count: nat) returns (r: Result<seq<word>>)
      requires Valid() && CswKnown()
      requires 0 <= addr && addr % 4 == 0 && addr + 4 * count <= MEM_SIZE
      modifies this`cachedCsw, dp, dp.probe
      ensures Valid() && LocksHeld() == old(LocksHeld())
      ensures r.Ok? ==> Log() == old(Log())
      ensures r.Err? ==> Log() == old(Log()) + [Faulted(r.error)]
      ensures Mem() == old(Mem())
      ensures r.Ok? ==> CswKnown() && |r.value| == count && Unpacked(r.value) == Mem()[addr..addr + 4 * count]
      ensures CswKnown() || (r.Err? && !r.error.ProbeFailure?)
      ensures old(dp.probe.hw.ap.csw) == csw + SizeCode(32) ==> CswKnown()
    {
      dp.probe.Lock();
      r := DoReadMemoryBlock32(addr, count);
      dp.probe.Unlock();
    }

    method DoReadMemoryBlock32(addr: int, count: nat) returns (r: Result<seq<word>>)
      requires Valid() && CswKnown()
      requires 0 <= addr && addr % 4 == 0 && addr + 4 * count <= MEM_SIZE
      modifies this`cachedCsw, dp, dp.probe
      ensures Valid() && LocksHeld() == old(LocksHeld())
      ensures r.Ok? ==> Log() == old(Log())
      ensures r.Err? ==> Log() == old(Log()) + [Faulted(r.error)]
      ensures Mem() == old(Mem())
      ensures r.Ok? ==> CswKnown() && |r.value| == count && Unpacked(r.value) == Mem()[addr..addr + 4 * count]
      ensures CswKnown() || (r.Err? && !r.error.ProbeFailure?)
      ensures old(dp.probe.hw.ap.csw) == csw + SizeCode(32) ==> CswKnown()
    {
      hide *;
      PageSizeFits();
      var a, size := addr, count;
      var resp: seq<word> := [];
      r := Ok(resp);
      while size > 0
        invariant 0 <= size <= count && |resp| == count - size && r == Ok(resp)
        invariant a == addr + 4 * (count - size)
        invariant Valid() && CswKnown() && LocksHeld() == old(LocksHeld())
        invariant Log() == old(Log()) && Mem() == old(Mem())
        invariant old(dp.probe.hw.ap.csw) == csw + SizeCode(32) ==> dp.probe.hw.ap.csw == csw + SizeCode(32)
        invariant Unpacked(resp) == Mem()[addr..a]
      {
        PageStep(a, size, autoIncrementPageSize);
        var n := autoIncrementPageSize - Offset(a, autoIncrementPageSize);
        if size * 4 < n {
          n := size * 4;
        }
        var piece := ReadBlock32Page(a, n / 4);
        if piece.Err? {
          r := Err(piece.error);
          break;
        }
        UnpackedAppend(resp, piece.value);
        SliceConcat(Mem(), addr, a, a + n);
        resp := resp + piece.value;
        r := Ok(resp);
        size := size - n / 4;
        a := a + n;
      }
    }

    // ---- Blocks of bytes ----

    /** Any byte range: a byte and a halfword up to a word boundary, a block of words, a halfword and a byte. */
    method ReadMemoryBlock8(addr: int, size: nat) returns (r: Result<seq<byte>>)
      requires Valid() && CswKnown()
      requires 0 <= addr && addr + size <= MEM_SIZE
      modifies this`cachedCsw, dp, dp.probe
      ensures Valid() && LocksHeld() == old(LocksHeld())
      ensures if r.Ok? then Log() == old(Log()) else Tells(old(Log()), Log(), r.error)
      ensures r.Err? && 8 in transferSizes && 16 in transferSizes ==> Log() == old(Log()) + [Faulted(r.error)]
      ensures Mem() == old(Mem())
      ensures r.Ok? ==> CswKnown() && r.value == Mem()[addr..addr + size]
      ensures CswKnown() || (r.Err? && !r.error.ProbeFailure?)
      ensures size - HeadSize(addr, size) < 4 ==> CswKnown()
      ensures HeadSize(addr, size) == 0 && old(dp.probe.hw.ap.csw) == csw + SizeCode(32) ==> CswKnown()
    {
      hide *;
      HeadEndsAligned(addr, size);
      ghost var m := Mem();
      r := ReadHead(addr, size);
      if r.Err? { return; }
      var res := r.value;
      var words := (size - |res|) / 4;
      var a := addr + |res|;
      r := ReadWords(a, words);
      if r.Err? {
        FaultTells(old(Log()), r.error);
        return;
      }
      SliceConcat(m, addr, a, a + 4 * words);
      EvenAfterWords(a, words);
      res := res + r.value;
      var end := a + 4 * words;
      var rest := size - |res|;
      assert res == m[addr..end];
      r := ReadTail(end, rest);
      if r.Err? { return; }
      SliceConcat(m, addr, end, end + rest);
      r := Ok(res + r.value);
    }

    /** The words of a byte block, as bytes. */
    method ReadWords(addr: int, words: nat) returns (r: Result<seq<byte>>)
      requires Valid() && CswKnown() && 0 <= addr && addr + 4 * words <= MEM_SIZE && (words > 0 ==> addr % 4 == 0)
      modifies this`cachedCsw, dp, dp.probe
      ensures Valid() && LocksHeld() == old(LocksHeld()) && Mem() == old(Mem())
      ensures r.Ok? ==> Log() == old(Log())
      ensures r.Err? ==> Log() == old(Log()) + [Faulted(r.error)]
      ensures r.Ok? ==> CswKnown() && r.value == Mem()[addr..addr + 4 * words]
      ensures CswKnown() || (r.Err? && !r.error.ProbeFailure?)
      ensures words == 0 ==> CswKnown()
      ensures old(dp.probe.hw.ap.csw) == csw + SizeCode(32) ==> CswKnown()
    {
      hide *;
      if words == 0 { return Ok([]); }
      var data32 := ReadMemoryBlock32(addr, words);
      if data32.Err? { return Err(data32.error); }
      var bytes := U32leListToByteList(data32.value);
      r := Ok(bytes);
    }

    /** The leading byte and halfword of a byte block. */
    method ReadHead(addr: int, size: nat) returns (r: Result<seq<byte>>)
      requires Valid() && CswKnown() && 0 <= addr && addr + size <= MEM_SIZE
      modifies this`cachedCsw, dp, dp.probe
      ensures Valid() && CswKnown() && LocksHeld() == old(LocksHeld()) && Mem() == old(Mem())
      ensures if r.Ok? then Log() == old(Log()) else Tells(old(Log()), Log(), r.error)
      ensures r.Err? && 8 in transferSizes && 16 in transferSizes ==> Log() == old(Log()) + [Faulted(r.error)]
      ensures r.Ok? ==> r.value == Mem()[addr..addr + HeadSize(addr, size)]
      ensures HeadSize(addr, size) == 0 ==> r.Ok? && dp.probe.hw.ap.csw == old(dp.probe.hw.ap.csw)
    {
      hide *;
      HeadIs(addr, size);
      var res: seq<byte> := [];
      var a, left := addr, size;
      ghost var odd := if size > 0 && addr % 2 == 1 then 1 else 0;
      if left > 0 && a % 2 == 1 {
        r := Read8(a);
        if r.Err? { return; }
        res := res + r.value;
        left := left - 1;
        a := a + 1;
      }
      assert a == addr + odd && left == size - odd && res == Mem()[addr..a];
      if left > 1 && a / 2 % 2 == 1 {
        r := Read16(a);
        if r.Err? { return; }
        SliceConcat(Mem(), addr, a, a + 2);
        res := res + r.value;
      }
      r := Ok(res);
    }

    /** The trailing halfword and byte of a byte block. */
    method ReadTail(addr: int, size: nat) returns (r: Result<seq<byte>>)
      requires Valid() && CswKnown() && 0 <= addr && addr + size <= MEM_SIZE
      requires size < 4 && (size >= 2 ==> addr % 2 == 0)
      modifies this`cachedCsw, dp, dp.probe
      ensures Valid() && CswKnown() && LocksHeld() == old(LocksHeld()) && Mem() == old(Mem())
      ensures if r.Ok? then Log() == old(Log()) else Tells(old(Log()), Log(), r.error)
      ensures r.Err? && 8 in transferSizes && 16 in transferSizes ==> Log() == old(Log()) + [Faulted(r.error)]
      ensures r.Ok? ==> r.value == Mem()[addr..addr + size]
    {
      hide *;
      var res: seq<byte> := [];
      var a, left := addr, size;
      if left > 1 {
        r := Read16(a);
        if r.Err? { return; }
        res := res + r.value;
        left := left - 2;
        a := a + 2;
      }
      assert res == Mem()[addr..a];
      if left > 0 {
        r := Read8(a);
        if r.Err? { return; }
        SliceConcat(Mem(), addr, a, a + 1);
        res := res + r.value;
      }
      r := Ok(res);
    }

    /** read8, as a list of one byte. */
    method Read8(addr: int) returns (r: Result<seq<byte>>)
      requires Valid() && CswKnown() && 0 <= addr < MEM_SIZE
      modifies this`cachedCsw, dp, dp.probe
      ensures Valid() && CswKnown() && LocksHeld() == old(LocksHeld()) && Mem() == old(Mem())
      ensures if r.Ok? then Log() == old(Log()) else Tells(old(Log()), Log(), r.error)
      ensures r.Err? && 8 in transferSizes && 16 in transferSizes ==> Log() == old(Log()) + [Faulted(r.error)]
      ensures r.Ok? ==> r.value == Mem()[addr..addr + 1]
    {
      var mem := ReadMemory(addr, 8);
      if mem.Err? { return Err(mem.error); }
      return Ok([mem.value]);
    }

    /** read16, as a list of two bytes, low byte first. */
    method Read16(addr: int) returns (r: Result<seq<byte>>)
      requires Valid() && CswKnown() && 0 <= addr < MEM_SIZE - 1 && addr % 2 == 0
      modifies this`cachedCsw, dp, dp.probe
      ensures Valid() && CswKnown() && LocksHeld() == old(LocksHeld()) && Mem() == old(Mem())
      ensures if r.Ok? then Log() == old(Log()) else Tells(old(Log()), Log(), r.error)
      ensures r.Err? && 8 in transferSizes && 16 in transferSizes ==> Log() == old(Log()) + [Faulted(r.error)]
      ensures r.Ok? ==> r.value == Mem()[addr..addr + 2]
    {
      var mem := ReadMemory(addr, 16);
      if mem.Err? { return Err(mem.error); }
      HalfwordBytes(Mem()[addr..addr + 2], mem.value);
      return Ok([mem.value % 0x100, mem.value / 0x100 % 0x100]);
    }

    method WriteMemoryBlock8(addr: int, data: seq<byte>) returns (r: Result<()>)
      requires Valid() && CswKnown()
      requires 0 <= addr && addr + |data| <= MEM_SIZE
      modifies this`cachedCsw, dp, dp.probe
      ensures Valid() && LocksHeld() == old(LocksHeld())
      ensures if r.Ok? then Log() == old(Log()) else Tells(old(Log()), Log(), r.error)
      ensures r.Err? && 8 in transferSizes && 16 in transferSizes ==> Log() == old(Log()) + [Faulted(r.error)]
      ensures r.Ok? ==> CswKnown() && Mem() == Update(old(Mem()), addr, data)
      ensures r.Err? ==> Torn(old(Mem()), Mem(), addr, data)
      ensures CswKnown() || (r.Err? && !r.error.ProbeFailure?)
      ensures addr % 4 == 0 && |data| % 4 == 0 && old(dp.probe.hw.ap.csw) == csw + SizeCode(32) ==> CswKnown()
    {
      hide *;
      HeadEndsAligned(addr, |data|);
      ghost var m := Mem();
      var idx;
      r, idx := WriteHead(addr, data);
      if r.Err? { return; }
      var whole := (|data| - idx) / 4 * 4;
      r := WriteWords(addr + idx, data[idx..idx + whole]);
      WrittenSoFar(m, addr, data, idx, Mem(), whole, r);
      if r.Err? { return; }
      EvenAfterWords(addr + idx, whole / 4);
      idx := idx + whole;
      var tail := data[idx..];
      assert |tail| < 4;
      r := WriteTail(addr + idx, tail);
      assert data[idx..idx + |tail|] == tail;
      WrittenSoFar(m, addr, data, idx, Mem(), |data| - idx, r);
      assert data[..|data|] == data;
    }

    /** The words of a byte block. */
    method WriteWords(addr: int, data: seq<byte>) returns (r: Result<()>)
      requires Valid() && CswKnown() && 0 <= addr && addr + |data| <= MEM_SIZE
      requires |data| % 4 == 0 && (data != [] ==> addr % 4 == 0)
      modifies this`cachedCsw, dp, dp.probe
      ensures Valid() && LocksHeld() == old(LocksHeld())
      ensures if r.Ok? then Log() == old(Log()) else Tells(old(Log()), Log(), r.error)
      ensures r.Err? ==> Log() == old(Log()) + [Faulted(r.error)]
      ensures r.Ok? ==> CswKnown() && Mem() == Update(old(Mem()), addr, data)
      ensures r.Err? ==> Torn(old(Mem()), Mem(), addr, data)
      ensures CswKnown() || (r.Err? && !r.error.ProbeFailure?)
      ensures data == [] ==> r.Ok?
      ensures old(dp.probe.hw.ap.csw) == csw + SizeCode(32) ==> CswKnown()
    {
      hide *;
      UpdateNothing(Mem(), addr);
      if data == [] { return Ok(()); }
      ghost var m := Mem();
      var data32 := ByteListToU32leList(data, 0);
      assert Unpacked(data32) == data;
      r := WriteMemoryBlock32(addr, data32);
      if r.Err? {
        TornWordsAreTorn(m, Mem(), addr, data32);
        FaultTells(old(Log()), r.error);
      }
    }

    /** The leading byte and halfword of a byte block; `idx` bytes are done. */
    method WriteHead(addr: int, data: seq<byte>) returns (r: Result<()>, idx: nat)
      requires Valid() && CswKnown() && 0 <= addr && addr + |data| <= MEM_SIZE
      modifies this`cachedCsw, dp, dp.probe
      ensures Valid() && LocksHeld() == old(LocksHeld()) && idx <= |data|
      ensures if r.Ok? then Log() == old(Log()) else Tells(old(Log()), Log(), r.error)
      ensures r.Err? && 8 in transferSizes && 16 in transferSizes ==> Log() == old(Log()) + [Faulted(r.error)]
      ensures r.Ok? ==> CswKnown() && Mem() == Update(old(Mem()), addr, data[..idx])
      ensures r.Ok? ==> idx == HeadSize(addr, |data|)
      ensures HeadSize(addr, |data|) == 0 ==> r.Ok? && dp.probe.hw.ap.csw == old(dp.probe.hw.ap.csw)
      ensures r.Err? ==> Torn(old(Mem()), Mem(), addr, data)
      ensures CswKnown() || (r.Err? && !r.error.ProbeFailure?)
    {
      hide *;
      HeadIs(addr, |data|);
      ghost var m := Mem();
      idx := 0;
      r := Ok(());
      UpdateNothing(m, addr);
      assert data[..0] == [];
      if |data| > 0 && addr % 2 == 1 {
        r := Write8(addr, data[0]);
        assert data[0..1] == [data[0]];
        WrittenSoFar(m, addr, data, 0, Mem(), 1, r);
        if r.Err? { return; }
        idx := 1;
      }
      if |data| - idx > 1 && (addr + idx) / 2 % 2 == 1 {
        r := Write16(addr + idx, data[idx], data[idx + 1]);
        assert data[idx..idx + 2] == [data[idx], data[idx + 1]];
        WrittenSoFar(m, addr, data, idx, Mem(), 2, r);
        if r.Err? { return; }
        idx := idx + 2;
      }
    }

    /** The trailing halfword and byte of a byte block. */
    method WriteTail(addr: int, data: seq<byte>) returns (r: Result<()>)
      requires Valid() && CswKnown() && 0 <= addr && addr + |data| <= MEM_SIZE
      requires |data| < 4 && (|data| >= 2 ==> addr % 2 == 0)
      modifies this`cachedCsw, dp, dp.probe
      ensures Valid() && LocksHeld() == old(LocksHeld())
      ensures if r.Ok? then Log() == old(Log()) else Tells(old(Log()), Log(), r.error)
      ensures r.Err? && 8 in transferSizes && 16 in transferSizes ==> Log() == old(Log()) + [Faulted(r.error)]
      ensures data == [] ==> r.Ok?
      ensures r.Ok? ==> CswKnown() && Mem() == Update(old(Mem()), addr, data)
      ensures r.Err? ==> Torn(old(Mem()), Mem(), addr, data)
      ensures CswKnown() || (r.Err? && !r.error.ProbeFailure?)
    {
      hide *;
      ghost var m := Mem();
      var idx := 0;
      r := Ok(());
      UpdateNothing(m, addr);
      assert data[..0] == [];
      if |data| > 1 {
        r := Write16(addr, data[0], data[1]);
        assert data[0..2] == [data[0], data[1]];
        WrittenSoFar(m, addr, data, 0, Mem(), 2, r);
        if r.Err? { return; }
        idx := 2;
      }
      if |data| - idx > 0 {
        r := Write8(addr + idx, data[idx]);
        assert data[idx..idx + 1] == [data[idx]];
        WrittenSoFar(m, addr, data, idx, Mem(), 1, r);
        if r.Err? { return; }
        idx := idx + 1;
      }
      assert data[..idx] == data;
    }

    method Write8(addr: int, b: byte) returns (r: Result<()>)
      requires Valid() && CswKnown() && 0 <= addr < MEM_SIZE
      modifies this`cachedCsw, dp, dp.probe
      ensures Valid() && LocksHeld() == old(LocksHeld())
      ensures if r.Ok? then Log() == old(Log()) else Tells(old(Log()), Log(), r.error)
      ensures r.Err? && 8 in transferSizes && 16 in transferSizes ==> Log() == old(Log()) + [Faulted(r.error)]
      ensures r.Ok? ==> CswKnown() && Mem() == Update(old(Mem()), addr, [b])
      ensures r.Err? ==> Torn(old(Mem()), Mem(), addr, [b])
      ensures CswKnown() || (r.Err? && !r.error.ProbeFailure?)
    {
      TornAtStart(Mem(), addr, [b]);
      r := WriteMemory(addr, b, 8);
      assert Lanes(b, 0, 1) == [b];
    }

    method Write16(addr: int, b0: byte, b1: byte) returns (r: Result<()>)
      requires Valid() && CswKnown() && 0 <= addr < MEM_SIZE - 1 && addr % 2 == 0
      modifies this`cachedCsw, dp, dp.probe
      ensures Valid() && LocksHeld() == old(LocksHeld())
      ensures if r.Ok? then Log() == old(Log()) else Tells(old(Log()), Log(), r.error)
      ensures r.Err? && 8 in transferSizes && 16 in transferSizes ==> Log() == old(Log()) + [Faulted(r.error)]
      ensures r.Ok? ==> CswKnown() && Mem() == Update(old(Mem()), addr, [b0, b1])
      ensures r.Err? ==> Torn(old(Mem()), Mem(), addr, [b0, b1])
      ensures CswKnown() || (r.Err? && !r.error.ProbeFailure?)
    {
      TornAtStart(Mem(), addr, [b0, b1]);
      r := WriteMemory(addr, b0 + 0x100 * b1, 16);
      assert Lanes(b0 + 0x100 * b1, 0, 2) == [b0, b1];
    }
  }

  /** One more piece written after `idx` bytes, or a failure inside that piece. */
  lemma WrittenSoFar(m: seq<byte>, addr: int, data: seq<byte>, idx: nat, now: seq<byte>, n: nat, r: Result<()>)
    requires 0 <= addr && addr + |data| <= |m| && idx + n <= |data|
    requires var before := Update(m, addr, data[..idx]);
             if r.Ok? then now == Update(before, addr + idx, data[idx..idx + n])
             else Torn(before, now, addr + idx, data[idx..idx + n])
    ensures if r.Ok? then now == Update(m, addr, data[..idx + n]) else Torn(m, now, addr, data)
  {
    if r.Ok? {
      UpdateConcat(m, addr, data[..idx], data[idx..idx + n]);
      SliceConcat(data, 0, idx, idx + n);
    } else {
      TornLater(m, now, addr, data, idx, n);
    }
  }

  lemma EvenAfterWords(a: int, words: nat)
    ensures a % 4 == 0 ==> (a + 4 * words) % 2 == 0
  {
    if a % 4 == 0 {
      var half := 2 * (a / 4 + words);
      assert a + 4 * words == 2 * half;
    }
  }

  lemma HalfwordBytes(bs: seq<byte>, v: int)
    requires |bs| == 2 && v == Number(bs)
    ensures v % 0x100 == bs[0] && v / 0x100 % 0x100 == bs[1]
  {
  }

  /** The words fit in memory and in one auto-increment page. */
  predicate PageSpan(addr: int, words: nat, page: nat)
  {
    && page > 0 && 0 <= addr && addr % 4 == 0
    && Offset(addr, page) + 4 * words <= page
    && addr + 4 * words <= MEM_SIZE
  }

  /** Each step of a block transfer takes at least one word and stays in its page. */
  lemma PageStep(a: int, words: nat, page: nat)
    requires 0 <= a && a % 4 == 0 && words > 0 && a + 4 * words <= MEM_SIZE
    requires page >= 4 && page % 4 == 0
    ensures var left := page - Offset(a, page);
            var n := if words * 4 < left then words * 4 else left;
            0 < n <= 4 * words && n % 4 == 0 && PageSpan(a, n / 4, page)
  {
    OffsetAligned(a, page);
  }
}

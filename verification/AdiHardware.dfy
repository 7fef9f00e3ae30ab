/**
 The hardware on the far side of the probe, as small as the Arm Debug Interface lets it be:
 a debug port with a SELECT register, banked DP registers, and one MEM-AP (CSW, TAR, DRW) in front of
 a flat byte memory (ADIv5.2, chapters B2 and C2; ADIv6 widens SELECT to whole AP addresses).
 Every access may fail; a failed access changes nothing.
 */
module AdiHardware {
  import opened BitFields
  import opened Bytes

  datatype AdiError =
    | TransferFault | TransferTimeout | TransferProtocol | TransferOther
    | ProbeFailure
    | BadAddress     // not word aligned; nothing was sent

  datatype Result<+T> = Ok(value: T) | Err(error: AdiError)

  /** Transfer errors are target errors; a probe failure or a bad address is not. */
  predicate IsTargetError(e: AdiError) {
    !e.ProbeFailure? && !e.BadAddress?
  }

  // DP register addresses and SELECT fields.
  const DP_ABORT: bv32 := 0x0
  const DP_CTRL_STAT: bv32 := 0x4
  const DP_SELECT: bv32 := 0x8
  const DP_RDBUFF: bv32 := 0xC
  const SELECT_DPBANKSEL_MASK: bv32 := 0xF
  const APSEL_APBANKSEL: bv32 := 0xFF00_00F0
  const SELECT_APADDR_MASK: bv32 := 0xFFFF_FFF0
  const A32: bv32 := 0xC

  // MEM-AP register offsets.
  const MEM_AP_CSW: bv32 := 0x0
  const MEM_AP_TAR: bv32 := 0x4
  const MEM_AP_DRW: bv32 := 0xC

  /** What is fixed about the link: DP version, what the probe does on its own, and where the MEM-AP sits. */
  datatype Config = Config(
    dpv3: bool,
    probeManagesApSelect: bool,
    probeManagesDpBank: bool,
    probeSupportsDpBank: bool,
    memApBase: bv32,   // address of CSW; TAR and DRW follow in the same bank
    wrap: nat)         // the range over which TAR really increments
  {
    ghost predicate Valid() {
      && Masked(memApBase, ApMask(this)) == memApBase
      && wrap >= 4 && wrap % 4 == 0 && Divides(wrap, MEM_SIZE)
    }
  }

  /** The part of SELECT that chooses AP and bank: APSEL and APBANKSEL in ADIv5, the AP address in ADIv6. */
  function ApMask(cfg: Config): bv32 {
    if cfg.dpv3 then SELECT_APADDR_MASK else APSEL_APBANKSEL
  }

  /** The state behind the access port: the MEM-AP's registers, the memory it drives, and all other AP registers. */
  datatype ApState = ApState(csw: word, tar: int, mem: seq<byte>, other: map<bv32, word>)

  datatype Hw = Hw(select: bv32, dpRegs: map<bv32, bv32>, ap: ApState)

  // ---- DP registers ----

  /** The registers for which DPBANKSEL matters: CTRL/STAT always, address 0 for DPv3 reads. */
  predicate HonoursDpBank(cfg: Config, addr: bv32, isWrite: bool) {
    addr == DP_CTRL_STAT || (addr == DP_ABORT && cfg.dpv3 && !isWrite)
  }

  /** The register an access really reaches, as bank in bits 7:4 and address in bits 3:0. A probe that
      manages DPBANKSEL itself is only given the four address bits, so it selects bank 0. */
  function DpRegisterHit(cfg: Config, select: bv32, addr: bv32, isWrite: bool): bv32 {
    if HonoursDpBank(cfg, addr, isWrite) && !cfg.probeManagesDpBank
    then addr | ((select & SELECT_DPBANKSEL_MASK) << 4)
    else addr
  }

  function DpRead(cfg: Config, hw: Hw, addr: bv32): bv32 {
    var r := DpRegisterHit(cfg, hw.select, addr, false);
    if r in hw.dpRegs then hw.dpRegs[r] else 0
  }

  function DpWrite(cfg: Config, hw: Hw, addr: bv32, data: bv32): Hw {
    if addr == DP_SELECT
    then hw.(select := data)
    else hw.(dpRegs := hw.dpRegs[DpRegisterHit(cfg, hw.select, addr, true) := data])
  }

  // ---- AP registers ----

  /** The address an AP access reaches: AP and bank from SELECT, A[3:2] from the request. */
  function SelectedAddress(mask: bv32, select: bv32, addr: bv32): bv32 {
    Masked(select, mask) | (addr & A32)
  }

  /** The address the caller asked for. */
  function AskedAddress(mask: bv32, addr: bv32): bv32 {
    addr & (mask | A32)
  }

  function ApAddressHit(cfg: Config, select: bv32, addr: bv32): bv32 {
    if cfg.probeManagesApSelect then AskedAddress(ApMask(cfg), addr)
    else SelectedAddress(ApMask(cfg), select, addr)
  }

  datatype ApReg = Csw | Tar | Drw | OtherReg(addr: bv32)

  /** The register behind an AP address. */
  function ApRegAt(base: bv32, address: bv32): ApReg {
    if address == base + MEM_AP_CSW then Csw
    else if address == base + MEM_AP_TAR then Tar
    else if address == base + MEM_AP_DRW then Drw
    else OtherReg(address)
  }

  /** The AP register a caller means by an address. */
  function AskedReg(mask: bv32, base: bv32, address: bv32): ApReg {
    ApRegAt(base, AskedAddress(mask, address))
  }

  /** The position of an address in its aligned block: for a power of two, addr & (block - 1). */
  function Offset(addr: nat, block: nat): (r: nat)
    requires block > 0
    ensures r < block && r <= addr
    decreases addr
  {
    if addr < block then addr else Offset(addr - block, block)
  }

  /** `total` is a whole number of blocks. */
  predicate Divides(block: nat, total: nat)
    requires block > 0
    decreases total
  {
    total == 0 || (total >= block && Divides(block, total - block))
  }

  lemma {:induction false} OffsetIsRemainder(addr: nat, block: nat)
    requires block > 0
    ensures Offset(addr, block) == addr % block
    decreases addr
  {
    if addr >= block {
      OffsetIsRemainder(addr - block, block);
      RemainderSkipsBlock(addr - block, block);
    }
  }

  lemma {:induction false} DividesIsNoRemainder(block: nat, total: nat)
    requires block > 0
    ensures Divides(block, total) <==> total % block == 0
    decreases total
  {
    if total >= block {
      DividesIsNoRemainder(block, total - block);
      RemainderSkipsBlock(total - block, block);
    }
  }

  lemma RemainderSkipsBlock(a: nat, block: nat)
    requires block > 0
    ensures (a + block) % block == a % block
  {
    var d := (a + block) / block - a / block - 1;
    assert d * block == a % block - (a + block) % block;
    assert d == 0 by {
      if d >= 1 { MulGrows(d, block); }
      if d <= -1 { MulGrows(-d, block); }
    }
  }

  lemma MulGrows(d: int, m: int)
    requires d >= 1 && m > 0
    ensures d * m >= m
  {
  }

  function TransferBytes(csw: word): nat {
    if csw % 8 == 0 then 1 else if csw % 8 == 1 then 2 else 4
  }

  predicate SingleIncrement(csw: word) {
    csw / 16 % 4 == 1
  }

  /** CSW by its fields: the transfer size in bits 2:0, the address increment in bits 5:4. */
  lemma CswByFields(rest: nat, increment: nat, between: nat, size: nat)
    requires rest < 0x400_0000 && increment < 4 && between < 2 && size < 3
    ensures var csw := 64 * rest + 16 * increment + 8 * between + size;
            && csw < 0x1_0000_0000
            && (SingleIncrement(csw) <==> increment == 1)
            && TransferBytes(csw) == if size == 0 then 1 else if size == 1 then 2 else 4
  {
    var csw := 64 * rest + 16 * increment + 8 * between + size;
    var eighths, sixteenths := 8 * rest + 2 * increment + between, 4 * rest + increment;
    assert csw == 8 * eighths + size && csw == 16 * sixteenths + (8 * between + size);
  }

  /** `tar` advanced by `n`: the low bits wrap at `wrap`, the high bits never change. */
  function WrapAdd(tar: nat, n: nat, wrap: nat): (r: nat)
    requires wrap > 0
  {
    var low := Offset(tar, wrap);
    tar - low + Offset(low + n, wrap)
  }

  function NextTar(cfg: Config, ap: ApState): int
    requires cfg.wrap > 0 && ap.tar >= 0
  {
    if SingleIncrement(ap.csw) then WrapAdd(ap.tar, TransferBytes(ap.csw), cfg.wrap) else ap.tar
  }

  /** A data access is only defined when it is naturally aligned, in memory, and of a supported size. */
  predicate Defined(cfg: Config, ap: ApState, reg: ApReg) {
    reg.Drw? ==>
      && cfg.wrap > 0
      && ap.csw % 8 <= 2
      && |ap.mem| == MEM_SIZE
      && 0 <= ap.tar <= MEM_SIZE - TransferBytes(ap.csw)
      && Aligned(ap.tar, TransferBytes(ap.csw))
  }

  /** Natural alignment for the three transfer sizes. */
  predicate Aligned(addr: int, n: int) {
    n == 1 || (n == 2 && addr % 2 == 0) || (n == 4 && addr % 4 == 0)
  }

  /** A naturally aligned transfer never leaves its word. */
  lemma AlignedLanesFit(tar: int, csw: word)
    requires 0 <= tar && Aligned(tar, TransferBytes(csw))
    ensures tar % 4 + TransferBytes(csw) <= 4
  {
    if TransferBytes(csw) == 2 {
      assert tar == 2 * (tar / 2);
      assert tar % 4 == 0 || tar % 4 == 2;
    }
  }

  function ApWrite(cfg: Config, ap: ApState, reg: ApReg, data: word): ApState
    requires Defined(cfg, ap, reg)
  {
    match reg
    case Csw => ap.(csw := data)
    case Tar => ap.(tar := data)
    case Drw =>
      AlignedLanesFit(ap.tar, ap.csw);
      ap.(mem := Update(ap.mem, ap.tar, Lanes(data, ap.tar % 4, TransferBytes(ap.csw))),
          tar := NextTar(cfg, ap))
    case OtherReg(a) => ap.(other := ap.other[a := data])
  }

  function ApReadNext(cfg: Config, ap: ApState, reg: ApReg): ApState
    requires Defined(cfg, ap, reg)
  {
    if reg.Drw? then ap.(tar := NextTar(cfg, ap)) else ap
  }

  /** Which values a read may return: only the addressed lanes of DRW are determined by memory. */
  predicate ApReadMay(cfg: Config, ap: ApState, reg: ApReg, v: word)
    requires Defined(cfg, ap, reg)
  {
    match reg
    case Csw => v == ap.csw
    case Tar => v == ap.tar
    case Drw =>
      AlignedLanesFit(ap.tar, ap.csw);
      var n := TransferBytes(ap.csw);
      Lanes(v, ap.tar % 4, n) == ap.mem[ap.tar..ap.tar + n]
    case OtherReg(a) => v == if a in ap.other then ap.other[a] else 0
  }

  // ---- Arithmetic of the wrapping address ----

  lemma {:induction false} OffsetInside(a: nat, k: nat, block: nat)
    requires block > 0 && Offset(a, block) + k < block
    ensures Offset(a + k, block) == Offset(a, block) + k
    decreases a
  {
    if a >= block {
      OffsetInside(a - block, k, block);
    }
  }

  lemma {:induction false} OffsetAligned(a: nat, block: nat)
    requires block > 0 && block % 4 == 0 && a % 4 == 0
    ensures Offset(a, block) % 4 == 0
    decreases a
  {
    if a >= block {
      OffsetAligned(a - block, block);
    }
  }

  /** The last word before a multiple of the block is the last word of a block. */
  lemma {:induction false} OffsetOfLastWord(total: nat, block: nat)
    requires block >= 4 && Divides(block, total) && total > 0
    ensures total >= block && Offset(total - 4, block) == block - 4
    decreases total
  {
    if total > block {
      OffsetOfLastWord(total - block, block);
    }
  }

  /** Inside one block of `wrap` bytes the wrapping address just advances. */
  lemma WrapAddInside(tar: nat, n: nat, wrap: nat)
    requires wrap > 0 && Offset(tar, wrap) + n < wrap
    ensures WrapAdd(tar, n, wrap) == tar + n && Offset(tar + n, wrap) == Offset(tar, wrap) + n
  {
    OffsetInside(tar, n, wrap);
  }

  // ---- Repeated transfers through DRW ----

  /** The MEM-AP is set up for a block of words: 32-bit size, single increment, aligned TAR. */
  ghost predicate BlockReady(cfg: Config, ap: ApState) {
    && cfg.Valid()
    && ap.csw % 8 == 2 && SingleIncrement(ap.csw)
    && |ap.mem| == MEM_SIZE
    && 0 <= ap.tar <= MEM_SIZE - 4 && ap.tar % 4 == 0
  }

  lemma NextTarStaysReady(cfg: Config, ap: ApState)
    requires BlockReady(cfg, ap)
    ensures BlockReady(cfg, ap.(tar := NextTar(cfg, ap)))
    ensures Offset(ap.tar, cfg.wrap) + 4 < cfg.wrap ==>
              && NextTar(cfg, ap) == ap.tar + 4
              && Offset(NextTar(cfg, ap), cfg.wrap) == Offset(ap.tar, cfg.wrap) + 4
  {
    assert TransferBytes(ap.csw) == 4 && SingleIncrement(ap.csw);
    WrapAddInRange(ap.tar, cfg.wrap);
  }

  /** The wrapping address stays an aligned word address in memory. */
  lemma WrapAddInRange(tar: nat, wrap: nat)
    requires wrap >= 4 && wrap % 4 == 0 && Divides(wrap, MEM_SIZE)
    requires tar <= MEM_SIZE - 4 && tar % 4 == 0
    ensures 0 <= WrapAdd(tar, 4, wrap) <= MEM_SIZE - 4 && WrapAdd(tar, 4, wrap) % 4 == 0
    ensures Offset(tar, wrap) + 4 < wrap ==>
              WrapAdd(tar, 4, wrap) == tar + 4 && Offset(tar + 4, wrap) == Offset(tar, wrap) + 4
  {
    OffsetAligned(tar, wrap);
    OffsetOfLastWord(MEM_SIZE, wrap);
    assert Offset(wrap, wrap) == Offset(0, wrap) == 0;
    var low := Offset(tar, wrap);
    FoursApart(low, wrap);
    FoursApart(tar, MEM_SIZE - 4);
    FoursApart(low, tar);
    hide Divides, Offset;
    if low + 4 < wrap {
      WrapAddInside(tar, 4, wrap);
      assert tar != MEM_SIZE - 4;
    }
  }

  /** Multiples of 4: the smaller one is at least 4 less, and their difference and successor are multiples of 4. */
  lemma FoursApart(a: int, b: int)
    requires a % 4 == 0 && b % 4 == 0
    ensures a < b ==> a + 4 <= b
    ensures (b - a) % 4 == 0 && (a + 4) % 4 == 0 && (b + 4) % 4 == 0
  {
  }

  /** The AP after the words `ws` were written to DRW one after another. */
  ghost function WriteDrwAll(cfg: Config, ap: ApState, ws: seq<word>): (r: ApState)
    requires BlockReady(cfg, ap)
    ensures BlockReady(cfg, r)
    decreases |ws|
  {
    if ws == [] then ap
    else
      NextTarStaysReady(cfg, ap);
      WriteDrwAll(cfg, ApWrite(cfg, ap, Drw, ws[0]), ws[1..])
  }

  /** The AP after `n` words were read from DRW. */
  ghost function ReadDrwNext(cfg: Config, ap: ApState, n: nat): (r: ApState)
    requires BlockReady(cfg, ap)
    ensures BlockReady(cfg, r) && r == ap.(tar := r.tar)
    decreases n
  {
    if n == 0 then ap
    else
      NextTarStaysReady(cfg, ap);
      ReadDrwNext(cfg, ApReadNext(cfg, ap, Drw), n - 1)
  }

  /** The values that reading DRW |ws| times may deliver. */
  ghost predicate ReadDrwMay(cfg: Config, ap: ApState, ws: seq<word>)
    requires BlockReady(cfg, ap)
    decreases |ws|
  {
    ws == [] ||
    (NextTarStaysReady(cfg, ap);
     && ApReadMay(cfg, ap, Drw, ws[0])
     && ReadDrwMay(cfg, ApReadNext(cfg, ap, Drw), ws[1..]))
  }

  lemma {:induction false} WriteDrwSnoc(cfg: Config, ap: ApState, ws: seq<word>, w: word)
    requires BlockReady(cfg, ap)
    ensures WriteDrwAll(cfg, ap, ws + [w]) == ApWrite(cfg, WriteDrwAll(cfg, ap, ws), Drw, w)
    decreases |ws|
  {
    if ws == [] {
      assert ([] + [w])[1..] == [];
    } else {
      NextTarStaysReady(cfg, ap);
      assert (ws + [w])[1..] == ws[1..] + [w];
      WriteDrwSnoc(cfg, ApWrite(cfg, ap, Drw, ws[0]), ws[1..], w);
    }
  }

  lemma {:induction false} ReadDrwSnoc(cfg: Config, ap: ApState, ws: seq<word>, w: word)
    requires BlockReady(cfg, ap) && ReadDrwMay(cfg, ap, ws)
    requires ApReadMay(cfg, ReadDrwNext(cfg, ap, |ws|), Drw, w)
    ensures ReadDrwMay(cfg, ap, ws + [w])
    ensures ReadDrwNext(cfg, ap, |ws| + 1) == ApReadNext(cfg, ReadDrwNext(cfg, ap, |ws|), Drw)
    decreases |ws|
  {
    NextTarStaysReady(cfg, ap);
    if ws == [] {
      assert ([] + [w])[1..] == [];
    } else {
      assert (ws + [w])[1..] == ws[1..] + [w];
      ReadDrwSnoc(cfg, ApReadNext(cfg, ap, Drw), ws[1..], w);
    }
  }

  /** As long as the block does not pass the wrap boundary, the words land one after another in memory. */
  lemma {:induction false} WriteDrwAllIsFlat(cfg: Config, ap: ApState, ws: seq<word>)
    requires BlockReady(cfg, ap)
    requires Offset(ap.tar, cfg.wrap) + 4 * |ws| <= cfg.wrap && ap.tar + 4 * |ws| <= MEM_SIZE
    ensures var r := WriteDrwAll(cfg, ap, ws);
            r == ap.(mem := Update(ap.mem, ap.tar, Unpacked(ws)), tar := r.tar)
    decreases |ws|
  {
    if ws == [] {
      assert ap.mem == ap.mem[..ap.tar] + [] + ap.mem[ap.tar..];
    } else {
      NextTarStaysReady(cfg, ap);
      var next := ApWrite(cfg, ap, Drw, ws[0]);
      var first := Lanes(ws[0], 0, 4);
      if |ws| == 1 {
        assert ws[1..] == [];
        assert Unpacked(ws) == first + [] == first;
      } else {
        WriteDrwAllIsFlat(cfg, next, ws[1..]);
        UpdateConcat(ap.mem, ap.tar, first, Unpacked(ws[1..]));
      }
    }
  }

  /** A block read that does not pass the wrap boundary delivers the bytes at TAR. */
  lemma {:induction false} ReadDrwIsFlat(cfg: Config, ap: ApState, ws: seq<word>)
    requires BlockReady(cfg, ap) && ReadDrwMay(cfg, ap, ws)
    requires Offset(ap.tar, cfg.wrap) + 4 * |ws| <= cfg.wrap && ap.tar + 4 * |ws| <= MEM_SIZE
    ensures Unpacked(ws) == ap.mem[ap.tar..ap.tar + 4 * |ws|]
    decreases |ws|
  {
    if ws != [] {
      NextTarStaysReady(cfg, ap);
      var first := Lanes(ws[0], 0, 4);
      assert first == ap.mem[ap.tar..ap.tar + 4];
      if |ws| == 1 {
        assert Unpacked(ws) == first + [] == first;
      } else {
        ReadDrwIsFlat(cfg, ApReadNext(cfg, ap, Drw), ws[1..]);
        SliceConcat(ap.mem, ap.tar, ap.tar + 4, ap.tar + 4 * |ws|);
      }
    }
  }

  // ---- The probe ----

  /** An access that failed at the hardware, or that the driver refused because the AP has no transfers of its size. */
  datatype Failure = Faulted(error: AdiError) | Unsupported

  /** Since `before` one thing failed, and `e` reports it. */
  ghost predicate Tells(before: seq<Failure>, after: seq<Failure>, e: AdiError) {
    after == before + [Faulted(e)] || (e.TransferOther? && after == before + [Unsupported])
  }

  lemma FaultTells(before: seq<Failure>, e: AdiError)
    ensures Tells(before, before + [Faulted(e)], e)
  {
  }

  /** A request that was issued, and whose result will be delivered. */
  predicate BothOk<T>(r: Result<Result<T>>) {
    r.Ok? && r.value.Ok?
  }

  function ErrorOf<T>(r: Result<Result<T>>): AdiError
    requires !BothOk(r)
  {
    if r.Err? then r.error else r.value.error
  }

  /** Every access since `was` was made with the lock held to `depth`. */
  ghost predicate AllAt(was: seq<int>, now: seq<int>, depth: int) {
    was <= now && forall i :: |was| <= i < |now| ==> now[i] == depth
  }

  lemma AllAtStart(was: seq<int>, depth: int)
    ensures AllAt(was, was, depth) && AllAt(was, was + [depth], depth)
  {
  }

  class Probe {
    const cfg: Config
    var hw: Hw
    var lockDepth: int   // recursion depth of the probe's lock
    ghost var failures: seq<Failure>   // what failed, in order
    ghost var apDepths: seq<int>       // how deep the lock was held at each AP access

    constructor (cfg: Config, hw: Hw)
      ensures this.cfg == cfg && this.hw == hw && lockDepth == 0
    {
      this.cfg := cfg;
      this.hw := hw;
      lockDepth := 0;
    }

    /** The AP register an access to `addr` reaches now. */
    function Target(addr: bv32): ApReg
      reads this`hw
    {
      ApRegAt(cfg.memApBase, ApAddressHit(cfg, hw.select, addr))
    }

    method Lock()
      modifies this`lockDepth
      ensures lockDepth == old(lockDepth) + 1
    {
      lockDepth := lockDepth + 1;
    }

    method Unlock()
      modifies this`lockDepth
      ensures lockDepth == old(lockDepth) - 1
    {
      lockDepth := lockDepth - 1;
    }

    method WriteDp(addr: bv32, data: bv32) returns (r: Result<()>)
      modifies this`hw, this`failures
      ensures r.Ok? ==> hw == DpWrite(cfg, old(hw), addr, data) && failures == old(failures)
      ensures r.Err? ==> hw == old(hw) && failures == old(failures) + [Faulted(r.error)]
    {
      if * {
        var e: AdiError := *;
        failures := failures + [Faulted(e)];
        return Err(e);
      }
      hw := DpWrite(cfg, hw, addr, data);
      return Ok(());
    }

    /** The outer result is the issue of the request, the inner one what its callback will deliver. */
    method ReadDp(addr: bv32) returns (r: Result<Result<bv32>>)
      modifies this`failures
      ensures r.Ok? && r.value.Ok? ==> r.value.value == DpRead(cfg, hw, addr) && failures == old(failures)
      ensures BothOk(r) || failures == old(failures) + [Faulted(ErrorOf(r))]
    {
      if * {
        var e: AdiError := *;
        failures := failures + [Faulted(e)];
        return Err(e);
      }
      if * {
        var e: AdiError := *;
        failures := failures + [Faulted(e)];
        return Ok(Err(e));
      }
      return Ok(Ok(DpRead(cfg, hw, addr)));
    }

    /** Error recovery: ABORT always gets through. */
    method Abort(flags: bv32)
      modifies this`hw
      ensures hw == old(hw).(dpRegs := old(hw.dpRegs)[DP_ABORT := flags])
    {
      assert DpRegisterHit(cfg, hw.select, DP_ABORT, true) == DP_ABORT;
      hw := DpWrite(cfg, hw, DP_ABORT, flags);
    }

    /** An SWD line reset; nothing is assumed about SELECT afterwards. */
    method LineReset()
      modifies this`hw
      ensures hw == old(hw).(select := hw.select)
    {
      var s: bv32 := *;
      hw := hw.(select := s);
    }

    method WriteAp(addr: bv32, data: word) returns (r: Result<()>)
      requires Defined(cfg, hw.ap, Target(addr))
      modifies this`hw, this`failures, this`apDepths
      ensures r.Ok? ==> hw == old(hw).(ap := ApWrite(cfg, old(hw.ap), old(Target(addr)), data)) && failures == old(failures)
      ensures r.Err? ==> hw == old(hw) && failures == old(failures) + [Faulted(r.error)]
      ensures apDepths == old(apDepths) + [lockDepth]
    {
      apDepths := apDepths + [lockDepth];
      if * {
        var e: AdiError := *;
        failures := failures + [Faulted(e)];
        return Err(e);
      }
      hw := hw.(ap := ApWrite(cfg, hw.ap, Target(addr), data));
      return Ok(());
    }

    method ReadAp(addr: bv32) returns (r: Result<Result<word>>)
      requires Defined(cfg, hw.ap, Target(addr))
      modifies this`hw, this`failures, this`apDepths
      ensures r.Ok? && r.value.Ok? ==>
                && ApReadMay(cfg, old(hw.ap), old(Target(addr)), r.value.value)
                && hw == old(hw).(ap := ApReadNext(cfg, old(hw.ap), old(Target(addr))))
                && failures == old(failures)
      ensures BothOk(r) || (hw == old(hw) && failures == old(failures) + [Faulted(ErrorOf(r))])
      ensures apDepths == old(apDepths) + [lockDepth]
    {
      apDepths := apDepths + [lockDepth];
      if * {
        var e: AdiError := *;
        failures := failures + [Faulted(e)];
        return Err(e);
      }
      var reg := Target(addr);
      var v: word := *;
      if ApReadMay(cfg, hw.ap, reg, v) {
        hw := hw.(ap := ApReadNext(cfg, hw.ap, reg));
        return Ok(Ok(v));
      }
      var e: AdiError := *;
      failures := failures + [Faulted(e)];
      return Ok(Err(e));
    }

    /** Writes the words to one register in turn, stopping at the first fault. */
    method WriteApMultiple(addr: bv32, values: seq<word>) returns (r: Result<()>)
      requires BlockReady(cfg, hw.ap) && Target(addr) == Drw
      modifies this`hw, this`failures, this`apDepths
      ensures r.Ok? ==> hw == old(hw).(ap := WriteDrwAll(cfg, old(hw.ap), values))
      ensures r.Err? ==> exists k :: 0 <= k <= |values| && hw == old(hw).(ap := WriteDrwAll(cfg, old(hw.ap), values[..k]))
      ensures failures == if r.Ok? then old(failures) else old(failures) + [Faulted(r.error)]
      ensures AllAt(old(apDepths), apDepths, lockDepth)
    {
      for i := 0 to |values|
        invariant hw == old(hw).(ap := WriteDrwAll(cfg, old(hw.ap), values[..i]))
        invariant failures == old(failures) && AllAt(old(apDepths), apDepths, lockDepth)
      {
        WriteDrwSnoc(cfg, old(hw.ap), values[..i], values[i]);
        assert values[..i + 1] == values[..i] + [values[i]];
        r := WriteAp(addr, values[i]);
        if r.Err? { return; }
      }
      assert values[..|values|] == values;
      return Ok(());
    }

    method ReadApMultiple(addr: bv32, count: nat) returns (r: Result<Result<seq<word>>>)
      requires BlockReady(cfg, hw.ap) && Target(addr) == Drw
      modifies this`hw, this`failures, this`apDepths
      ensures r.Ok? && r.value.Ok? ==>
                && |r.value.value| == count
                && ReadDrwMay(cfg, old(hw.ap), r.value.value)
      ensures hw == old(hw).(ap := old(hw.ap).(tar := hw.ap.tar))
      ensures failures == if BothOk(r) then old(failures) else old(failures) + [Faulted(ErrorOf(r))]
      ensures AllAt(old(apDepths), apDepths, lockDepth)
    {
      var ws: seq<word> := [];
      for i := 0 to count
        invariant |ws| == i && ReadDrwMay(cfg, old(hw.ap), ws)
        invariant hw == old(hw).(ap := ReadDrwNext(cfg, old(hw.ap), i))
        invariant failures == old(failures) && AllAt(old(apDepths), apDepths, lockDepth)
      {
        var one := ReadAp(addr);
        if one.Err? { return Err(one.error); }
        if one.value.Err? { return Ok(Err(one.value.error)); }
        ReadDrwSnoc(cfg, old(hw.ap), ws, one.value.value);
        ws := ws + [one.value.value];
      }
      return Ok(Ok(ws));
    }
  }
}

/** The debug port driver: elided SELECT writes, DP banking, deferred reads and the lock they hold. */
module DebugPorts {
  import opened BitFields
  import opened Bytes
  import opened AdiHardware

  const ABORT_DAPABORT: bv32 := 0x1
  const ABORT_CLEAR_STICKY: bv32 := 0x1E   // ORUNERRCLR | WDERRCLR | STKERRCLR | STKCMPCLR

  /** The DP register a caller means by `addr`: the bank counts only where it is honoured. */
  function DpRegisterAsked(cfg: Config, addr: bv32, isWrite: bool): bv32 {
    if HonoursDpBank(cfg, addr & 0xF, isWrite) then addr & 0xFF else addr & 0xF
  }

  /** Exactly when a DP access cannot reach the bank it names: the probe manages DPBANKSEL, claims to support
      banked registers, and a bank other than 0 of a banked register is asked for. */
  predicate DpBankIsLost(cfg: Config, addr: bv32, isWrite: bool) {
    && cfg.probeManagesDpBank
    && HonoursDpBank(cfg, addr & 0xF, isWrite)
    && addr & 0xF0 != 0
  }

  /** The register holds `value`: setting it to that changes nothing. */
  ghost predicate Holds(regs: map<bv32, bv32>, addr: bv32, value: bv32) {
    exists before :: regs == Written(before, addr, value)
  }

  function Written(regs: map<bv32, bv32>, addr: bv32, value: bv32): map<bv32, bv32> {
    regs[addr := value]
  }

  /** A probe that manages DPBANKSEL but has no banked registers is asked for one. */
  predicate BankRefused(cfg: Config, addr: bv32, isWrite: bool) {
    && cfg.probeManagesDpBank && !cfg.probeSupportsDpBank
    && HonoursDpBank(cfg, addr & 0xF, isWrite) && addr & 0xF0 != 0
  }

  /** Why a DP access raised: its address, its bank, or the hardware. */
  ghost predicate DpFails(
    cfg: Config, addr: bv32, isWrite: bool, before: seq<Failure>, after: seq<Failure>, error: AdiError)
  {
    if addr & 0x3 != 0 then error.BadAddress? && after == before
    else if BankRefused(cfg, addr, isWrite) then error.ProbeFailure? && after == before
    else after == before + [Faulted(error)]
  }

  /** The software's own list of registers without a bank agrees with the hardware's. */
  predicate IgnoresDpBank(cfg: Config, addr: bv32, isWrite: bool) {
    if cfg.dpv3 && !isWrite
    then addr & 0xF == DP_SELECT || addr & 0xF == DP_RDBUFF
    else addr & 0xF == DP_ABORT || addr & 0xF == DP_SELECT || addr & 0xF == DP_RDBUFF
  }

  lemma IgnoringIsNotHonouring(cfg: Config, addr: bv32, isWrite: bool)
    requires addr & 0x3 == 0
    ensures IgnoresDpBank(cfg, addr, isWrite) <==> !HonoursDpBank(cfg, addr & 0xF, isWrite)
  {
    assert addr & 0xF == 0x0 || addr & 0xF == 0x4 || addr & 0xF == 0x8 || addr & 0xF == 0xC;
  }

  /** The access reaches the register it names exactly when its bank is not lost. */
  lemma DpAccessHits(cfg: Config, select: bv32, addr: bv32, isWrite: bool)
    requires HonoursDpBank(cfg, addr & 0xF, isWrite) && !cfg.probeManagesDpBank ==>
               Masked(select, SELECT_DPBANKSEL_MASK) == (addr & 0xF0) >> 4
    ensures DpRegisterHit(cfg, select, addr & 0xF, isWrite) == DpRegisterAsked(cfg, addr, isWrite)
            <==> !DpBankIsLost(cfg, addr, isWrite)
  {
    if HonoursDpBank(cfg, addr & 0xF, isWrite) {
      BankPartsJoin(addr);
    }
  }

  lemma BankPartsJoin(addr: bv32)
    ensures (addr & 0xF) | (((addr & 0xF0) >> 4) << 4) == addr & 0xFF
    ensures addr & 0xF == addr & 0xFF <==> addr & 0xF0 == 0
  {
  }

  lemma ReplacedField(mask: bv32, select: bv32, value: bv32)
    requires Masked(value, mask) == value
    ensures Masked(Replaced(select, mask, value), mask) == value
  {
  }

  lemma ReplacedKeepsRest(mask: bv32, select: bv32, value: bv32)
    requires Masked(value, mask) == value
    ensures Masked(Replaced(select, mask, value), !mask) == Masked(select, !mask)
  {
  }

  lemma ReplacedInPlace(mask: bv32, select: bv32, value: bv32)
    requires Masked(select, mask) == value
    ensures Replaced(select, mask, value) == select
  {
  }

  lemma FieldIsIdempotent(mask: bv32, x: bv32)
    ensures Masked(Masked(x, mask), mask) == Masked(x, mask)
  {
  }

  lemma SelectedIsAsked(mask: bv32, select: bv32, addr: bv32)
    requires Masked(select, mask) == Masked(addr, mask)
    ensures SelectedAddress(mask, select, addr) == AskedAddress(mask, addr)
  {
  }

  /** Once SELECT carries the AP and bank of `addr`, an access to `addr` reaches exactly that register. */
  lemma ApAccessHits(cfg: Config, select: bv32, addr: bv32)
    requires !cfg.probeManagesApSelect ==> Masked(select, ApMask(cfg)) == Masked(addr, ApMask(cfg))
    ensures ApAddressHit(cfg, select, addr) == AskedAddress(ApMask(cfg), addr)
  {
    if !cfg.probeManagesApSelect {
      SelectedIsAsked(ApMask(cfg), select, addr);
    }
  }

  // ---- The lock ----

  /** How deep the probe's lock is held, and what for. `outstanding` says of each callback not yet invoked whether its
      read took the lock; `leaked` counts the SELECT writes that raised with the lock taken. */
  datatype Locks = Locks(depth: int, leaked: nat, outstanding: map<object, bool>)

  datatype LockEvent =
    | Begin(cb: object, didLock: bool)   // a deferred read that gave a callback
    | InvokeCallback(cb: object)         // its callback, whether it delivers or raises
    | Completed                          // any other access
    | Refused(leaks: bool)               // an access that raised; a leak when its SELECT write did

  function Taken(s: Locks, didLock: bool): Locks {
    s.(depth := s.depth + if didLock then 1 else 0)
  }

  ghost predicate LockStep(s: Locks, e: LockEvent, t: Locks) {
    match e
    case Begin(cb, didLock) =>
      cb !in s.outstanding && t == Taken(s, didLock).(outstanding := s.outstanding[cb := didLock])
    case InvokeCallback(cb) =>
      && cb in s.outstanding
      && t == s.(depth := s.depth - (if s.outstanding[cb] then 1 else 0), outstanding := s.outstanding - {cb})
    case Completed => t == s
    case Refused(leaks) => t == if leaks then s.(depth := s.depth + 1, leaked := s.leaked + 1) else s
  }

  /** How deep the lock is held at an AP access: taken once more, unless the probe selects the AP by itself. */
  function ApDepth(cfg: Config, depth: int): int {
    if cfg.probeManagesApSelect then depth else depth + 1
  }

  /** A pending read. Running it delivers the result and gives back the lock the request took, also on error. */
  class ReadCallback<T> {
    const dp: DebugPort
    const didLock: bool
    const pending: Result<T>

    constructor (dp: DebugPort, didLock: bool, pending: Result<T>)
      ensures this.dp == dp && this.didLock == didLock && this.pending == pending
    {
      this.dp := dp;
      this.didLock := didLock;
      this.pending := pending;
    }

    method Invoke() returns (r: Result<T>)
      requires dp.Valid()
      modifies dp, dp.probe
      ensures dp.Valid()
      ensures r == pending && dp.accessNumber == old(dp.accessNumber)
      ensures old(Pending()) ==> LockStep(old(dp.LockState()), InvokeCallback(this), dp.LockState())
      ensures dp.probe.lockDepth == old(dp.probe.lockDepth) - (if didLock then 1 else 0)
      ensures dp.probe.hw.ap == old(dp.probe.hw.ap)
      ensures dp.probe.failures == old(dp.probe.failures) && dp.probe.apDepths == old(dp.probe.apDepths)
      ensures r.Err? ==> dp.Recovered(r.error)
      ensures dp.selectFailures == old(dp.selectFailures) && dp.outstanding == old(dp.outstanding) - {this}
      ensures r.Ok? ==> dp.probe.hw == old(dp.probe.hw)
    {
      r := pending;
      if r.Err? && IsTargetError(r.error) {
        dp.HandleError(r.error);
      }
      if didLock {
        dp.probe.Unlock();
      }
      dp.outstanding := dp.outstanding - {this};
    }

    /** What the request added to the failures: nothing, or the one its callback will deliver. */
    ghost predicate Reports(before: seq<Failure>, after: seq<Failure>) {
      after == if pending.Ok? then before else before + [Faulted(pending.error)]
    }

    /** Not invoked yet. */
    ghost predicate Pending()
      reads this, dp
    {
      this in dp.outstanding && dp.outstanding[this] == didLock
    }
  }

  class DebugPort {
    const probe: Probe
    var cachedDpSelect: Option<bv32>
    var accessNumber: nat   // requests so far, SELECT writes included
    ghost var selectFailures: nat   // SELECT writes that raised after the lock was taken
    ghost var outstanding: map<object, bool>   // callbacks not invoked yet, and whether they hold the lock

    constructor (probe: Probe)
      requires probe.cfg.Valid()
      ensures this.probe == probe && Valid() && cachedDpSelect.None? && accessNumber == 0
      ensures selectFailures == 0 && outstanding == map[]
    {
      this.probe := probe;
      cachedDpSelect := None;
      accessNumber := 0;
      selectFailures := 0;
      outstanding := map[];
    }

    /** The SELECT cache is transparent: empty, or what the hardware holds. */
    ghost predicate Valid()
      reads this, probe
    {
      && probe.cfg.Valid()
      && (cachedDpSelect.Some? ==> cachedDpSelect.value == probe.hw.select)
    }

    ghost function LockState(): Locks
      reads this, probe
    {
      Locks(probe.lockDepth, selectFailures, outstanding)
    }

    /** SELECT writes that bringing its masked part to `value` takes: none where the cache has it there already. */
    function SelectWrites(mask: bv32, value: bv32): nat
      reads this`cachedDpSelect
    {
      if cachedDpSelect.Some? && Masked(cachedDpSelect.value, mask) == value then 0 else 1
    }

    function ApSelectWrites(addr: bv32): nat
      reads this`cachedDpSelect
    {
      if probe.cfg.probeManagesApSelect then 0
      else SelectWrites(ApMask(probe.cfg), Masked(addr, ApMask(probe.cfg)))
    }

    function DpSelectWrites(addr: bv32, isWrite: bool): nat
      reads this`cachedDpSelect
    {
      if !HonoursDpBank(probe.cfg, addr & 0xF, isWrite) || probe.cfg.probeManagesDpBank then 0
      else SelectWrites(SELECT_DPBANKSEL_MASK, (addr & 0xF0) >> 4)
    }

    method InvalidateCache()
      modifies this`cachedDpSelect
      ensures cachedDpSelect.None?
    {
      cachedDpSelect := None;
    }

    /** What recovery from an error leaves: a fault has its sticky flags cleared and SELECT no longer trusted, a timeout
        its transfer aborted; a protocol error is followed by a line reset, which loses SELECT. */
    ghost predicate Recovered(error: AdiError)
      reads this`cachedDpSelect, probe`hw
    {
      match error
      case TransferFault =>
        cachedDpSelect.None? && Holds(probe.hw.dpRegs, DP_ABORT, 0x1E)
      case TransferTimeout => Holds(probe.hw.dpRegs, DP_ABORT, 0x1)
      case TransferProtocol => cachedDpSelect.None?
      case _ => true
    }

    /** Recovery after a target error (SWD). Memory and AP registers are not touched; SELECT may be lost. */
    method HandleError(error: AdiError)
      requires Valid()
      modifies this`cachedDpSelect, probe
      ensures Valid() && Recovered(error)
      ensures probe.hw.ap == old(probe.hw.ap) && probe.lockDepth == old(probe.lockDepth)
      ensures probe.failures == old(probe.failures) && probe.apDepths == old(probe.apDepths)
    {
      match error
      case TransferFault =>
        InvalidateCache();
        ghost var before := probe.hw.dpRegs;
        probe.Abort(ABORT_CLEAR_STICKY);
        assert probe.hw.dpRegs == Written(before, DP_ABORT, 0x1E);
      case TransferTimeout =>
        ghost var before := probe.hw.dpRegs;
        probe.Abort(ABORT_DAPABORT);
        assert probe.hw.dpRegs == Written(before, DP_ABORT, 0x1);
      case TransferProtocol =>
        InvalidateCache();
        probe.Lock();
        probe.LineReset();
        probe.Unlock();
      case _ =>
    }

    /** Brings the masked part of SELECT to `value`; no transaction when it is already there. */
    method WriteDpSelect(mask: bv32, value: bv32) returns (r: Result<()>)
      requires Valid() && Masked(value, mask) == value
      modifies this, probe
      ensures Valid() && LockState() == old(LockState())
      ensures probe.hw.ap == old(probe.hw.ap) && probe.apDepths == old(probe.apDepths)
      ensures r.Ok? ==> probe.failures == old(probe.failures)
      ensures r.Err? ==> probe.failures == old(probe.failures) + [Faulted(r.error)] && Recovered(r.error)
      ensures r.Ok? ==> probe.hw == old(probe.hw).(select := probe.hw.select)
      ensures r.Ok? ==> Masked(probe.hw.select, mask) == value && cachedDpSelect == Some(probe.hw.select)
      ensures r.Ok? && old(cachedDpSelect).Some? ==> Masked(probe.hw.select, !mask) == Masked(old(probe.hw.select), !mask)
      ensures old(cachedDpSelect).Some? && Masked(old(probe.hw.select), mask) == value ==>
                r.Ok? && probe.hw == old(probe.hw)
      ensures accessNumber == old(accessNumber) + old(SelectWrites(mask, value))
      decreases 1, 0
    {
      hide Masked, Replaced;
      var select := value;
      if cachedDpSelect.Some? {
        ReplacedField(mask, cachedDpSelect.value, value);
        ReplacedKeepsRest(mask, cachedDpSelect.value, value);
        if Masked(cachedDpSelect.value, mask) == value {
          ReplacedInPlace(mask, cachedDpSelect.value, value);
        }
        select := Replaced(cachedDpSelect.value, mask, value);
        if select == cachedDpSelect.value {
          return Ok(());
        }
      }
      r := WriteDp(DP_SELECT, select);
      if r.Err? { return; }
      cachedDpSelect := Some(select);
    }

    /** Selects the DP bank named by bits 7:4 of `addr` where that matters; true when the lock was taken. */
    method SetDpBankSel(addr: bv32, isWrite: bool) returns (r: Result<bool>)
      requires Valid() && addr & 0x3 == 0
      modifies this, probe
      ensures Valid()
      ensures probe.hw.ap == old(probe.hw.ap) && probe.apDepths == old(probe.apDepths)
      ensures r.Ok? ==> r.value == (HonoursDpBank(probe.cfg, addr & 0xF, isWrite) && !probe.cfg.probeManagesDpBank)
      ensures r.Ok? ==> probe.failures == old(probe.failures) && !BankRefused(probe.cfg, addr, isWrite)
      ensures r.Err? ==> DpFails(probe.cfg, addr, isWrite, old(probe.failures), probe.failures, r.error)
      ensures r.Err? ==> Recovered(r.error)
      ensures !BankRefused(probe.cfg, addr, isWrite) ==>
                accessNumber == old(accessNumber) + old(DpSelectWrites(addr, isWrite))
      ensures r.Ok? ==>
                && probe.hw == old(probe.hw).(select := probe.hw.select)
                && LockState() == Taken(old(LockState()), r.value)
      ensures r.Err? ==> LockStep(old(LockState()), Refused(selectFailures > old(selectFailures)), LockState())
      ensures IgnoresDpBank(probe.cfg, addr, isWrite) ==>
                r == Ok(false) && probe.hw == old(probe.hw) && cachedDpSelect == old(cachedDpSelect)
      ensures r.Ok? && HonoursDpBank(probe.cfg, addr & 0xF, isWrite) && !probe.cfg.probeManagesDpBank ==>
                Masked(probe.hw.select, SELECT_DPBANKSEL_MASK) == (addr & 0xF0) >> 4
      ensures r.Ok? && HonoursDpBank(probe.cfg, addr & 0xF, isWrite) && probe.cfg.probeManagesDpBank ==>
                (addr & 0xF0 == 0 || probe.cfg.probeSupportsDpBank)
      decreases if IgnoresDpBank(probe.cfg, addr, isWrite) then 0 else 1, 1
    {
      IgnoringIsNotHonouring(probe.cfg, addr, isWrite);
      if IgnoresDpBank(probe.cfg, addr, isWrite) {
        return Ok(false);
      }
      var dpbanksel := (addr & 0xF0) >> 4;
      BankFits(addr);
      if probe.cfg.probeManagesDpBank {
        if dpbanksel != 0 && !probe.cfg.probeSupportsDpBank {
          return Err(ProbeFailure);
        } else {
          return Ok(false);
        }
      }
      probe.Lock();
      var w := WriteDpSelect(SELECT_DPBANKSEL_MASK, dpbanksel);
      if w.Err? {
        selectFailures := selectFailures + 1;
        return Err(w.error);
      }
      return Ok(true);
    }

    lemma BankFits(addr: bv32)
      ensures Masked((addr & 0xF0) >> 4, SELECT_DPBANKSEL_MASK) == (addr & 0xF0) >> 4
      ensures (addr & 0xF0) >> 4 == 0 <==> addr & 0xF0 == 0
    {
    }

    /** A DP write. A direct write of SELECT leaves the cache as it was: it is stale afterwards exactly when
        it holds some other value. */
    method WriteDp(addr: bv32, data: bv32) returns (r: Result<()>)
      requires Valid()
      modifies this, probe
      ensures probe.hw.ap == old(probe.hw.ap) && probe.apDepths == old(probe.apDepths)
      ensures r.Ok? ==> probe.failures == old(probe.failures) && !BankRefused(probe.cfg, addr, true)
      ensures r.Err? ==> DpFails(probe.cfg, addr, true, old(probe.failures), probe.failures, r.error)
      ensures r.Err? ==> Recovered(r.error)
      ensures addr & 0x3 == 0 && !BankRefused(probe.cfg, addr, true) ==>
                accessNumber == old(accessNumber) + 1 + old(DpSelectWrites(addr, true))
      ensures r.Ok? ==> LockStep(old(LockState()), Completed, LockState())
      ensures r.Err? ==> LockStep(old(LockState()), Refused(selectFailures > old(selectFailures)), LockState())
      ensures addr & 0x3 != 0 ==> r == Err(BadAddress) && probe.hw == old(probe.hw) && accessNumber == old(accessNumber)
      ensures r.Err? || addr & 0xF != DP_SELECT ==> Valid()
      ensures addr & 0xF == DP_SELECT ==> selectFailures == old(selectFailures)
      ensures r.Ok? && addr & 0xF == DP_SELECT ==>
                && probe.hw == old(probe.hw).(select := data)
                && cachedDpSelect == old(cachedDpSelect)
                && (Valid() <==> old(cachedDpSelect).None? || old(cachedDpSelect) == Some(data))
      ensures r.Ok? && addr & 0xF != DP_SELECT && !DpBankIsLost(probe.cfg, addr, true) ==>
                probe.hw == old(probe.hw).(select := probe.hw.select,
                  dpRegs := old(probe.hw.dpRegs)[DpRegisterAsked(probe.cfg, addr, true) := data])
      decreases if IgnoresDpBank(probe.cfg, addr, true) then 0 else 1, 2
    {
      hide Masked, HonoursDpBank, DpBankIsLost, DpRegisterAsked, DpRegisterHit, DpSelectWrites, BankRefused;
      if addr & 0x3 != 0 { return Err(BadAddress); }
      IgnoringIsNotHonouring(probe.cfg, addr, true);
      accessNumber := accessNumber + 1;
      var didLock := SetDpBankSel(addr, true);
      if didLock.Err? { return Err(didLock.error); }
      DpAccessHits(probe.cfg, probe.hw.select, addr, true);
      r := probe.WriteDp(addr & 0xF, data);
      if r.Err? && IsTargetError(r.error) {
        HandleError(r.error);
      }
      if didLock.value {
        probe.Unlock();
      }
    }

    /** Issues a DP read; its callback delivers the register the caller named, unless the bank is lost. */
    method BeginReadDp(addr: bv32) returns (r: Result<ReadCallback<bv32>>)
      requires Valid()
      modifies this, probe
      ensures Valid()
      ensures r.Ok? ==> r.value.Reports(old(probe.failures), probe.failures) && !BankRefused(probe.cfg, addr, false)
      ensures r.Err? ==> DpFails(probe.cfg, addr, false, old(probe.failures), probe.failures, r.error)
      ensures r.Err? ==> Recovered(r.error)
      ensures addr & 0x3 == 0 && !BankRefused(probe.cfg, addr, false) ==>
                accessNumber == old(accessNumber) + 1 + old(DpSelectWrites(addr, false))
      ensures r.Ok? ==> r.value.didLock == (HonoursDpBank(probe.cfg, addr & 0xF, false) && !probe.cfg.probeManagesDpBank)
      ensures probe.hw.ap == old(probe.hw.ap)
      ensures addr & 0x3 != 0 ==> r == Err(BadAddress) && probe.hw == old(probe.hw) && accessNumber == old(accessNumber)
      ensures r.Err? ==> LockStep(old(LockState()), Refused(selectFailures > old(selectFailures)), LockState())
      ensures r.Ok? ==> fresh(r.value) && r.value.dp == this && r.value.Pending()
      ensures r.Ok? ==> LockStep(old(LockState()), Begin(r.value, r.value.didLock), LockState())
      ensures r.Ok? ==> probe.hw == old(probe.hw).(select := probe.hw.select)
      ensures r.Ok? && r.value.pending.Ok? && !DpBankIsLost(probe.cfg, addr, false) ==>
                var reg := DpRegisterAsked(probe.cfg, addr, false);
                r.value.pending.value == if reg in probe.hw.dpRegs then probe.hw.dpRegs[reg] else 0
    {
      hide Masked, HonoursDpBank, IgnoresDpBank, DpBankIsLost, DpRegisterAsked, DpRegisterHit, DpSelectWrites, BankRefused;
      if addr & 0x3 != 0 { return Err(BadAddress); }
      IgnoringIsNotHonouring(probe.cfg, addr, false);
      accessNumber := accessNumber + 1;
      var didLock := SetDpBankSel(addr, false);
      if didLock.Err? { return Err(didLock.error); }
      DpAccessHits(probe.cfg, probe.hw.select, addr, false);
      var pending := probe.ReadDp(addr & 0xF);
      if pending.Err? {
        if IsTargetError(pending.error) {
          HandleError(pending.error);
        }
        if didLock.value {
          probe.Unlock();
        }
        return Err(pending.error);
      }
      var cb := new ReadCallback<bv32>(this, didLock.value, pending.value);
      outstanding := outstanding[cb := didLock.value];
      return Ok(cb);
    }

    /** An immediate DP read is a deferred one whose callback runs at once. */
    method ReadDp(addr: bv32) returns (r: Result<bv32>)
      requires Valid()
      modifies this, probe
      ensures Valid()
      ensures r.Ok? ==> probe.failures == old(probe.failures) && !BankRefused(probe.cfg, addr, false)
      ensures r.Err? ==> DpFails(probe.cfg, addr, false, old(probe.failures), probe.failures, r.error)
      ensures r.Err? ==> Recovered(r.error)
      ensures addr & 0x3 == 0 && !BankRefused(probe.cfg, addr, false) ==>
                accessNumber == old(accessNumber) + 1 + old(DpSelectWrites(addr, false))
      ensures addr & 0x3 != 0 ==> r == Err(BadAddress) && probe.hw == old(probe.hw)
      ensures r.Ok? ==> LockStep(old(LockState()), Completed, LockState())
      ensures r.Err? ==> LockStep(old(LockState()), Refused(selectFailures > old(selectFailures)), LockState())
      ensures r.Ok? ==> probe.hw == old(probe.hw).(select := probe.hw.select)
      ensures r.Ok? && !DpBankIsLost(probe.cfg, addr, false) ==>
                var reg := DpRegisterAsked(probe.cfg, addr, false);
                r.value == if reg in probe.hw.dpRegs then probe.hw.dpRegs[reg] else 0
    {
      hide Masked, HonoursDpBank, DpBankIsLost, DpRegisterAsked;
      var begun := BeginReadDp(addr);
      if begun.Err? { return Err(begun.error); }
      r := begun.value.Invoke();
    }

    /** Brings SELECT to the AP and bank of `addr`; true when the lock was taken. */
    method SelectAp(addr: bv32) returns (r: Result<bool>)
      requires Valid()
      modifies this, probe
      ensures Valid()
      ensures probe.hw.ap == old(probe.hw.ap) && probe.apDepths == old(probe.apDepths)
      ensures r.Ok? ==> r.value == !probe.cfg.probeManagesApSelect
      ensures accessNumber == old(accessNumber) + old(ApSelectWrites(addr))
      ensures r.Ok? ==> probe.failures == old(probe.failures)
      ensures r.Err? ==> probe.failures == old(probe.failures) + [Faulted(r.error)] && Recovered(r.error)
      ensures r.Ok? ==>
                && probe.hw == old(probe.hw).(select := probe.hw.select)
                && probe.Target(addr) == Asked(addr)
                && LockState() == Taken(old(LockState()), r.value)
      ensures r.Err? ==> LockStep(old(LockState()), Refused(true), LockState())
    {
      if probe.cfg.probeManagesApSelect {
        return Ok(false);
      }
      probe.Lock();
      var mask := ApMask(probe.cfg);
      FieldIsIdempotent(mask, addr);
      var w := WriteDpSelect(mask, Masked(addr, mask));
      if w.Err? {
        selectFailures := selectFailures + 1;
        return Err(w.error);
      }
      ApAccessHits(probe.cfg, probe.hw.select, addr);
      return Ok(true);
    }

    /** The AP register a caller means by `addr`. */
    function Asked(addr: bv32): ApReg {
      AskedReg(ApMask(probe.cfg), probe.cfg.memApBase, addr)
    }

    method WriteAp(addr: bv32, data: word) returns (r: Result<()>)
      requires Valid() && Defined(probe.cfg, probe.hw.ap, Asked(addr))
      modifies this, probe
      ensures Valid()
      ensures r.Ok? ==> probe.failures == old(probe.failures)
      ensures r.Err? ==> probe.failures == old(probe.failures) + [Faulted(r.error)] && Recovered(r.error)
      ensures accessNumber == old(accessNumber) + 1 + old(ApSelectWrites(addr))
      ensures AllAt(old(probe.apDepths), probe.apDepths, ApDepth(probe.cfg, old(probe.lockDepth)))
      ensures r.Ok? ==> LockStep(old(LockState()), Completed, LockState())
      ensures r.Err? ==> LockStep(old(LockState()), Refused(selectFailures > old(selectFailures)), LockState())
      ensures r.Ok? ==> probe.hw.ap == ApWrite(probe.cfg, old(probe.hw.ap), Asked(addr), data)
                        && probe.hw.dpRegs == old(probe.hw.dpRegs)
      ensures r.Err? ==> probe.hw.ap == old(probe.hw.ap)
    {
      hide AllAt, Masked, ApMask, AskedReg, ApSelectWrites, ApWrite, Defined;
      AllAtStart(probe.apDepths, ApDepth(probe.cfg, probe.lockDepth));
      accessNumber := accessNumber + 1;
      var didLock := SelectAp(addr);
      if didLock.Err? {
        if IsTargetError(didLock.error) {
          HandleError(didLock.error);
        }
        return Err(didLock.error);
      }
      r := probe.WriteAp(addr, data);
      if r.Err? && IsTargetError(r.error) {
        HandleError(r.error);
      }
      if didLock.value {
        probe.Unlock();
      }
    }

    method BeginReadAp(addr: bv32) returns (r: Result<ReadCallback<word>>)
      requires Valid() && Defined(probe.cfg, probe.hw.ap, Asked(addr))
      modifies this, probe
      ensures Valid()
      ensures r.Ok? ==> r.value.Reports(old(probe.failures), probe.failures)
      ensures r.Err? ==> probe.failures == old(probe.failures) + [Faulted(r.error)] && Recovered(r.error)
      ensures r.Ok? ==> r.value.didLock == !probe.cfg.probeManagesApSelect
      ensures accessNumber == old(accessNumber) + 1 + old(ApSelectWrites(addr))
      ensures AllAt(old(probe.apDepths), probe.apDepths, ApDepth(probe.cfg, old(probe.lockDepth)))
      ensures r.Err? ==> LockStep(old(LockState()), Refused(selectFailures > old(selectFailures)), LockState())
      ensures r.Ok? ==> fresh(r.value) && r.value.dp == this && r.value.Pending()
      ensures r.Ok? ==> LockStep(old(LockState()), Begin(r.value, r.value.didLock), LockState())
      ensures r.Ok? && r.value.pending.Ok? ==>
                && ApReadMay(probe.cfg, old(probe.hw.ap), Asked(addr), r.value.pending.value)
                && probe.hw.ap == ApReadNext(probe.cfg, old(probe.hw.ap), Asked(addr))
      ensures r.Err? || r.value.pending.Err? ==> probe.hw.ap == old(probe.hw.ap)
    {
      hide AllAt, Masked, ApReadMay, ApReadNext, Defined, ApMask, AskedReg, ApSelectWrites;
      AllAtStart(probe.apDepths, ApDepth(probe.cfg, probe.lockDepth));
      accessNumber := accessNumber + 1;
      var didLock := SelectAp(addr);
      if didLock.Err? {
        if IsTargetError(didLock.error) {
          HandleError(didLock.error);
        }
        return Err(didLock.error);
      }
      var pending := probe.ReadAp(addr);
      if pending.Err? {
        if IsTargetError(pending.error) {
          HandleError(pending.error);
        }
        if didLock.value {
          probe.Unlock();
        }
        return Err(pending.error);
      }
      var cb := new ReadCallback<word>(this, didLock.value, pending.value);
      outstanding := outstanding[cb := didLock.value];
      return Ok(cb);
    }

    /** An immediate read is a deferred one whose callback runs at once. */
    method ReadAp(addr: bv32) returns (r: Result<word>)
      requires Valid() && Defined(probe.cfg, probe.hw.ap, Asked(addr))
      modifies this, probe
      ensures Valid()
      ensures r.Ok? ==> probe.failures == old(probe.failures)
      ensures r.Err? ==> probe.failures == old(probe.failures) + [Faulted(r.error)] && Recovered(r.error)
      ensures accessNumber == old(accessNumber) + 1 + old(ApSelectWrites(addr))
      ensures AllAt(old(probe.apDepths), probe.apDepths, ApDepth(probe.cfg, old(probe.lockDepth)))
      ensures r.Ok? ==> LockStep(old(LockState()), Completed, LockState())
      ensures r.Err? ==> LockStep(old(LockState()), Refused(selectFailures > old(selectFailures)), LockState())
      ensures r.Ok? ==>
                && ApReadMay(probe.cfg, old(probe.hw.ap), Asked(addr), r.value)
                && probe.hw.ap == ApReadNext(probe.cfg, old(probe.hw.ap), Asked(addr))
      ensures r.Err? ==> probe.hw.ap == old(probe.hw.ap)
    {
      hide AllAt;
      var begun := BeginReadAp(addr);
      if begun.Err? { return Err(begun.error); }
      r := begun.value.Invoke();
    }

    method WriteApMultiple(addr: bv32, values: seq<word>) returns (r: Result<()>)
      requires Valid() && BlockReady(probe.cfg, probe.hw.ap) && Asked(addr) == Drw
      modifies this, probe
      ensures Valid()
      ensures r.Ok? ==> probe.failures == old(probe.failures)
      ensures r.Err? ==> probe.failures == old(probe.failures) + [Faulted(r.error)] && Recovered(r.error)
      ensures accessNumber == old(accessNumber) + 1 + old(ApSelectWrites(addr))
      ensures AllAt(old(probe.apDepths), probe.apDepths, ApDepth(probe.cfg, old(probe.lockDepth)))
      ensures r.Ok? ==> LockStep(old(LockState()), Completed, LockState())
      ensures r.Err? ==> LockStep(old(LockState()), Refused(selectFailures > old(selectFailures)), LockState())
      ensures r.Ok? ==> probe.hw.ap == WriteDrwAll(probe.cfg, old(probe.hw.ap), values)
      ensures r.Err? ==> exists k :: 0 <= k <= |values| && probe.hw.ap == WriteDrwAll(probe.cfg, old(probe.hw.ap), values[..k])
    {
      hide AllAt, Masked, ApMask, AskedReg, ApSelectWrites;
      AllAtStart(probe.apDepths, ApDepth(probe.cfg, probe.lockDepth));
      accessNumber := accessNumber + 1;
      var didLock := SelectAp(addr);
      if didLock.Err? {
        if IsTargetError(didLock.error) {
          HandleError(didLock.error);
        }
        assert probe.hw.ap == WriteDrwAll(probe.cfg, old(probe.hw.ap), values[..0]);
        return Err(didLock.error);
      }
      r := probe.WriteApMultiple(addr, values);
      if r.Err? && IsTargetError(r.error) {
        HandleError(r.error);
      }
      if didLock.value {
        probe.Unlock();
      }
    }

    method BeginReadApMultiple(addr: bv32, count: nat) returns (r: Result<ReadCallback<seq<word>>>)
      requires Valid() && BlockReady(probe.cfg, probe.hw.ap) && Asked(addr) == Drw
      modifies this, probe
      ensures Valid()
      ensures r.Ok? ==> r.value.Reports(old(probe.failures), probe.failures)
      ensures r.Err? ==> probe.failures == old(probe.failures) + [Faulted(r.error)] && Recovered(r.error)
      ensures r.Ok? ==> r.value.didLock == !probe.cfg.probeManagesApSelect
      ensures accessNumber == old(accessNumber) + 1 + old(ApSelectWrites(addr))
      ensures AllAt(old(probe.apDepths), probe.apDepths, ApDepth(probe.cfg, old(probe.lockDepth)))
      ensures r.Err? ==> LockStep(old(LockState()), Refused(selectFailures > old(selectFailures)), LockState())
      ensures r.Ok? ==> fresh(r.value) && r.value.dp == this && r.value.Pending()
      ensures r.Ok? ==> LockStep(old(LockState()), Begin(r.value, r.value.didLock), LockState())
      ensures r.Ok? && r.value.pending.Ok? ==>
                && |r.value.pending.value| == count
                && ReadDrwMay(probe.cfg, old(probe.hw.ap), r.value.pending.value)
      ensures probe.hw.ap == old(probe.hw.ap).(tar := probe.hw.ap.tar)
    {
      hide AllAt, Masked, ReadDrwMay, ApMask, AskedReg, ApSelectWrites;
      AllAtStart(probe.apDepths, ApDepth(probe.cfg, probe.lockDepth));
      accessNumber := accessNumber + 1;
      var didLock := SelectAp(addr);
      if didLock.Err? {
        if IsTargetError(didLock.error) {
          HandleError(didLock.error);
        }
        return Err(didLock.error);
      }
      var pending := probe.ReadApMultiple(addr, count);
      if pending.Err? {
        if IsTargetError(pending.error) {
          HandleError(pending.error);
        }
        if didLock.value {
          probe.Unlock();
        }
        return Err(pending.error);
      }
      var cb := new ReadCallback<seq<word>>(this, didLock.value, pending.value);
      outstanding := outstanding[cb := didLock.value];
      return Ok(cb);
    }

    method ReadApMultiple(addr: bv32, count: nat) returns (r: Result<seq<word>>)
      requires Valid() && BlockReady(probe.cfg, probe.hw.ap) && Asked(addr) == Drw
      modifies this, probe
      ensures Valid()
      ensures r.Ok? ==> probe.failures == old(probe.failures)
      ensures r.Err? ==> probe.failures == old(probe.failures) + [Faulted(r.error)] && Recovered(r.error)
      ensures accessNumber == old(accessNumber) + 1 + old(ApSelectWrites(addr))
      ensures AllAt(old(probe.apDepths), probe.apDepths, ApDepth(probe.cfg, old(probe.lockDepth)))
      ensures r.Ok? ==> LockStep(old(LockState()), Completed, LockState())
      ensures r.Err? ==> LockStep(old(LockState()), Refused(selectFailures > old(selectFailures)), LockState())
      ensures r.Ok? ==> |r.value| == count && ReadDrwMay(probe.cfg, old(probe.hw.ap), r.value)
      ensures probe.hw.ap == old(probe.hw.ap).(tar := probe.hw.ap.tar)
    {
      hide AllAt;
      var begun := BeginReadApMultiple(addr, count);
      if begun.Err? { return Err(begun.error); }
      r := begun.value.Invoke();
    }

    /** A reset notification drops the cached SELECT. */
    method ResetDidOccur()
      requires Valid()
      modifies this`cachedDpSelect
      ensures Valid() && cachedDpSelect.None?
    {
      InvalidateCache();
    }
  }

  // ---- The lock over runs of accesses ----

  /** From a driver without outstanding reads, one access or callback after another. */
  ghost predicate IsLockRun(states: seq<Locks>, events: seq<LockEvent>, start: int) {
    && |states| == |events| + 1
    && states[0] == Locks(start, 0, map[])
    && forall i :: 0 <= i < |events| ==> LockStep(states[i], events[i], states[i + 1])
  }

  /** The outstanding reads that hold the lock. */
  ghost function Holding(outstanding: map<object, bool>): set<object> {
    set cb | cb in outstanding && outstanding[cb]
  }

  lemma HoldingGains(outstanding: map<object, bool>, cb: object, didLock: bool)
    requires cb !in outstanding
    ensures |Holding(outstanding[cb := didLock])| == |Holding(outstanding)| + if didLock then 1 else 0
  {
    assert Holding(outstanding[cb := didLock]) == Holding(outstanding) + if didLock then {cb} else {};
  }

  lemma HoldingLoses(outstanding: map<object, bool>, cb: object)
    requires cb in outstanding
    ensures |Holding(outstanding - {cb})| == |Holding(outstanding)| - if outstanding[cb] then 1 else 0
  {
    assert Holding(outstanding - {cb}) == Holding(outstanding) - {cb};
  }

  /** Over every run the lock depth is where it started, plus the outstanding reads that took the lock, plus the leaks. */
  lemma {:induction false} LockDepthOverRuns(states: seq<Locks>, events: seq<LockEvent>, start: int, n: nat)
    requires IsLockRun(states, events, start) && n <= |events|
    ensures states[n].depth == start + |Holding(states[n].outstanding)| + states[n].leaked
  {
    if n == 0 {
      assert Holding(map[]) == {};
    } else {
      LockDepthOverRuns(states, events, start, n - 1);
      var s := states[n - 1];
      assert LockStep(s, events[n - 1], states[n]);
      match events[n - 1]
      case Begin(cb, didLock) => HoldingGains(s.outstanding, cb, didLock);
      case InvokeCallback(cb) => HoldingLoses(s.outstanding, cb);
      case _ =>
    }
  }

  predicate BegunAt(events: seq<LockEvent>, i: nat, cb: object) {
    i < |events| && events[i].Begin? && events[i].cb == cb
  }

  predicate InvokedBetween(events: seq<LockEvent>, i: int, n: nat, cb: object)
    requires n <= |events|
  {
    exists j :: i < j < n && 0 <= j && events[j] == InvokeCallback(cb)
  }

  /** Every read begun in the first `n` events has had its callback invoked. */
  ghost predicate AllInvoked(events: seq<LockEvent>, n: nat)
    requires n <= |events|
  {
    forall i :: 0 <= i < n && events[i].Begin? ==> InvokedBetween(events, i, n, events[i].cb)
  }

  /** An outstanding read was begun in the run, and not invoked since. */
  lemma {:induction false} OutstandingWasBegun(
    states: seq<Locks>, events: seq<LockEvent>, start: int, n: nat, cb: object) returns (i: nat)
    requires IsLockRun(states, events, start) && n <= |events| && cb in states[n].outstanding
    ensures i < n && BegunAt(events, i, cb) && !InvokedBetween(events, i, n, cb)
  {
    assert n > 0;
    assert LockStep(states[n - 1], events[n - 1], states[n]);
    if BegunAt(events, n - 1, cb) {
      i := n - 1;
    } else {
      i := OutstandingWasBegun(states, events, start, n - 1, cb);
    }
  }

  lemma {:induction false} LeaksAreRefusals(states: seq<Locks>, events: seq<LockEvent>, start: int, n: nat)
    requires IsLockRun(states, events, start) && n <= |events|
    requires forall i :: 0 <= i < n ==> events[i] != Refused(true)
    ensures states[n].leaked == 0
  {
    if n > 0 {
      LeaksAreRefusals(states, events, start, n - 1);
      assert LockStep(states[n - 1], events[n - 1], states[n]);
    }
  }

  /** When every deferred read's callback has run, on success or error, and no SELECT write raised, the lock depth is
      back where it started. */
  lemma LockReturnsToStart(states: seq<Locks>, events: seq<LockEvent>, start: int, n: nat)
    requires IsLockRun(states, events, start) && n <= |events| && AllInvoked(events, n)
    requires forall i :: 0 <= i < n ==> events[i] != Refused(true)
    ensures states[n].depth == start
  {
    LockDepthOverRuns(states, events, start, n);
    LeaksAreRefusals(states, events, start, n);
    if cb :| cb in Holding(states[n].outstanding) {
      var i := OutstandingWasBegun(states, events, start, n, cb);
      assert false;
    }
  }
}

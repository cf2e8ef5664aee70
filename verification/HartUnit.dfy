/** The hart as the source runs it: methods that update its registers in place and keep the invariants of module
    HartRuns, each proved equal to the step it carries out. */
module HartUnit {
  import opened Access
  import opened Hart
  import opened HartRuns
  import opened HartMeaning

  /** Bits k and up of the mask of a set of interrupts below n. */
  function MaskOf(s: set<nat>, k: nat, n: nat): nat
    requires k <= n
    decreases n - k
  {
    if k == n then 0 else (if k in s then 1 else 0) + 2 * MaskOf(s, k + 1, n)
  }

  lemma {:induction false} EmptyMask(s: set<nat>, k: nat, n: nat, j: nat)
    requires k <= j < n && MaskOf(s, k, n) == 0
    ensures j !in s
    decreases n - k
  {
    if k < j {
      EmptyMask(s, k + 1, n, j);
    }
  }

  lemma {:induction false} FullMask(s: set<nat>, k: nat, n: nat, j: nat)
    requires k <= j < n && j in s
    ensures MaskOf(s, k, n) > 0
    decreases n - k
  {
    if k < j {
      FullMask(s, k + 1, n, j);
    }
  }

  /** The loop of doInterrupt: shift the mask down until nothing is left. */
  method HighestBit(s: set<nat>, n: nat) returns (ecode: nat)
    requires s != {} && forall i :: i in s ==> i < n
    ensures IsMax(s, ecode)
  {
    var intMask := MaskOf(s, 0, n);
    var e: int := -1;
    var some :| some in s;
    FullMask(s, 0, n, some);
    while intMask != 0
      invariant -1 <= e < n
      invariant intMask == MaskOf(s, e + 1, n)
      invariant intMask == 0 ==> e >= 0 && e in s
      decreases intMask
    {
      intMask := intMask / 2;
      e := e + 1;
    }
    forall j | j in s
      ensures j <= e
    {
      if j > e {
        EmptyMask(s, e + 1, n, j);
      }
    }
    ecode := e;
  }

  /** After taking an interrupt or exception only interrupts for higher modes are enabled, none of them new. */
  ghost predicate OnlyHigherLeft(before: State, st: State) {
    && PendingEnabled(st) <= PendingEnabled(before)
    && forall i :: i in PendingEnabled(st) ==> Level(Delegated(st.irq.mideleg, st.irq.sideleg, i)) > Level(Cur(st))
  }

  lemma TrapLeavesHigher(c: Config, st: State, isInterrupt: bool, code: nat, tval: nat)
    ensures OnlyHigherLeft(st, TakeException(c, st, isInterrupt, code, tval))
  {
    TrapShrinks(c, st, isInterrupt, code, tval);
    forall i | i in PendingEnabled(TakeException(c, st, isInterrupt, code, tval))
      ensures Level(Delegated(st.irq.mideleg, st.irq.sideleg, i)) > Level(ModeX(st.irq, Cur(st), isInterrupt, code))
    {
      TrapNeverAdds(c, st, isInterrupt, code, tval, i);
    }
  }

  lemma TwoReasons(disable: set<Reason>)
    requires WFI !in disable && NMI !in disable
    ensures disable == {}
  {
    forall r | r in disable
      ensures false
    {
      match r case WFI => case NMI =>
    }
  }

  class Unit {
    const c: Config
    var dmode: DMode
    var pc: nat
    var traps: Traps
    var irq: Irq
    var power: Power
    var vm: Vm
    var derived: Derived

    ghost function St(): State
      reads this
    {
      State(dmode, pc, traps, irq, power, vm, derived)
    }

    /** Everything that holds in every reachable state. */
    ghost predicate Valid()
      reads this
    {
      ValidConfig(c) && Inv(c, St())
    }

    /** The hart stands still exactly while there is a reason. */
    ghost predicate Settled()
      reads `power
    {
      power.halted <==> power.disable != {}
    }

    constructor (c: Config, st: State)
      requires ValidConfig(c) && Init(c, st)
      ensures this.c == c && St() == st && Valid()
    {
      this.c := c;
      dmode, pc, traps, irq, power, vm, derived := st.dmode, st.pc, st.traps, st.irq, st.power, st.vm, st.derived;
      InitInv(c, st);
    }

    // ---- Modes and domains ----

    /** riscvVMRefreshMPRVDomain */
    method RefreshMPRVDomain()
      modifies `derived
      ensures derived == old(derived).(domain := DomainOf(c, Narrow(derived.arch), traps, vm, dmode.mode))
    {
      var mode := dmode.mode;
      if traps.mprv {
        mode := if HasMode(c, traps.m.pp) then ModeOf(traps.m.pp) else MinMode(c);
      }
      var domain := Physical(mode);
      if SatpMode(Narrow(derived.arch), vm.satp) != 0 && mode != M {
        domain := Virtual(mode);
      }
      if domain != derived.domain {
        derived := derived.(domain := domain);
      }
    }

    /** riscvSetMode: if the architecture and the simulated ASID are those the registers define and satp is
        supported, then afterwards all derived state is, whatever mode and registers it was derived from. */
    method SetCurrentMode(mode: Mode)
      modifies `dmode, `derived
      ensures St() == SetMode(c, old(St()), mode) && dmode.mode == mode
      ensures derived.arch == ArchOf(Narrow(derived.arch), traps, vm) && derived.asid == AsidOf(Narrow(derived.arch), traps, vm)
              && SatpMode(Narrow(derived.arch), vm.satp) in c.svModes
              ==> DerivedInv(c, St())
    {
      var d := DMode(mode, false);
      if mode != M && SatpMode(Narrow(derived.arch), vm.satp) != 0 {
        d := d.(vm := true);
      }
      if dmode != d {
        dmode := d;
      }
      RefreshMPRVDomain();
    }

    /** riscvSetCurrentArch */
    method SetCurrentArch()
      modifies `derived
      ensures derived == old(derived).(arch := ArchOf(Narrow(old(derived).arch), traps, vm))
    {
      var arch := Arch(vm.misa.extensions, MxlOf(Narrow(derived.arch), vm.misa));
      if traps.fs == 0 {
        arch := arch.(extensions := arch.extensions - {'D', 'F'});
      }
      if derived.arch != arch {
        derived := derived.(arch := arch);
      }
    }

    // ---- Halting and interrupts ----

    /** haltProcessor: the hart stands still from now on, and still exactly for a reason. */
    method HaltProcessor(reason: Reason)
      requires Settled()
      modifies `power
      ensures Settled() && power.halted && reason in power.disable
      ensures power == Halt(old(power), reason)
    {
      if power.disable == {} {
        power := power.(halted := true);
      }
      power := power.(disable := power.disable + {reason});
    }

    /** restartProcessor: the hart runs again exactly if no other reason is left. */
    method RestartProcessor(reasons: set<Reason>)
      requires Settled()
      modifies `power
      ensures Settled() && (power.halted <==> old(power).disable - reasons != {})
      ensures power == Restart(old(power), reasons)
    {
      power := power.(disable := power.disable - reasons);
      if power.disable == {} {
        power := power.(halted := false);
      }
    }

    /** riscvTestInterrupt: whatever has changed before, afterwards no hart waits with an interrupt pending and no
        interrupt that can be taken is without a request. */
    method CheckInterrupts()
      requires Settled() && irq.mip == irq.lines + irq.swip
      modifies `power
      ensures WakeInv(irq, power) && RequestInv(St()) && St() == TestInterrupt(old(St()))
      ensures Pending(irq) != {} && old(power).disable == {WFI} ==> !power.halted
      ensures PendingEnabled(St()) == {} ==> power.requested == old(power).requested
    {
      var pendingEnabled := EnabledOf(dmode.mode, traps, irq);
      if irq.mie * irq.mip != {} {
        RestartProcessor({WFI});
      }
      if pendingEnabled != {} {
        power := power.(requested := true);
      }
    }

    /** riscvUpdatePending: after a change of a source, mip is their union again and nothing is missed. */
    method ComposePending()
      requires Settled()
      requires irq.mip == irq.lines + irq.swip ==> WakeInv(irq, power) && RequestInv(St())
      modifies `irq, `power
      ensures WakeInv(irq, power) && RequestInv(St()) && St() == UpdatePending(old(St()))
    {
      var newValue := irq.lines + irq.swip;
      if irq.mip != newValue {
        irq := irq.(mip := newValue);
        CheckInterrupts();
      } else {
        assert irq.(mip := newValue) == irq;
      }
    }

    /** riscvWFI: the hart does not stand still over a pending interrupt. */
    method Wfi()
      requires Valid()
      modifies `power
      ensures Valid() && St() == Step(c, old(St()), Wait)
      ensures power.halted <==> old(power.halted) || Pending(irq) == {}
    {
      ghost var before := St();
      if irq.mie * irq.mip == {} {
        HaltProcessor(WFI);
      }
      StepInv(c, before, Wait);
    }

    /** interruptPortCB: the line shows in mip, alone; a hart that waits for it runs, and if it can be taken it is
        requested. */
    method InterruptPort(i: nat, high: bool)
      requires Valid()
      modifies `irq, `power
      ensures Valid() && St() == Step(c, old(St()), Line(i, high))
      ensures (i in irq.mip <==> high || i in irq.swip) && forall j :: j != i ==> (j in irq.mip <==> j in old(irq).mip)
      ensures high && i in irq.mie && old(power).disable == {WFI} ==> !power.halted
      ensures i in PendingEnabled(St()) ==> power.requested
    {
      ghost var before := St();
      if high {
        irq := irq.(lines := irq.lines + {i});
      } else {
        irq := irq.(lines := irq.lines - {i});
      }
      assert irq.mip == irq.lines + irq.swip ==> irq.mip == before.irq.mip && Pending(irq) == Pending(before.irq)
                                                 && PendingEnabled(St()) == PendingEnabled(before);
      ComposePending();
      StepInv(c, before, Line(i, high));
      if high && i in irq.mie && before.power.disable == {WFI} {
        assert i in Pending(irq);
        WakesUp(c, before, Line(i, high));
      }
    }

    /** nmiPortCB: the rising edge stops the hart; the falling edge enters Machine mode, runs even a waiting hart and
        enables no interrupt. */
    method NmiPort(high: bool)
      requires Valid()
      modifies this
      ensures Valid() && St() == Step(c, old(St()), Nmi(high))
      ensures !old(power).nmi && high ==> power.halted && dmode == old(dmode)
      ensures old(power).nmi && !high ==>
        && !power.halted && dmode.mode == M && pc == c.nmiAddress
        && traps == old(traps).(m := old(traps).m.(isInterrupt := false, code := 0, epc := old(pc)))
      ensures PendingEnabled(St()) <= old(PendingEnabled(St()))
    {
      ghost var before := St();
      if !power.nmi && high {
        HaltProcessor(NMI);
      } else if power.nmi && !high {
        EnterNmi();
      }
      power := power.(nmi := high);
      StepInv(c, before, Nmi(high));
      NmiShrinks(c, before, high);
    }

    /** doNMI */
    method EnterNmi()
      requires Settled()
      modifies this
      ensures St() == SetNmi(c, old(St()).(power := old(power).(nmi := true)), false).(power := power)
      ensures power == Restart(old(power), {WFI, NMI}) && !power.halted
    {
      RestartProcessor({WFI, NMI});
      TwoReasons(power.disable);
      SetCurrentMode(M);
      traps := traps.(m := traps.m.(isInterrupt := false, code := 0));
      traps := traps.(m := traps.m.(epc := pc));
      pc := c.nmiAddress;
    }

    // ---- Traps and returns ----

    /** riscvTakeException */
    method TakeTrap(isInterrupt: bool, code: nat, tval: nat)
      modifies `dmode, `pc, `traps, `derived
      ensures St() == TakeException(c, old(St()), isInterrupt, code, tval)
    {
      var epc := pc;
      var modeY := dmode.mode;
      var modeX := ModeX(irq, modeY, isInterrupt, code);
      var b := BankOf(traps, modeX);
      b := b.(pie := b.ie);
      b := b.(ie := false);
      b := b.(code := code, isInterrupt := isInterrupt);
      b := b.(epc := AlignPC(c, epc));
      b := b.(tval := tval);
      b := b.(pp := PPField(modeX, Level(modeY)));
      traps := WithBank(traps, modeX, b);
      var handlerPC := 4 * b.base;
      if b.vectored && isInterrupt {
        handlerPC := handlerPC + 4 * code;
      }
      SetCurrentMode(modeX);
      pc := handlerPC;
    }

    /** An exception: the exception delegation registers decide where it goes, its handler finds cause, value and
        return address, and what stays enabled was enabled before and is for higher modes. */
    method Exception(code: nat, tval: nat)
      requires Valid() && code < 32
      modifies `dmode, `pc, `traps, `derived
      ensures Valid() && St() == Step(c, old(St()), Raise(code, tval))
      ensures dmode.mode == if code !in irq.medeleg then M
                            else if old(dmode.mode) != M && code !in irq.sedeleg then S
                            else old(dmode.mode)
      ensures Trapped(c, old(St()), St(), dmode.mode, false, code, tval) && OnlyHigherLeft(old(St()), St())
    {
      ghost var before := St();
      ExceptionGoesTo(c, before, code, tval, {}, {});
      TrapLeavesHigher(c, before, false, code, tval);
      TakeTrap(false, code, tval);
      StepInv(c, before, Raise(code, tval));
    }

    /** doInterrupt: the highest-numbered interrupt of the mask is taken to exactly its delegated mode. */
    method DoInterrupt(intMask: set<nat>) returns (ecode: nat)
      requires Valid() && intMask == PendingEnabled(St()) && intMask != {}
      modifies `dmode, `pc, `traps, `derived
      ensures Valid() && IsMax(intMask, ecode) && St() == TakeException(c, old(St()), true, ecode, 0)
      ensures dmode.mode == if ecode !in irq.mideleg then M else if ecode !in irq.sideleg then S else U
      ensures Trapped(c, old(St()), St(), dmode.mode, true, ecode, 0) && OnlyHigherLeft(old(St()), St())
    {
      ghost var before := St();
      assert intMask <= irq.mie;
      ecode := HighestBit(intMask, 32);
      InterruptGoesTo(c, before, ecode);
      TrapLeavesHigher(c, before, true, ecode, 0);
      TakeTrap(true, ecode, 0);
      StepInv(c, before, Fetch(ecode));
    }

    /** riscvIFetchExcept, for a fetch from a valid address: an interrupt is taken exactly if one is pending and
        enabled. */
    method FetchExcept() returns (taken: bool, ecode: nat)
      requires Valid()
      modifies `dmode, `pc, `traps, `derived, `power
      ensures Valid() && Enabled(c, old(St()), Fetch(ecode)) && St() == Step(c, old(St()), Fetch(ecode))
      ensures taken <==> old(PendingEnabled(St())) != {}
      ensures taken ==> IsMax(old(PendingEnabled(St())), ecode)
                        && Trapped(c, old(St()), St(), InterruptTarget(irq, ecode), true, ecode, 0)
                        && OnlyHigherLeft(old(St()), St())
      ensures !taken ==> St() == old(St()).(power := old(power).(requested := false))
    {
      ghost var before := St();
      ecode := 0;
      var intMask := EnabledOf(dmode.mode, traps, irq);
      taken := intMask != {};
      if taken {
        ecode := DoInterrupt(intMask);
      } else {
        power := power.(requested := false);
        StepInv(c, before, Fetch(ecode));
      }
    }

    /** The end of every return: enter the mode, jump, and look for interrupts. */
    method FinishReturn(newMode: Mode, epc: nat)
      requires Settled() && irq.mip == irq.lines + irq.swip
      modifies `dmode, `pc, `derived, `power
      ensures St() == TestInterrupt(SetMode(c, old(St()).(pc := epc), newMode))
    {
      SetCurrentMode(newMode);
      pc := epc;
      CheckInterrupts();
    }

    /** The registers of riscvMRET */
    method PopMachine() returns (newMode: Mode)
      modifies `traps
      ensures traps == Popped(c, old(traps), M) && newMode == ReturnMode(c, old(traps), M)
    {
      var minMode := MinMode(c);
      newMode := if HasMode(c, traps.m.pp) then ModeOf(traps.m.pp) else minMode;
      traps := traps.(m := traps.m.(ie := traps.m.pie));
      traps := traps.(m := traps.m.(pie := true));
      traps := traps.(m := traps.m.(pp := Level(minMode)));
    }

    /** The registers of riscvSRET; the previous-mode field has one bit. */
    method PopSupervisor() returns (newMode: Mode)
      modifies `traps
      ensures traps == Popped(c, old(traps), S) && newMode == ReturnMode(c, old(traps), S)
    {
      var minMode := MinMode(c);
      newMode := if HasMode(c, traps.s.pp) then ModeOf(traps.s.pp) else minMode;
      traps := traps.(s := traps.s.(ie := traps.s.pie));
      traps := traps.(s := traps.s.(pie := true));
      traps := traps.(s := traps.s.(pp := Level(minMode) % 2));
    }

    /** riscvMRET */
    method MRet()
      requires Valid() && MayReturn(c, dmode.mode, M)
      modifies `dmode, `pc, `traps, `derived, `power
      ensures Valid() && St() == Step(c, old(St()), Leave(M)) && Returned(c, old(St()), St(), M)
      ensures Level(dmode.mode) <= Level(old(dmode.mode))
    {
      ghost var before := St();
      ReturnMeaning(c, before, M);
      ModeChanges(c, before, Leave(M));
      var newMode := PopMachine();
      FinishReturn(newMode, traps.m.epc);
      StepInv(c, before, Leave(M));
    }

    /** riscvSRET */
    method SRet()
      requires Valid() && MayReturn(c, dmode.mode, S)
      modifies `dmode, `pc, `traps, `derived, `power
      ensures Valid() && St() == Step(c, old(St()), Leave(S)) && Returned(c, old(St()), St(), S)
      ensures Level(dmode.mode) <= Level(old(dmode.mode))
    {
      ghost var before := St();
      ReturnMeaning(c, before, S);
      ModeChanges(c, before, Leave(S));
      var newMode := PopSupervisor();
      FinishReturn(newMode, traps.s.epc);
      StepInv(c, before, Leave(S));
    }

    /** riscvURET; there is no previous-mode field. */
    method URet()
      requires Valid() && MayReturn(c, dmode.mode, U)
      modifies `dmode, `pc, `traps, `derived, `power
      ensures Valid() && St() == Step(c, old(St()), Leave(U)) && Returned(c, old(St()), St(), U)
      ensures Level(dmode.mode) <= Level(old(dmode.mode))
    {
      ghost var before := St();
      ReturnMeaning(c, before, U);
      ModeChanges(c, before, Leave(U));
      traps := traps.(u := traps.u.(ie := traps.u.pie));
      traps := traps.(u := traps.u.(pie := true, pp := 0));
      assert traps == Popped(c, before.traps, U);
      FinishReturn(U, traps.u.epc);
      StepInv(c, before, Leave(U));
    }

    // ---- Register writes ----

    /** statusW: all invariants are kept; exactly the fields of the mask are stored, MPP only with an implemented
        mode; without a rising enable bit no interrupt becomes enabled. */
    method StatusW(v: Status, k: Status)
      requires Valid()
      modifies `traps, `derived, `power
      ensures Valid() && St() == Step(c, old(St()), StatusWrite(v, k))
      ensures forall f: Field :: f != MPP ==>
        FieldOf(ReadStatus(traps), f)
        == if FieldOf(k, f) != 0 then FieldOf(v, f) % Width(f) else FieldOf(ReadStatus(old(traps)), f)
      ensures traps.m.pp == if k.mpp != 0 && HasMode(c, v.mpp % 4) then v.mpp % 4 else old(traps).m.pp
      ensures !RaisesIE(old(traps), traps) ==> PendingEnabled(St()) <= old(PendingEnabled(St()))
    {
      ghost var before := St();
      var oldTraps := traps;
      traps := Stored(c, traps, v, k);
      SetCurrentArch();
      derived := derived.(asid := SimAsid(SatpAsid(Narrow(derived.arch), vm.satp), traps.mxr, traps.sum));
      RefreshMPRVDomain();
      if RaisesIE(oldTraps, traps) {
        CheckInterrupts();
      }
      StepInv(c, before, StatusWrite(v, k));
      forall f: Field | f != MPP
        ensures FieldOf(ReadStatus(traps), f)
                == if FieldOf(k, f) != 0 then FieldOf(v, f) % Width(f) else FieldOf(ReadStatus(before.traps), f)
      {
        StatusFieldwise(c, before.traps, v, k, f);
      }
      if !RaisesIE(oldTraps, traps) {
        NothingRaised(dmode.mode, dmode.mode, oldTraps, traps, irq);
      }
    }

    /** ipW: exactly the writable bits of the alias change; all invariants are kept. */
    method IpW(v: set<nat>, rMask: set<nat>)
      requires Valid()
      modifies `irq, `power
      ensures Valid() && St() == Step(c, old(St()), IpWrite(v, rMask))
      ensures MaskedWrite(irq.swip, v, old(irq).swip, c.mieMask * rMask) && irq.lines == old(irq).lines
    {
      ghost var before := St();
      var oldValue := irq.swip;
      irq := irq.(swip := Merge(v, oldValue, c.mieMask * rMask));
      if oldValue != irq.swip {
        assert irq.mip == irq.lines + irq.swip ==> irq.mip == before.irq.mip && Pending(irq) == Pending(before.irq)
                                                   && PendingEnabled(St()) == PendingEnabled(before);
        ComposePending();
      }
      StepInv(c, before, IpWrite(v, rMask));
    }

    /** ieW: exactly the writable bits of the alias change; all invariants are kept. */
    method IeW(v: set<nat>, rMask: set<nat>)
      requires Valid()
      modifies `irq, `power
      ensures Valid() && St() == Step(c, old(St()), IeWrite(v, rMask))
      ensures MaskedWrite(irq.mie, v, old(irq).mie, c.mieMask * rMask)
    {
      ghost var before := St();
      var oldValue := irq.mie;
      irq := irq.(mie := Merge(v, oldValue, c.mieMask * rMask));
      if oldValue != irq.mie {
        CheckInterrupts();
      }
      StepInv(c, before, IeWrite(v, rMask));
    }

    /** midelegW: exactly the writable bits change; all invariants are kept. */
    method MidelegW(v: set<nat>)
      requires Valid() && (c.hasS || c.hasN)
      modifies `irq, `power
      ensures Valid() && St() == Step(c, old(St()), MidelegWrite(v))
      ensures MaskedWrite(irq.mideleg, v, old(irq).mideleg, c.midelegMask)
    {
      ghost var before := St();
      var oldValue := irq.mideleg;
      irq := irq.(mideleg := Merge(v, oldValue, c.midelegMask));
      if oldValue != irq.mideleg {
        CheckInterrupts();
      }
      StepInv(c, before, MidelegWrite(v));
    }

    /** sidelegW: exactly the writable bits change; all invariants are kept. */
    method SidelegW(v: set<nat>)
      requires Valid() && c.hasS && c.hasN
      modifies `irq, `power
      ensures Valid() && St() == Step(c, old(St()), SidelegWrite(v))
      ensures MaskedWrite(irq.sideleg, v, old(irq).sideleg, c.sidelegMask)
    {
      ghost var before := St();
      var oldValue := irq.sideleg;
      irq := irq.(sideleg := Merge(v, oldValue, c.sidelegMask));
      if oldValue != irq.sideleg {
        CheckInterrupts();
      }
      StepInv(c, before, SidelegWrite(v));
    }

    /** satpW: write first, revert if the mode is not supported. MODE, ASID and PPN read back in the view in force. */
    method SatpW(v: nat)
      requires Valid() && c.hasS
      modifies `vm, `dmode, `derived
      ensures Valid() && St() == Step(c, old(St()), SatpWrite(v))
      ensures SatpWritten(c, Narrow(derived.arch), old(vm).satp, v, vm.satp) && vm.misa == old(vm).misa
    {
      ghost var before := St();
      SatpReadsBack(c, before, v);
      var oldVm, narrow := vm, Narrow(derived.arch);
      var (mode, asid, ppn) := SatpView(narrow, v);
      vm := vm.(satp := StoreSatp(narrow, vm.satp, mode, asid % c.asids, ppn % c.ppns));
      if SatpMode(narrow, vm.satp) !in c.svModes {
        vm := oldVm;
      } else {
        SetCurrentMode(dmode.mode);
        derived := derived.(asid := SimAsid(SatpAsid(narrow, vm.satp), traps.mxr, traps.sum));
      }
      StepInv(c, before, SatpWrite(v));
    }

    /** misaW: all invariants are kept if and only if the write is harmless. */
    method MisaW(x: set<char>, mxl: nat)
      requires Valid()
      modifies `vm, `derived
      ensures St() == Step(c, old(St()), MisaWrite(x, mxl))
      ensures Valid() <==> MisaHarmless(c, old(St()), x, mxl)
    {
      ghost var before := St();
      vm := vm.(misa := NewMisa(c, Narrow(derived.arch), vm.misa, x, mxl));
      SetCurrentArch();
      MisaWriteExact(c, before, x, mxl);
      if MisaHarmless(c, before, x, mxl) {
        StepInv(c, before, MisaWrite(x, mxl));
      }
    }
  }
}

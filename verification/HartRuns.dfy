/** Runs of a hart: software, traps, returns, register writes and external signals in any order, and what
    holds in every state of every run. */
module HartRuns {
  import opened Access
  import opened Hart

  datatype Op =
    | Execute(pc: nat)
    | Raise(code: nat, tval: nat)
    | Fetch(chosen: nat)
    | Leave(x: Mode)
    | Wait
    | Line(i: nat, high: bool)
    | Nmi(high: bool)
    | StatusWrite(v: Status, k: Status)
    | IpWrite(bits: set<nat>, rMask: set<nat>)
    | IeWrite(bits: set<nat>, rMask: set<nat>)
    | MidelegWrite(bits: set<nat>)
    | SidelegWrite(bits: set<nat>)
    | MedelegWrite(bits: set<nat>)
    | SedelegWrite(bits: set<nat>)
    | VectorWrite(x: Mode, base: nat, vectored: bool)
    | EpcWrite(x: Mode, pc: nat)
    | SatpWrite(value: nat)
    | MisaWrite(extensions: set<char>, mxl: nat)

  /** The instruction or event exists in this configuration and state. The delegation registers exist with
      Supervisor mode or user interrupts, their Supervisor-level counterparts only with both. */
  ghost predicate Enabled(c: Config, st: State, op: Op) {
    match op
    case Raise(code, _) => code < 32
    case Fetch(chosen) => PendingEnabled(st) != {} ==> IsMax(PendingEnabled(st), chosen)
    case Leave(x) => MayReturn(c, Cur(st), x)
    case MidelegWrite(_) => c.hasS || c.hasN
    case MedelegWrite(_) => c.hasS || c.hasN
    case SidelegWrite(_) => c.hasS && c.hasN
    case SedelegWrite(_) => c.hasS && c.hasN
    case SatpWrite(_) => c.hasS
    case _ => true
  }

  /** A fetch takes the highest-numbered interrupt that is pending and enabled (riscvIFetchExcept). A
      request is spent when a fetch finds nothing to take. */
  function FetchStep(c: Config, st: State, chosen: nat): State {
    if PendingEnabled(st) != {} then TakeException(c, st, true, chosen, 0)
    else st.(power := st.power.(requested := false))
  }

  function Step(c: Config, st: State, op: Op): State
    requires ValidConfig(c)
  {
    match op
    case Execute(pc) => st.(pc := pc)
    case Raise(code, tval) => TakeException(c, st, false, code, tval)
    case Fetch(chosen) => FetchStep(c, st, chosen)
    case Leave(x) => Return(c, st, x)
    case Wait => WaitForInterrupt(st)
    case Line(i, high) => SetLine(st, i, high)
    case Nmi(high) => SetNmi(c, st, high)
    case StatusWrite(v, k) => WriteStatus(c, st, v, k)
    case IpWrite(bits, rMask) => WriteIp(c, st, bits, rMask)
    case IeWrite(bits, rMask) => WriteIe(c, st, bits, rMask)
    case MidelegWrite(bits) => WriteMideleg(c, st, bits)
    case SidelegWrite(bits) => WriteSideleg(c, st, bits)
    case MedelegWrite(bits) => st.(irq := st.irq.(medeleg := Merge(bits, st.irq.medeleg, c.medelegMask)))
    case SedelegWrite(bits) => st.(irq := st.irq.(sedeleg := Merge(bits, st.irq.sedeleg, c.sedelegMask)))
    case VectorWrite(x, base, vectored) =>
      st.(traps := WithBank(st.traps, x, BankOf(st.traps, x).(base := base, vectored := vectored)))
    case EpcWrite(x, pc) => st.(traps := WithBank(st.traps, x, BankOf(st.traps, x).(epc := AlignPC(c, pc))))
    case SatpWrite(v) => WriteSatp(c, st, v)
    case MisaWrite(extensions, mxl) => WriteMisa(c, st, extensions, mxl)
  }

  // ---- Invariants ----

  /** Delegation leads only to implemented modes, and only implemented interrupts are enabled. */
  ghost predicate DelegationInv(c: Config, q: Irq) {
    && q.mie <= c.mieMask
    && q.mideleg <= c.midelegMask && q.medeleg <= c.medelegMask
    && (!c.hasS && !c.hasN ==> q.mideleg == {} && q.medeleg == {})
    && (!c.hasS && c.hasN ==> forall i :: 0 <= i < 32 ==> i in q.sideleg && i in q.sedeleg)
    && (!c.hasN ==> q.sideleg == {} && q.sedeleg == {})
  }

  /** mip is the union of its sources; a hart waiting for an interrupt has none; a hart stands still
      exactly while there is a reason. */
  ghost predicate WakeInv(q: Irq, p: Power) {
    && q.mip == q.lines + q.swip
    && (WFI in p.disable ==> Pending(q) == {})
    && (p.halted <==> p.disable != {})
  }

  /** No interrupt that could be taken goes unnoticed. */
  ghost predicate RequestInv(st: State) {
    PendingEnabled(st) != {} ==> st.power.requested
  }

  /** What the simulator keeps beside the registers is the function of the registers that defines it, all read
      in the view that the architecture in force selects, and satp holds a supported mode. */
  ghost predicate DerivedInv(c: Config, st: State) {
    var narrow := Narrow(st.derived.arch);
    && st.derived == Derived(ArchOf(narrow, st.traps, st.vm), DomainOf(c, narrow, st.traps, st.vm, Cur(st)),
                             AsidOf(narrow, st.traps, st.vm))
    && st.dmode == DModeOf(narrow, st.vm, Cur(st))
    && SatpMode(narrow, st.vm.satp) in c.svModes
  }

  /** Fields hold no more than their width: one bit of SPP, two of MPP, FS and MXL, and the parts of satp. */
  ghost predicate FieldsFit(t: Traps, vm: Vm) {
    && TrapsFit(t)
    && vm.misa.mxl32 < 4 && vm.misa.mxl64 < 4
    && SatpFits(vm.satp)
  }

  ghost predicate SatpFits(s: Satp) {
    && s.ppn22 < 0x40_0000 && s.asid9 < 512 && s.mode1 < 2
    && s.ppn12 < 4096 && s.asid16 < 0x1_0000 && s.mode4 < 16
  }

  ghost predicate Inv(c: Config, st: State) {
    && Implemented(c, Cur(st))
    && FieldsFit(st.traps, st.vm)
    && DelegationInv(c, st.irq)
    && WakeInv(st.irq, st.power)
    && RequestInv(st)
    && DerivedInv(c, st)
  }

  // ---- Interrupt selection ----

  /** An interrupt is pending and enabled exactly when it is pending and its delegated mode is above the
      current mode, or is the current mode with interrupts enabled. */
  lemma EnabledMeaning(cur: Mode, t: Traps, q: Irq, i: nat)
    ensures var x := Delegated(q.mideleg, q.sideleg, i);
            i in EnabledOf(cur, t, q) <==>
            i in q.mie && i in q.mip && (Level(x) > Level(cur) || (x == cur && BankOf(t, cur).ie))
  {
  }

  /** The interrupt taken goes exactly to its delegated mode: the rule that traps do not lower the mode
      never decides. */
  lemma TakenToDelegated(st: State, i: nat)
    requires i in PendingEnabled(st)
    ensures ModeX(st.irq, Cur(st), true, i) == Delegated(st.irq.mideleg, st.irq.sideleg, i)
  {
    EnabledMeaning(Cur(st), st.traps, st.irq, i);
  }

  /** Taking a trap leaves enabled only interrupts for modes above the new one, all of which were enabled
      before. */
  lemma TrapNeverAdds(c: Config, st: State, isInterrupt: bool, code: nat, tval: nat, i: nat)
    requires i in PendingEnabled(TakeException(c, st, isInterrupt, code, tval))
    ensures i in PendingEnabled(st)
    ensures Level(Delegated(st.irq.mideleg, st.irq.sideleg, i)) > Level(ModeX(st.irq, Cur(st), isInterrupt, code))
  {
    var st' := TakeException(c, st, isInterrupt, code, tval);
    EnabledMeaning(Cur(st), st.traps, st.irq, i);
    EnabledMeaning(Cur(st'), st'.traps, st.irq, i);
  }

  /** The program counter saved is the interrupted one rounded down to an instruction boundary. */
  lemma SavedPC(c: Config, pc: nat)
    ensures c.compressed ==> AlignPC(c, pc) % 2 == 0 && AlignPC(c, pc) <= pc < AlignPC(c, pc) + 2
    ensures !c.compressed ==> AlignPC(c, pc) % 4 == 0 && AlignPC(c, pc) <= pc < AlignPC(c, pc) + 4
  {
    if c.compressed {
      assert AlignPC(c, pc) == pc / 2 * 2;
    } else {
      assert AlignPC(c, pc) == pc / 4 * 4;
    }
  }

  // ---- Current mode and delegation ----

  lemma MergeWithin(bits: set<nat>, old_: set<nat>, mask: set<nat>)
    requires old_ <= mask
    ensures Merge(bits, old_, mask) <= mask
  {
  }

  lemma DelegatedImplemented(c: Config, q: Irq, code: nat)
    requires ValidConfig(c) && DelegationInv(c, q)
    ensures Implemented(c, Delegated(q.mideleg, q.sideleg, code))
    ensures Implemented(c, Delegated(q.medeleg, q.sedeleg, code))
  {
  }

  lemma ReturnModeImplemented(c: Config, t: Traps, cur: Mode, x: Mode)
    requires ValidConfig(c) && MayReturn(c, cur, x)
    ensures Implemented(c, ReturnMode(c, t, x))
  {
  }

  /** The current mode is implemented after every step. */
  lemma StepMode(c: Config, st: State, op: Op)
    requires ValidConfig(c) && Implemented(c, Cur(st)) && DelegationInv(c, st.irq) && Enabled(c, st, op)
    ensures Implemented(c, Cur(Step(c, st, op)))
  {
    match op
    case Raise(code, _) => DelegatedImplemented(c, st.irq, code);
    case Fetch(chosen) => DelegatedImplemented(c, st.irq, chosen);
    case Leave(x) => ReturnModeImplemented(c, st.traps, Cur(st), x);
    case _ =>
  }

  lemma StepDelegation(c: Config, st: State, op: Op)
    requires ValidConfig(c) && DelegationInv(c, st.irq) && Enabled(c, st, op)
    ensures DelegationInv(c, Step(c, st, op).irq)
  {
    match op
    case IeWrite(bits, rMask) => assert Merge(bits, st.irq.mie, c.mieMask * rMask) <= c.mieMask;
    case MidelegWrite(bits) => MergeWithin(bits, st.irq.mideleg, c.midelegMask);
    case MedelegWrite(bits) => MergeWithin(bits, st.irq.medeleg, c.medelegMask);
    case _ =>
  }

  // ---- Waking ----

  /** Interrupt register writes. */
  ghost predicate WritesIrq(op: Op) {
    op.IpWrite? || op.IeWrite? || op.MidelegWrite? || op.SidelegWrite? || op.MedelegWrite? || op.SedelegWrite?
  }

  lemma TestWakes(st: State)
    requires st.irq.mip == st.irq.lines + st.irq.swip && (st.power.halted <==> st.power.disable != {})
    ensures WakeInv(st.irq, TestInterrupt(st).power)
  {
  }

  lemma UpdateWakes(st: State)
    requires st.power.halted <==> st.power.disable != {}
    requires st.irq.mip == st.irq.lines + st.irq.swip ==> WakeInv(st.irq, st.power)
    ensures WakeInv(UpdatePending(st).irq, UpdatePending(st).power)
  {
    var q := st.irq.(mip := st.irq.lines + st.irq.swip);
    TestWakes(st.(irq := q));
    if q == st.irq {
      assert q.mip == st.irq.mip;
    }
  }

  lemma StepWake(c: Config, st: State, op: Op)
    requires ValidConfig(c) && WakeInv(st.irq, st.power)
    ensures var st' := Step(c, st, op); WakeInv(st'.irq, st'.power)
  {
    match op
    case Line(i, high) =>
      UpdateWakes(st.(irq := st.irq.(lines := if high then st.irq.lines + {i} else st.irq.lines - {i})));
    case IpWrite(bits, rMask) =>
      UpdateWakes(st.(irq := st.irq.(swip := Merge(bits, st.irq.swip, c.mieMask * rMask))));
    case _ =>
      if WritesIrq(op) {
        WriteWakes(c, st, op);
      }
  }

  lemma WriteWakes(c: Config, st: State, op: Op)
    requires ValidConfig(c) && WakeInv(st.irq, st.power) && WritesIrq(op) && !op.IpWrite?
    ensures var st' := Step(c, st, op); WakeInv(st'.irq, st'.power)
  {
  }

  /** A hart that only waits for an interrupt runs as soon as a step makes one pending and enabled. */
  lemma WakesUp(c: Config, st: State, op: Op)
    requires ValidConfig(c) && WakeInv(st.irq, st.power) && st.power.disable == {WFI} && !op.Nmi?
    requires Pending(Step(c, st, op).irq) != {}
    ensures !Step(c, st, op).power.halted
  {
    StepWake(c, st, op);
    if !op.Wait? {
      NoNewReason(c, st, op);
    }
  }

  /** Only a wait adds a reason to stand still. */
  lemma NoNewReason(c: Config, st: State, op: Op)
    requires ValidConfig(c) && !op.Nmi? && !op.Wait?
    ensures Step(c, st, op).power.disable <= st.power.disable
  {
    if WritesIrq(op) {
      NoNewReasonIrq(c, st, op);
    }
  }

  lemma NoNewReasonIrq(c: Config, st: State, op: Op)
    requires ValidConfig(c) && WritesIrq(op)
    ensures Step(c, st, op).power.disable <= st.power.disable
  {
  }

  /** Only a pending interrupt ends a wait. */
  lemma StillWaits(c: Config, st: State, op: Op)
    requires ValidConfig(c) && !op.Nmi?
    requires WFI in st.power.disable && Pending(Step(c, st, op).irq) == {}
    ensures WFI in Step(c, st, op).power.disable
  {
  }

  // ---- Requests ----

  /** Lower or equal enable bits in the same or a higher mode enable nothing new. */
  lemma NothingRaised(cur: Mode, cur': Mode, t: Traps, t': Traps, q: Irq)
    requires cur' == cur || cur' == M
    requires !RaisesIE(t, t')
    ensures EnabledOf(cur', t', q) <= EnabledOf(cur, t, q)
  {
    forall i | i in EnabledOf(cur', t', q)
      ensures i in EnabledOf(cur, t, q)
    {
      EnabledMeaning(cur, t, q, i);
      EnabledMeaning(cur', t', q, i);
    }
  }

  lemma TrapShrinks(c: Config, st: State, isInterrupt: bool, code: nat, tval: nat)
    ensures PendingEnabled(TakeException(c, st, isInterrupt, code, tval)) <= PendingEnabled(st)
  {
    forall i | i in PendingEnabled(TakeException(c, st, isInterrupt, code, tval))
      ensures i in PendingEnabled(st)
    {
      TrapNeverAdds(c, st, isInterrupt, code, tval, i);
    }
  }

  lemma NmiShrinks(c: Config, st: State, high: bool)
    ensures PendingEnabled(SetNmi(c, st, high)) <= PendingEnabled(st)
  {
    var st' := SetNmi(c, st, high);
    NothingRaised(Cur(st), Cur(st'), st.traps, st'.traps, st.irq);
  }

  /** Every step that enables an interrupt ends by asking for it to be handled, even if nothing was asked
      for before it. */
  lemma AddedIsRequested(c: Config, st: State, op: Op)
    requires ValidConfig(c) && !st.power.requested
    ensures PendingEnabled(Step(c, st, op)) <= PendingEnabled(st) || Step(c, st, op).power.requested
  {
    match op
    case Raise(code, tval) => TrapShrinks(c, st, false, code, tval);
    case Fetch(chosen) => TrapShrinks(c, st, true, chosen, 0);
    case Nmi(high) => NmiShrinks(c, st, high);
    case StatusWrite(v, k) =>
      var t := Stored(c, st.traps, v, k);
      if !RaisesIE(st.traps, t) {
        NothingRaised(Cur(st), Cur(st), st.traps, t, st.irq);
      }
    case _ =>
      if WritesIrq(op) {
        AddedByWrite(c, st, op);
      }
  }

  lemma AddedByWrite(c: Config, st: State, op: Op)
    requires ValidConfig(c) && !st.power.requested && WritesIrq(op)
    ensures PendingEnabled(Step(c, st, op)) <= PendingEnabled(st) || Step(c, st, op).power.requested
  {
  }

  /** A request stands while there is an interrupt to take. */
  lemma RequestStands(c: Config, st: State, op: Op)
    requires ValidConfig(c) && st.power.requested && PendingEnabled(st) != {}
    ensures Step(c, st, op).power.requested
  {
  }

  /** a is b, perhaps without its request. */
  ghost predicate Calmer(a: State, b: State) {
    a == b.(power := b.power.(requested := a.power.requested)) && (a.power.requested ==> b.power.requested)
  }

  lemma TestCalmer(a: State, b: State)
    requires Calmer(a, b)
    ensures Calmer(TestInterrupt(a), TestInterrupt(b))
  {
  }

  lemma TrapCalmer(c: Config, a: State, b: State, isInterrupt: bool, code: nat, tval: nat)
    requires Calmer(a, b)
    ensures Calmer(TakeException(c, a, isInterrupt, code, tval), TakeException(c, b, isInterrupt, code, tval))
  {
  }

  lemma ReturnCalmer(c: Config, a: State, b: State, x: Mode)
    requires Calmer(a, b)
    ensures Calmer(Return(c, a, x), Return(c, b, x))
  {
    var (pc, mode, t) := (BankOf(b.traps, x).epc, ReturnMode(c, b.traps, x), Popped(c, b.traps, x));
    TestCalmer(SetMode(c, a.(traps := t, pc := pc), mode), SetMode(c, b.(traps := t, pc := pc), mode));
  }

  lemma StatusCalmer(c: Config, a: State, b: State, v: Status, k: Status)
    requires Calmer(a, b)
    ensures Calmer(WriteStatus(c, a, v, k), WriteStatus(c, b, v, k))
  {
  }

  lemma UpdateCalmer(a: State, b: State)
    requires Calmer(a, b)
    ensures Calmer(UpdatePending(a), UpdatePending(b))
  {
  }

  lemma IrqCalmer(c: Config, a: State, b: State, op: Op)
    requires ValidConfig(c) && Calmer(a, b) && WritesIrq(op)
    ensures Calmer(Step(c, a, op), Step(c, b, op))
  {
    match op
    case IpWrite(bits, rMask) =>
      var q := b.irq.(swip := Merge(bits, b.irq.swip, c.mieMask * rMask));
      UpdateCalmer(a.(irq := q), b.(irq := q));
    case _ =>
  }

  lemma OthersCalmer(c: Config, a: State, b: State, op: Op)
    requires ValidConfig(c) && Calmer(a, b)
    requires !WritesIrq(op) && !(op.Raise? || op.Fetch? || op.Leave? || op.StatusWrite? || op.Line?)
    ensures Calmer(Step(c, a, op), Step(c, b, op))
  {
  }

  /** A request changes nothing but itself. */
  lemma RequestIgnored(c: Config, a: State, b: State, op: Op)
    requires ValidConfig(c) && Calmer(a, b)
    ensures Calmer(Step(c, a, op), Step(c, b, op))
  {
    match op
    case Raise(code, tval) => TrapCalmer(c, a, b, false, code, tval);
    case Fetch(chosen) => TrapCalmer(c, a, b, true, chosen, 0);
    case Leave(x) => ReturnCalmer(c, a, b, x);
    case StatusWrite(v, k) => StatusCalmer(c, a, b, v, k);
    case Line(i, high) =>
      var q := b.irq.(lines := if high then b.irq.lines + {i} else b.irq.lines - {i});
      UpdateCalmer(a.(irq := q), b.(irq := q));
    case _ =>
      if WritesIrq(op) {
        IrqCalmer(c, a, b, op);
      } else {
        OthersCalmer(c, a, b, op);
      }
  }

  lemma StepRequest(c: Config, st: State, op: Op)
    requires ValidConfig(c) && RequestInv(st)
    ensures RequestInv(Step(c, st, op))
  {
    var calm := st.(power := st.power.(requested := false));
    AddedIsRequested(c, calm, op);
    RequestIgnored(c, calm, st, op);
    if PendingEnabled(st) != {} {
      RequestStands(c, st, op);
    }
  }

  // ---- Status writes ----

  function ReadStatus(t: Traps): Status {
    Status(t.u.ie, t.s.ie, t.m.ie, t.u.pie, t.s.pie, t.m.pie, t.s.pp, t.m.pp, t.fs, t.mprv, t.sum, t.mxr)
  }

  ghost predicate AllWritable(k: Status) {
    && k.uie && k.sie && k.mie && k.upie && k.spie && k.mpie && k.spp != 0 && k.mpp != 0
    && k.fs != 0 && k.mprv && k.sum && k.mxr
  }

  ghost predicate ValidStatus(c: Config, v: Status) {
    v.spp < 2 && v.mpp < 4 && v.fs < 4 && HasMode(c, v.mpp)
  }

  /** What is written through a mask that covers every field reads back, and writing back what was read
      changes nothing. */
  lemma StatusReadsBack(c: Config, t: Traps, v: Status, k: Status)
    requires ValidStatus(c, v)
    ensures AllWritable(k) ==> ReadStatus(Stored(c, t, v, k)) == v
    ensures ValidStatus(c, ReadStatus(t)) ==> Stored(c, t, ReadStatus(t), k) == t
  {
  }

  /** An alias that does not show the Machine fields cannot change them, nor the data domain. */
  lemma StatusAliasIsConfined(c: Config, st: State, v: Status, k: Status)
    requires ValidConfig(c) && DerivedInv(c, st)
    requires !k.mie && !k.mpie && k.mpp == 0 && !k.mprv
    ensures var st' := WriteStatus(c, st, v, k);
            st'.traps.m == st.traps.m && st'.traps.mprv == st.traps.mprv && st'.derived.domain == st.derived.domain
  {
  }

  // ---- Derived state ----

  lemma TrapDerived(c: Config, st: State, isInterrupt: bool, code: nat, tval: nat)
    requires DerivedInv(c, st)
    ensures DerivedInv(c, TakeException(c, st, isInterrupt, code, tval))
  {
  }

  lemma ReturnDerived(c: Config, st: State, x: Mode)
    requires DerivedInv(c, st)
    ensures DerivedInv(c, Return(c, st, x))
  {
  }

  lemma StatusDerived(c: Config, st: State, v: Status, k: Status)
    requires DerivedInv(c, st)
    ensures DerivedInv(c, WriteStatus(c, st, v, k))
  {
  }

  /** After this write of misa every register is read as before: MXL does not switch the view, or the other view
      already holds the new MXL, the same ASID, a supported mode, and the same answer to whether addresses are
      translated wherever that matters. */
  ghost predicate MisaHarmless(c: Config, st: State, x: set<char>, mxl: nat) {
    var narrow := Narrow(st.derived.arch);
    var mxl' := MxlOf(narrow, NewMisa(c, narrow, st.vm.misa, x, mxl));
    var narrow' := mxl' % 2 == 1;
    narrow' == narrow
    || (&& MxlOf(narrow', st.vm.misa) == mxl'
        && SatpAsid(narrow', st.vm.satp) == SatpAsid(narrow, st.vm.satp)
        && SatpMode(narrow', st.vm.satp) in c.svModes
        && ((Cur(st) == M && DataMode(c, st.traps, M) == M)
            || (SatpMode(narrow', st.vm.satp) != 0 <==> SatpMode(narrow, st.vm.satp) != 0)))
  }

  /** A write of misa keeps the derived state equal to what the registers define if and only if it is harmless. */
  lemma MisaWriteExact(c: Config, st: State, x: set<char>, mxl: nat)
    requires ValidConfig(c) && DerivedInv(c, st)
    ensures DerivedInv(c, WriteMisa(c, st, x, mxl)) <==> MisaHarmless(c, st, x, mxl)
  {
  }

  /** With MXL read-only every write of misa is harmless. */
  lemma FixedMxlIsHarmless(c: Config, st: State, x: set<char>, mxl: nat)
    requires DerivedInv(c, st) && c.mxlMask == 0 && st.derived.arch.mxl < 4
    ensures MisaHarmless(c, st, x, mxl)
  {
  }

  /** An MXL write that breaks it: a 64-bit hart in Machine mode whose data accesses use Supervisor translation
      (MPRV set, MPP Supervisor, Sv39 in satp) switches to 32 bits. satp.MODE then reads as bare, but the data
      domain is still the translated one. */
  lemma MxlWriteStrands(c: Config, st: State, x: set<char>)
    requires ValidConfig(c) && DerivedInv(c, st) && c.hasS && c.mxlMask == 3
    requires Cur(st) == M && st.traps.mprv && st.traps.m.pp == 1 && !Narrow(st.derived.arch)
    requires st.vm.satp.mode4 == 8 && st.vm.satp.mode1 == 0
    ensures var st' := WriteMisa(c, st, x, 1);
            st'.derived.domain == Virtual(S) && SatpMode(Narrow(st'.derived.arch), st'.vm.satp) == 0
    ensures !MisaHarmless(c, st, x, 1)
  {
    MisaWriteExact(c, st, x, 1);
  }

  lemma SatpDerived(c: Config, st: State, v: nat)
    requires ValidConfig(c) && DerivedInv(c, st)
    ensures DerivedInv(c, WriteSatp(c, st, v))
  {
  }

  /** The step is not a harmful write of misa. */
  ghost predicate KeepsViews(c: Config, st: State, op: Op) {
    op.MisaWrite? ==> MisaHarmless(c, st, op.extensions, op.mxl)
  }

  lemma StepDerived(c: Config, st: State, op: Op)
    requires ValidConfig(c) && DerivedInv(c, st) && KeepsViews(c, st, op)
    ensures DerivedInv(c, Step(c, st, op))
  {
    match op
    case Raise(code, tval) => TrapDerived(c, st, false, code, tval);
    case Fetch(chosen) => TrapDerived(c, st, true, chosen, 0);
    case Leave(x) => ReturnDerived(c, st, x);
    case StatusWrite(v, k) => StatusDerived(c, st, v, k);
    case SatpWrite(v) => SatpDerived(c, st, v);
    case MisaWrite(x, mxl) => MisaWriteExact(c, st, x, mxl);
    case Nmi(high) => NmiDerived(c, st, high);
    case _ => OtherDerived(c, st, op);
  }

  lemma NmiDerived(c: Config, st: State, high: bool)
    requires DerivedInv(c, st)
    ensures DerivedInv(c, SetNmi(c, st, high))
  {
  }

  /** The remaining steps touch nothing that the derived state depends on. */
  lemma OtherDerived(c: Config, st: State, op: Op)
    requires ValidConfig(c) && DerivedInv(c, st)
    requires !(op.Raise? || op.Fetch? || op.Leave? || op.StatusWrite? || op.SatpWrite? || op.MisaWrite? || op.Nmi?)
    ensures DerivedInv(c, Step(c, st, op))
  {
    var st' := Step(c, st, op);
    assert st'.derived == st.derived && st'.dmode == st.dmode && st'.vm == st.vm;
    assert st'.traps.m.pp == st.traps.m.pp && st'.traps.(u := st.traps.u, s := st.traps.s, m := st.traps.m) == st.traps;
  }

  /** Writing misa ties the two floating-point extensions where both are implemented: the read-only one
      follows the writable one, and if both are writable D can be made to need F. */
  lemma MisaTiesDF(c: Config, st: State, x: set<char>, mxl: nat)
    requires {'D', 'F'} <= c.archDF
    ensures var e := WriteMisa(c, st, x, mxl).vm.misa.extensions;
            && ('D' in c.writableMisa && 'F' !in c.writableMisa ==> ('D' in e <==> 'F' in e && 'D' in x))
            && ('F' in c.writableMisa && 'D' !in c.writableMisa ==> ('D' in e <==> 'F' in e && 'F' in x))
            && ({'D', 'F'} <= c.writableMisa && c.dRequiresF ==> ('D' in e <==> 'D' in x && 'F' in x))
  {
  }

  // ---- Runs ----

  /** A hart at start-up, in Machine mode with nothing pending. */
  ghost predicate Init(c: Config, st: State) {
    && Cur(st) == M && FieldsFit(st.traps, st.vm) && DelegationInv(c, st.irq) && DerivedInv(c, st)
    && st.irq.mip == {} && st.irq.swip == {} && st.irq.lines == {}
    && st.power.disable == {} && !st.power.halted
  }

  ghost predicate RunStep(c: Config, states: seq<State>, ops: seq<Op>, i: nat)
    requires ValidConfig(c) && |states| == |ops| + 1 && i < |ops|
  {
    Enabled(c, states[i], ops[i]) && KeepsViews(c, states[i], ops[i]) && states[i + 1] == Step(c, states[i], ops[i])
  }

  /** Any sequence of steps without a harmful write of misa. */
  ghost predicate Run(c: Config, states: seq<State>, ops: seq<Op>)
    requires ValidConfig(c)
  {
    && |states| == |ops| + 1 && Init(c, states[0])
    && forall i :: 0 <= i < |ops| ==> RunStep(c, states, ops, i)
  }

  lemma InitInv(c: Config, st: State)
    requires Init(c, st)
    ensures Inv(c, st)
  {
    assert Pending(st.irq) == {};
    assert PendingEnabled(st) <= Pending(st.irq);
  }

  ghost predicate TrapsFit(t: Traps) {
    t.s.pp < 2 && t.m.pp < 4 && t.fs < 4
  }

  lemma TrapFits(c: Config, st: State, isInterrupt: bool, code: nat, tval: nat)
    requires TrapsFit(st.traps)
    ensures var st' := TakeException(c, st, isInterrupt, code, tval); TrapsFit(st'.traps) && st'.vm == st.vm
  {
  }

  lemma ReturnFits(c: Config, st: State, x: Mode)
    requires TrapsFit(st.traps)
    ensures var st' := Return(c, st, x); TrapsFit(st'.traps) && st'.vm == st.vm
  {
  }

  lemma StepFits(c: Config, st: State, op: Op)
    requires ValidConfig(c) && FieldsFit(st.traps, st.vm)
    ensures FieldsFit(Step(c, st, op).traps, Step(c, st, op).vm)
  {
    match op
    case Raise(code, tval) => TrapFits(c, st, false, code, tval);
    case Fetch(chosen) => TrapFits(c, st, true, chosen, 0);
    case Leave(x) => ReturnFits(c, st, x);
    case SatpWrite(v) => SatpStays(c, st, v);
    case _ =>
  }

  /** What satpW stores fits. */
  lemma SatpStays(c: Config, st: State, v: nat)
    requires ValidConfig(c) && SatpFits(st.vm.satp)
    ensures SatpFits(WriteSatp(c, st, v).vm.satp)
  {
    var (mode, asid, ppn) := SatpView(Narrow(st.derived.arch), v);
    Remainder(asid, c.asids);
    Remainder(ppn, c.ppns);
  }

  lemma Remainder(x: nat, d: nat)
    requires d > 0
    ensures x % d <= x
  {
    if x < d {
      assert x % d == x;
    }
  }

  lemma StepInv(c: Config, st: State, op: Op)
    requires ValidConfig(c) && Inv(c, st) && Enabled(c, st, op) && KeepsViews(c, st, op)
    ensures Inv(c, Step(c, st, op))
  {
    StepFits(c, st, op);
    StepMode(c, st, op);
    StepDelegation(c, st, op);
    StepWake(c, st, op);
    StepRequest(c, st, op);
    StepDerived(c, st, op);
  }

  /** In every state of every run: the current mode is implemented, mip is the union of its sources, a hart
      waiting for an interrupt has none, an interrupt that can be taken has been requested, and the derived
      state is what the registers define. */
  lemma {:induction false} AlwaysInv(c: Config, states: seq<State>, ops: seq<Op>, i: nat)
    requires ValidConfig(c) && Run(c, states, ops) && i <= |ops|
    ensures Inv(c, states[i])
    decreases i
  {
    if i == 0 {
      InitInv(c, states[0]);
    } else {
      AlwaysInv(c, states, ops, i - 1);
      assert RunStep(c, states, ops, i - 1);
      StepInv(c, states[i - 1], ops[i - 1]);
    }
  }

  /** The walk that looks up a translation never finds an unsupported scheme in satp: wherever addresses are
      translated, for fetches or for data, the mode is Sv32, Sv39 or Sv48. */
  lemma TranslationHasScheme(c: Config, states: seq<State>, ops: seq<Op>, i: nat)
    requires ValidConfig(c) && Run(c, states, ops) && i <= |ops|
    ensures var st := states[i];
            st.dmode.vm || st.derived.domain.Virtual? ==> SatpMode(Narrow(st.derived.arch), st.vm.satp) in {1, 8, 9}
  {
    AlwaysInv(c, states, ops, i);
    var st := states[i];
    assert SatpMode(Narrow(st.derived.arch), st.vm.satp) in {0, 1, 8, 9};
  }

  // ---- Sleep ----

  lemma SleepStarts(c: Config, st: State)
    requires ValidConfig(c) && WakeInv(st.irq, st.power) && !st.power.halted
    ensures var st' := Step(c, st, Wait);
            st'.irq == st.irq && st'.power.disable <= {WFI} && (st'.power.halted <==> Pending(st.irq) == {})
  {
  }

  lemma SleepGoesOn(c: Config, st: State, op: Op)
    requires ValidConfig(c) && WakeInv(st.irq, st.power) && !op.Nmi? && !op.Wait? && st.power.disable <= {WFI}
    ensures var st' := Step(c, st, op);
            st'.power.disable <= {WFI} && (st'.power.halted <==> st.power.halted && Pending(st'.irq) == {})
  {
    StepWake(c, st, op);
    NoNewReason(c, st, op);
    var st' := Step(c, st, op);
    if WFI in st.power.disable && Pending(st'.irq) == {} {
      StillWaits(c, st, op);
    }
    assert st'.power.disable == {} || st'.power.disable == {WFI};
  }

  /** No enabled interrupt is pending in any of the states i to k. */
  ghost predicate NothingPending(states: seq<State>, i: nat, k: nat)
    requires k < |states|
  {
    forall j :: i <= j <= k ==> Pending(states[j].irq) == {}
  }

  /** A running hart that waits at step i, with no non-maskable interrupt and no further wait up to k, stands
      still at k if and only if no enabled interrupt has been pending at any moment since: no wakeup is lost and
      none comes for nothing. */
  lemma {:induction false} SleepsExactly(c: Config, states: seq<State>, ops: seq<Op>, i: nat, k: nat)
    requires ValidConfig(c) && Run(c, states, ops) && i < k <= |ops|
    requires ops[i] == Wait && !states[i].power.halted
    requires forall j :: i < j < k ==> !ops[j].Wait? && !ops[j].Nmi?
    ensures states[k].power.disable <= {WFI}
    ensures states[k].power.halted <==> NothingPending(states, i, k)
    decreases k
  {
    AlwaysInv(c, states, ops, k - 1);
    assert RunStep(c, states, ops, k - 1);
    var st, op := states[k - 1], ops[k - 1];
    if k == i + 1 {
      SleepStarts(c, st);
    } else {
      SleepsExactly(c, states, ops, i, k - 1);
      SleepGoesOn(c, st, op);
    }
  }
}

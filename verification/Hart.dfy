/** Traps, returns, interrupts and the control registers that govern them, as functions on the state of
    one hart. */
module Hart {
  import opened Access

  // ---- Configuration ----

  /** Implemented modes and extensions, writable register bits, and fixed addresses. */
  datatype Config = Config(
    hasS: bool, hasU: bool, hasN: bool, compressed: bool,
    mieMask: set<nat>, medelegMask: set<nat>, sedelegMask: set<nat>,
    midelegMask: set<nat>, sidelegMask: set<nat>,
    svModes: set<nat>, asids: nat, ppns: nat, nmiAddress: nat,
    archDF: set<char>, writableMisa: set<char>, mxlMask: nat, dRequiresF: bool)

  /** User interrupts need User mode, and interrupts and exceptions have codes below 32. */
  predicate ValidConfig(c: Config) {
    && (c.hasN ==> c.hasU)
    && (forall i :: i in c.mieMask ==> i < 32)
    && (forall i :: i in c.midelegMask ==> i < 32)
    && (forall i :: i in c.medelegMask ==> i < 32)
    && 0 in c.svModes && c.svModes <= {0, 1, 8, 9}
    && c.asids > 0 && c.ppns > 0
  }

  /** riscvHasMode, of a mode number */
  predicate HasMode(c: Config, n: nat) {
    (n == 0 && c.hasU) || (n == 1 && c.hasS) || n == 3
  }

  predicate Implemented(c: Config, mode: Mode) {
    HasMode(c, Level(mode))
  }

  /** riscvGetMinMode */
  function MinMode(c: Config): Mode {
    if c.hasU then U else if c.hasS then S else M
  }

  function ModeOf(n: nat): Mode {
    if n == 0 then U else if n == 1 then S else M
  }

  // ---- State ----

  /** The trap registers of one mode: interrupt enable and its stack, previous mode, exception program
      counter, cause, trap value and trap vector. */
  datatype Bank = Bank(
    ie: bool, pie: bool, pp: nat, epc: nat, isInterrupt: bool, code: nat, tval: nat, base: nat, vectored: bool)

  /** Dictionary mode: the privilege mode and whether addresses are translated. */
  datatype DMode = DMode(mode: Mode, vm: bool)

  /** The memory domain used for data accesses. */
  datatype Domain = Virtual(mode: Mode) | Physical(mode: Mode)

  datatype Reason = WFI | NMI

  /** The architecture in force: extensions and the register width code, 1 for 32 and 2 for 64 bits. */
  datatype Arch = Arch(extensions: set<char>, mxl: nat)

  /** misa, with the two places of MXL: bits 31 and 30 of the 32-bit view, bits 63 and 62 of the 64-bit view. */
  datatype Misa = Misa(extensions: set<char>, mxl32: nat, mxl64: nat)

  /** satp, cut where its two views have their fields: the 32-bit view is PPN, ASID and MODE in ppn22, asid9 and
      mode1; the 64-bit view has its PPN in those and ppn12, and its ASID and MODE in asid16 and mode4. */
  datatype Satp = Satp(ppn22: nat, asid9: nat, mode1: nat, ppn12: nat, asid16: nat, mode4: nat)

  /** mstatus and the trap registers. */
  datatype Traps = Traps(u: Bank, s: Bank, m: Bank, mprv: bool, sum: bool, mxr: bool, fs: nat)

  /** Delegation, interrupt enables, and the pending interrupts with their two sources: software and the
      external lines. */
  datatype Irq = Irq(
    medeleg: set<nat>, sedeleg: set<nat>, mideleg: set<nat>, sideleg: set<nat>,
    mie: set<nat>, mip: set<nat>, swip: set<nat>, lines: set<nat>)

  /** The non-maskable interrupt line, the reasons to stand still, and whether interrupt handling has been
      requested of the simulator. */
  datatype Power = Power(nmi: bool, disable: set<Reason>, halted: bool, requested: bool)

  datatype Vm = Vm(misa: Misa, satp: Satp)

  /** What the simulator keeps beside the registers. */
  datatype Derived = Derived(arch: Arch, domain: Domain, asid: SimAsid)

  datatype State = State(dmode: DMode, pc: nat, traps: Traps, irq: Irq, power: Power, vm: Vm, derived: Derived)

  function Cur(st: State): Mode {
    st.dmode.mode
  }

  function BankOf(t: Traps, mode: Mode): Bank {
    match mode case U => t.u case S => t.s case M => t.m
  }

  function WithBank(t: Traps, mode: Mode, b: Bank): Traps {
    match mode case U => t.(u := b) case S => t.(s := b) case M => t.(m := b)
  }

  // ---- Register views ----

  /** RISCV_XLEN_IS_32: every field is read in the view that the architecture in force selects. */
  predicate Narrow(a: Arch) {
    a.mxl % 2 == 1
  }

  function MxlOf(narrow: bool, m: Misa): nat {
    if narrow then m.mxl32 else m.mxl64
  }

  function SatpMode(narrow: bool, s: Satp): nat {
    if narrow then s.mode1 else s.mode4
  }

  function SatpAsid(narrow: bool, s: Satp): nat {
    if narrow then s.asid9 else s.asid16
  }

  /** Storing fields in a view; the 32-bit view leaves the upper half alone. */
  function StoreSatp(narrow: bool, s: Satp, mode: nat, asid: nat, ppn: nat): Satp {
    if narrow then s.(ppn22 := ppn, asid9 := asid, mode1 := mode)
    else Satp(ppn % 0x40_0000, ppn / 0x40_0000 % 512, ppn / 0x8000_0000 % 2, ppn / 0x1_0000_0000 % 4096, asid, mode)
  }

  /** MODE, ASID and PPN of a register value, by their bit positions in the two views (section 4.1.12 of the
      Privileged Architecture). */
  function SatpView(narrow: bool, v: nat): (nat, nat, nat) {
    if narrow then (v / 0x8000_0000 % 2, v / 0x40_0000 % 512, v % 0x40_0000)
    else (v / 0x1000_0000_0000_0000 % 16, v / 0x1000_0000_0000 % 0x1_0000, v % 0x1000_0000_0000)
  }

  // ---- Derived state ----

  /** riscvSetCurrentArch, with MXL read in the given view */
  function ArchOf(narrow: bool, t: Traps, vm: Vm): Arch {
    Arch(if t.fs == 0 then vm.misa.extensions - {'D', 'F'} else vm.misa.extensions, MxlOf(narrow, vm.misa))
  }

  function DModeOf(narrow: bool, vm: Vm, mode: Mode): DMode {
    DMode(mode, mode != M && SatpMode(narrow, vm.satp) != 0)
  }

  /** The mode whose memory view data accesses use. */
  function DataMode(c: Config, t: Traps, mode: Mode): Mode {
    if !t.mprv then mode
    else if HasMode(c, t.m.pp) then ModeOf(t.m.pp)
    else MinMode(c)
  }

  /** riscvVMRefreshMPRVDomain */
  function DomainOf(c: Config, narrow: bool, t: Traps, vm: Vm, mode: Mode): Domain {
    var data := DataMode(c, t, mode);
    if SatpMode(narrow, vm.satp) != 0 && data != M then Virtual(data) else Physical(data)
  }

  /** getSimASID */
  function AsidOf(narrow: bool, t: Traps, vm: Vm): SimAsid {
    SimAsid(SatpAsid(narrow, vm.satp), t.mxr, t.sum)
  }

  /** riscvSetMode */
  function SetMode(c: Config, st: State, mode: Mode): State {
    var narrow := Narrow(st.derived.arch);
    st.(dmode := DModeOf(narrow, st.vm, mode),
        derived := st.derived.(domain := DomainOf(c, narrow, st.traps, st.vm, mode)))
  }

  // ---- Interrupts ----

  /** The mode the delegation registers give for a code. */
  function Delegated(mDeleg: set<nat>, sDeleg: set<nat>, code: nat): Mode {
    if code !in mDeleg then M else if code !in sDeleg then S else U
  }

  /** getModeX */
  function ModeX(q: Irq, cur: Mode, isInterrupt: bool, code: nat): Mode {
    var x := if isInterrupt then Delegated(q.mideleg, q.sideleg, code) else Delegated(q.medeleg, q.sedeleg, code);
    if Level(x) > Level(cur) then x else cur
  }

  /** getPendingInterrupts */
  function Pending(q: Irq): set<nat> {
    q.mie * q.mip
  }

  /** getIE */
  predicate EffectiveIE(cur: Mode, t: Traps, mode: Mode) {
    if Level(cur) < Level(mode) then true
    else if Level(cur) > Level(mode) then false
    else BankOf(t, mode).ie
  }

  /** getPendingAndEnabledInterrupts */
  function EnabledOf(cur: Mode, t: Traps, q: Irq): set<nat> {
    var sideleg := q.sideleg * q.mideleg;
    var r := Pending(q);
    var r := if EffectiveIE(cur, t, M) then r else r * q.mideleg;
    var r := if EffectiveIE(cur, t, S) then r else r - (q.mideleg - sideleg);
    if EffectiveIE(cur, t, U) then r else r - sideleg
  }

  function PendingEnabled(st: State): set<nat> {
    EnabledOf(Cur(st), st.traps, st.irq)
  }

  /** restartProcessor */
  function Restart(p: Power, reasons: set<Reason>): Power {
    var left := p.disable - reasons;
    p.(disable := left, halted := if left == {} then false else p.halted)
  }

  /** haltProcessor */
  function Halt(p: Power, reason: Reason): Power {
    p.(disable := p.disable + {reason}, halted := if p.disable == {} then true else p.halted)
  }

  /** riscvTestInterrupt */
  function TestInterrupt(st: State): State {
    var p := if Pending(st.irq) != {} then Restart(st.power, {WFI}) else st.power;
    st.(power := if PendingEnabled(st) != {} then p.(requested := true) else p)
  }

  // ---- Traps ----

  /** Writable bits of an exception program counter: even, or a multiple of four without compressed
      instructions. */
  function AlignPC(c: Config, pc: nat): nat {
    if c.compressed then pc - pc % 2 else pc - pc % 4
  }

  /** TARGET_MODE_X */
  function Enter(b: Bank, isInterrupt: bool, code: nat, epc: nat, tval: nat, pp: nat): Bank {
    Bank(false, b.ie, pp, epc, isInterrupt, code, tval, b.base, b.vectored)
  }

  function HandlerPC(b: Bank, isInterrupt: bool, code: nat): nat {
    if b.vectored && isInterrupt then 4 * b.base + 4 * code else 4 * b.base
  }

  /** The width of the previous-mode field: one bit for Supervisor, two for Machine, none for User. */
  function PPField(mode: Mode, previous: nat): nat {
    match mode case U => 0 case S => previous % 2 case M => previous % 4
  }

  /** riscvTakeException */
  function TakeException(c: Config, st: State, isInterrupt: bool, code: nat, tval: nat): State {
    var x := ModeX(st.irq, Cur(st), isInterrupt, code);
    var b := Enter(BankOf(st.traps, x), isInterrupt, code, AlignPC(c, st.pc), tval, PPField(x, Level(Cur(st))));
    SetMode(c, st.(traps := WithBank(st.traps, x, b), pc := HandlerPC(b, isInterrupt, code)), x)
  }

  /** The mode a return from mode x goes to (getERETMode). */
  function ReturnMode(c: Config, t: Traps, x: Mode): Mode {
    if x == U then U
    else if HasMode(c, BankOf(t, x).pp) then ModeOf(BankOf(t, x).pp)
    else MinMode(c)
  }

  /** The registers after a return: the interrupt enable stack is popped. */
  function Popped(c: Config, t: Traps, x: Mode): Traps {
    var b := BankOf(t, x);
    WithBank(t, x, b.(ie := b.pie, pie := true, pp := PPField(x, Level(MinMode(c)))))
  }

  /** riscvMRET, riscvSRET and riscvURET */
  function Return(c: Config, st: State, x: Mode): State {
    TestInterrupt(SetMode(c, st.(traps := Popped(c, st.traps, x), pc := BankOf(st.traps, x).epc),
                          ReturnMode(c, st.traps, x)))
  }

  /** Where the return instructions are legal. */
  predicate MayReturn(c: Config, cur: Mode, x: Mode) {
    match x
    case M => cur == M
    case S => c.hasS && cur != U
    case U => c.hasN
  }

  ghost predicate IsMax(s: set<nat>, i: nat) {
    i in s && forall j :: j in s ==> j <= i
  }

  // ---- Register writes ----

  /** A value for, or a mask of, the fields of mstatus; a mask is true or nonzero where writable. */
  datatype Status = Status(
    uie: bool, sie: bool, mie: bool, upie: bool, spie: bool, mpie: bool, spp: nat, mpp: nat,
    fs: nat, mprv: bool, sum: bool, mxr: bool)

  function Pick<T>(writable: bool, new_: T, old_: T): T {
    if writable then new_ else old_
  }

  /** The masked write, with MPP kept if the new value is not an implemented mode. */
  function Stored(c: Config, t: Traps, v: Status, k: Status): Traps {
    var mpp := Pick(k.mpp != 0, v.mpp % 4, t.m.pp);
    Traps(
      t.u.(ie := Pick(k.uie, v.uie, t.u.ie), pie := Pick(k.upie, v.upie, t.u.pie)),
      t.s.(ie := Pick(k.sie, v.sie, t.s.ie), pie := Pick(k.spie, v.spie, t.s.pie),
           pp := Pick(k.spp != 0, v.spp % 2, t.s.pp)),
      t.m.(ie := Pick(k.mie, v.mie, t.m.ie), pie := Pick(k.mpie, v.mpie, t.m.pie),
           pp := if HasMode(c, mpp) then mpp else t.m.pp),
      Pick(k.mprv, v.mprv, t.mprv), Pick(k.sum, v.sum, t.sum), Pick(k.mxr, v.mxr, t.mxr),
      Pick(k.fs != 0, v.fs % 4, t.fs))
  }

  /** Some interrupt enable bit rises. */
  predicate RaisesIE(t: Traps, t': Traps) {
    (t'.u.ie && !t.u.ie) || (t'.s.ie && !t.s.ie) || (t'.m.ie && !t.m.ie)
  }

  /** statusW */
  function WriteStatus(c: Config, st: State, v: Status, k: Status): State {
    var t := Stored(c, st.traps, v, k);
    var arch := ArchOf(Narrow(st.derived.arch), t, st.vm);
    var narrow := Narrow(arch);
    var st1 := st.(traps := t, derived := Derived(arch, DomainOf(c, narrow, t, st.vm, Cur(st)), AsidOf(narrow, t, st.vm)));
    if RaisesIE(st.traps, t) then TestInterrupt(st1) else st1
  }

  function Merge(new_: set<nat>, old_: set<nat>, mask: set<nat>): set<nat> {
    (new_ * mask) + (old_ - mask)
  }

  /** A register write that tests for interrupts on a change. */
  function TestOnChange(st: State, q: Irq): State {
    if q != st.irq then TestInterrupt(st.(irq := q)) else st
  }

  /** riscvUpdatePending */
  function UpdatePending(st: State): State {
    TestOnChange(st, st.irq.(mip := st.irq.lines + st.irq.swip))
  }

  /** ipW, through the alias that sees the interrupts in rMask. */
  function WriteIp(c: Config, st: State, v: set<nat>, rMask: set<nat>): State {
    var swip := Merge(v, st.irq.swip, c.mieMask * rMask);
    if swip != st.irq.swip then UpdatePending(st.(irq := st.irq.(swip := swip))) else st
  }

  /** ieW */
  function WriteIe(c: Config, st: State, v: set<nat>, rMask: set<nat>): State {
    TestOnChange(st, st.irq.(mie := Merge(v, st.irq.mie, c.mieMask * rMask)))
  }

  function WriteMideleg(c: Config, st: State, v: set<nat>): State {
    TestOnChange(st, st.irq.(mideleg := Merge(v, st.irq.mideleg, c.midelegMask)))
  }

  function WriteSideleg(c: Config, st: State, v: set<nat>): State {
    TestOnChange(st, st.irq.(sideleg := Merge(v, st.irq.sideleg, c.sidelegMask)))
  }

  /** satpW: ASID and PPN are cut to the implemented widths, and a write with an unsupported mode is discarded. */
  function WriteSatp(c: Config, st: State, v: nat): State
    requires ValidConfig(c)
  {
    var narrow := Narrow(st.derived.arch);
    var (mode, asid, ppn) := SatpView(narrow, v);
    if mode !in c.svModes then st
    else
      var satp := StoreSatp(narrow, st.vm.satp, mode, asid % c.asids, ppn % c.ppns);
      var st1 := SetMode(c, st.(vm := st.vm.(satp := satp)), Cur(st));
      st1.(derived := st1.derived.(asid := AsidOf(narrow, st1.traps, st1.vm)))
  }

  /** The rules that tie the D and F extensions. */
  function TieDF(c: Config, x: set<char>): set<char> {
    if !({'D', 'F'} <= c.archDF) then x
    else if {'D', 'F'} <= c.writableMisa then (if c.dRequiresF && 'F' !in x then x - {'D'} else x)
    else if 'D' in c.writableMisa then (if 'D' in x then x + {'F'} else x - {'F'})
    else if 'F' in c.writableMisa then (if 'F' in x then x + {'D'} else x - {'D'})
    else x
  }

  /** A masked write of the two bits of MXL. */
  function MergeMxl(mask: nat, new_: nat, old_: nat): nat {
    Pick(mask % 2 == 1, new_ % 2, old_ % 2) + 2 * Pick(mask / 2 % 2 == 1, new_ / 2 % 2, old_ / 2 % 2)
  }

  /** The value misaW stores. */
  function NewMisa(c: Config, narrow: bool, m: Misa, x: set<char>, mxl: nat): Misa {
    var new_ := TieDF(c, (x * c.writableMisa) + (m.extensions - c.writableMisa));
    if narrow then Misa(new_, MergeMxl(c.mxlMask, mxl, m.mxl32), m.mxl64)
    else Misa(new_, m.mxl32, MergeMxl(c.mxlMask, mxl, m.mxl64))
  }

  /** misaW: a change of MXL switches the view of all registers, and nothing but the architecture is refreshed. */
  function WriteMisa(c: Config, st: State, x: set<char>, mxl: nat): State {
    var narrow := Narrow(st.derived.arch);
    var vm := st.vm.(misa := NewMisa(c, narrow, st.vm.misa, x, mxl));
    st.(vm := vm, derived := st.derived.(arch := ArchOf(narrow, st.traps, vm)))
  }

  // ---- Halting and external signals ----

  /** riscvWFI */
  function WaitForInterrupt(st: State): State {
    if Pending(st.irq) == {} then st.(power := Halt(st.power, WFI)) else st
  }

  /** interruptPortCB */
  function SetLine(st: State, i: nat, high: bool): State {
    UpdatePending(st.(irq := st.irq.(lines := if high then st.irq.lines + {i} else st.irq.lines - {i})))
  }

  /** nmiPortCB and doNMI */
  function SetNmi(c: Config, st: State, high: bool): State {
    if !st.power.nmi && high then st.(power := Halt(st.power, NMI).(nmi := high))
    else if st.power.nmi && !high then
      var m := st.traps.m.(isInterrupt := false, code := 0, epc := st.pc);
      SetMode(c, st.(power := Restart(st.power, {WFI, NMI}).(nmi := high), traps := st.traps.(m := m),
                     pc := c.nmiAddress), M)
    else st.(power := st.power.(nmi := high))
  }
}

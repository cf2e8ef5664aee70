/** What the operations of a hart mean in the terms of the Privileged Architecture: where traps go, what returns
    restore, what register writes store and what the derived state stands for. */
module HartMeaning {
  import opened Access
  import opened Bits
  import opened Hart
  import opened HartRuns

  // ---- Modes ----

  ghost predicate IsLeast(c: Config, x: Mode) {
    Implemented(c, x) && forall y: Mode :: Implemented(c, y) ==> Level(x) <= Level(y)
  }

  /** x is the mode that a previous-mode field of value n selects: the implemented mode with that number, or the
      least privileged one. */
  ghost predicate Selects(c: Config, n: nat, x: Mode) {
    if exists y: Mode :: Implemented(c, y) && Level(y) == n then Implemented(c, x) && Level(x) == n else IsLeast(c, x)
  }

  lemma MinModeIsLeast(c: Config)
    ensures IsLeast(c, MinMode(c))
  {
  }

  lemma SelectedMode(c: Config, n: nat)
    ensures Selects(c, n, if HasMode(c, n) then ModeOf(n) else MinMode(c))
  {
    MinModeIsLeast(c);
    if HasMode(c, n) {
      assert Implemented(c, ModeOf(n)) && Level(ModeOf(n)) == n;
    }
  }

  /** A return never raises the privilege mode, a trap never lowers it, a non-maskable interrupt leads to Machine
      mode, and nothing else changes it. */
  lemma ModeChanges(c: Config, st: State, op: Op)
    requires ValidConfig(c) && Inv(c, st) && Enabled(c, st, op)
    ensures var x, x' := Cur(st), Cur(Step(c, st, op));
            match op
            case Leave(_) => Level(x') <= Level(x)
            case Raise(_, _) => Level(x') >= Level(x)
            case Fetch(_) => if PendingEnabled(st) == {} then x' == x else Level(x') >= Level(x)
            case Nmi(high) => x' == if st.power.nmi && !high then M else x
            case _ => x' == x
  {
  }

  /** Over every run, privilege rises only by an exception, an interrupt that is pending and enabled, or a
      non-maskable interrupt. */
  lemma PrivilegeRises(c: Config, states: seq<State>, ops: seq<Op>, i: nat)
    requires ValidConfig(c) && Run(c, states, ops) && i < |ops|
    requires Level(Cur(states[i + 1])) > Level(Cur(states[i]))
    ensures ops[i].Raise? || (ops[i].Fetch? && PendingEnabled(states[i]) != {}) || ops[i] == Nmi(false)
  {
    AlwaysInv(c, states, ops, i);
    assert RunStep(c, states, ops, i);
    ModeChanges(c, states[i], ops[i]);
  }

  // ---- Traps ----

  /** The trap vector register: base address, and mode in the two low bits. */
  function Tvec(b: Bank): nat {
    4 * b.base + if b.vectored then 1 else 0
  }

  /** The address of a handler: the base, and for interrupts in vectored mode the entry of the cause. */
  function HandlerAt(tvec: nat, isInterrupt: bool, code: nat): nat {
    tvec / 4 * 4 + if isInterrupt && tvec % 4 == 1 then 4 * code else 0
  }

  /** after is before with a trap to mode x taken: its registers hold cause, value, return address and the
      previous mode and interrupt enable, interrupts are off, and nothing else of the trap registers changes. */
  ghost predicate Trapped(c: Config, before: State, after: State, x: Mode, isInterrupt: bool, code: nat, tval: nat) {
    var b, b' := BankOf(before.traps, x), BankOf(after.traps, x);
    && Cur(after) == x && after.pc == HandlerAt(Tvec(b), isInterrupt, code)
    && !b'.ie && b'.pie == b.ie && (x != U ==> b'.pp == Level(Cur(before)))
    && b'.isInterrupt == isInterrupt && b'.code == code && b'.tval == tval
    && b'.epc <= before.pc < b'.epc + (if c.compressed then 2 else 4) && b'.epc % (if c.compressed then 2 else 4) == 0
    && Tvec(b') == Tvec(b)
    && (forall y: Mode :: y != x ==> BankOf(after.traps, y) == BankOf(before.traps, y))
    && after.traps.(u := before.traps.u, s := before.traps.s, m := before.traps.m) == before.traps
    && after.irq == before.irq && after.power == before.power && after.vm == before.vm
  }

  lemma TrapMeaning(c: Config, st: State, isInterrupt: bool, code: nat, tval: nat)
    ensures Trapped(c, st, TakeException(c, st, isInterrupt, code, tval), ModeX(st.irq, Cur(st), isInterrupt, code),
                    isInterrupt, code, tval)
  {
    SavedPC(c, st.pc);
    var x := ModeX(st.irq, Cur(st), isInterrupt, code);
    HandlerAddress(BankOf(st.traps, x), isInterrupt, code);
  }

  lemma HandlerAddress(b: Bank, isInterrupt: bool, code: nat)
    ensures HandlerPC(b, isInterrupt, code) == HandlerAt(Tvec(b), isInterrupt, code)
  {
  }

  /** Where an exception goes: to Machine mode unless delegated, then to Supervisor mode from there or below unless
      delegated further, and otherwise it stays. */
  function ExceptionTarget(q: Irq, cur: Mode, code: nat): Mode {
    if code !in q.medeleg then M
    else if cur != M && code !in q.sedeleg then S
    else cur
  }

  /** The exception delegation registers alone decide where an exception goes. */
  lemma ExceptionGoesTo(c: Config, st: State, code: nat, tval: nat, mideleg: set<nat>, sideleg: set<nat>)
    requires ValidConfig(c)
    ensures Trapped(c, st, Step(c, st, Raise(code, tval)), ExceptionTarget(st.irq, Cur(st), code), false, code, tval)
    ensures Cur(Step(c, st.(irq := st.irq.(mideleg := mideleg, sideleg := sideleg)), Raise(code, tval)))
            == Cur(Step(c, st, Raise(code, tval)))
  {
    TrapMeaning(c, st, false, code, tval);
  }

  /** Where an interrupt goes: the interrupt delegation registers alone decide. */
  function InterruptTarget(q: Irq, code: nat): Mode {
    if code !in q.mideleg then M else if code !in q.sideleg then S else U
  }

  lemma InterruptGoesTo(c: Config, st: State, i: nat)
    requires i in PendingEnabled(st)
    ensures Trapped(c, st, TakeException(c, st, true, i, 0), InterruptTarget(st.irq, i), true, i, 0)
  {
    TakenToDelegated(st, i);
    TrapMeaning(c, st, true, i, 0);
  }

  // ---- Returns ----

  /** after is before with a return from mode x made: to the mode and address saved there, with the interrupt
      enable stack popped, and nothing else of the trap registers changed. */
  ghost predicate Returned(c: Config, before: State, after: State, x: Mode) {
    var b, b' := BankOf(before.traps, x), BankOf(after.traps, x);
    && after.pc == b.epc && (if x == U then Cur(after) == U else Selects(c, b.pp, Cur(after)))
    && b'.ie == b.pie && b'.pie && (x != U ==> exists y: Mode :: IsLeast(c, y) && b'.pp == Level(y))
    && b' == b.(ie := b'.ie, pie := b'.pie, pp := b'.pp)
    && (forall y: Mode :: y != x ==> BankOf(after.traps, y) == BankOf(before.traps, y))
    && after.traps.(u := before.traps.u, s := before.traps.s, m := before.traps.m) == before.traps
    && after.irq == before.irq && after.vm == before.vm
  }

  lemma ReturnMeaning(c: Config, st: State, x: Mode)
    requires ValidConfig(c) && MayReturn(c, Cur(st), x)
    ensures Returned(c, st, Step(c, st, Leave(x)), x)
  {
    MinModeIsLeast(c);
    SelectedMode(c, BankOf(st.traps, x).pp);
  }

  // ---- Status writes ----

  datatype Field = UIE | SIE | MIE | UPIE | SPIE | MPIE | SPP | MPP | FS | MPRV | SUM | MXR

  function Bit(b: bool): nat {
    if b then 1 else 0
  }

  function FieldOf(s: Status, f: Field): nat {
    match f
    case UIE => Bit(s.uie) case SIE => Bit(s.sie) case MIE => Bit(s.mie)
    case UPIE => Bit(s.upie) case SPIE => Bit(s.spie) case MPIE => Bit(s.mpie)
    case SPP => s.spp case MPP => s.mpp case FS => s.fs
    case MPRV => Bit(s.mprv) case SUM => Bit(s.sum) case MXR => Bit(s.mxr)
  }

  function Width(f: Field): nat {
    if f == MPP || f == FS then 4 else 2
  }

  lemma Names(c: Config, n: nat)
    ensures HasMode(c, n) <==> exists y: Mode :: Implemented(c, y) && Level(y) == n
  {
    if HasMode(c, n) {
      assert Implemented(c, ModeOf(n)) && Level(ModeOf(n)) == n;
    }
  }

  /** A status write through any mask stores exactly the fields of the mask, and MPP only if it names an
      implemented mode. */
  lemma StatusFieldwise(c: Config, t: Traps, v: Status, k: Status, f: Field)
    ensures var now, was := FieldOf(ReadStatus(Stored(c, t, v, k)), f), FieldOf(ReadStatus(t), f);
            var written := FieldOf(k, f) != 0 && (f == MPP ==> exists y: Mode :: Implemented(c, y) && Level(y) == v.mpp % 4);
            now == if written then FieldOf(v, f) % Width(f) else was
  {
    if f == MPP {
      Names(c, v.mpp % 4);
    }
  }

  // ---- Delegation and trap vector writes ----

  /** A masked register write: exactly the bits of the mask take the new value. */
  ghost predicate MaskedWrite(now: set<nat>, written: set<nat>, was: set<nat>, mask: set<nat>) {
    forall i :: i in now <==> if i in mask then i in written else i in was
  }

  /** medelegW and sedelegW: exactly the writable bits of that register change, and nothing else does. */
  lemma DelegationStores(c: Config, st: State, bits: set<nat>)
    requires ValidConfig(c)
    ensures var st' := Step(c, st, MedelegWrite(bits));
            && MaskedWrite(st'.irq.medeleg, bits, st.irq.medeleg, c.medelegMask)
            && st' == st.(irq := st.irq.(medeleg := st'.irq.medeleg))
    ensures var st' := Step(c, st, SedelegWrite(bits));
            && MaskedWrite(st'.irq.sedeleg, bits, st.irq.sedeleg, c.sedelegMask)
            && st' == st.(irq := st.irq.(sedeleg := st'.irq.sedeleg))
  {
  }

  /** Writing the trap vector of a mode sends its next trap there, and no other mode's. */
  lemma VectorTakesEffect(c: Config, st: State, y: Mode, base: nat, vectored: bool, code: nat, tval: nat)
    requires ValidConfig(c)
    ensures var x := ExceptionTarget(st.irq, Cur(st), code);
            Step(c, Step(c, st, VectorWrite(y, base, vectored)), Raise(code, tval)).pc
            == if x == y then 4 * base else Step(c, st, Raise(code, tval)).pc
  {
  }

  // ---- satp ----

  /** The 64 bits of satp. */
  function SatpBits(s: Satp): nat {
    s.ppn22 + 0x40_0000 * s.asid9 + 0x8000_0000 * s.mode1
    + 0x1_0000_0000 * (s.ppn12 + 0x1000 * s.asid16 + 0x1000_0000 * s.mode4)
  }

  /** A field f of width w at weight d. */
  lemma FieldAt(low: nat, f: nat, high: nat, d: nat, w: nat, v: nat)
    requires low < d && f < w && v == low + d * (f + w * high)
    ensures v / d % w == f
  {
    DivModUnique(v, d, f + w * high, low);
    DivModUnique(f + w * high, w, high, f);
  }

  /** The low half of satp holds the fields of the 32-bit view. */
  lemma NarrowFields(s: Satp)
    requires SatpFits(s)
    ensures SatpView(true, SatpBits(s)) == (s.mode1, s.asid9, s.ppn22)
    ensures SatpBits(s) / 0x1_0000_0000 == s.ppn12 + 0x1000 * s.asid16 + 0x1000_0000 * s.mode4
  {
    var v, up := SatpBits(s), s.ppn12 + 0x1000 * s.asid16 + 0x1000_0000 * s.mode4;
    FieldAt(0, s.ppn22, s.asid9 + 512 * (s.mode1 + 2 * up), 1, 0x40_0000, v);
    FieldAt(s.ppn22, s.asid9, s.mode1 + 2 * up, 0x40_0000, 512, v);
    FieldAt(s.ppn22 + 0x40_0000 * s.asid9, s.mode1, up, 0x8000_0000, 2, v);
    DivModUnique(v, 0x1_0000_0000, up, s.ppn22 + 0x40_0000 * s.asid9 + 0x8000_0000 * s.mode1);
  }

  lemma WideFields(s: Satp, ppn: nat)
    requires SatpFits(s) && ppn == s.ppn22 + 0x40_0000 * s.asid9 + 0x8000_0000 * s.mode1 + 0x1_0000_0000 * s.ppn12
    ensures SatpView(false, SatpBits(s)) == (s.mode4, s.asid16, ppn)
  {
    var v := SatpBits(s);
    FieldAt(0, ppn, s.asid16 + 0x1_0000 * s.mode4, 1, 0x1000_0000_0000, v);
    FieldAt(ppn, s.asid16, s.mode4, 0x1000_0000_0000, 0x1_0000, v);
    FieldAt(ppn + 0x1000_0000_0000 * s.asid16, s.mode4, 0, 0x1000_0000_0000_0000, 16, v);
  }

  /** The fields the simulator reads are those at the bit positions of the view. */
  lemma SatpReads(s: Satp, narrow: bool)
    requires SatpFits(s)
    ensures SatpView(narrow, SatpBits(s)).0 == SatpMode(narrow, s)
    ensures SatpView(narrow, SatpBits(s)).1 == SatpAsid(narrow, s)
  {
    if narrow {
      NarrowFields(s);
    } else {
      WideFields(s, s.ppn22 + 0x40_0000 * s.asid9 + 0x8000_0000 * s.mode1 + 0x1_0000_0000 * s.ppn12);
    }
  }

  lemma SatpOfStore(s: Satp, narrow: bool, mode: nat, asid: nat, ppn: nat)
    requires SatpFits(s)
    requires if narrow then mode < 2 && asid < 512 && ppn < 0x40_0000 else mode < 16 && asid < 0x1_0000 && ppn < 0x1000_0000_0000
    ensures SatpView(narrow, SatpBits(StoreSatp(narrow, s, mode, asid, ppn))) == (mode, asid, ppn)
    ensures narrow ==> SatpBits(StoreSatp(narrow, s, mode, asid, ppn)) / 0x1_0000_0000 == SatpBits(s) / 0x1_0000_0000
  {
    var s' := StoreSatp(narrow, s, mode, asid, ppn);
    if narrow {
      NarrowFields(s);
      NarrowFields(s');
    } else {
      SplitPpn(ppn);
      WideFields(s', ppn);
    }
  }

  /** A page number of 44 bits in the four parts that hold it. */
  lemma SplitPpn(ppn: nat)
    requires ppn < 0x1000_0000_0000
    ensures ppn == ppn % 0x40_0000 + 0x40_0000 * (ppn / 0x40_0000 % 512) + 0x8000_0000 * (ppn / 0x8000_0000 % 2)
                   + 0x1_0000_0000 * (ppn / 0x1_0000_0000 % 4096)
  {
    var a := ppn / 0x40_0000;
    var b := a / 512;
    assert ppn / 0x8000_0000 == b;
    assert ppn / 0x1_0000_0000 == b / 2;
  }

  /** now is satp after v is written over was: with a supported mode MODE, ASID and PPN read back, the last two cut
      to the implemented width, and the 32-bit view does not reach the upper half; otherwise nothing changes. */
  ghost predicate SatpWritten(c: Config, narrow: bool, was: Satp, v: nat, now: Satp)
    requires ValidConfig(c)
  {
    var (mode, asid, ppn) := SatpView(narrow, v);
    if mode in c.svModes then
      && SatpView(narrow, SatpBits(now)) == (mode, asid % c.asids, ppn % c.ppns)
      && (narrow ==> SatpBits(now) / 0x1_0000_0000 == SatpBits(was) / 0x1_0000_0000)
    else now == was
  }

  lemma SatpReadsBack(c: Config, st: State, v: nat)
    requires ValidConfig(c) && SatpFits(st.vm.satp)
    ensures SatpWritten(c, Narrow(st.derived.arch), st.vm.satp, v, Step(c, st, SatpWrite(v)).vm.satp)
  {
    var narrow := Narrow(st.derived.arch);
    var (mode, asid, ppn) := SatpView(narrow, v);
    Remainder(asid, c.asids);
    Remainder(ppn, c.ppns);
    SatpOfStore(st.vm.satp, narrow, mode, asid % c.asids, ppn % c.ppns);
  }

  // ---- misa ----

  /** Writing misa stores the writable extensions; of D and F this says nothing where MisaTiesDF does. */
  lemma MisaStores(c: Config, st: State, x: set<char>, mxl: nat, ext: char)
    requires ValidConfig(c)
    requires ext !in {'D', 'F'} || 'D' !in c.archDF || 'F' !in c.archDF || ('D' !in c.writableMisa && 'F' !in c.writableMisa)
    ensures var was, now := st.vm.misa.extensions, Step(c, st, MisaWrite(x, mxl)).vm.misa.extensions;
            ext in now <==> if ext in c.writableMisa then ext in x else ext in was
  {
    TieSpares(c, (x * c.writableMisa) + (st.vm.misa.extensions - c.writableMisa), ext);
  }

  lemma TieSpares(c: Config, x: set<char>, ext: char)
    requires ext !in {'D', 'F'} || 'D' !in c.archDF || 'F' !in c.archDF || ('D' !in c.writableMisa && 'F' !in c.writableMisa)
    ensures ext in TieDF(c, x) <==> ext in x
  {
    assert {'D', 'F'} <= c.archDF <==> 'D' in c.archDF && 'F' in c.archDF;
    assert {'D', 'F'} <= c.writableMisa <==> 'D' in c.writableMisa && 'F' in c.writableMisa;
  }

  /** Writing misa stores the writable bits of MXL in the view in force and leaves the other view alone. */
  lemma MxlStores(c: Config, st: State, x: set<char>, mxl: nat)
    requires ValidConfig(c)
    ensures var narrow, was, now := Narrow(st.derived.arch), st.vm.misa, Step(c, st, MisaWrite(x, mxl)).vm.misa;
            && MxlOf(!narrow, now) == MxlOf(!narrow, was)
            && MxlOf(narrow, now) % 2 == (if c.mxlMask % 2 == 1 then mxl else MxlOf(narrow, was)) % 2
            && MxlOf(narrow, now) / 2 == (if c.mxlMask / 2 % 2 == 1 then mxl else MxlOf(narrow, was)) / 2 % 2
  {
    MergedBits(c.mxlMask, mxl, MxlOf(Narrow(st.derived.arch), st.vm.misa));
  }

  lemma MergedBits(mask: nat, new_: nat, old_: nat)
    ensures MergeMxl(mask, new_, old_) % 2 == (if mask % 2 == 1 then new_ else old_) % 2
    ensures MergeMxl(mask, new_, old_) / 2 == (if mask / 2 % 2 == 1 then new_ else old_) / 2 % 2
  {
  }

  // ---- Derived state ----

  /** What the simulator keeps beside the registers, in terms of the register bits: addresses of fetches are
      translated outside Machine mode under a satp mode other than bare; data accesses use the mode that MPRV and MPP
      select and are translated likewise; the identifier is the ASID with MXR and SUM; D and F are off while FS is. */
  ghost predicate DerivedMeans(c: Config, st: State) {
    var narrow := st.derived.arch.mxl % 2 == 1;
    var (mode, asid, _) := SatpView(narrow, SatpBits(st.vm.satp));
    var d := st.derived.domain;
    && (st.dmode.vm <==> mode != 0 && Cur(st) != M)
    && (if st.traps.mprv then Selects(c, st.traps.m.pp, d.mode) else d.mode == Cur(st))
    && (d.Virtual? <==> mode != 0 && d.mode != M)
    && st.derived.asid == SimAsid(asid, st.traps.mxr, st.traps.sum)
    && st.derived.arch.mxl == MxlOf(narrow, st.vm.misa)
    && (forall e :: e in st.derived.arch.extensions <==>
          e in st.vm.misa.extensions && (e == 'D' || e == 'F' ==> st.traps.fs != 0))
  }

  lemma DerivedMeaning(c: Config, st: State)
    requires FieldsFit(st.traps, st.vm) && DerivedInv(c, st)
    ensures DerivedMeans(c, st)
  {
    SatpReads(st.vm.satp, Narrow(st.derived.arch));
    SelectedMode(c, st.traps.m.pp);
  }

  /** So it is in every state of every run without a harmful write of misa. */
  lemma AlwaysDerived(c: Config, states: seq<State>, ops: seq<Op>, i: nat)
    requires ValidConfig(c) && Run(c, states, ops) && i <= |ops|
    ensures DerivedMeans(c, states[i])
  {
    AlwaysInv(c, states, ops, i);
    DerivedMeaning(c, states[i]);
  }

  // ---- Non-maskable interrupts ----

  /** The end of a non-maskable interrupt enters its handler: cause 0 and the interrupted address are recorded,
      Machine mode is entered with all interrupt enables as they were, and the hart runs. */
  lemma NmiEnters(c: Config, st: State)
    requires ValidConfig(c) && Inv(c, st) && st.power.nmi
    ensures var st' := Step(c, st, Nmi(false));
            && Cur(st') == M && st'.pc == c.nmiAddress && !st'.power.halted && !st'.power.nmi
            && st'.traps == st.traps.(m := st.traps.m.(isInterrupt := false, code := 0, epc := st.pc))
            && st'.irq == st.irq && st'.vm == st.vm
  {
    var left := st.power.disable - {WFI, NMI};
    forall r | r in left
      ensures false
    {
      match r case WFI => case NMI =>
    }
    assert left == {};
  }
}

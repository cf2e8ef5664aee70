/** Translation and protection together: an access by way of the TLB, the aliases and the cached protection map
    reaches memory exactly if the page-table walk and the first-match protection rule both allow it. */
module ProtectedAccess {
  import opened Access
  import opened Bits
  import opened PageWalk
  import Tlb
  import TlbCoherence
  import TlbRuns
  import WalkFaults
  import PmpRegions
  import opened PmpPriority
  import PmpWrites
  import PmpCoherence

  datatype Config = Config(mmu: Tlb.Config, pmp: PmpRegions.Config)

  datatype State = State(mmu: Tlb.State, pmp: PmpCoherence.State)

  datatype Outcome = Raises(exception: nat) | Denied | Reaches(pa: int)

  /** An access, an operation of the memory management unit, or one of the protection unit, such as the filling
      of the map for a whole page when an entry is mapped. */
  datatype Op =
    | Use(mode: Mode, acc: Acc, va: nat, outcome: Outcome)
    | OfMmu(mmuOp: TlbRuns.Op)
    | OfPmp(pmpOp: PmpCoherence.Op)

  // ---- The processor with caches ----

  /** The protection map decides at once, or is filled around the address and decides then. */
  ghost predicate Checked(c: PmpRegions.Config, s: PmpCoherence.State, mode: Mode, acc: Acc, pa: nat, ok: bool, s': PmpCoherence.State)
    requires PmpRegions.ValidConfig(c) && PmpRegions.ValidRegs(c, s.regs)
  {
    || (s' == s && ok && Covers(s.sup(pa), Required(acc)))
    || (&& ok == Covers(s'.sup(pa), Required(acc))
        && exists low: nat, high: nat ::
             low <= pa <= high && PmpCoherence.Step(c, s, PmpCoherence.Op.Map(mode, low, high), s'))
  }

  /** What follows the translation: a fault is raised, an address is checked. */
  ghost predicate Follows(c: Config, s: State, mode: Mode, acc: Acc, first: TlbRuns.Outcome, outcome: Outcome, s': State)
    requires PmpRegions.ValidConfig(c.pmp) && PmpRegions.ValidRegs(c.pmp, s.pmp.regs)
  {
    match first
    case Raises(e) => outcome == Raises(e) && s'.pmp == s.pmp
    case Reaches(pa) => pa >= 0 && (CheckStep(c, s, mode, acc, pa, true, outcome, s') || CheckStep(c, s, mode, acc, pa, false, outcome, s'))
  }

  ghost predicate CheckStep(c: Config, s: State, mode: Mode, acc: Acc, pa: nat, ok: bool, outcome: Outcome, s': State)
    requires PmpRegions.ValidConfig(c.pmp) && PmpRegions.ValidRegs(c.pmp, s.pmp.regs)
  {
    Checked(c.pmp, s.pmp, mode, acc, pa, ok, s'.pmp) && outcome == if ok then Reaches(pa) else Denied
  }

  ghost predicate UseStep(c: Config, s: State, mode: Mode, acc: Acc, va: nat, outcome: Outcome, s': State)
    requires PmpRegions.ValidConfig(c.pmp) && PmpRegions.ValidRegs(c.pmp, s.pmp.regs)
  {
    exists first: TlbRuns.Outcome ::
      TlbRuns.Step(c.mmu, s.mmu, TlbRuns.Op.Touch(mode, acc, va, first), s'.mmu)
      && Follows(c, s, mode, acc, first, outcome, s')
  }

  ghost predicate Step(c: Config, s: State, op: Op, s': State)
    requires PmpRegions.ValidConfig(c.pmp) && PmpRegions.ValidRegs(c.pmp, s.pmp.regs)
  {
    match op
    case Use(mode, acc, va, outcome) => UseStep(c, s, mode, acc, va, outcome, s')
    case OfMmu(o) => !o.Touch? && TlbRuns.Step(c.mmu, s.mmu, o, s'.mmu) && s'.pmp == s.pmp
    case OfPmp(o) => PmpCoherence.Step(c.pmp, s.pmp, o, s'.pmp) && s'.mmu == s.mmu
  }

  // ---- The rule without caches ----

  /** The outcome, given the result of the walk. */
  ghost function OutcomeOf(c: Config, regs: PmpRegions.Regs, r: Result, acc: Acc, va: nat): Outcome
    requires PmpRegions.ValidConfig(c.pmp) && PmpRegions.ValidRegs(c.pmp, regs)
  {
    match r
    case Fault(e) => Raises(ExceptionOf(e, acc))
    case Ok(t) =>
      if va >= t.lowVA && Covers(Perm(S, PmpWrites.TableOf(c.pmp, regs), t.PA + (va - t.lowVA)), Required(acc))
      then Reaches(t.PA + (va - t.lowVA))
      else Denied
  }

  /** What section 3.6 and section 4.3.2 of the Privileged Architecture demand of an access. */
  ghost function Demanded(c: Config, s: State, mode: Mode, acc: Acc, va: nat): Outcome
    requires PmpRegions.ValidConfig(c.pmp) && PmpRegions.ValidRegs(c.pmp, s.pmp.regs)
  {
    OutcomeOf(c, s.pmp.regs, Walk(s.mmu.m, Tlb.CtxOf(c.mmu, s.mmu.sim), mode, acc, va).0, acc, va)
  }

  ghost predicate InMemory(c: Config, r: Result, va: nat) {
    r.Ok? ==> r.t.PA + (va - r.t.lowVA) < Pow2(c.pmp.extBits)
  }

  /** The physical address, if there is one, is implemented. */
  ghost predicate Implemented(c: Config, s: State, mode: Mode, acc: Acc, va: nat) {
    InMemory(c, Walk(s.mmu.m, Tlb.CtxOf(c.mmu, s.mmu.sim), mode, acc, va).0, va)
  }

  // ---- Invariant ----

  /** Without implemented entries nothing is ever withheld. */
  ghost predicate Open(c: PmpRegions.Config, s: PmpCoherence.State) {
    c.numRegs == 0 ==> forall a: nat :: s.sup(a) == RWX
  }

  ghost predicate Inv(c: Config, s: State) {
    TlbCoherence.Inv(c.mmu, s.mmu) && PmpCoherence.SupCoherent(c.pmp, s.pmp) && Open(c.pmp, s.pmp)
  }

  lemma {:induction false} NothingBlank(c: PmpRegions.Config, r: PmpRegions.Regs, n: nat)
    requires c.grain <= 29 && |r.cfg| == |r.addr| == PmpRegions.NUM_PMPS && n <= PmpRegions.NUM_PMPS
    ensures PmpWrites.SupBlank(c, r, r, n) == iset{}
  {
    if n > 0 {
      NothingBlank(c, r, n - 1);
    }
  }

  /** A unit without entries ignores every write. */
  lemma NoEntriesNoChange(c: PmpRegions.Config, r: PmpRegions.Regs, op: PmpCoherence.Op)
    requires PmpRegions.ValidConfig(c) && PmpRegions.ValidRegs(c, r) && c.numRegs == 0 && !op.Map?
    ensures PmpCoherence.SupInvalidated(c, r, op) == iset{}
  {
    match op
    case WriteCfg(rv64, index, v) =>
      assert PmpCoherence.ApplyRegs(c, r, op) == r;
      NothingBlank(c, r, PmpRegions.NUM_PMPS);
    case WriteAddr(_, _) =>
    case Reset =>
  }

  lemma StaysOpen(c: PmpRegions.Config, s: PmpCoherence.State, op: PmpCoherence.Op, s': PmpCoherence.State)
    requires PmpRegions.ValidConfig(c) && PmpRegions.ValidRegs(c, s.regs) && Open(c, s) && PmpCoherence.Step(c, s, op, s')
    ensures Open(c, s')
  {
    if c.numRegs == 0 && !op.Map? {
      NoEntriesNoChange(c, s.regs, op);
    }
  }

  /** The protection unit decides as the first-match rule does, whatever is cached. */
  lemma CheckIsFirstMatch(c: PmpRegions.Config, s: PmpCoherence.State, mode: Mode, acc: Acc, pa: nat, ok: bool, s': PmpCoherence.State)
    requires PmpCoherence.SupCoherent(c, s) && Open(c, s) && mode != M && pa < Pow2(c.extBits)
    requires Checked(c, s, mode, acc, pa, ok, s')
    ensures ok <==> Covers(Perm(S, PmpWrites.TableOf(c, s.regs), pa), Required(acc))
  {
    PmpRegions.SmallPow2(c.extBits);
    var t := PmpWrites.TableOf(c, s.regs);
    if s' == s && ok && Covers(s.sup(pa), Required(acc)) {
      assert s.sup(pa) == Perm(S, t, pa);
    } else if c.numRegs == 0 {
      assert Perm(S, t, pa) == RWX;
    } else {
      assert s'.sup(pa) == Perm(mode, t, pa) == Perm(S, t, pa);
    }
  }

  /** Filling the map keeps the protection invariants. */
  lemma CheckKeeps(c: PmpRegions.Config, s: PmpCoherence.State, mode: Mode, acc: Acc, pa: nat, ok: bool, s': PmpCoherence.State)
    requires PmpCoherence.SupCoherent(c, s) && Open(c, s) && Checked(c, s, mode, acc, pa, ok, s')
    ensures PmpCoherence.SupCoherent(c, s') && Open(c, s') && s'.regs == s.regs
  {
    if s' != s {
      var low: nat, high: nat :| low <= pa <= high && PmpCoherence.Step(c, s, PmpCoherence.Op.Map(mode, low, high), s');
      PmpCoherence.SupStep(c, s, PmpCoherence.Op.Map(mode, low, high), s');
      StaysOpen(c, s, PmpCoherence.Op.Map(mode, low, high), s');
    }
  }

  /** The check keeps the protection invariants, and decides an implemented address by the first-match rule. */
  lemma FollowsRule(c: Config, s: State, mode: Mode, acc: Acc, first: TlbRuns.Outcome, outcome: Outcome, s': State)
    requires PmpCoherence.SupCoherent(c.pmp, s.pmp) && Open(c.pmp, s.pmp) && mode != M
    requires Follows(c, s, mode, acc, first, outcome, s')
    ensures PmpCoherence.SupCoherent(c.pmp, s'.pmp) && Open(c.pmp, s'.pmp)
    ensures first.Raises? ==> outcome == Raises(first.exception)
    ensures first.Reaches? && first.pa < Pow2(c.pmp.extBits) ==>
      first.pa >= 0
      && outcome == if Covers(Perm(S, PmpWrites.TableOf(c.pmp, s.pmp.regs), first.pa), Required(acc))
                    then Reaches(first.pa) else Denied
  {
    if first.Reaches? {
      var ok := CheckStep(c, s, mode, acc, first.pa, true, outcome, s');
      CheckKeeps(c.pmp, s.pmp, mode, acc, first.pa, ok, s'.pmp);
      if first.pa < Pow2(c.pmp.extBits) {
        CheckIsFirstMatch(c.pmp, s.pmp, mode, acc, first.pa, ok, s'.pmp);
      }
    }
  }

  /** An access has the outcome that the walk and the first-match rule demand. */
  lemma UseIsDemanded(c: Config, s: State, mode: Mode, acc: Acc, va: nat, outcome: Outcome, s': State)
    requires Inv(c, s) && UseStep(c, s, mode, acc, va, outcome, s')
    ensures Inv(c, s')
    ensures Implemented(c, s, mode, acc, va) ==> outcome == Demanded(c, s, mode, acc, va)
  {
    var first: TlbRuns.Outcome :|
      TlbRuns.Step(c.mmu, s.mmu, TlbRuns.Op.Touch(mode, acc, va, first), s'.mmu)
      && Follows(c, s, mode, acc, first, outcome, s');
    TlbRuns.TouchRefines(c.mmu, s.mmu, mode, acc, va, first, s'.mmu);
    FollowsRule(c, s, mode, acc, first, outcome, s');
    InPage(s.mmu.m, Tlb.CtxOf(c.mmu, s.mmu.sim), mode, acc, va);
    OutcomeOfAnswer(c, s, Walk(s.mmu.m, Tlb.CtxOf(c.mmu, s.mmu.sim), mode, acc, va).0, acc, va, first, outcome);
  }

  lemma OutcomeOfAnswer(c: Config, s: State, r: Result, acc: Acc, va: nat, first: TlbRuns.Outcome, outcome: Outcome)
    requires PmpRegions.ValidConfig(c.pmp) && PmpRegions.ValidRegs(c.pmp, s.pmp.regs)
    requires first == TlbRuns.Answer(r, acc, va) && (r.Ok? ==> r.t.lowVA <= va)
    requires first.Raises? ==> outcome == Raises(first.exception)
    requires first.Reaches? && first.pa < Pow2(c.pmp.extBits) ==>
      first.pa >= 0
      && outcome == if Covers(Perm(S, PmpWrites.TableOf(c.pmp, s.pmp.regs), first.pa), Required(acc))
                    then Reaches(first.pa) else Denied
    ensures InMemory(c, r, va) ==> outcome == OutcomeOf(c, s.pmp.regs, r, acc, va)
  {
  }

  /** An address is in the page that translates it. */
  lemma InPage(m: Tables, c: Ctx, mode: Mode, acc: Acc, va: nat)
    ensures var r := Walk(m, c, mode, acc, va).0; r.Ok? ==> r.t.lowVA <= va
  {
  }

  // ---- Runs ----

  /** Writes of the protection registers must strand no address. */
  ghost predicate Safe(c: Config, s: State, op: Op)
    requires PmpRegions.ValidConfig(c.pmp) && PmpRegions.ValidRegs(c.pmp, s.pmp.regs)
  {
    op.OfPmp? && op.pmpOp.WriteAddr? ==> PmpCoherence.NoneStale(c.pmp, s.pmp.regs, op.pmpOp.index, op.pmpOp.value)
  }

  ghost predicate RunStep(c: Config, states: seq<State>, ops: seq<Op>, i: nat)
    requires PmpRegions.ValidConfig(c.pmp) && |states| == |ops| + 1 && i < |ops|
  {
    PmpRegions.ValidRegs(c.pmp, states[i].pmp.regs)
    && Step(c, states[i], ops[i], states[i + 1]) && Safe(c, states[i], ops[i])
  }

  ghost predicate Run(c: Config, states: seq<State>, ops: seq<Op>)
    requires PmpRegions.ValidConfig(c.pmp)
  {
    && |states| == |ops| + 1
    && TlbRuns.Init(c.mmu, states[0].mmu) && PmpCoherence.Init(c.pmp, states[0].pmp)
    && forall i :: 0 <= i < |ops| ==> RunStep(c, states, ops, i)
  }

  lemma StepInv(c: Config, s: State, op: Op, s': State)
    requires Inv(c, s) && Step(c, s, op, s') && Safe(c, s, op)
    ensures Inv(c, s')
  {
    match op
    case Use(mode, acc, va, outcome) => UseIsDemanded(c, s, mode, acc, va, outcome, s');
    case OfMmu(o) => TlbRuns.StepRefines(c.mmu, s.mmu, o, s'.mmu);
    case OfPmp(o) =>
      PmpCoherence.SupStep(c.pmp, s.pmp, o, s'.pmp);
      StaysOpen(c.pmp, s.pmp, o, s'.pmp);
  }

  lemma StartInv(c: Config, s: State)
    requires PmpRegions.ValidConfig(c.pmp) && TlbRuns.Init(c.mmu, s.mmu) && PmpCoherence.Init(c.pmp, s.pmp)
    ensures Inv(c, s)
  {
    TlbRuns.InitInv(c.mmu, s.mmu);
    PmpCoherence.InitCoherent(c.pmp, s.pmp);
  }

  lemma {:induction false} AlwaysInv(c: Config, states: seq<State>, ops: seq<Op>, i: nat)
    requires PmpRegions.ValidConfig(c.pmp) && Run(c, states, ops) && i <= |ops|
    ensures Inv(c, states[i])
    decreases i
  {
    if i == 0 {
      StartInv(c, states[0]);
    } else {
      AlwaysInv(c, states, ops, i - 1);
      assert RunStep(c, states, ops, i - 1);
      StepInv(c, states[i - 1], ops[i - 1], states[i]);
    }
  }

  /** Over every run of accesses, status changes, address space switches, fences, table changes and writes of
      the protection registers that strand no address: every access to implemented memory raises exactly the
      page fault that the walk demands, is denied exactly if the first-match rule denies it, and otherwise
      reaches the walk's physical address. */
  lemma EveryAccessIsDemanded(c: Config, states: seq<State>, ops: seq<Op>, i: nat)
    requires PmpRegions.ValidConfig(c.pmp) && Run(c, states, ops) && i < |ops| && ops[i].Use?
    ensures Inv(c, states[i])
    ensures var op := ops[i];
            Implemented(c, states[i], op.mode, op.acc, op.va)
            ==> op.outcome == Demanded(c, states[i], op.mode, op.acc, op.va)
  {
    AlwaysInv(c, states, ops, i);
    assert RunStep(c, states, ops, i);
    UseIsDemanded(c, states[i], ops[i].mode, ops[i].acc, ops[i].va, ops[i].outcome, states[i + 1]);
  }

  // ---- Without reference to the walk ----

  ghost predicate Allows(c: PmpRegions.Config, regs: PmpRegions.Regs, acc: Acc, pa: nat)
    requires PmpRegions.ValidConfig(c) && PmpRegions.ValidRegs(c, regs)
  {
    Covers(Perm(S, PmpWrites.TableOf(c, regs), pa), Required(acc))
  }

  /** outcome is what the table entries on the way and the protection registers demand: the access reaches the leaf's
      address if the first-match rule allows it and is denied otherwise, or raises what TlbRuns.Means says. */
  ghost predicate Means(c: Config, regs: PmpRegions.Regs, d: WalkFaults.Demand, acc: Acc, outcome: Outcome)
    requires PmpRegions.ValidConfig(c.pmp) && PmpRegions.ValidRegs(c.pmp, regs)
  {
    && (forall pa: nat :: outcome == Reaches(pa) <==> pa in d.reach && Allows(c.pmp, regs, acc, pa))
    && (outcome == Denied <==> exists pa: nat :: pa in d.reach && !Allows(c.pmp, regs, acc, pa))
    && (outcome.Raises? ==> TlbRuns.Means(d, acc, TlbRuns.Raises(outcome.exception)))
  }

  lemma OutcomeMeans(c: Config, regs: PmpRegions.Regs, d: WalkFaults.Demand, acc: Acc, va: nat, r: Result)
    requires PmpRegions.ValidConfig(c.pmp) && PmpRegions.ValidRegs(c.pmp, regs)
    requires r.Ok? ==> r.t.lowVA <= va
    requires TlbRuns.Means(d, acc, TlbRuns.Answer(r, acc, va))
    ensures Means(c, regs, d, acc, OutcomeOf(c, regs, r, acc, va))
  {
    if r.Ok? {
      var pa: nat := r.t.PA + (va - r.t.lowVA);
      assert TlbRuns.Answer(r, acc, va) == TlbRuns.Reaches(pa);
      assert pa in d.reach;
    } else {
      assert forall pa: nat :: TlbRuns.Answer(r, acc, va) != TlbRuns.Reaches(pa);
    }
  }

  /** Every access of every run to implemented memory does what the table entries on its way and the protection
      registers demand, whatever is cached. */
  lemma EveryAccessMeans(c: Config, states: seq<State>, ops: seq<Op>, i: nat)
    requires PmpRegions.ValidConfig(c.pmp) && Run(c, states, ops) && i < |ops| && ops[i].Use?
    requires Implemented(c, states[i], ops[i].mode, ops[i].acc, ops[i].va)
    ensures PmpRegions.ValidRegs(c.pmp, states[i].pmp.regs)
    ensures var op, s := ops[i], states[i];
            Means(c, s.pmp.regs, WalkFaults.DemandOf(s.mmu.m, Tlb.CtxOf(c.mmu, s.mmu.sim), op.mode, op.acc, op.va), op.acc,
                  op.outcome)
  {
    EveryAccessIsDemanded(c, states, ops, i);
    var op, s := ops[i], states[i];
    var x := Tlb.CtxOf(c.mmu, s.mmu.sim);
    InPage(s.mmu.m, x, op.mode, op.acc, op.va);
    TlbRuns.AnswerMeans(s.mmu.m, x, op.mode, op.acc, op.va);
    OutcomeMeans(c, s.pmp.regs, WalkFaults.DemandOf(s.mmu.m, x, op.mode, op.acc, op.va), op.acc, op.va,
                 Walk(s.mmu.m, x, op.mode, op.acc, op.va).0);
  }
}

/** Whole runs: a processor with TLB and aliases refines one that walks the tables at every access. */
module TlbRuns {
  import opened Access
  import opened PageWalk
  import opened WalkProperties
  import opened WalkFaults
  import opened Tlb
  import opened TlbCoherence
  import opened TlbTransparency

  datatype Outcome = Raises(exception: nat) | Reaches(pa: int)

  datatype Op =
    | Touch(mode: Mode, acc: Acc, va: nat, outcome: Outcome)
    | SetStatus(mxr: bool, sum: bool)
    | SetSpace(asid: nat)
    | Sfence(low: nat, high: nat, any: bool, asid: nat)
    | EditTables(m: Tables, low: nat, high: nat, any: bool, asid: nat)

  function Answer(r: Result, acc: Acc, va: nat): Outcome {
    match r
    case Fault(e) => Raises(ExceptionOf(e, acc))
    case Ok(t) => Reaches(t.PA + (va - t.lowVA))
  }

  // ---- The processor with caches ----

  ghost predicate Hit(st: State, a: Alias, mode: Mode, acc: Acc, va: nat) {
    a in st.aliases && Serves(st.sim, a, mode, acc, va)
  }

  ghost predicate HitStep(st: State, mode: Mode, acc: Acc, va: nat, outcome: Outcome, st': State) {
    st' == st && exists a :: Hit(st, a, mode, acc, va) && outcome == Reaches(a.lowPA + (va - a.lowVA))
  }

  ghost predicate MissStep(k: Config, st: State, mode: Mode, acc: Acc, va: nat, outcome: Outcome, st': State) {
    exists found :: Found(st, va, found)
                    && Miss(k, st, found, mode, acc, va).1 == st'
                    && outcome == Answer(Miss(k, st, found, mode, acc, va).0, acc, va)
  }

  /** A change of the tables is followed by a fence that reaches all of it. */
  ghost predicate Step(k: Config, st: State, op: Op, st': State) {
    match op
    case Touch(mode, acc, va, outcome) =>
      mode != M && (HitStep(st, mode, acc, va, outcome, st') || MissStep(k, st, mode, acc, va, outcome, st'))
    case SetStatus(mxr, sum) => st' == st.(sim := st.sim.(mxr := mxr, sum := sum))
    case SetSpace(asid) => Legal(k, asid) && st' == st.(sim := st.sim.(asid := asid))
    case Sfence(low, high, any, asid) => st' == Fence(k, st, low, high, any, asid)
    case EditTables(m, low, high, any, asid) =>
      && GlobalsAgree(k, m) && Confined(k, st.m, m, low, high, any, asid)
      && st' == Fence(k, st.(m := m), low, high, any, asid)
  }

  ghost predicate Init(k: Config, st: State) {
    st.tlb == {} && st.aliases == {} && Legal(k, st.sim.asid) && GlobalsAgree(k, st.m)
  }

  ghost predicate Run(k: Config, states: seq<State>, ops: seq<Op>) {
    && |states| == |ops| + 1 && Init(k, states[0])
    && forall i :: 0 <= i < |ops| ==> Step(k, states[i], ops[i], states[i + 1])
  }

  // ---- The processor that walks at every access ----

  ghost predicate WalkStep(k: Config, m: Tables, sim: SimAsid, op: Op, m': Tables, sim': SimAsid) {
    match op
    case Touch(mode, acc, va, outcome) =>
      var w := Walk(m, CtxOf(k, sim), mode, acc, va);
      outcome == Answer(w.0, acc, va) && m' == w.1 && sim' == sim
    case SetStatus(mxr, sum) => m' == m && sim' == sim.(mxr := mxr, sum := sum)
    case SetSpace(asid) => m' == m && sim' == sim.(asid := asid)
    case Sfence(_, _, _, _) => m' == m && sim' == sim
    case EditTables(new_, _, _, _, _) => m' == new_ && sim' == sim
  }

  // ---- Refinement ----

  lemma SameAnswer(r: Result, w: Result, acc: Acc, va: nat)
    requires SameOutcome(r, w)
    ensures Answer(r, acc, va) == Answer(w, acc, va)
  {
  }

  lemma TouchRefines(k: Config, st: State, mode: Mode, acc: Acc, va: nat, outcome: Outcome, st': State)
    requires Inv(k, st) && Step(k, st, Touch(mode, acc, va, outcome), st')
    ensures Inv(k, st') && WalkStep(k, st.m, st.sim, Touch(mode, acc, va, outcome), st'.m, st'.sim)
  {
    if HitStep(st, mode, acc, va, outcome, st') {
      HitRefines(k, st, mode, acc, va, outcome);
    } else {
      MissRefines(k, st, mode, acc, va, outcome, st');
    }
  }

  lemma HitRefines(k: Config, st: State, mode: Mode, acc: Acc, va: nat, outcome: Outcome)
    requires Inv(k, st) && mode != M && HitStep(st, mode, acc, va, outcome, st)
    ensures WalkStep(k, st.m, st.sim, Touch(mode, acc, va, outcome), st.m, st.sim)
  {
    var a :| Hit(st, a, mode, acc, va) && outcome == Reaches(a.lowPA + (va - a.lowVA));
    HitIsWalk(k, st, a, acc, va);
    AnswerOfHit(Walk(st.m, CtxOf(k, st.sim), mode, acc, va).0, a, acc, va);
  }

  lemma AnswerOfHit(r: Result, a: Alias, acc: Acc, va: nat)
    requires r.Ok? && a.lowPA + (va - a.lowVA) == r.t.PA + (va - r.t.lowVA)
    ensures Answer(r, acc, va) == Reaches(a.lowPA + (va - a.lowVA))
  {
  }

  lemma MissRefines(k: Config, st: State, mode: Mode, acc: Acc, va: nat, outcome: Outcome, st': State)
    requires Inv(k, st) && MissStep(k, st, mode, acc, va, outcome, st')
    ensures Inv(k, st') && WalkStep(k, st.m, st.sim, Touch(mode, acc, va, outcome), st'.m, st'.sim)
  {
    var found :| Found(st, va, found) && Miss(k, st, found, mode, acc, va).1 == st'
                 && outcome == Answer(Miss(k, st, found, mode, acc, va).0, acc, va);
    MissIsWalk(k, st, found, mode, acc, va);
    SameAnswer(Miss(k, st, found, mode, acc, va).0, Walk(st.m, CtxOf(k, st.sim), mode, acc, va).0, acc, va);
  }

  /** The invariant does not mention the current permission bits or address space. */
  lemma InvOfSim(k: Config, st: State, sim: SimAsid)
    requires Inv(k, st) && Legal(k, sim.asid)
    ensures Inv(k, st.(sim := sim))
  {
  }

  lemma StepRefines(k: Config, st: State, op: Op, st': State)
    requires Inv(k, st) && Step(k, st, op, st')
    ensures Inv(k, st') && WalkStep(k, st.m, st.sim, op, st'.m, st'.sim)
  {
    match op
    case Touch(mode, acc, va, outcome) => TouchRefines(k, st, mode, acc, va, outcome, st');
    case SetStatus(mxr, sum) => InvOfSim(k, st, st.sim.(mxr := mxr, sum := sum));
    case SetSpace(asid) => InvOfSim(k, st, st.sim.(asid := asid));
    case Sfence(low, high, any, asid) => DeleteInv(k, st, set e | e in st.tlb && Fenced(k, e, low, high, any, asid));
    case EditTables(m, low, high, any, asid) => FencedChange(k, st, m, low, high, any, asid);
  }

  lemma InitInv(k: Config, st: State)
    requires Init(k, st)
    ensures Inv(k, st)
  {
  }

  /** In every state of every run the entries are walks of the tables, no two of them overlap, and every
      alias is backed by one of them. */
  lemma {:induction false} RunInv(k: Config, states: seq<State>, ops: seq<Op>, i: nat)
    requires Run(k, states, ops) && i <= |ops|
    ensures Inv(k, states[i])
    decreases i
  {
    if i == 0 {
      InitInv(k, states[0]);
    } else {
      RunInv(k, states, ops, i - 1);
      var before := states[i - 1];
      assert Step(k, before, ops[i - 1], states[i - 1 + 1]);
      StepRefines(k, before, ops[i - 1], states[i]);
    }
  }

  /** Every step of a run is a step of the processor without caches: the same exceptions, the same
      physical addresses, the same updates of the tables. */
  lemma RunRefines(k: Config, states: seq<State>, ops: seq<Op>, i: nat)
    requires Run(k, states, ops) && i < |ops|
    ensures WalkStep(k, states[i].m, states[i].sim, ops[i], states[i + 1].m, states[i + 1].sim)
  {
    RunInv(k, states, ops, i);
    StepRefines(k, states[i], ops[i], states[i + 1]);
  }

  // ---- What every access does ----

  /** outcome is what the tables demand of an access, stated over the entries on its way alone: it reaches the leaf's
      address, or raises an access fault if an entry cannot be read (5) or a needed update is refused (7), or else
      the page fault of its kind. */
  ghost predicate Means(d: Demand, acc: Acc, outcome: Outcome) {
    && (forall pa :: outcome == Reaches(pa) <==> pa in d.reach)
    && (outcome == Raises(5) <==> d.unreadable)
    && (outcome == Raises(7) <==> d.refused)
    && (outcome.Raises? ==> outcome.exception in {5, 7, PageFault(acc)})
  }

  lemma MeetsMeans(d: Demand, acc: Acc, va: nat, r: Result)
    requires Meets(d, va, r)
    ensures Means(d, acc, Answer(r, acc, va))
  {
  }

  lemma AnswerMeans(m: Tables, c: Ctx, mode: Mode, acc: Acc, va: nat)
    ensures Means(DemandOf(m, c, mode, acc, va), acc, Answer(Walk(m, c, mode, acc, va).0, acc, va))
  {
    WalkIsDemanded(m, c, mode, acc, va);
    MeetsMeans(DemandOf(m, c, mode, acc, va), acc, va, Walk(m, c, mode, acc, va).0);
  }

  /** c holds the root of the current address space, its status bits and the configuration. */
  ghost predicate InForce(k: Config, sim: SimAsid, c: Ctx) {
    && c.scheme == k.scheme && c.root == k.roots(sim.asid) && c.asid == sim.asid && c.noAsid == k.noAsid
    && c.mxr == sim.mxr && c.sum == sim.sum
    && c.v111 == k.v111 && c.updateA == k.updateA && c.updateD == k.updateD
  }

  /** Every access of every run does what the tables of the moment demand, whatever is cached. */
  lemma EveryAccessMeans(k: Config, states: seq<State>, ops: seq<Op>, i: nat, c: Ctx)
    requires Run(k, states, ops) && i < |ops| && ops[i].Touch? && InForce(k, states[i].sim, c)
    ensures var op := ops[i]; Means(DemandOf(states[i].m, c, op.mode, op.acc, op.va), op.acc, op.outcome)
  {
    assert c == CtxOf(k, states[i].sim);
    RunRefines(k, states, ops, i);
    AnswerMeans(states[i].m, CtxOf(k, states[i].sim), ops[i].mode, ops[i].acc, ops[i].va);
  }
}

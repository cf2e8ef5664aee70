/** Software changes page tables and fences later: until the fence, accesses go on that do not depend on what has
    changed, and they still have the outcome of a fresh page-table walk although outdated entries are cached. */
module TableChanges {
  import opened Access
  import opened Bits
  import opened PageWalk
  import opened WalkProperties
  import opened WalkFaults
  import opened Tlb
  import opened TlbCoherence
  import opened TlbTransparency
  import TlbRuns

  /** The range and address spaces of a fence. */
  datatype Reach = Reach(low: nat, high: nat, any: bool, asid: nat)

  /** A change of the tables that has not been fenced yet: the tables before it, and what the fence has to reach. */
  datatype Change = Change(before: Tables, reach: Reach)

  /** The state with the changes whose fence is due, of which only software knows. */
  datatype Full = Full(st: State, due: set<Change>)

  datatype Op =
    | Touch(mode: Mode, acc: Acc, va: nat, outcome: TlbRuns.Outcome)
    | SetStatus(mxr: bool, sum: bool)
    | SetSpace(asid: nat)
    | WriteTables(m: Tables, reach: Reach)
    | Sfence(reach: Reach)

  // ---- What software keeps to ----

  /** Before some change the address had a leaf that the fence has yet to reach. */
  ghost predicate Owed(k: Config, due: set<Change>, asid: nat, va: nat) {
    exists d :: d in due && OwedBy(k, d, asid, va)
  }

  ghost predicate OwedBy(k: Config, d: Change, asid: nat, va: nat) {
    var l, r := SpaceLeaf(k, d.before, asid, va), d.reach;
    l.Leaf? && ReachesLeaf(k, r.low, r.high, r.any, r.asid, asid, va, l)
  }

  /** A fence of g does all that a fence of r does. */
  predicate Includes(g: Reach, r: Reach) {
    g.low <= r.low && r.high <= g.high && (g.any || (!r.any && g.asid == r.asid))
  }

  ghost predicate Step(k: Config, s: Full, op: Op, s': Full) {
    match op
    case Touch(mode, acc, va, outcome) =>
      && !Owed(k, s.due, s.st.sim.asid, va) && s'.due == s.due
      && TlbRuns.Step(k, s.st, TlbRuns.Touch(mode, acc, va, outcome), s'.st)
    case SetStatus(mxr, sum) => s' == s.(st := s.st.(sim := s.st.sim.(mxr := mxr, sum := sum)))
    case SetSpace(asid) => Legal(k, asid) && s' == s.(st := s.st.(sim := s.st.sim.(asid := asid)))
    case WriteTables(m, r) =>
      && GlobalsAgree(k, m) && Confined(k, s.st.m, m, r.low, r.high, r.any, r.asid)
      && s' == Full(s.st.(m := m), s.due + {Change(s.st.m, r)})
    case Sfence(g) =>
      s' == Full(Fence(k, s.st, g.low, g.high, g.any, g.asid), set d | d in s.due && !Includes(g, d.reach))
  }

  // ---- Current and outdated entries ----

  /** f is left over from before a change, and the fence that is due deletes it. */
  ghost predicate Outdated(k: Config, due: set<Change>, f: Entry) {
    exists d :: d in due && OutdatedBy(k, d, f)
  }

  ghost predicate OutdatedBy(k: Config, d: Change, f: Entry) {
    && GlobalsAgree(k, d.before) && EntryInv(k, d.before, f)
    && Fenced(k, f, d.reach.low, d.reach.high, d.reach.any, d.reach.asid)
  }

  /** The state with the entries of tlb alone. */
  ghost function Only(k: Config, st: State, tlb: set<Entry>): State {
    st.(tlb := tlb, aliases := set a | a in st.aliases && HasOwner(k, tlb, a))
  }

  /** The entries of current satisfy the invariant by themselves; all others are outdated; every alias has an owner. */
  ghost predicate Splits(k: Config, s: Full, current: set<Entry>) {
    && current <= s.st.tlb && Inv(k, Only(k, s.st, current))
    && (forall f :: f in s.st.tlb - current ==> Outdated(k, s.due, f))
    && (forall a :: a in s.st.aliases ==> HasOwner(k, s.st.tlb, a))
  }

  ghost predicate DueInv(k: Config, s: Full) {
    exists current :: Splits(k, s, current)
  }

  /** With no fence due this is the invariant. */
  lemma NothingDue(k: Config, s: Full)
    requires DueInv(k, s) && s.due == {}
    ensures Inv(k, s.st)
  {
    var current :| Splits(k, s, current);
    forall f | f in s.st.tlb
      ensures f in current
    {
      assert f in s.st.tlb - current ==> Outdated(k, s.due, f);
    }
    assert s.st.tlb == current;
    assert Only(k, s.st, current).aliases == s.st.aliases;
  }

  /** An outdated entry answers only for addresses that are owed the fence. */
  lemma OutdatedIsOwed(k: Config, due: set<Change>, f: Entry, asid: nat, va: nat)
    requires Outdated(k, due, f) && Legal(k, asid) && Matches(f, asid) && InRange(f, va)
    ensures Owed(k, due, asid, va)
  {
    var d :| d in due && OutdatedBy(k, d, f);
    EntryLeaf(k, d.before, f, asid, va);
    var l := SpaceLeaf(k, d.before, asid, va);
    var b := PageBits(k.scheme, l.level);
    SameBlock(f.t.lowVA, va, b);
    assert Floor(va, b) == f.t.lowVA && f.t.highVA == f.t.lowVA + Pow2(b) - 1 && (f.t.G <==> l.pte.G || k.noAsid);
    assert OwedBy(k, d, asid, va);
  }

  // ---- Hits ----

  lemma HitMeans(k: Config, s: Full, current: set<Entry>, mode: Mode, acc: Acc, va: nat, outcome: TlbRuns.Outcome)
    requires Splits(k, s, current) && mode != M && !Owed(k, s.due, s.st.sim.asid, va)
    requires TlbRuns.HitStep(s.st, mode, acc, va, outcome, s.st)
    ensures TlbRuns.WalkStep(k, s.st.m, s.st.sim, TlbRuns.Touch(mode, acc, va, outcome), s.st.m, s.st.sim)
  {
    var a :| TlbRuns.Hit(s.st, a, mode, acc, va) && outcome == TlbRuns.Reaches(a.lowPA + (va - a.lowVA));
    LiveIsCurrent(k, s, current, a, va);
    assert TlbRuns.Hit(Only(k, s.st, current), a, mode, acc, va);
    TlbRuns.HitRefines(k, Only(k, s.st, current), mode, acc, va, outcome);
  }

  /** A live alias for an address that is owed nothing belongs to a current entry. */
  lemma LiveIsCurrent(k: Config, s: Full, current: set<Entry>, a: Alias, va: nat)
    requires Splits(k, s, current) && !Owed(k, s.due, s.st.sim.asid, va)
    requires a in s.st.aliases && Live(a, s.st.sim) && a.lowVA <= va <= a.highVA
    ensures a in Only(k, s.st, current).aliases
  {
    var o :| o in s.st.tlb && Owns(k, o, a);
    assert Matches(o, s.st.sim.asid) && InRange(o, va);
    if o !in current {
      OutdatedIsOwed(k, s.due, o, s.st.sim.asid, va);
      assert false;
    }
  }

  // ---- Misses ----

  /** What is found for an address that is owed nothing is current. */
  lemma FoundIsCurrent(k: Config, s: Full, current: set<Entry>, va: nat, found: Option<Entry>)
    requires Splits(k, s, current) && !Owed(k, s.due, s.st.sim.asid, va) && Found(s.st, va, found)
    ensures Found(Only(k, s.st, current), va, found)
  {
    if found.Some? && found.value !in current {
      OutdatedIsOwed(k, s.due, found.value, s.st.sim.asid, va);
      assert false;
    }
  }

  /** b is a with more entries, rest, and more aliases, extra, some of which may be gone. */
  ghost predicate Larger(a: State, b: State, rest: set<Entry>, extra: set<Alias>) {
    b.m == a.m && b.sim == a.sim && b.tlb == a.tlb + rest && b.aliases <= a.aliases + extra
  }

  lemma MapLarger(k: Config, a: State, b: State, rest: set<Entry>, extra: set<Alias>, e: Entry, mode: Mode, priv: Priv, va: nat)
    requires Larger(a, b, rest, extra)
    ensures Larger(Map(k, a, e, mode, priv, va), Map(k, b, e, mode, priv, va), rest, extra)
  {
  }

  lemma ReloadLarger(k: Config, a: State, b: State, rest: set<Entry>, extra: set<Alias>, mode: Mode, acc: Acc, va: nat)
    requires Larger(a, b, rest, extra)
    ensures var x, y := Reload(k, a, mode, acc, va), Reload(k, b, mode, acc, va);
            y.0 == x.0 && Larger(x.1, y.1, rest, extra)
  {
    var c := CtxOf(k, a.sim);
    var (r, m') := Walk(a.m, c, mode, acc, va);
    if r.Ok? {
      FreshIsUsable(a.m, c, mode, acc, va);
      MapLarger(k, a.(m := m'), b.(m := m'), rest, extra, NewEntry(r.t), mode, Validate(c, mode, NewEntry(r.t), acc).priv, va);
    }
  }

  /** A miss that finds a current entry or none does the same with and without the others. */
  lemma MissLarger(k: Config, a: State, b: State, rest: set<Entry>, extra: set<Alias>, found: Option<Entry>, mode: Mode, acc: Acc, va: nat)
    requires Larger(a, b, rest, extra) && (found.Some? ==> found.value !in rest)
    ensures var x, y := Miss(k, a, found, mode, acc, va), Miss(k, b, found, mode, acc, va);
            y.0 == x.0 && Larger(x.1, y.1, rest, extra)
  {
    match found
    case None => ReloadLarger(k, a, b, rest, extra, mode, acc, va);
    case Some(e) =>
      match Validate(CtxOf(k, a.sim), mode, e, acc)
      case Inadequate => ReloadLarger(k, a, b, rest, extra, mode, acc, va);
      case Stale => ReloadLarger(k, Delete(a, {e}), Delete(b, {e}), rest, extra, mode, acc, va);
      case Usable(priv) =>
        MapLarger(k, a.(tlb := a.tlb - {e}), b.(tlb := b.tlb - {e}), rest, extra, e, mode, priv, va);
  }

  /** A larger state than one that satisfies the invariant splits, if what is more is outdated. */
  lemma LargerSplits(k: Config, a: State, s: Full, rest: set<Entry>, extra: set<Alias>)
    requires Inv(k, a) && Larger(a, s.st, rest, extra)
    requires forall f :: f in rest ==> Outdated(k, s.due, f)
    requires forall x :: x in extra ==> HasOwner(k, rest, x)
    ensures Splits(k, s, a.tlb)
  {
    forall x | x in s.st.aliases
      ensures HasOwner(k, s.st.tlb, x)
    {
      if x in a.aliases {
        var o :| o in a.tlb && Owns(k, o, x);
        assert o in s.st.tlb;
      } else {
        var o :| o in rest && Owns(k, o, x);
        assert o in s.st.tlb;
      }
    }
  }

  lemma MissMeans(k: Config, s: Full, current: set<Entry>, mode: Mode, acc: Acc, va: nat, outcome: TlbRuns.Outcome, st': State)
    requires Splits(k, s, current) && !Owed(k, s.due, s.st.sim.asid, va)
    requires TlbRuns.MissStep(k, s.st, mode, acc, va, outcome, st')
    ensures DueInv(k, Full(st', s.due))
    ensures TlbRuns.WalkStep(k, s.st.m, s.st.sim, TlbRuns.Touch(mode, acc, va, outcome), st'.m, st'.sim)
  {
    var found :| Found(s.st, va, found) && Miss(k, s.st, found, mode, acc, va).1 == st'
                 && outcome == TlbRuns.Answer(Miss(k, s.st, found, mode, acc, va).0, acc, va);
    var a, rest := Only(k, s.st, current), s.st.tlb - current;
    var extra := s.st.aliases - a.aliases;
    FoundIsCurrent(k, s, current, va, found);
    MissLarger(k, a, s.st, rest, extra, found, mode, acc, va);
    MissIsWalk(k, a, found, mode, acc, va);
    TlbRuns.SameAnswer(Miss(k, a, found, mode, acc, va).0, Walk(a.m, CtxOf(k, a.sim), mode, acc, va).0, acc, va);
    ExtraOwners(k, s, current);
    LargerSplits(k, Miss(k, a, found, mode, acc, va).1, Full(st', s.due), rest, extra);
  }

  lemma ExtraOwners(k: Config, s: Full, current: set<Entry>)
    requires Splits(k, s, current)
    ensures forall x :: x in s.st.aliases - Only(k, s.st, current).aliases ==> HasOwner(k, s.st.tlb - current, x)
  {
    forall x | x in s.st.aliases - Only(k, s.st, current).aliases
      ensures HasOwner(k, s.st.tlb - current, x)
    {
      var o :| o in s.st.tlb && Owns(k, o, x);
      assert o in s.st.tlb - current;
    }
  }

  // ---- Changes and fences ----

  /** The entries that a change outdates are those the fence will delete. */
  lemma WriteSplits(k: Config, s: Full, current: set<Entry>, m: Tables, r: Reach)
    requires Splits(k, s, current) && GlobalsAgree(k, m) && Confined(k, s.st.m, m, r.low, r.high, r.any, r.asid)
    ensures DueInv(k, Full(s.st.(m := m), s.due + {Change(s.st.m, r)}))
  {
    var d := Change(s.st.m, r);
    var s' := Full(s.st.(m := m), s.due + {d});
    var a := Only(k, s.st, current);
    FencedChange(k, a, m, r.low, r.high, r.any, r.asid);
    var a' := Fence(k, a.(m := m), r.low, r.high, r.any, r.asid);
    forall f | f in s'.st.tlb - a'.tlb
      ensures Outdated(k, s'.due, f)
    {
      if f in current {
        assert d in s'.due && OutdatedBy(k, d, f);
      } else {
        StaysOutdated(k, s.due, s'.due, f);
      }
    }
    CurrentSplits(k, s', a'.tlb, a');
  }

  lemma StaysOutdated(k: Config, due: set<Change>, due': set<Change>, f: Entry)
    requires Outdated(k, due, f) && due <= due'
    ensures Outdated(k, due', f)
  {
    var d :| d in due && OutdatedBy(k, d, f);
    assert d in due';
  }

  lemma CurrentSplits(k: Config, s: Full, current: set<Entry>, a: State)
    requires Inv(k, a) && a.tlb == current && current <= s.st.tlb && a.m == s.st.m && a.sim == s.st.sim
    requires forall f :: f in s.st.tlb - current ==> Outdated(k, s.due, f)
    requires forall x :: x in s.st.aliases ==> HasOwner(k, s.st.tlb, x)
    ensures Splits(k, s, current)
  {
  }

  /** An entry that a fence leaves is still outdated by a change the fence does not include. */
  lemma LeftOutdated(k: Config, due: set<Change>, f: Entry, g: Reach)
    requires Outdated(k, due, f) && !Fenced(k, f, g.low, g.high, g.any, g.asid)
    ensures Outdated(k, (set d | d in due && !Includes(g, d.reach)), f)
  {
    var d :| d in due && OutdatedBy(k, d, f);
    assert d in (set x | x in due && !Includes(g, x.reach));
  }

  /** The fence that is due deletes every entry outdated by the changes it includes. */
  lemma FenceSplits(k: Config, s: Full, current: set<Entry>, g: Reach)
    requires Splits(k, s, current)
    ensures DueInv(k, Full(Fence(k, s.st, g.low, g.high, g.any, g.asid), set d | d in s.due && !Includes(g, d.reach)))
  {
    var s' := Full(Fence(k, s.st, g.low, g.high, g.any, g.asid), set d | d in s.due && !Includes(g, d.reach));
    var a := Only(k, s.st, current);
    var a' := Fence(k, a, g.low, g.high, g.any, g.asid);
    DeleteInv(k, a, set e | e in a.tlb && Fenced(k, e, g.low, g.high, g.any, g.asid));
    forall f | f in s'.st.tlb - a'.tlb
      ensures Outdated(k, s'.due, f)
    {
      assert f !in current;
      LeftOutdated(k, s.due, f, g);
    }
    forall x | x in s'.st.aliases
      ensures HasOwner(k, s'.st.tlb, x)
    {
      var o :| o in s.st.tlb && Owns(k, o, x);
      assert o in s'.st.tlb;
    }
    CurrentSplits(k, s', a'.tlb, a');
  }

  lemma SimSplits(k: Config, s: Full, current: set<Entry>, sim: SimAsid)
    requires Splits(k, s, current) && Legal(k, sim.asid)
    ensures Splits(k, s.(st := s.st.(sim := sim)), current)
  {
    TlbRuns.InvOfSim(k, Only(k, s.st, current), sim);
    assert Only(k, s.st.(sim := sim), current) == Only(k, s.st, current).(sim := sim);
  }

  // ---- Runs ----

  /** Every step keeps the invariant, and an access is that of a processor without caches. */
  lemma StepInv(k: Config, s: Full, op: Op, s': Full)
    requires DueInv(k, s) && Step(k, s, op, s')
    ensures DueInv(k, s')
    ensures op.Touch? ==> TlbRuns.WalkStep(k, s.st.m, s.st.sim, TlbRuns.Touch(op.mode, op.acc, op.va, op.outcome), s'.st.m, s'.st.sim)
  {
    var current :| Splits(k, s, current);
    match op
    case Touch(mode, acc, va, outcome) =>
      if TlbRuns.HitStep(s.st, mode, acc, va, outcome, s'.st) {
        HitMeans(k, s, current, mode, acc, va, outcome);
      } else {
        MissMeans(k, s, current, mode, acc, va, outcome, s'.st);
      }
    case SetStatus(mxr, sum) =>
      assert Legal(k, Only(k, s.st, current).sim.asid);
      SimSplits(k, s, current, s.st.sim.(mxr := mxr, sum := sum));
    case SetSpace(asid) => SimSplits(k, s, current, s.st.sim.(asid := asid));
    case WriteTables(m, r) => WriteSplits(k, s, current, m, r);
    case Sfence(g) => FenceSplits(k, s, current, g);
  }

  ghost predicate Init(k: Config, s: Full) {
    TlbRuns.Init(k, s.st) && s.due == {}
  }

  ghost predicate Run(k: Config, states: seq<Full>, ops: seq<Op>) {
    && |states| == |ops| + 1 && Init(k, states[0])
    && forall i :: 0 <= i < |ops| ==> Step(k, states[i], ops[i], states[i + 1])
  }

  lemma InitInv(k: Config, s: Full)
    requires Init(k, s)
    ensures DueInv(k, s)
  {
    TlbRuns.InitInv(k, s.st);
    assert Only(k, s.st, {}) == s.st;
    assert Splits(k, s, {});
  }

  lemma {:induction false} RunInv(k: Config, states: seq<Full>, ops: seq<Op>, i: nat)
    requires Run(k, states, ops) && i <= |ops|
    ensures DueInv(k, states[i])
    decreases i
  {
    if i == 0 {
      InitInv(k, states[0]);
    } else {
      RunInv(k, states, ops, i - 1);
      assert Step(k, states[i - 1], ops[i - 1], states[i - 1 + 1]);
      StepInv(k, states[i - 1], ops[i - 1], states[i]);
    }
  }

  /** Over every run in which table changes, accesses and fences interleave, and in which no access depends on a
      change that a fence has yet to reach, every access does what the tables of the moment demand. */
  lemma EveryAccessMeans(k: Config, states: seq<Full>, ops: seq<Op>, i: nat, c: Ctx)
    requires Run(k, states, ops) && i < |ops| && ops[i].Touch? && TlbRuns.InForce(k, states[i].st.sim, c)
    ensures var op := ops[i]; TlbRuns.Means(DemandOf(states[i].st.m, c, op.mode, op.acc, op.va), op.acc, op.outcome)
  {
    RunInv(k, states, ops, i);
    assert Step(k, states[i], ops[i], states[i + 1]);
    StepInv(k, states[i], ops[i], states[i + 1]);
    assert c == CtxOf(k, states[i].st.sim);
    TlbRuns.AnswerMeans(states[i].st.m, c, ops[i].mode, ops[i].acc, ops[i].va);
  }
}

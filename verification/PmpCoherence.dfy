/** The protection unit as a state machine: which steps keep the cached permissions equal to the
    first-match permissions, exactly when the others do, and what a lock guarantees over whole runs. */
module PmpCoherence {
  import opened Access
  import opened Bits
  import opened PmpRegions
  import opened PmpPriority
  import opened PmpWrites

  /** Registers and the two permission maps: Supervisor (shared with User) and Machine. */
  datatype State = State(regs: Regs, sup: Cache, mach: Cache)

  datatype Op =
    | WriteCfg(rv64: bool, index: nat, value: nat)
    | WriteAddr(index: nat, value: nat)
    | Reset
    | Map(mode: Mode, low: nat, high: nat)

  function ApplyRegs(c: Config, r: Regs, op: Op): (r': Regs)
    requires ValidConfig(c) && ValidRegs(c, r)
    ensures ValidRegs(c, r')
  {
    match op
    case WriteCfg(rv64, index, v) =>
      WriteCfgRegs(c, r, RawCfgs(c, r.cfg, rv64, index, v))
    case WriteAddr(i, v) => WriteAddrRegs(c, r, i, v)
    case Reset => ClearRegs()
    case Map(_, _, _) => r
  }

  ghost function SupInvalidated(c: Config, r: Regs, op: Op): iset<nat>
    requires ValidConfig(c) && ValidRegs(c, r) && !op.Map?
  {
    match op
    case WriteCfg(_, _, _) => SupBlank(c, r, ApplyRegs(c, r, op), NUM_PMPS)
    case WriteAddr(i, v) => AddrBlank(c, r, i, v)
    case Reset => ResetBlank(S, c, r, c.numRegs)
  }

  ghost function MachInvalidated(c: Config, r: Regs, op: Op): iset<nat>
    requires ValidConfig(c) && ValidRegs(c, r) && !op.Map?
  {
    match op
    case WriteCfg(rv64, index, v) =>
      MachBlank(c, r, ApplyRegs(c, r, op), RawCfgs(c, r.cfg, rv64, index, v), NUM_PMPS)
    case WriteAddr(i, v) => if LowerLocked(r.cfg, i) then AddrBlank(c, r, i, v) else iset{}
    case Reset => ResetBlank(M, c, r, c.numRegs)
  }

  ghost predicate Same(f: Cache, f': Cache) {
    forall a: nat :: f'(a) == f(a)
  }

  /** One operation. mapPMP (Map) adds nothing but first-match permissions and fills the implemented part
      of the request completely; the other operations change registers and invalidate. */
  ghost predicate Step(c: Config, s: State, op: Op, s': State)
    requires ValidConfig(c) && ValidRegs(c, s.regs)
  {
    && s'.regs == ApplyRegs(c, s.regs, op)
    && if op.Map? then
         if c.numRegs == 0 then Same(s.sup, s'.sup) && Same(s.mach, s'.mach)
         else if op.mode == M then Same(s.sup, s'.sup) && Filled(M, TableOf(c, s.regs), Pow2(c.extBits), s.mach, s'.mach, op.low, op.high + 1)
         else Same(s.mach, s'.mach) && Filled(op.mode, TableOf(c, s.regs), Pow2(c.extBits), s.sup, s'.sup, op.low, op.high + 1)
       else
         && Blanks(s.sup, s'.sup, SupInvalidated(c, s.regs, op))
         && Blanks(s.mach, s'.mach, MachInvalidated(c, s.regs, op))
  }

  ghost predicate SupCoherent(c: Config, s: State) {
    ValidConfig(c) && ValidRegs(c, s.regs) && Coherent(S, TableOf(c, s.regs), s.sup)
  }

  ghost predicate MachCoherent(c: Config, s: State) {
    ValidConfig(c) && ValidRegs(c, s.regs) && Coherent(M, TableOf(c, s.regs), s.mach)
  }

  // ---- pmpcfg writes ----

  lemma {:induction false} OutsideSupBlank(c: Config, r: Regs, r': Regs, n: nat, k: nat, a: nat)
    requires c.grain <= 29 && |r.cfg| == |r.addr| == |r'.cfg| == |r'.addr| == NUM_PMPS
    requires k < n <= NUM_PMPS && a !in SupBlank(c, r, r', n)
    ensures a !in SupPart(c, r, r', k)
  {
    if k < n - 1 {
      OutsideSupBlank(c, r, r', n - 1, k, a);
    }
  }

  /** Invalidating the old and new region of every changed entry covers every change. */
  lemma CfgWriteCoversSup(c: Config, r: Regs, r': Regs)
    requires ValidConfig(c) && ValidRegs(c, r) && ValidRegs(c, r') && r.addr == r'.addr
    ensures CoversChange(S, TableOf(c, r), TableOf(c, r'), SupBlank(c, r, r', NUM_PMPS))
  {
    var t, t' := TableOf(c, r), TableOf(c, r');
    forall a: nat | a < WORD && a !in SupBlank(c, r, r', NUM_PMPS)
      ensures Perm(S, t', a) == Perm(S, t, a)
    {
      forall k | 0 <= k < c.numRegs
        ensures AgreeAt(t[k], t'[k], a)
      {
        OutsideSupBlank(c, r, r', NUM_PMPS, k, a);
      }
      SamePerm(S, t, t', a);
    }
  }

  lemma {:induction false} OutsideMachBlank(c: Config, r: Regs, r': Regs, raw: seq<Cfg>, n: nat, k: nat, a: nat)
    requires c.grain <= 29 && |r.cfg| == |r.addr| == |r'.cfg| == |r'.addr| == NUM_PMPS
    requires k < n <= NUM_PMPS && a !in MachBlank(c, r, r', raw, n)
    ensures a !in MachPart(c, r, r', raw, k)
  {
    if k < n - 1 {
      OutsideMachBlank(c, r, r', raw, n - 1, k, a);
    }
  }

  /** Only locked active entries produce locked regions. */
  lemma LockedRegion(c: Config, r: Regs, k: nat, a: nat)
    requires c.grain <= 29 && |r.cfg| == |r.addr| == NUM_PMPS && k < NUM_PMPS
    requires Contains(RegionOf(c, r, k), a)
    ensures RegionOf(c, r, k).L == r.cfg[k].L && r.cfg[k].mode != OFF
  {
  }

  // ---- pmpaddr writes ----

  /** The next implemented entry takes its base from register i. */
  predicate NextIsTor(c: Config, r: Regs, i: nat)
    requires c.numRegs <= |r.cfg|
  {
    i + 1 < c.numRegs && r.cfg[i + 1].mode == TOR
  }

  /** Only entry i and a TOR entry after it depend on register i. */
  lemma OtherRegions(c: Config, r: Regs, i: nat, v: nat, k: nat)
    requires ValidConfig(c) && ValidRegs(c, r) && k < c.numRegs && k != i
    requires k == i + 1 ==> !NextIsTor(c, r, i)
    ensures RegionOf(c, WriteAddrRegs(c, r, i, v), k) == RegionOf(c, r, k)
  {
    if k == i + 1 {
      BaseIgnored(c.grain, r.cfg[k], r.addr[k], PrevAddr(r, k), PrevAddr(WriteAddrRegs(c, r, i, v), k));
    }
  }

  lemma BaseIgnored(g: nat, e: Cfg, addr: nat, prev: nat, prev': nat)
    requires g <= 29 && e.mode != TOR
    ensures EntryRegion(g, e, addr, prev) == EntryRegion(g, e, addr, prev')
  {
  }

  lemma AddrWriteCoversSup(c: Config, r: Regs, i: nat, v: nat)
    requires ValidConfig(c) && ValidRegs(c, r) && !NextIsTor(c, r, i)
    ensures CoversChange(S, TableOf(c, r), TableOf(c, WriteAddrRegs(c, r, i, v)), AddrBlank(c, r, i, v))
  {
    var r' := WriteAddrRegs(c, r, i, v);
    var t, t' := TableOf(c, r), TableOf(c, r');
    forall a: nat | a < WORD && a !in AddrBlank(c, r, i, v)
      ensures Perm(S, t', a) == Perm(S, t, a)
    {
      forall k | 0 <= k < c.numRegs
        ensures AgreeAt(t[k], t'[k], a)
      {
        if k != i { OtherRegions(c, r, i, v, k); }
      }
      SamePerm(S, t, t', a);
    }
  }

  // ---- Reset ----

  lemma {:induction false} OutsideResetBlank(m: Mode, c: Config, r: Regs, n: nat, k: nat, a: nat)
    requires c.grain <= 29 && |r.cfg| == |r.addr| == NUM_PMPS
    requires k < n <= NUM_PMPS && a !in ResetBlank(m, c, r, n)
    requires m != M || r.cfg[k].L || LowerLocked(r.cfg, k)
    ensures !Contains(EntryRegion(c.grain, r.cfg[k], r.addr[k], 0), a)
  {
    if k < n - 1 {
      OutsideResetBlank(m, c, r, n - 1, k, a);
    }
  }

  /** A TOR entry whose base is already cleared covers at least what it covered before. */
  lemma ClearedBaseIsWider(g: nat, e: Cfg, addr: nat, prev: nat, a: nat)
    requires g <= 29 && Contains(EntryRegion(g, e, addr, prev), a)
    ensures Contains(EntryRegion(g, e, addr, 0), a)
  {
    assert TorBase(g, 0) == 0;
  }

  lemma ClearTable(c: Config, a: nat)
    requires ValidConfig(c)
    ensures FirstMatch(TableOf(c, ClearRegs()), a, 0) == c.numRegs
  {
    FirstMatchUnique(TableOf(c, ClearRegs()), a, c.numRegs);
  }

  lemma ResetCovers(m: Mode, c: Config, r: Regs)
    requires ValidConfig(c) && ValidRegs(c, r) && m != U
    ensures CoversChange(m, TableOf(c, r), TableOf(c, ClearRegs()), ResetBlank(m, c, r, c.numRegs))
  {
    var t := TableOf(c, r);
    forall a: nat | a < WORD && a !in ResetBlank(m, c, r, c.numRegs)
      ensures Perm(m, TableOf(c, ClearRegs()), a) == Perm(m, t, a) || Perm(m, t, a) == NONE
    {
      ClearTable(c, a);
      var k := FirstMatch(t, a, 0);
      if k < c.numRegs {
        ClearedBaseIsWider(c.grain, r.cfg[k], r.addr[k], PrevAddr(r, k), a);
        LockedRegion(c, r, k, a);
        if m != M || r.cfg[k].L {
          OutsideResetBlank(m, c, r, c.numRegs, k, a);
        }
      }
    }
  }

  // ---- Steps and runs ----

  /** Every register operation invalidates enough for Supervisor mode, unless a pmpaddr write strands an
      address. */
  lemma SupInvalidationSuffices(c: Config, r: Regs, op: Op)
    requires ValidConfig(c) && ValidRegs(c, r) && !op.Map?
    requires op.WriteAddr? ==> NoneStale(c, r, op.index, op.value)
    ensures CoversChange(S, TableOf(c, r), TableOf(c, ApplyRegs(c, r, op)), SupInvalidated(c, r, op))
  {
    match op
    case WriteCfg(_, _, _) => CfgWriteCoversSup(c, r, ApplyRegs(c, r, op));
    case WriteAddr(i, v) => NoneStaleCovers(c, r, i, v);
    case Reset => ResetCovers(S, c, r);
  }

  /** A step keeps Supervisor coherence whatever was cached. */
  lemma SupStep(c: Config, s: State, op: Op, s': State)
    requires SupCoherent(c, s) && Step(c, s, op, s')
    requires op.WriteAddr? ==> NoneStale(c, s.regs, op.index, op.value)
    ensures SupCoherent(c, s')
  {
    if !op.Map? {
      SupInvalidationSuffices(c, s.regs, op);
      BlankingKeepsCoherence(S, TableOf(c, s.regs), TableOf(c, s'.regs), SupInvalidated(c, s.regs, op), s.sup, s'.sup);
    }
  }

  /** Power-up: clear registers, nothing cached unless no entry is implemented at all. */
  ghost predicate Init(c: Config, s: State) {
    && s.regs == ClearRegs()
    && (forall a: nat :: s.sup(a) == s.mach(a) == if c.numRegs == 0 then RWX else NONE)
  }

  ghost predicate Run(c: Config, tr: seq<State>, ops: seq<Op>)
    requires ValidConfig(c)
  {
    && |tr| == |ops| + 1 && Init(c, tr[0])
    && (forall k :: 0 <= k < |tr| ==> ValidRegs(c, tr[k].regs))
    && (forall k :: 0 <= k < |ops| ==> Step(c, tr[k], ops[k], tr[k + 1]))
  }

  lemma InitCoherent(c: Config, s: State)
    requires ValidConfig(c) && Init(c, s)
    ensures SupCoherent(c, s) && MachCoherent(c, s)
  {
    forall a: nat | a < WORD && c.numRegs == 0
      ensures Perm(S, TableOf(c, s.regs), a) == RWX && Perm(M, TableOf(c, s.regs), a) == RWX
    {
      ClearTable(c, a);
    }
  }

  /** The write leaves no address with an outdated permission; in particular every write does if the next
      entry is not TOR. */
  ghost predicate NoneStale(c: Config, r: Regs, i: nat, v: nat)
    requires ValidConfig(c) && ValidRegs(c, r)
  {
    forall a: nat :: !StaleAt(c, r, i, v, a)
  }

  lemma NotBelowTor(c: Config, r: Regs, i: nat, v: nat)
    requires ValidConfig(c) && ValidRegs(c, r) && !NextIsTor(c, r, i)
    ensures NoneStale(c, r, i, v)
  {
  }

  lemma NoneStaleCovers(c: Config, r: Regs, i: nat, v: nat)
    requires ValidConfig(c) && ValidRegs(c, r) && NoneStale(c, r, i, v)
    ensures CoversChange(S, TableOf(c, r), TableOf(c, WriteAddrRegs(c, r, i, v)), AddrBlank(c, r, i, v))
  {
    AddrWriteExact(c, r, i, v);
    BlankingExact(S, TableOf(c, r), TableOf(c, WriteAddrRegs(c, r, i, v)), AddrBlank(c, r, i, v));
  }

  /** In every reachable state the cached Supervisor permission of every address is withheld or
      exactly the first-match permission, as long as no pmpaddr write strands an address. */
  lemma {:induction false} SupCoherentAlways(c: Config, tr: seq<State>, ops: seq<Op>)
    requires ValidConfig(c) && Run(c, tr, ops)
    requires forall k :: 0 <= k < |ops| && ops[k].WriteAddr? ==> NoneStale(c, tr[k].regs, ops[k].index, ops[k].value)
    ensures SupCoherent(c, tr[|ops|])
  {
    if |ops| == 0 {
      InitCoherent(c, tr[0]);
    } else {
      var n := |ops| - 1;
      SupCoherentAlways(c, tr[..n + 1], ops[..n]);
      assert tr[..n + 1][n] == tr[n];
      SupStep(c, tr[n], ops[n], tr[n + 1]);
    }
  }

  // ---- Lock permanence ----

  function RunRegs(c: Config, r: Regs, ops: seq<Op>): (r': Regs)
    requires ValidConfig(c) && ValidRegs(c, r)
    ensures ValidRegs(c, r')
    decreases |ops|
  {
    if ops == [] then r else RunRegs(c, ApplyRegs(c, r, ops[0]), ops[1..])
  }

  /** A locked entry keeps its configuration byte, its address and, if it is TOR, its base, through any
      sequence of register writes without reset; hence its region and permission never change. */
  lemma {:induction false} LockIsPermanent(c: Config, r: Regs, ops: seq<Op>, i: nat)
    requires ValidConfig(c) && ValidRegs(c, r) && i < NUM_PMPS && r.cfg[i].L
    requires forall k :: 0 <= k < |ops| ==> !ops[k].Reset?
    ensures var r' := RunRegs(c, r, ops);
            && r'.cfg[i] == r.cfg[i] && r'.addr[i] == r.addr[i]
            && (r.cfg[i].mode == TOR ==> PrevAddr(r', i) == PrevAddr(r, i))
            && RegionOf(c, r', i) == RegionOf(c, r, i)
    decreases |ops|
  {
    if ops != [] {
      LockIsPermanent(c, ApplyRegs(c, r, ops[0]), ops[1..], i);
      LockSurvives(c, r, ops[0], i);
    }
  }

  lemma LockSurvives(c: Config, r: Regs, op: Op, i: nat)
    requires ValidConfig(c) && ValidRegs(c, r) && i < NUM_PMPS && r.cfg[i].L && !op.Reset?
    ensures var r' := ApplyRegs(c, r, op);
            && r'.cfg[i] == r.cfg[i] && r'.addr[i] == r.addr[i]
            && (r.cfg[i].mode == TOR ==> PrevAddr(r', i) == PrevAddr(r, i))
            && RegionOf(c, r', i) == RegionOf(c, r, i)
  {
    var r' := ApplyRegs(c, r, op);
    if r.cfg[i].mode != TOR {
      BaseIgnored(c.grain, r.cfg[i], r.addr[i], PrevAddr(r, i), PrevAddr(r', i));
    }
  }

  /** With a grain above 4 bytes NA4 is never selected, and every region of a reachable register
      file is a union of whole grains. */
  lemma ReachableRegionsAreWholeGrains(c: Config, ops: seq<Op>, i: nat)
    requires ValidConfig(c) && i < c.numRegs
    ensures ValidRegs(c, ClearRegs())
    ensures var r := RunRegs(c, ClearRegs(), ops);
            && (c.grain >= 1 ==> r.cfg[i].mode != NA4)
            && (RegionOf(c, r, i).Range? ==>
                WholeGrains(c.grain, (RegionOf(c, r, i).low, RegionOf(c, r, i).high)))
  {
    var r := RunRegs(c, ClearRegs(), ops);
    if Active(c, r, i) {
      RegionsAreWholeGrains(c, r, i);
    }
  }

  // ---- Exactly when a pmpaddr write below a TOR entry is harmless ----

  /** Address a is left with an outdated permission: the write moves the base of TOR entry i + 1 across
      a, neither the invalidated regions nor a higher-priority entry contain a, and what a was granted
      before (by entry i + 1 or, if a was outside it, by the entries after it) is not what it is now. */
  ghost predicate StaleAt(c: Config, r: Regs, i: nat, v: nat, a: nat)
    requires ValidConfig(c) && ValidRegs(c, r)
  {
    && NextIsTor(c, r, i) && a < WORD && a !in AddrBlank(c, r, i, v)
    && (forall k :: 0 <= k < i ==> !Contains(RegionOf(c, r, k), a))
    && (var was := Contains(RegionOf(c, r, i + 1), a);
        var now := Contains(RegionOf(c, WriteAddrRegs(c, r, i, v), i + 1), a);
        var below := Grant(S, TableOf(c, r), FirstMatch(TableOf(c, r), a, i + 2));
        && was != now
        && (if was then r.cfg[i + 1].priv else below) != NONE
        && below != r.cfg[i + 1].priv)
  }

  lemma {:induction false} SameTail(t: Table, t': Table, a: nat, n: nat)
    requires n <= |t| == |t'| && forall k :: n <= k < |t| ==> t[k] == t'[k]
    ensures FirstMatch(t, a, n) == FirstMatch(t', a, n)
    ensures Grant(S, t, FirstMatch(t, a, n)) == Grant(S, t', FirstMatch(t', a, n))
    decreases |t| - n
  {
    if n < |t| { SameTail(t, t', a, n + 1); }
  }

  /** If nothing before n contains a, the search may start at n. */
  lemma {:induction false} SkipTo(t: Table, a: nat, n: nat, i: nat)
    requires i <= n <= |t| && forall k :: i <= k < n ==> !Contains(t[k], a)
    ensures FirstMatch(t, a, i) == FirstMatch(t, a, n)
    decreases n - i
  {
    if i < n { SkipTo(t, a, n, i + 1); }
  }

  /** Permission at a before and after the write, when no entry up to i contains a. */
  lemma PermThroughTor(c: Config, r: Regs, i: nat, v: nat, a: nat)
    requires ValidConfig(c) && ValidRegs(c, r) && NextIsTor(c, r, i) && AddrChanges(c, r, i, v)
    requires forall k :: 0 <= k < i ==> !Contains(RegionOf(c, r, k), a)
    requires a !in AddrBlank(c, r, i, v)
    ensures var r' := WriteAddrRegs(c, r, i, v);
            var below := Grant(S, TableOf(c, r), FirstMatch(TableOf(c, r), a, i + 2));
            && Perm(S, TableOf(c, r), a) == (if Contains(RegionOf(c, r, i + 1), a) then r.cfg[i + 1].priv else below)
            && Perm(S, TableOf(c, r'), a) == (if Contains(RegionOf(c, r', i + 1), a) then r.cfg[i + 1].priv else below)
  {
    var r' := WriteAddrRegs(c, r, i, v);
    var t, t' := TableOf(c, r), TableOf(c, r');
    forall k | 0 <= k < c.numRegs && k != i && k != i + 1
      ensures t'[k] == t[k]
    {
      OtherRegions(c, r, i, v, k);
    }
    SkipTo(t, a, i + 1, 0);
    SkipTo(t', a, i + 1, 0);
    SameTail(t, t', a, i + 2);
  }

  /** Otherwise nothing changes at a. */
  lemma PermUnmoved(c: Config, r: Regs, i: nat, v: nat, a: nat)
    requires ValidConfig(c) && ValidRegs(c, r) && NextIsTor(c, r, i) && AddrChanges(c, r, i, v)
    requires a !in AddrBlank(c, r, i, v)
    requires (exists k :: 0 <= k < i && Contains(RegionOf(c, r, k), a))
      || Contains(RegionOf(c, r, i + 1), a) == Contains(RegionOf(c, WriteAddrRegs(c, r, i, v), i + 1), a)
    ensures Perm(S, TableOf(c, r), a) == Perm(S, TableOf(c, WriteAddrRegs(c, r, i, v)), a)
  {
    var r' := WriteAddrRegs(c, r, i, v);
    var t, t' := TableOf(c, r), TableOf(c, r');
    forall k | 0 <= k < c.numRegs && k != i && k != i + 1
      ensures t'[k] == t[k]
    {
      OtherRegions(c, r, i, v, k);
    }
    if k :| 0 <= k < i && Contains(RegionOf(c, r, k), a) {
      SameFirstMatch(t, t', a, i);
    } else {
      SamePerm(S, t, t', a);
    }
  }

  /** A pmpaddr write keeps every coherent Supervisor cache coherent if and only if it strands no address. */
  lemma AddrWriteExact(c: Config, r: Regs, i: nat, v: nat)
    requires ValidConfig(c) && ValidRegs(c, r)
    ensures (forall a: nat :: !StaleAt(c, r, i, v, a)) <==>
            forall f: Cache, f': Cache ::
              Coherent(S, TableOf(c, r), f) && Blanks(f, f', AddrBlank(c, r, i, v))
              ==> Coherent(S, TableOf(c, WriteAddrRegs(c, r, i, v)), f')
  {
    var r' := WriteAddrRegs(c, r, i, v);
    var t, t' := TableOf(c, r), TableOf(c, r');
    BlankingExact(S, t, t', AddrBlank(c, r, i, v));
    if NextIsTor(c, r, i) && AddrChanges(c, r, i, v) {
      forall a: nat | a < WORD && a !in AddrBlank(c, r, i, v)
        ensures StaleAt(c, r, i, v, a) <==> !(Perm(S, t, a) == NONE || Perm(S, t', a) == Perm(S, t, a))
      {
        StaleMeaning(c, r, i, v, a);
      }
    } else if !NextIsTor(c, r, i) {
      AddrWriteCoversSup(c, r, i, v);
    }
  }

  lemma StaleMeaning(c: Config, r: Regs, i: nat, v: nat, a: nat)
    requires ValidConfig(c) && ValidRegs(c, r) && NextIsTor(c, r, i) && AddrChanges(c, r, i, v)
    requires a < WORD && a !in AddrBlank(c, r, i, v)
    ensures StaleAt(c, r, i, v, a) <==>
            Perm(S, TableOf(c, r), a) != NONE
            && Perm(S, TableOf(c, WriteAddrRegs(c, r, i, v)), a) != Perm(S, TableOf(c, r), a)
  {
    var r' := WriteAddrRegs(c, r, i, v);
    if (exists k :: 0 <= k < i && Contains(RegionOf(c, r, k), a))
       || Contains(RegionOf(c, r, i + 1), a) == Contains(RegionOf(c, r', i + 1), a) {
      PermUnmoved(c, r, i, v, a);
    } else {
      PermThroughTor(c, r, i, v, a);
    }
  }
}

/** Machine mode: only locked entries bind it, and the invalidation of a register write is narrower. Exactly
    which writes leave a Machine permission outdated, and coherence over all runs of the others. */
module PmpMachine {
  import opened Access
  import opened Bits
  import opened PmpRegions
  import opened PmpPriority
  import opened PmpWrites
  import opened PmpCoherence

  // ---- Locked and shadowing entries ----

  /** The first locked entry at or after i that contains a, or |t| if there is none. */
  function FirstLocked(t: Table, a: nat, i: nat): (k: nat)
    requires i <= |t|
    ensures i <= k <= |t|
    ensures k < |t| ==> Contains(t[k], a) && t[k].L
    ensures forall j :: i <= j < k && Contains(t[j], a) ==> !t[j].L
    decreases |t| - i
  {
    if i == |t| || (Contains(t[i], a) && t[i].L) then i else FirstLocked(t, a, i + 1)
  }

  /** Some entry before k contains a. */
  predicate Shadowed(t: Table, a: nat, k: nat)
    requires k <= |t|
  {
    exists j :: 0 <= j < k && Contains(t[j], a)
  }

  /** Machine mode is bound by the first locked entry unless an entry before it matches. */
  lemma MachinePerm(t: Table, a: nat)
    ensures var k := FirstLocked(t, a, 0);
            Perm(M, t, a) == if k == |t| || Shadowed(t, a, k) then RWX else t[k].priv
  {
    var k, f := FirstLocked(t, a, 0), FirstMatch(t, a, 0);
    if f < k {
      assert Contains(t[f], a);
    }
  }

  /** Both tables have the same locked entries at a. */
  ghost predicate LocksAgree(t: Table, t': Table, a: nat) {
    && |t| == |t'|
    && forall j :: 0 <= j < |t| && ((Contains(t[j], a) && t[j].L) || (Contains(t'[j], a) && t'[j].L)) ==> t[j] == t'[j]
  }

  lemma SameFirstLocked(t: Table, t': Table, a: nat)
    requires LocksAgree(t, t', a)
    ensures FirstLocked(t, a, 0) == FirstLocked(t', a, 0)
  {
  }

  // ---- Exactly which writes strand a Machine permission ----

  ghost predicate IsWrite(op: Op) {
    op.WriteCfg? || op.WriteAddr?
  }

  /** Address a is left with an outdated Machine permission: it is not invalidated, the first locked entry that
      contains it restricts it, the write uncovers or covers that entry at a, and a permission was granted. */
  ghost predicate MachStaleAt(c: Config, r: Regs, op: Op, a: nat)
    requires ValidConfig(c) && ValidRegs(c, r) && IsWrite(op)
  {
    var t, t' := TableOf(c, r), TableOf(c, ApplyRegs(c, r, op));
    var k := FirstLocked(t, a, 0);
    && a < WORD && a !in MachInvalidated(c, r, op) && k < |t|
    && Shadowed(t, a, k) != Shadowed(t', a, k)
    && t[k].priv != RWX && (Shadowed(t, a, k) || t[k].priv != NONE)
  }

  /** A locked entry survives the write, and an entry that the write locks is invalidated. */
  lemma LockedSurvives(c: Config, r: Regs, op: Op, a: nat, j: nat)
    requires ValidConfig(c) && ValidRegs(c, r) && IsWrite(op) && a !in MachInvalidated(c, r, op) && j < c.numRegs
    requires var t, t' := TableOf(c, r), TableOf(c, ApplyRegs(c, r, op));
             (Contains(t[j], a) && t[j].L) || (Contains(t'[j], a) && t'[j].L)
    ensures TableOf(c, ApplyRegs(c, r, op))[j] == TableOf(c, r)[j]
  {
    if r.cfg[j].L {
      LockSurvives(c, r, op, j);
    } else if op.WriteCfg? {
      var raw := RawCfgs(c, r.cfg, op.rv64, op.index, op.value);
      OutsideMachBlank(c, r, ApplyRegs(c, r, op), raw, NUM_PMPS, j, a);
    }
  }

  lemma LocksSurvive(c: Config, r: Regs, op: Op, a: nat)
    requires ValidConfig(c) && ValidRegs(c, r) && IsWrite(op) && a !in MachInvalidated(c, r, op)
    ensures LocksAgree(TableOf(c, r), TableOf(c, ApplyRegs(c, r, op)), a)
  {
    var t, t' := TableOf(c, r), TableOf(c, ApplyRegs(c, r, op));
    forall j | 0 <= j < |t| && ((Contains(t[j], a) && t[j].L) || (Contains(t'[j], a) && t'[j].L))
      ensures t[j] == t'[j]
    {
      LockedSurvives(c, r, op, a, j);
    }
  }

  lemma MachStaleMeaning(c: Config, r: Regs, op: Op, a: nat)
    requires ValidConfig(c) && ValidRegs(c, r) && IsWrite(op) && a < WORD && a !in MachInvalidated(c, r, op)
    ensures var t, t' := TableOf(c, r), TableOf(c, ApplyRegs(c, r, op));
            MachStaleAt(c, r, op, a) <==> Perm(M, t, a) != NONE && Perm(M, t', a) != Perm(M, t, a)
  {
    var t, t' := TableOf(c, r), TableOf(c, ApplyRegs(c, r, op));
    LocksSurvive(c, r, op, a);
    SameFirstLocked(t, t', a);
    MachinePerm(t, a);
    MachinePerm(t', a);
  }

  /** A register write keeps every coherent Machine map coherent if and only if it strands no address. */
  lemma MachWriteExact(c: Config, r: Regs, op: Op)
    requires ValidConfig(c) && ValidRegs(c, r) && IsWrite(op)
    ensures (forall a: nat :: !MachStaleAt(c, r, op, a)) <==>
            forall f: Cache, f': Cache ::
              Coherent(M, TableOf(c, r), f) && Blanks(f, f', MachInvalidated(c, r, op))
              ==> Coherent(M, TableOf(c, ApplyRegs(c, r, op)), f')
  {
    var t, t', b := TableOf(c, r), TableOf(c, ApplyRegs(c, r, op)), MachInvalidated(c, r, op);
    BlankingExact(M, t, t', b);
    forall a: nat | a < WORD && a !in b
      ensures MachStaleAt(c, r, op, a) <==> !(Perm(M, t, a) == NONE || Perm(M, t', a) == Perm(M, t, a))
    {
      MachStaleMeaning(c, r, op, a);
    }
  }

  // ---- Runs ----

  ghost predicate MachNoneStale(c: Config, r: Regs, op: Op)
    requires ValidConfig(c) && ValidRegs(c, r)
  {
    IsWrite(op) ==> forall a: nat :: !MachStaleAt(c, r, op, a)
  }

  lemma MachStep(c: Config, s: State, op: Op, s': State)
    requires MachCoherent(c, s) && Step(c, s, op, s') && MachNoneStale(c, s.regs, op)
    ensures MachCoherent(c, s')
  {
    if op.Reset? {
      ResetCovers(M, c, s.regs);
      BlankingKeepsCoherence(M, TableOf(c, s.regs), TableOf(c, s'.regs), MachInvalidated(c, s.regs, op), s.mach, s'.mach);
    } else if IsWrite(op) {
      MachWriteExact(c, s.regs, op);
    }
  }

  /** In every reachable state the cached Machine permission of every address is withheld or exactly the
      first-match permission, as long as no write strands an address. */
  lemma {:induction false} MachCoherentAlways(c: Config, tr: seq<State>, ops: seq<Op>)
    requires ValidConfig(c) && Run(c, tr, ops)
    requires forall k :: 0 <= k < |ops| ==> MachNoneStale(c, tr[k].regs, ops[k])
    ensures MachCoherent(c, tr[|ops|])
  {
    if |ops| == 0 {
      InitCoherent(c, tr[0]);
    } else {
      var n := |ops| - 1;
      MachCoherentAlways(c, tr[..n + 1], ops[..n]);
      assert tr[..n + 1][n] == tr[n];
      MachStep(c, tr[n], ops[n], tr[n + 1]);
    }
  }

  // ---- Writes that strand nothing ----

  /** The written bytes leave every locked active entry locked and active. */
  ghost predicate KeepsLocks(cfg: seq<Cfg>, raw: seq<Cfg>)
    requires |cfg| == |raw|
  {
    forall k :: 0 <= k < |cfg| && cfg[k].L && cfg[k].mode != OFF ==> raw[k].L && raw[k].mode != OFF
  }

  /** A configuration write that leaves locked bytes locked strands no address. */
  lemma KeepsLocksStrandsNothing(c: Config, r: Regs, op: Op, a: nat)
    requires ValidConfig(c) && ValidRegs(c, r) && op.WriteCfg?
    requires KeepsLocks(r.cfg, RawCfgs(c, r.cfg, op.rv64, op.index, op.value))
    ensures !MachStaleAt(c, r, op, a)
  {
    var t, t' := TableOf(c, r), TableOf(c, ApplyRegs(c, r, op));
    var k := FirstLocked(t, a, 0);
    if a !in MachInvalidated(c, r, op) && k < |t| {
      LockedRegion(c, r, k, a);
      forall j | 0 <= j < k
        ensures Contains(t[j], a) <==> Contains(t'[j], a)
      {
        OutsideMachBlank(c, r, ApplyRegs(c, r, op), RawCfgs(c, r.cfg, op.rv64, op.index, op.value), NUM_PMPS, j, a);
      }
    }
  }

  /** An address write not below a TOR entry strands no address. */
  lemma NotBelowTorStrandsNothing(c: Config, r: Regs, op: Op, a: nat)
    requires ValidConfig(c) && ValidRegs(c, r) && op.WriteAddr? && !NextIsTor(c, r, op.index)
    ensures !MachStaleAt(c, r, op, a)
  {
    var t, t' := TableOf(c, r), TableOf(c, ApplyRegs(c, r, op));
    var k := FirstLocked(t, a, 0);
    if a !in MachInvalidated(c, r, op) && k < |t| {
      LockedRegion(c, r, k, a);
      forall j | 0 <= j < k
        ensures Contains(t[j], a) <==> Contains(t'[j], a)
      {
        if j != op.index {
          OtherRegions(c, r, op.index, op.value, j);
        }
      }
    }
  }
}

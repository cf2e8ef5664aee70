/** The main results about the TLB: every access, whether it hits an alias, hits an entry or misses, has
    the outcome of a fresh page-table walk, in every reachable state. */
module TlbTransparency {
  import opened Access
  import opened Bits
  import opened PageWalk
  import opened WalkProperties
  import opened Tlb
  import opened TlbCoherence

  // ---- Deletion ----

  /** Deleting entries keeps the invariant: every alias that is left belongs to an entry that is left, so
      none of a deleted entry's aliases survives in any mode. */
  lemma DeleteInv(k: Config, st: State, dead: set<Entry>)
    requires Inv(k, st)
    ensures Inv(k, Delete(st, dead))
  {
    var st' := Delete(st, dead);
    forall a | a in st'.aliases
      ensures HasOwner(k, st'.tlb, a)
    {
      var o :| o in st.tlb && Owns(k, o, a);
      assert o !in dead;
    }
  }

  /** With no entries there are no aliases. */
  lemma NoEntriesNoAliases(k: Config, st: State)
    requires Inv(k, st) && st.tlb == {}
    ensures st.aliases == {}
  {
    assert forall a :: a in st.aliases ==> HasOwner(k, st.tlb, a);
  }

  /** No alias that survives reaches an address of a deleted entry under the identifiers that entry was
      used with. */
  lemma DeletedIsUnreachable(k: Config, st: State, e: Entry, a: Alias, va: nat, sim: SimAsid)
    requires Inv(k, st) && e in st.tlb && a in Delete(st, {e}).aliases
    requires Matches(e, sim.asid) && InRange(e, va)
    ensures !(Live(a, sim) && a.lowVA <= va <= a.highVA)
  {
    var o :| o in st.tlb && Owns(k, o, a);
    assert o != e;
    if Live(a, sim) && a.lowVA <= va <= a.highVA {
      assert Overlap(o, e);
      assert false;
    }
  }

  // ---- Hits ----

  /** The permission of an entry depends on the status bits only through the masked identifier. */
  lemma PrivThroughMask(k: Config, e: Entry, mode: Mode, s1: SimAsid, s2: SimAsid)
    requires mode != M && Masked(s1, EntryMask(e, mode)) == Masked(s2, EntryMask(e, mode))
    ensures EntryPriv(CtxOf(k, s1), mode, e.t.priv, e.t.U) == EntryPriv(CtxOf(k, s2), mode, e.t.priv, e.t.U)
  {
  }

  /** An alias stays live through exactly those changes of the simulated identifier that cannot matter to its entry:
      the address space of a global one, and SUM except for User pages in Supervisor mode. */
  lemma LiveAcross(k: Config, o: Entry, a: Alias, sim: SimAsid, sim': SimAsid)
    requires Owns(k, o, a) && Live(a, sim)
    ensures Live(a, sim') <==>
            (o.t.G || sim'.asid == sim.asid) && sim'.mxr == sim.mxr && (o.t.U && a.mode == S ==> sim'.sum == sim.sum)
  {
  }

  /** The owner of a live alias answers for the current address space, and grants what the alias grants. */
  lemma LiveOwner(k: Config, st: State, o: Entry, a: Alias, acc: Acc, va: nat)
    requires Inv(k, st) && o in st.tlb && Owns(k, o, a) && a.mode != M
    requires Live(a, st.sim) && a.lowVA <= va <= a.highVA && Covers(a.priv, Required(acc))
    ensures Matches(o, st.sim.asid) && InRange(o, va)
    ensures CheckPriv(CtxOf(k, st.sim), a.mode, o.t.priv, o.t.U, acc) != NONE
    ensures acc == W ==> o.t.D
  {
    PrivThroughMask(k, o, a.mode, a.sim, st.sim);
  }

  /** A live alias grants an access only if a walk would allow it now, delivers the walk's address, and the
      walk would not have to write. */
  lemma HitIsWalk(k: Config, st: State, a: Alias, acc: Acc, va: nat)
    requires Inv(k, st) && a in st.aliases && a.mode != M
    requires Live(a, st.sim) && a.lowVA <= va <= a.highVA && Covers(a.priv, Required(acc))
    ensures var w := Walk(st.m, CtxOf(k, st.sim), a.mode, acc, va);
            w.0.Ok? && w.1 == st.m && a.lowPA + (va - a.lowVA) == w.0.t.PA + (va - w.0.t.lowVA)
  {
    assert HasOwner(k, st.tlb, a);
    var o :| o in st.tlb && Owns(k, o, a);
    LiveOwner(k, st, o, a, acc, va);
    WalkOfEntry(k, st.m, o, st.sim, a.mode, acc, va);
  }

  // ---- Misses ----

  /** The alias made for an access: live, covering it, with the walk's address and the entry's permission
      less write permission while the cached dirty bit is clear. */
  ghost predicate MappedFor(k: Config, st: State, t: Translation, mode: Mode, acc: Acc, va: nat) {
    exists a :: a in st.aliases && AliasFor(k, st.sim, a, t, mode, acc, va)
  }

  ghost predicate AliasFor(k: Config, sim: SimAsid, a: Alias, t: Translation, mode: Mode, acc: Acc, va: nat) {
    && a.mode == mode && Live(a, sim) && a.lowVA <= va <= a.highVA == AliasHigh(k, t, va)
    && a.lowPA - a.lowVA == t.PA - t.lowVA
    && Covers(a.priv, Required(acc))
    && a.priv == (var p := EntryPriv(CtxOf(k, sim), mode, t.priv, t.U); if t.D then p else p.(w := false))
  }

  lemma MapMaps(k: Config, st: State, e: Entry, mode: Mode, acc: Acc, va: nat)
    requires EntryInv(k, st.m, e.(sim := st.sim)) && InRange(e, va)
    requires Validate(CtxOf(k, st.sim), mode, e, acc).Usable?
    ensures MappedFor(k, Map(k, st, e, mode, Validate(CtxOf(k, st.sim), mode, e, acc).priv, va), e.t, mode, acc, va)
  {
    var priv := Validate(CtxOf(k, st.sim), mode, e, acc).priv;
    var a := NewAlias(k, Retag(e, st.sim), mode, priv, va, st.sim);
    AliasInside(k, st.m, e.(sim := st.sim), mode, priv, va, st.sim);
    UsablePriv(CtxOf(k, st.sim), mode, e, acc);
    assert AliasFor(k, st.sim, a, e.t, mode, acc, va);
    assert a in Map(k, st, e, mode, priv, va).aliases;
  }

  /** What a miss guarantees. The cached dirty bit may be lower than that of the tables. */
  ghost predicate GoodMiss(k: Config, st: State, r: Result, st': State, mode: Mode, acc: Acc, va: nat) {
    var w := Walk(st.m, CtxOf(k, st.sim), mode, acc, va);
    && SameOutcome(r, w.0) && st'.m == w.1 && st'.sim == st.sim
    && Inv(k, st')
    && (r.Ok? ==> MappedFor(k, st', r.t, mode, acc, va))
  }

  /** The walk after a miss: no entry answers for the address, or the walk faults. */
  lemma ReloadIsWalk(k: Config, st: State, mode: Mode, acc: Acc, va: nat)
    requires Inv(k, st)
    requires Walk(st.m, CtxOf(k, st.sim), mode, acc, va).0.Ok? ==> Found(st, va, None)
    ensures var (r, st') := Reload(k, st, mode, acc, va); GoodMiss(k, st, r, st', mode, acc, va)
  {
    var c := CtxOf(k, st.sim);
    var (w, m') := Walk(st.m, c, mode, acc, va);
    WalkAdvances(st.m, c, mode, acc, va);
    if w.Ok? {
      var e := NewEntry(w.t);
      var st1 := st.(m := m');
      FreshIsUsable(st.m, c, mode, acc, va);
      FreshEntry(k, st.m, st.sim, mode, acc, va);
      InvButFresh(k, st, m', e, va);
      MapInv(k, st1, e, mode, acc, va);
      MapMaps(k, st1, e, mode, acc, va);
    }
  }

  /** Before a fresh entry is mapped, the rest of the state is in order. */
  lemma InvButFresh(k: Config, st: State, m': Tables, e: Entry, va: nat)
    requires Inv(k, st) && Found(st, va, None) && Advances(CtxOf(k, st.sim), st.m, m')
    requires EntryInv(k, m', e.(sim := st.sim)) && InRange(e, va)
    ensures InvBut(k, st.(m := m'), e)
  {
    GlobalsStable(k, st.m, m', st.sim);
    forall f | f in st.tlb
      ensures EntryInv(k, m', f) && !Overlap(e.(sim := st.sim), f)
    {
      EntryInvStable(k, st.m, m', st.sim, f);
      FreshDisjoint(k, m', e.(sim := st.sim), f, va);
    }
  }

  lemma UsableMaps(k: Config, st: State, e: Entry, mode: Mode, acc: Acc, va: nat)
    requires Inv(k, st) && Found(st, va, Some(e)) && Validate(CtxOf(k, st.sim), mode, e, acc).Usable?
    ensures var priv := Validate(CtxOf(k, st.sim), mode, e, acc).priv;
            var st' := Map(k, st.(tlb := st.tlb - {e}), e, mode, priv, va);
            Inv(k, st') && MappedFor(k, st', e.t, mode, acc, va)
  {
    var st1 := st.(tlb := st.tlb - {e});
    InvButTaken(k, st, e);
    RetaggedInv(k, st, e);
    MapInv(k, st1, e, mode, acc, va);
    MapMaps(k, st1, e, mode, acc, va);
  }

  lemma UsableIsWalk(k: Config, st: State, e: Entry, mode: Mode, acc: Acc, va: nat)
    requires Inv(k, st) && Found(st, va, Some(e)) && Validate(CtxOf(k, st.sim), mode, e, acc).Usable?
    ensures var w := Walk(st.m, CtxOf(k, st.sim), mode, acc, va); SameOutcome(Ok(e.t), w.0) && w.1 == st.m
  {
    WalkOfEntry(k, st.m, e, st.sim, mode, acc, va);
    var w := Walk(st.m, CtxOf(k, st.sim), mode, acc, va);
    DirtyIsHigher(k, st.m, e, st.sim, mode, acc, va);
  }

  /** The walk sees at least the dirty bit of the entry. */
  lemma DirtyIsHigher(k: Config, m: Tables, e: Entry, sim: SimAsid, mode: Mode, acc: Acc, va: nat)
    requires GlobalsAgree(k, m) && EntryInv(k, m, e) && Legal(k, sim.asid) && Matches(e, sim.asid) && InRange(e, va)
    ensures var r := Walk(m, CtxOf(k, sim), mode, acc, va).0; r.Ok? && e.t.D ==> r.t.D
  {
    EntryLeaf(k, m, e, sim.asid, va);
    LeafIgnoresStatus(k, m, sim, va);
  }

  lemma GoodMissParts(k: Config, st: State, r: Result, st': State, mode: Mode, acc: Acc, va: nat)
    requires var w := Walk(st.m, CtxOf(k, st.sim), mode, acc, va); SameOutcome(r, w.0) && st'.m == w.1
    requires st'.sim == st.sim && Inv(k, st') && (r.Ok? ==> MappedFor(k, st', r.t, mode, acc, va))
    ensures GoodMiss(k, st, r, st', mode, acc, va)
  {
  }

  lemma UsableIsGood(k: Config, st: State, e: Entry, mode: Mode, acc: Acc, va: nat)
    requires Inv(k, st) && Found(st, va, Some(e)) && Validate(CtxOf(k, st.sim), mode, e, acc).Usable?
    ensures var priv := Validate(CtxOf(k, st.sim), mode, e, acc).priv;
            GoodMiss(k, st, Ok(e.t), Map(k, st.(tlb := st.tlb - {e}), e, mode, priv, va), mode, acc, va)
  {
    var priv := Validate(CtxOf(k, st.sim), mode, e, acc).priv;
    UsableIsWalk(k, st, e, mode, acc, va);
    UsableMaps(k, st, e, mode, acc, va);
    GoodMissParts(k, st, Ok(e.t), Map(k, st.(tlb := st.tlb - {e}), e, mode, priv, va), mode, acc, va);
  }

  /** A usable cached entry. */
  lemma EntryHitIsWalk(k: Config, st: State, e: Entry, mode: Mode, acc: Acc, va: nat)
    requires Inv(k, st) && Found(st, va, Some(e)) && Validate(CtxOf(k, st.sim), mode, e, acc).Usable?
    ensures var (r, st') := Miss(k, st, Some(e), mode, acc, va); GoodMiss(k, st, r, st', mode, acc, va)
  {
    UsableIsGood(k, st, e, mode, acc, va);
    var priv := Validate(CtxOf(k, st.sim), mode, e, acc).priv;
    assert Miss(k, st, Some(e), mode, acc, va) == (Ok(e.t), Map(k, st.(tlb := st.tlb - {e}), e, mode, priv, va)) by {
      MissOfUsable(k, st, e, mode, acc, va);
    }
  }

  lemma MissOfUsable(k: Config, st: State, e: Entry, mode: Mode, acc: Acc, va: nat)
    requires Validate(CtxOf(k, st.sim), mode, e, acc).Usable?
    ensures var priv := Validate(CtxOf(k, st.sim), mode, e, acc).priv;
            Miss(k, st, Some(e), mode, acc, va) == (Ok(e.t), Map(k, st.(tlb := st.tlb - {e}), e, mode, priv, va))
  {
  }

  lemma RetaggedInv(k: Config, st: State, e: Entry)
    requires Inv(k, st) && e in st.tlb && Matches(e, st.sim.asid)
    ensures EntryInv(k, st.m, e.(sim := st.sim))
  {
    EntryLeaf(k, st.m, e, st.sim.asid, e.t.lowVA);
  }

  lemma InvButTaken(k: Config, st: State, e: Entry)
    requires Inv(k, st) && e in st.tlb && Matches(e, st.sim.asid)
    ensures InvBut(k, st.(tlb := st.tlb - {e}), e)
  {
    forall f | f in st.tlb - {e}
      ensures !Overlap(e.(sim := st.sim), f)
    {
      assert !Overlap(e, f);
    }
    TakenOwners(k, st, e);
  }

  lemma TakenOwners(k: Config, st: State, e: Entry)
    requires (forall a :: a in st.aliases ==> HasOwner(k, st.tlb, a)) && e in st.tlb
    ensures forall a :: a in st.aliases ==> Owns(k, e, a) || HasOwner(k, st.tlb - {e}, a)
  {
    forall a | a in st.aliases
      ensures Owns(k, e, a) || HasOwner(k, st.tlb - {e}, a)
    {
      var o :| o in st.tlb && Owns(k, o, a);
      assert o == e || o in st.tlb - {e};
    }
  }

  /** A miss has the outcome and the memory effect of a fresh walk, and leaves an alias for the access. */
  lemma MissIsWalk(k: Config, st: State, found: Option<Entry>, mode: Mode, acc: Acc, va: nat)
    requires Inv(k, st) && Found(st, va, found)
    ensures var (r, st') := Miss(k, st, found, mode, acc, va); GoodMiss(k, st, r, st', mode, acc, va)
  {
    match found
    case None => ReloadIsWalk(k, st, mode, acc, va);
    case Some(e) =>
      match Validate(CtxOf(k, st.sim), mode, e, acc)
      case Inadequate =>
        WalkOfEntry(k, st.m, e, st.sim, mode, acc, va);
        ReloadIsWalk(k, st, mode, acc, va);
      case Stale =>
        DeleteInv(k, st, {e});
        OnlyOneFound(k, st, e, va);
        ReloadIsWalk(k, Delete(st, {e}), mode, acc, va);
      case Usable(_) => EntryHitIsWalk(k, st, e, mode, acc, va);
  }

  /** At most one entry answers for an address. */
  lemma OnlyOneFound(k: Config, st: State, e: Entry, va: nat)
    requires Inv(k, st) && Found(st, va, Some(e))
    ensures Found(Delete(st, {e}), va, None)
  {
    forall f | f in st.tlb && InRange(f, va) && Matches(f, st.sim.asid)
      ensures f == e
    {
      assert Overlap(e, f);
    }
  }

  // ---- Fences ----

  /** A fence of [low, high] reaches address va of space i, for a leaf that is global or not: a fence with an
      identifier spares global leaves and other spaces. */
  predicate FenceReaches(k: Config, low: nat, high: nat, any: bool, asid: nat, i: nat, va: nat, global: bool) {
    low <= va <= high && (any || k.noAsid || (i == asid && !global))
  }

  /** A fence deletes exactly the entries that answer for an address it reaches. */
  lemma FenceIsExact(k: Config, st: State, low: nat, high: nat, any: bool, asid: nat, e: Entry)
    requires low <= high && e.t.lowVA <= e.t.highVA
    ensures e in Fence(k, st, low, high, any, asid).tlb <==>
            e in st.tlb && forall va :: InRange(e, va) ==> !FenceReaches(k, low, high, any, asid, e.sim.asid, va, e.t.G)
  {
    if Fenced(k, e, low, high, any, asid) {
      var va := if e.t.lowVA >= low then e.t.lowVA else low;
      assert InRange(e, va) && FenceReaches(k, low, high, any, asid, e.sim.asid, va, e.t.G);
    }
  }

  /** The aliases that are left are exactly those of the entries that are left. */
  lemma FenceKeepsAliases(k: Config, st: State, low: nat, high: nat, any: bool, asid: nat, a: Alias)
    requires Inv(k, st) && a in st.aliases && a.lowVA <= a.highVA
    ensures var st' := Fence(k, st, low, high, any, asid); a in st'.aliases <==> HasOwner(k, st'.tlb, a)
  {
    var dead := set e | e in st.tlb && Fenced(k, e, low, high, any, asid);
    DeleteInv(k, st, dead);
    if HasOwner(k, Delete(st, dead).tlb, a) {
      var o :| o in Delete(st, dead).tlb && Owns(k, o, a);
      forall e | e in dead
        ensures !Unaliased(e, a)
      {
        if Unaliased(e, a) {
          BothOwn(o, e, a);
        }
      }
    }
  }

  /** After a fence for all address spaces neither an entry nor an alias answers for an address of its range, under
      any identifier. */
  lemma FenceIsEffective(k: Config, st: State, low: nat, high: nat, asid: nat, va: nat, sim: SimAsid)
    requires Inv(k, st) && low <= va <= high
    ensures var st' := Fence(k, st, low, high, true, asid);
            && Found(st'.(sim := sim), va, None)
            && forall a :: a in st'.aliases ==> !(a.lowVA <= va <= a.highVA)
  {
    var dead := set e | e in st.tlb && Fenced(k, e, low, high, true, asid);
    DeleteInv(k, st, dead);
    forall a | a in Delete(st, dead).aliases
      ensures !(a.lowVA <= va <= a.highVA)
    {
      var o :| o in Delete(st, dead).tlb && Owns(k, o, a);
      assert o !in dead;
    }
  }

  /** After a fence for one address space only global entries and their aliases still answer from there for an
      address of its range, and with no identifiers implemented nothing does. */
  lemma AsidFenceIsEffective(k: Config, st: State, low: nat, high: nat, asid: nat, va: nat, sim: SimAsid)
    requires Inv(k, st) && low <= va <= high && sim.asid == asid
    ensures var st' := Fence(k, st, low, high, false, asid);
            && (forall e :: Found(st'.(sim := sim), va, Some(e)) ==> !k.noAsid && e.t.G)
            && forall a :: a in st'.aliases && Live(a, sim) && a.lowVA <= va <= a.highVA ==>
                 !k.noAsid && exists o :: o in st'.tlb && Owns(k, o, a) && o.t.G
  {
    var dead := set e | e in st.tlb && Fenced(k, e, low, high, false, asid);
    DeleteInv(k, st, dead);
    forall a | a in Delete(st, dead).aliases && Live(a, sim) && a.lowVA <= va <= a.highVA
      ensures !k.noAsid && exists o :: o in Delete(st, dead).tlb && Owns(k, o, a) && o.t.G
    {
      var o :| o in Delete(st, dead).tlb && Owns(k, o, a);
      assert o !in dead;
    }
  }

  /** The fence reaches the block of a leaf around va, so it deletes whatever entry was made from the leaf. */
  ghost predicate ReachesLeaf(k: Config, low: nat, high: nat, any: bool, asid: nat, i: nat, va: nat, l: Lookup)
    requires l.Leaf?
  {
    var b := PageBits(k.scheme, l.level);
    && Floor(va, b) <= high && low < Floor(va, b) + Pow2(b)
    && (any || k.noAsid || (i == asid && !l.pte.G))
  }

  /** The tables change from m to m' only where the fence reaches: every leaf of m that it does not reach is still
      the leaf of its addresses. Addresses without a leaf may get one, fenced or not. */
  ghost predicate Confined(k: Config, m: Tables, m': Tables, low: nat, high: nat, any: bool, asid: nat) {
    forall i, va :: Legal(k, i) && ValidVA(k.scheme, va) && SpaceLeaf(k, m, i, va).Leaf?
                    && !ReachesLeaf(k, low, high, any, asid, i, va, SpaceLeaf(k, m, i, va))
      ==> SpaceLeaf(k, m', i, va) == SpaceLeaf(k, m, i, va)
  }

  /** An entry that the fence leaves is correct for the new tables. */
  lemma UnfencedStays(k: Config, m: Tables, m': Tables, low: nat, high: nat, any: bool, asid: nat, e: Entry)
    requires EntryInv(k, m, e) && Confined(k, m, m', low, high, any, asid) && !Fenced(k, e, low, high, any, asid)
    ensures EntryInv(k, m', e)
  {
    var l := SpaceLeaf(k, m, e.sim.asid, e.t.lowVA);
    var b := PageBits(k.scheme, l.level);
    assert e.t.lowVA == Floor(e.t.lowVA, b) && e.t.highVA == e.t.lowVA + Pow2(b) - 1 && (e.t.G <==> l.pte.G || k.noAsid);
    assert SpaceLeaf(k, m', e.sim.asid, e.t.lowVA) == l;
  }

  /** A change of the tables followed by a fence that reaches all of it leaves every cached translation correct for
      the new tables. */
  lemma FencedChange(k: Config, st: State, m': Tables, low: nat, high: nat, any: bool, asid: nat)
    requires Inv(k, st) && GlobalsAgree(k, m') && Confined(k, st.m, m', low, high, any, asid)
    ensures Inv(k, Fence(k, st.(m := m'), low, high, any, asid))
  {
    var dead := set e | e in st.tlb && Fenced(k, e, low, high, any, asid);
    DeleteInv(k, st, dead);
    var st' := Delete(st, dead).(m := m');
    assert st' == Fence(k, st.(m := m'), low, high, any, asid);
    forall e | e in st'.tlb
      ensures EntryInv(k, m', e)
    {
      UnfencedStays(k, st.m, m', low, high, any, asid, e);
    }
  }

  /** The last address of the largest address space (RISCV_MAX_ADDR). */
  const MAX_ADDR: nat := WORD - 1

  lemma {:induction false} ShrBound(x: nat, k: nat, j: nat)
    requires Shr(x, k) < Pow2(j)
    ensures x < Pow2(k + j)
  {
    if k > 0 {
      ShrBound(x / 2, k - 1, j);
    }
  }

  lemma ValidIsBelow(sc: Scheme, va: nat)
    requires ValidVA(sc, va)
    ensures va <= MAX_ADDR
  {
    var n := VaBits(sc);
    ShrBound(va, n, 64 - n);
    WordIsPow2();
  }

  /** A fence of all addresses for all address spaces reaches every change of the tables. */
  lemma FullFenceReaches(k: Config, m: Tables, m': Tables, asid: nat)
    ensures Confined(k, m, m', 0, MAX_ADDR, true, asid)
  {
    forall i, va | Legal(k, i) && ValidVA(k.scheme, va) && SpaceLeaf(k, m, i, va).Leaf?
      ensures ReachesLeaf(k, 0, MAX_ADDR, true, asid, i, va, SpaceLeaf(k, m, i, va))
    {
      ValidIsBelow(k.scheme, va);
    }
  }

  /** A fence of one address for all address spaces reaches a change of the leaf of that address, of whatever size its
      page is, in one address space. */
  lemma OneFenceReaches(k: Config, m: Tables, m': Tables, asid: nat, va: nat)
    requires forall i, x :: Legal(k, i) && SpaceLeaf(k, m, i, x).Leaf?
                            && !InBlock(k.scheme, va, x, SpaceLeaf(k, m, i, x).level)
               ==> SpaceLeaf(k, m', i, x) == SpaceLeaf(k, m, i, x)
    ensures Confined(k, m, m', va, va, true, asid)
  {
    forall i, x | Legal(k, i) && SpaceLeaf(k, m, i, x).Leaf? && InBlock(k.scheme, va, x, SpaceLeaf(k, m, i, x).level)
      ensures ReachesLeaf(k, va, va, true, asid, i, x, SpaceLeaf(k, m, i, x))
    {
      SameBlock(x, va, PageBits(k.scheme, SpaceLeaf(k, m, i, x).level));
    }
  }

  // ---- Accesses to several pages ----

  /** A miss takes no alias that can serve the same kind of access. */
  lemma MissKeepsAlias(k: Config, st: State, found: Option<Entry>, mode: Mode, acc: Acc, va: nat, a: Alias)
    requires Inv(k, st) && Found(st, va, found)
    requires a in st.aliases && Live(a, st.sim) && Covers(a.priv, Required(acc)) && a.lowVA <= a.highVA
    ensures a in Miss(k, st, found, mode, acc, va).1.aliases
  {
    match found
    case None => ReloadKeepsAlias(k, st, mode, acc, va, a);
    case Some(e) =>
      if Validate(CtxOf(k, st.sim), mode, e, acc).Stale? {
        StaleOwnsNone(k, st, e, acc, a);
      }
      FoundKeepsAlias(k, st, e, mode, acc, va, a);
  }

  lemma FoundKeepsAlias(k: Config, st: State, e: Entry, mode: Mode, acc: Acc, va: nat, a: Alias)
    requires a in st.aliases && Live(a, st.sim)
    requires Validate(CtxOf(k, st.sim), mode, e, acc).Stale? ==> a in Delete(st, {e}).aliases
    ensures a in Miss(k, st, Some(e), mode, acc, va).1.aliases
  {
    match Validate(CtxOf(k, st.sim), mode, e, acc)
    case Inadequate => ReloadKeepsAlias(k, st, mode, acc, va, a);
    case Stale => ReloadKeepsAlias(k, Delete(st, {e}), mode, acc, va, a);
    case Usable(priv) => MapKeepsAlias(k, st.(tlb := st.tlb - {e}), e, mode, priv, va, a);
  }

  lemma MapKeepsAlias(k: Config, st: State, e: Entry, mode: Mode, priv: Priv, va: nat, a: Alias)
    requires a in st.aliases && Live(a, st.sim)
    ensures a in Map(k, st, e, mode, priv, va).aliases
  {
    LiveIsKept(st, e, a);
  }

  /** Retagging an entry removes no live alias. */
  lemma LiveIsKept(st: State, e: Entry, a: Alias)
    requires a in st.aliases && Live(a, st.sim)
    ensures a in Unalias(st.aliases, e, Changed(e, st.sim))
  {
  }

  lemma ReloadKeepsAlias(k: Config, st: State, mode: Mode, acc: Acc, va: nat, a: Alias)
    requires a in st.aliases && Live(a, st.sim)
    ensures a in Reload(k, st, mode, acc, va).1.aliases
  {
    var c := CtxOf(k, st.sim);
    var (r, m') := Walk(st.m, c, mode, acc, va);
    if r.Ok? {
      FreshIsUsable(st.m, c, mode, acc, va);
      MapKeepsAlias(k, st.(m := m'), NewEntry(r.t), mode, Validate(c, mode, NewEntry(r.t), acc).priv, va, a);
    }
  }

  /** An entry that must be reloaded for a write has no alias that allows writing. */
  lemma StaleOwnsNone(k: Config, st: State, e: Entry, acc: Acc, a: Alias)
    requires Inv(k, st) && e in st.tlb && acc == W && !e.t.D
    requires a in st.aliases && Covers(a.priv, Required(acc)) && a.lowVA <= a.highVA
    ensures a in Delete(st, {e}).aliases
  {
    var o :| o in st.tlb && Owns(k, o, a);
    if Unaliased(e, a) {
      BothOwn(o, e, a);
      assert false;
    }
  }

  lemma BothOwn(o: Entry, e: Entry, a: Alias)
    requires Unaliased(o, a) && Unaliased(e, a) && a.lowVA <= a.highVA
    ensures Overlap(o, e)
  {
  }

  /** A live alias serves the access. */
  ghost predicate Served(st: State, mode: Mode, acc: Acc, va: nat) {
    exists a :: a in st.aliases && Serves(st.sim, a, mode, acc, va)
  }

  ghost predicate Serves(sim: SimAsid, a: Alias, mode: Mode, acc: Acc, va: nat) {
    a.mode == mode && Live(a, sim) && a.lowVA <= va <= a.highVA && Covers(a.priv, Required(acc))
  }

  /** A miss goes on serving what was served. */
  lemma MissKeepsServed(k: Config, st: State, found: Option<Entry>, mode: Mode, acc: Acc, va: nat, va': nat)
    requires Inv(k, st) && Found(st, va, found) && Served(st, mode, acc, va')
    ensures Served(Miss(k, st, found, mode, acc, va).1, mode, acc, va')
  {
    var a :| a in st.aliases && Serves(st.sim, a, mode, acc, va');
    MissKeepsAlias(k, st, found, mode, acc, va, a);
    MissIsWalk(k, st, found, mode, acc, va);
  }

  /** One turn of the loop over the pages of an access. */
  lemma MissServesMore(k: Config, st: State, found: Option<Entry>, mode: Mode, acc: Acc, low: nat, va: nat)
    requires Inv(k, st) && Found(st, va, found) && Miss(k, st, found, mode, acc, va).0.Ok?
    requires forall x :: low <= x < va ==> Served(st, mode, acc, x)
    ensures var (r, st') := Miss(k, st, found, mode, acc, va);
            var high := AliasHigh(k, r.t, va);
            va <= high && forall x :: low <= x <= high ==> Served(st', mode, acc, x)
  {
    var (r, st') := Miss(k, st, found, mode, acc, va);
    MissIsWalk(k, st, found, mode, acc, va);
    var a :| a in st'.aliases && AliasFor(k, st'.sim, a, r.t, mode, acc, va);
    forall x | low <= x <= AliasHigh(k, r.t, va)
      ensures Served(st', mode, acc, x)
    {
      if x < va {
        MissKeepsServed(k, st, found, mode, acc, va, x);
      } else {
        assert Serves(st'.sim, a, mode, acc, x);
      }
    }
  }

  /** An address that is served after table updates could be translated before them. */
  lemma ServedTranslates(k: Config, m: Tables, st: State, mode: Mode, acc: Acc, va: nat)
    requires Inv(k, st) && Advances(CtxOf(k, st.sim), m, st.m) && mode != M && Served(st, mode, acc, va)
    ensures Walk(m, CtxOf(k, st.sim), mode, acc, va).0.Ok?
  {
    var a :| a in st.aliases && Serves(st.sim, a, mode, acc, va);
    HitIsWalk(k, st, a, acc, va);
    OutcomeIsStable(m, st.m, CtxOf(k, st.sim), mode, acc, va);
  }
}

/** TLB transparency: through any sequence of accesses, status changes, address space switches and
    fences, the TLB and its aliases answer every access as a fresh page-table walk would. */
module TlbCoherence {
  import opened Access
  import opened Bits
  import opened PageWalk
  import opened WalkProperties
  import opened Tlb

  // ---- Address spaces ----

  /** An address space in use; without implemented ASID bits the only identifier is zero. */
  predicate Legal(k: Config, asid: nat) {
    asid in k.spaces && (k.noAsid ==> asid == 0)
  }

  /** The context of an address space; permission bits play no part in finding a leaf. */
  function Space(k: Config, asid: nat): Ctx {
    CtxOf(k, SimAsid(asid, false, false))
  }

  function SpaceLeaf(k: Config, m: Tables, asid: nat, va: nat): Lookup {
    LeafFor(m, Space(k, asid), va)
  }

  /** The meaning of the global bit, which software must respect: a leaf marked global is the leaf of
      its addresses in every address space. */
  ghost predicate GlobalsAgree(k: Config, m: Tables) {
    forall i, j, va :: (Legal(k, i) && Legal(k, j) && SpaceLeaf(k, m, i, va).Leaf? && SpaceLeaf(k, m, i, va).pte.G)
      ==> SpaceLeaf(k, m, j, va) == SpaceLeaf(k, m, i, va)
  }

  /** In a single address space this asks nothing of the software. */
  lemma OneSpaceAgrees(k: Config, m: Tables, asid: nat)
    requires k.spaces == {asid}
    ensures GlobalsAgree(k, m)
  {
  }

  // ---- Entry invariant ----

  /** t is what a walk that ends in leaf l returns, up to a dirty bit that may have been raised since. */
  ghost predicate FromLeaf(k: Config, t: Translation, l: Lookup, asid: nat) {
    && l.Leaf?
    && l.level < Levels(k.scheme)
    && l.pte.A
    && Low(l.pte.PPN * 4096, PageBits(k.scheme, l.level)) == 0
    && t == MakeTranslation(Space(k, asid), t.lowVA, l.pte, l.level).(D := t.D)
    && (t.D ==> l.pte.D)
  }

  /** A cached entry is the translation of its addresses in its address space. */
  ghost predicate EntryInv(k: Config, m: Tables, e: Entry) {
    && Legal(k, e.sim.asid)
    && ValidVA(k.scheme, e.t.lowVA)
    && FromLeaf(k, e.t, SpaceLeaf(k, m, e.sim.asid, e.t.lowVA), e.sim.asid)
  }

  ghost predicate Overlap(e: Entry, f: Entry) {
    && (e.t.G || f.t.G || e.sim.asid == f.sim.asid)
    && e.t.lowVA <= f.t.highVA && f.t.lowVA <= e.t.highVA
  }

  ghost predicate Separate(tlb: set<Entry>) {
    forall e, f :: e in tlb && f in tlb && Overlap(e, f) ==> e == f
  }

  // ---- Alias invariant ----

  /** a is an alias of entry e that grants no more than e does under a's own permission bits. */
  ghost predicate Owns(k: Config, e: Entry, a: Alias) {
    && Unaliased(e, a)
    && a.lowPA - a.lowVA == e.t.PA - e.t.lowVA
    && Covers(EntryPriv(CtxOf(k, a.sim), a.mode, e.t.priv, e.t.U), a.priv)
    && (a.priv.w ==> e.t.D)
  }

  ghost predicate HasOwner(k: Config, tlb: set<Entry>, a: Alias) {
    exists e :: e in tlb && Owns(k, e, a)
  }

  ghost predicate Inv(k: Config, st: State) {
    && Legal(k, st.sim.asid)
    && GlobalsAgree(k, st.m)
    && (forall e :: e in st.tlb ==> EntryInv(k, st.m, e))
    && Separate(st.tlb)
    && (forall a :: a in st.aliases ==> HasOwner(k, st.tlb, a))
  }

  // ---- The walk by way of a cached entry ----

  /** Finding a leaf does not depend on the permission bits. */
  lemma LeafIgnoresStatus(k: Config, m: Tables, sim: SimAsid, va: nat)
    ensures LeafFor(m, CtxOf(k, sim), va) == SpaceLeaf(k, m, sim.asid, va)
  {
  }

  /** Every address an entry covers, in every address space it matches, has the entry's leaf. */
  lemma EntryLeaf(k: Config, m: Tables, e: Entry, asid: nat, va: nat)
    requires GlobalsAgree(k, m) && EntryInv(k, m, e) && Legal(k, asid) && Matches(e, asid) && InRange(e, va)
    ensures SpaceLeaf(k, m, asid, va) == SpaceLeaf(k, m, e.sim.asid, e.t.lowVA)
    ensures InBlock(k.scheme, e.t.lowVA, va, SpaceLeaf(k, m, asid, va).level)
    ensures ValidVA(k.scheme, va)
  {
    var l := SpaceLeaf(k, m, e.sim.asid, e.t.lowVA);
    SameBlock(e.t.lowVA, va, PageBits(k.scheme, l.level));
    LeafOfBlock(m, k.scheme, e.t.lowVA, va, k.roots(e.sim.asid) * 4096);
    assert SpaceLeaf(k, m, e.sim.asid, va) == l;
    assert SpaceLeaf(k, m, asid, va) == l;
    ValidVAOfBlock(k.scheme, e.t.lowVA, va, l.level);
  }

  /** A covered address of an entry walks to that entry: it faults on permission, or succeeds without a
      write when no dirty bit is missing. */
  lemma WalkOfEntry(k: Config, m: Tables, e: Entry, sim: SimAsid, mode: Mode, acc: Acc, va: nat)
    requires GlobalsAgree(k, m) && EntryInv(k, m, e) && Legal(k, sim.asid) && Matches(e, sim.asid) && InRange(e, va)
    ensures var c := CtxOf(k, sim);
            var w := Walk(m, c, mode, acc, va);
            if CheckPriv(c, mode, e.t.priv, e.t.U, acc) == NONE then w == (Fault(PRIV), m)
            else (acc == W ==> e.t.D) ==> w.0.Ok? && w.1 == m && e.t == w.0.t.(D := e.t.D)
  {
    EntryLeaf(k, m, e, sim.asid, va);
    LeafIgnoresStatus(k, m, sim, va);
    var l := SpaceLeaf(k, m, sim.asid, va);
    SameBlock(e.t.lowVA, va, PageBits(k.scheme, l.level));
    assert Walk(m, CtxOf(k, sim), mode, acc, va) == Finish(m, CtxOf(k, sim), mode, acc, va, l.addr, l.pte, l.level) by {
      WalkOfLeaf(m, CtxOf(k, sim), mode, acc, va, l);
    }
    FinishOfEntry(k, m, e.t, l, sim, mode, acc, va);
  }

  lemma FinishOfEntry(k: Config, m: Tables, t: Translation, l: Lookup, sim: SimAsid, mode: Mode, acc: Acc, va: nat)
    requires FromLeaf(k, t, l, sim.asid) && Floor(va, PageBits(k.scheme, l.level)) == t.lowVA
    ensures var c := CtxOf(k, sim);
            var w := Finish(m, c, mode, acc, va, l.addr, l.pte, l.level);
            if CheckPriv(c, mode, t.priv, t.U, acc) == NONE then w == (Fault(PRIV), m)
            else (acc == W ==> t.D) ==> w.0.Ok? && w.1 == m && t == w.0.t.(D := t.D)
  {
    var c := CtxOf(k, sim);
    if CheckPriv(c, mode, t.priv, t.U, acc) != NONE && (acc == W ==> t.D) {
      UpToDate(m, c, mode, acc, va, l.addr, l.pte, l.level);
    }
  }

  /** A leaf whose accessed and dirty bits need no update. */
  lemma UpToDate(m: Tables, c: Ctx, mode: Mode, acc: Acc, va: nat, addr: nat, p: Pte, level: nat)
    requires Low(p.PPN * 4096, PageBits(c.scheme, level)) == 0 && p.A && (acc == W ==> p.D)
    requires CheckPriv(c, mode, p.priv, p.U, acc) != NONE
    ensures Finish(m, c, mode, acc, va, addr, p, level) == (Ok(MakeTranslation(c, va, p, level)), m)
  {
    assert p.(A := true, D := p.D || acc == W) == p;
  }

  // ---- Table updates by the walker ----

  lemma SpaceLeafStable(k: Config, m: Tables, m': Tables, sim: SimAsid, asid: nat, va: nat)
    requires Advances(CtxOf(k, sim), m, m')
    ensures var l, l' := SpaceLeaf(k, m, asid, va), SpaceLeaf(k, m', asid, va);
            if l.Leaf? then l'.Leaf? && l'.level == l.level && l'.pte == l.pte.(A := l'.pte.A, D := l'.pte.D)
                            && (l.pte.A ==> l'.pte.A) && (l.pte.D ==> l'.pte.D) && l'.addr == l.addr
            else l' == l
  {
    var c := Space(k, asid);
    FindLeafAdvances(CtxOf(k, sim), m, m', k.scheme, Vpns(k.scheme, va), Levels(k.scheme), c.root * 4096);
    LeafLevel(m, k.scheme, Vpns(k.scheme, va), Levels(k.scheme), c.root * 4096);
    var l := SpaceLeaf(k, m, asid, va);
    if l.Leaf? {
      assert Raised(CtxOf(k, sim), l.addr in m.writable, m.pte[l.addr], m'.pte[l.addr]);
    }
  }

  lemma EntryInvStable(k: Config, m: Tables, m': Tables, sim: SimAsid, e: Entry)
    requires Advances(CtxOf(k, sim), m, m') && EntryInv(k, m, e)
    ensures EntryInv(k, m', e)
  {
    SpaceLeafStable(k, m, m', sim, e.sim.asid, e.t.lowVA);
  }

  lemma GlobalsStable(k: Config, m: Tables, m': Tables, sim: SimAsid)
    requires Advances(CtxOf(k, sim), m, m') && GlobalsAgree(k, m)
    ensures GlobalsAgree(k, m')
  {
    forall i, j, va | Legal(k, i) && Legal(k, j) && SpaceLeaf(k, m', i, va).Leaf? && SpaceLeaf(k, m', i, va).pte.G
      ensures SpaceLeaf(k, m', j, va) == SpaceLeaf(k, m', i, va)
    {
      SameLeafStable(k, m, m', sim, i, j, va);
    }
  }

  lemma SameLeafStable(k: Config, m: Tables, m': Tables, sim: SimAsid, i: nat, j: nat, va: nat)
    requires Advances(CtxOf(k, sim), m, m') && GlobalsAgree(k, m) && Legal(k, i) && Legal(k, j)
    requires SpaceLeaf(k, m', i, va).Leaf? && SpaceLeaf(k, m', i, va).pte.G
    ensures SpaceLeaf(k, m', j, va) == SpaceLeaf(k, m', i, va)
  {
    SpaceLeafStable(k, m, m', sim, i, va);
    SpaceLeafStable(k, m, m', sim, j, va);
    assert SpaceLeaf(k, m, j, va) == SpaceLeaf(k, m, i, va);
    LeafLevel(m', k.scheme, Vpns(k.scheme, va), Levels(k.scheme), k.roots(i) * 4096);
    LeafLevel(m', k.scheme, Vpns(k.scheme, va), Levels(k.scheme), k.roots(j) * 4096);
  }

  // ---- New entries ----

  /** A successful walk yields an entry that satisfies the invariant and covers the address. */
  lemma FreshEntry(k: Config, m: Tables, sim: SimAsid, mode: Mode, acc: Acc, va: nat)
    requires Legal(k, sim.asid) && Walk(m, CtxOf(k, sim), mode, acc, va).0.Ok?
    ensures var (r, m') := Walk(m, CtxOf(k, sim), mode, acc, va);
            var e := NewEntry(r.t).(sim := sim);
            EntryInv(k, m', e) && InRange(e, va)
  {
    var c := CtxOf(k, sim);
    var (r, m') := Walk(m, c, mode, acc, va);
    var e := NewEntry(r.t).(sim := sim);
    WalkAgain(m, c, mode, acc, va);
    LeafIgnoresStatus(k, m', sim, va);
    LeafLevel(m', k.scheme, Vpns(k.scheme, va), Levels(k.scheme), c.root * 4096);
    var l := SpaceLeaf(k, m', sim.asid, va);
    FreshFromLeaf(k, m', l, sim, mode, acc, va);
    SameBlock(va, e.t.lowVA, PageBits(k.scheme, l.level));
    LeafOfBlock(m', k.scheme, va, e.t.lowVA, c.root * 4096);
    ValidVAOfBlock(k.scheme, va, e.t.lowVA, l.level);
  }

  lemma FreshFromLeaf(k: Config, m: Tables, l: Lookup, sim: SimAsid, mode: Mode, acc: Acc, va: nat)
    requires l.Leaf? && l.level < Levels(k.scheme) && l.addr in m.pte && m.pte[l.addr] == l.pte
    requires var w := Finish(m, CtxOf(k, sim), mode, acc, va, l.addr, l.pte, l.level); w.0.Ok? && w.1 == m
    ensures var t := Finish(m, CtxOf(k, sim), mode, acc, va, l.addr, l.pte, l.level).0.t;
            FromLeaf(k, t, l, sim.asid) && t.lowVA == Floor(va, PageBits(k.scheme, l.level)) && t.lowVA <= va <= t.highVA
  {
    LowOfFloor(va, PageBits(k.scheme, l.level));
  }

  /** A fresh translation overlaps no cached entry, unless one of them already answers for the address. */
  lemma FreshDisjoint(k: Config, m: Tables, e: Entry, f: Entry, va: nat)
    requires GlobalsAgree(k, m) && EntryInv(k, m, e) && EntryInv(k, m, f)
    requires InRange(e, va) && !(InRange(f, va) && Matches(f, e.sim.asid))
    ensures !Overlap(e, f)
  {
    if Overlap(e, f) {
      var x := if e.t.lowVA >= f.t.lowVA then e.t.lowVA else f.t.lowVA;
      var asid := if Matches(f, e.sim.asid) then e.sim.asid else f.sim.asid;
      EntryLeaf(k, m, e, asid, x);
      EntryLeaf(k, m, f, asid, x);
      var l := SpaceLeaf(k, m, asid, x);
      SameBlock(e.t.lowVA, va, PageBits(k.scheme, l.level));
      SameBlock(f.t.lowVA, va, PageBits(k.scheme, l.level));
      assert false;
    }
  }

  // ---- Mapping an entry ----

  /** A window of a large entry lies inside it. */
  lemma AliasInside(k: Config, m: Tables, e: Entry, mode: Mode, priv: Priv, va: nat, sim: SimAsid)
    requires EntryInv(k, m, e) && InRange(e, va)
    ensures var a := NewAlias(k, e, mode, priv, va, sim);
            && e.t.lowVA <= a.lowVA <= va <= a.highVA <= e.t.highVA && a.lowPA - a.lowVA == e.t.PA - e.t.lowVA
            && var size, most := e.t.highVA + 1 - e.t.lowVA, Pow2(k.aliasBits);
               a.highVA + 1 - a.lowVA == if size <= most then size else most
  {
    var l := SpaceLeaf(k, m, e.sim.asid, e.t.lowVA);
    var n := PageBits(k.scheme, l.level);
    assert e.t.highVA == e.t.lowVA + Pow2(n) - 1 && Floor(e.t.lowVA, n) == e.t.lowVA;
    AliasRange(k, e.t, va, n);
  }

  lemma AliasRange(k: Config, t: Translation, va: nat, n: nat)
    requires t.highVA == t.lowVA + Pow2(n) - 1 && Floor(t.lowVA, n) == t.lowVA && t.lowVA <= va <= t.highVA
    ensures t.lowVA <= AliasLow(k, t, va) <= va <= AliasHigh(k, t, va) <= t.highVA
  {
    WindowFits(t.lowVA, va - t.lowVA, n, k.aliasBits);
  }

  lemma WindowFits(low: nat, y: nat, n: nat, b: nat)
    requires Floor(low, n) == low && y < Pow2(n)
    ensures Pow2(n) > Pow2(b) ==> low <= Floor(low + y, b) <= low + y < Floor(low + y, b) + Pow2(b) <= low + Pow2(n)
  {
    if n <= b {
      Pow2Mono(n, b);
    } else {
      WindowInside(low, y, n, b);
    }
  }

  lemma WindowInside(low: nat, y: nat, n: nat, b: nat)
    requires b <= n && Low(low, n) == 0 && y < Pow2(n)
    ensures low <= Floor(low + y, b) <= low + y < Floor(low + y, b) + Pow2(b) <= low + Pow2(n)
  {
    LowOfMultiple(low, b, n);
    FloorAdds(low, y, b);
    FloorBound(y, b, n);
  }

  lemma FloorAdds(x: nat, y: nat, k: nat)
    requires Low(x, k) == 0
    ensures Floor(x + y, k) == x + Floor(y, k)
  {
    LowAdds(x, y, k);
  }

  lemma {:induction false} LowAdds(x: nat, y: nat, k: nat)
    requires Low(x, k) == 0
    ensures Low(x + y, k) == Low(y, k)
  {
    if k > 0 {
      assert (x + y) / 2 == x / 2 + y / 2;
      LowAdds(x / 2, y / 2, k - 1);
    }
  }

  /** Retagging keeps the aliases it does not remove. */
  lemma RetagOwns(k: Config, e: Entry, a: Alias, sim: SimAsid, mode: Mode)
    requires Owns(k, e, a) && !(a.mode in Changed(e, sim) && Unaliased(e, a))
    ensures var e' := Retag(e, sim); Owns(k, e'.(mapped := e'.mapped + {mode}), a)
  {
  }

  /** The permission an entry is mapped with covers the access, is granted by the entry, and allows no
      write while the entry is not dirty. */
  lemma UsablePriv(c: Ctx, mode: Mode, e: Entry, acc: Acc)
    requires Validate(c, mode, e, acc).Usable?
    ensures var priv := Validate(c, mode, e, acc).priv;
            && Covers(EntryPriv(c, mode, e.t.priv, e.t.U), priv)
            && Covers(priv, Required(acc))
            && (priv.w ==> e.t.D)
  {
  }

  /** The new alias belongs to the retagged entry. */
  lemma NewOwns(k: Config, m: Tables, e: Entry, sim: SimAsid, mode: Mode, acc: Acc, va: nat)
    requires EntryInv(k, m, e.(sim := sim)) && InRange(e, va)
    requires Validate(CtxOf(k, sim), mode, e, acc).Usable?
    ensures var e' := Retag(e, sim);
            var priv := Validate(CtxOf(k, sim), mode, e, acc).priv;
            Owns(k, e'.(mapped := e'.mapped + {mode}), NewAlias(k, e', mode, priv, va, sim))
  {
    var priv := Validate(CtxOf(k, sim), mode, e, acc).priv;
    var e' := Retag(e, sim);
    var a := NewAlias(k, e', mode, priv, va, sim);
    AliasInside(k, m, e.(sim := sim), mode, priv, va, sim);
    assert Unaliased(e'.(mapped := e'.mapped + {mode}), a);
    UsablePriv(CtxOf(k, sim), mode, e, acc);
  }

  /** The rest of the state, while an entry is being mapped. */
  ghost predicate InvBut(k: Config, st: State, e: Entry) {
    && Legal(k, st.sim.asid)
    && GlobalsAgree(k, st.m)
    && (forall f :: f in st.tlb ==> EntryInv(k, st.m, f) && !Overlap(e.(sim := st.sim), f))
    && Separate(st.tlb)
    && (forall a :: a in st.aliases ==> Owns(k, e, a) || HasOwner(k, st.tlb, a))
  }

  lemma SeparateAdd(tlb: set<Entry>, n: Entry)
    requires Separate(tlb) && forall f :: f in tlb ==> !Overlap(n, f)
    ensures Separate(tlb + {n})
  {
    forall e, f | e in tlb + {n} && f in tlb + {n} && Overlap(e, f)
      ensures e == f
    {
      assert Overlap(f, e);
    }
  }

  lemma MapAlias(k: Config, st: State, e: Entry, mode: Mode, acc: Acc, va: nat, a: Alias)
    requires InvBut(k, st, e) && EntryInv(k, st.m, e.(sim := st.sim)) && InRange(e, va)
    requires Validate(CtxOf(k, st.sim), mode, e, acc).Usable?
    requires var priv := Validate(CtxOf(k, st.sim), mode, e, acc).priv; a in Map(k, st, e, mode, priv, va).aliases
    ensures var priv := Validate(CtxOf(k, st.sim), mode, e, acc).priv;
            HasOwner(k, Map(k, st, e, mode, priv, va).tlb, a)
  {
    var priv := Validate(CtxOf(k, st.sim), mode, e, acc).priv;
    var e' := Retag(e, st.sim);
    var n := e'.(mapped := e'.mapped + {mode});
    assert n in Map(k, st, e, mode, priv, va).tlb;
    if a == NewAlias(k, e', mode, priv, va, st.sim) {
      NewOwns(k, st.m, e, st.sim, mode, acc, va);
    } else if Owns(k, e, a) {
      RetagOwns(k, e, a, st.sim, mode);
    } else {
      var o :| o in st.tlb && Owns(k, o, a);
      assert o in Map(k, st, e, mode, priv, va).tlb;
    }
  }

  lemma MapInv(k: Config, st: State, e: Entry, mode: Mode, acc: Acc, va: nat)
    requires InvBut(k, st, e) && EntryInv(k, st.m, e.(sim := st.sim)) && InRange(e, va)
    requires Validate(CtxOf(k, st.sim), mode, e, acc).Usable?
    ensures Inv(k, Map(k, st, e, mode, Validate(CtxOf(k, st.sim), mode, e, acc).priv, va))
  {
    var priv := Validate(CtxOf(k, st.sim), mode, e, acc).priv;
    var st' := Map(k, st, e, mode, priv, va);
    var e' := Retag(e, st.sim);
    var n := e'.(mapped := e'.mapped + {mode});
    assert EntryInv(k, st.m, n);
    forall f | f in st.tlb
      ensures !Overlap(n, f)
    {
      assert !Overlap(e.(sim := st.sim), f);
    }
    SeparateAdd(st.tlb, n);
    forall a | a in st'.aliases
      ensures HasOwner(k, st'.tlb, a)
    {
      MapAlias(k, st, e, mode, acc, va, a);
    }
  }
}

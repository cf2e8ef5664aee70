/** The memory management unit as the source runs it: methods that update the TLB and the aliases in place,
    proved against the functions of module Tlb. */
module MmuUnit {
  import opened Access
  import opened Bits
  import opened PageWalk
  import opened Tlb
  import opened WalkProperties
  import opened TlbCoherence
  import opened TlbTransparency
  import opened Walkers

  /** Unaliasing in one set of modes after another. */
  lemma UnaliasTwice(aliases: set<Alias>, e: Entry, first: set<Mode>, second: set<Mode>)
    ensures Unalias(Unalias(aliases, e, first), e.(mapped := e.mapped - first), second) == Unalias(aliases, e, first + second)
  {
    var e' := e.(mapped := e.mapped - first);
    assert forall a: Alias :: Unaliased(e', a) <==> Unaliased(e, a) && a.mode !in first;
  }

  lemma AllModes(modes: set<Mode>)
    requires U in modes && S in modes && M in modes
    ensures modes == {U, S, M}
    ensures forall mode: Mode :: mode in modes
  {
    forall mode: Mode
      ensures mode in modes && mode in {U, S, M}
    {
      assert mode == U || mode == S || mode == M;
    }
  }

  lemma DeleteOne(st: State, e: Entry)
    ensures Delete(st, {e}).aliases == Unalias(st.aliases, e, {U, S, M})
  {
    var dead, modes := {e}, {U, S, M};
    forall a | a in st.aliases
      ensures a in Delete(st, dead).aliases <==> a in Unalias(st.aliases, e, modes)
    {
      assert e in dead;
      AllModes(modes);
    }
  }

  lemma DeleteTwice(st: State, dead: set<Entry>, e: Entry)
    ensures Delete(Delete(st, dead), {e}) == Delete(st, dead + {e})
  {
  }

  lemma FenceInv(k: Config, st: State, low: nat, high: nat, any: bool, asid: nat)
    requires Inv(k, st)
    ensures Inv(k, Fence(k, st, low, high, any, asid))
  {
    DeleteInv(k, st, set e | e in st.tlb && Fenced(k, e, low, high, any, asid));
  }

  class Mmu {
    const k: Config
    var m: Tables
    var sim: SimAsid
    var tlb: set<Entry>
    var aliases: set<Alias>

    ghost function St(): State
      reads this
    {
      State(m, sim, tlb, aliases)
    }

    constructor (k: Config, m: Tables, sim: SimAsid)
      ensures this.k == k && St() == State(m, sim, {}, {})
    {
      this.k, this.m, this.sim := k, m, sim;
      tlb, aliases := {}, {};
    }

    method FindTLBEntry(va: nat) returns (found: Option<Entry>)
      ensures Found(St(), va, found)
    {
      var rest := tlb;
      while rest != {}
        invariant rest <= tlb
        invariant forall e :: e in tlb - rest ==> !(InRange(e, va) && Matches(e, sim.asid))
        decreases |rest|
      {
        var e :| e in rest;
        if InRange(e, va) && Matches(e, sim.asid) {
          return Some(e);
        }
        rest := rest - {e};
      }
      return None;
    }

    /** deleteTLBEntryMappingsMode */
    method DeleteMappingsMode(e: Entry, mode: Mode) returns (e': Entry)
      modifies `aliases
      ensures e' == e.(mapped := e.mapped - {mode})
      ensures aliases == Unalias(old(aliases), e, {mode})
    {
      e' := e;
      if mode in e.mapped {
        var mask := EntryMask(e, mode);
        aliases := set a | a in aliases
                           && !(a.mode == mode && e.t.lowVA <= a.lowVA && a.highVA <= e.t.highVA && a.mask == mask
                                && Masked(a.sim, mask) == Masked(e.sim, mask));
        e' := e.(mapped := e.mapped - {mode});
      }
    }

    /** unmapTLBEntry */
    method UnmapTLBEntry(e: Entry)
      modifies `aliases
      ensures aliases == Unalias(old(aliases), e, {U, S, M})
    {
      var modes := [U, S, M];
      ghost var done: set<Mode> := {};
      var cur := e;
      for i := 0 to |modes|
        invariant done == set j | 0 <= j < i :: modes[j]
        invariant cur == e.(mapped := e.mapped - done)
        invariant aliases == Unalias(old(aliases), e, done)
      {
        UnaliasTwice(old(aliases), e, done, {modes[i]});
        cur := DeleteMappingsMode(cur, modes[i]);
        done := done + {modes[i]};
      }
      assert modes[0] in done && modes[1] in done && modes[2] in done;
      AllModes(done);
    }

    method DeleteTLBEntry(e: Entry)
      modifies `tlb, `aliases
      ensures St() == Delete(old(St()), {e})
    {
      DeleteOne(St(), e);
      if e.mapped != {} {
        UnmapTLBEntry(e);
      }
      tlb := tlb - {e};
    }

    /** invalidateTLBEntriesRange */
    method Invalidate(low: nat, high: nat, any: bool, asid: nat)
      modifies `tlb, `aliases
      ensures St() == Fence(k, old(St()), low, high, any, asid)
    {
      ghost var before := St();
      ghost var dead: set<Entry> := {};
      var rest := tlb;
      while rest != {}
        invariant rest <= before.tlb && dead <= before.tlb - rest
        invariant St() == Delete(before, dead)
        invariant forall e :: e in before.tlb - rest ==> (e in dead <==> Fenced(k, e, low, high, any, asid))
        decreases |rest|
      {
        var e :| e in rest;
        if e.t.lowVA <= high && low <= e.t.highVA {
          if any || k.noAsid || (!e.t.G && Matches(e, asid)) {
            DeleteTwice(before, dead, e);
            DeleteTLBEntry(e);
            dead := dead + {e};
          }
        }
        rest := rest - {e};
      }
      assert dead == set e | e in before.tlb && Fenced(k, e, low, high, any, asid);
    }

    /** riscvVMInvalidateAll: nothing is left. */
    method InvalidateAll()
      requires Inv(k, St())
      modifies `tlb, `aliases
      ensures Inv(k, St()) && tlb == {} && aliases == {}
    {
      ghost var before := St();
      Invalidate(0, MAX_ADDR, true, 0);
      FenceInv(k, before, 0, MAX_ADDR, true, 0);
      forall e | e in tlb
        ensures false
      {
        ValidIsBelow(k.scheme, e.t.lowVA);
      }
      assert tlb == {};
      NoEntriesNoAliases(k, St());
    }

    /** riscvVMInvalidateVA: in no address space is the address still answered for, and entries that do not cover it
        stay. */
    method InvalidateVA(va: nat)
      requires Inv(k, St())
      modifies `tlb, `aliases
      ensures Inv(k, St()) && tlb == (set e | e in old(tlb) && !InRange(e, va))
      ensures forall a :: a in aliases ==> !(a.lowVA <= va <= a.highVA)
    {
      ghost var before := St();
      Invalidate(va, va, true, 0);
      FenceInv(k, before, va, va, true, 0);
      FenceIsEffective(k, before, va, va, 0, va, sim);
    }

    /** riscvVMInvalidateAllASID: only global entries and entries of other address spaces stay, and with no
        identifiers implemented none does. */
    method InvalidateAllASID(asid: nat)
      requires Inv(k, St())
      modifies `tlb, `aliases
      ensures Inv(k, St()) && tlb == (set e | e in old(tlb) && !k.noAsid && (e.t.G || e.sim.asid != asid))
    {
      ghost var before := St();
      Invalidate(0, MAX_ADDR, false, asid);
      FenceInv(k, before, 0, MAX_ADDR, false, asid);
      forall e | e in before.tlb
        ensures e in tlb <==> !k.noAsid && (e.t.G || e.sim.asid != asid)
      {
        ValidIsBelow(k.scheme, e.t.lowVA);
      }
    }

    /** riscvVMInvalidateVAASID: entries for the address stay only if they are global or of other address spaces. */
    method InvalidateVAASID(va: nat, asid: nat)
      requires Inv(k, St())
      modifies `tlb, `aliases
      ensures Inv(k, St())
      ensures tlb == (set e | e in old(tlb) && !(InRange(e, va) && (k.noAsid || (!e.t.G && e.sim.asid == asid))))
    {
      ghost var before := St();
      Invalidate(va, va, false, asid);
      FenceInv(k, before, va, va, false, asid);
    }

    /** unmapTLBEntryNewASID */
    method UnmapNewASID(e: Entry, newSim: SimAsid) returns (e': Entry)
      modifies `aliases
      ensures e' == e.(mapped := e.mapped - Changed(e, newSim))
      ensures aliases == Unalias(old(aliases), e, Changed(e, newSim))
    {
      var modes := [U, S, M];
      ghost var done: set<Mode> := {};
      e' := e;
      for i := 0 to |modes|
        invariant done == set j | 0 <= j < i :: modes[j]
        invariant e' == e.(mapped := e.mapped - Changed(e, newSim) * done)
        invariant aliases == Unalias(old(aliases), e, Changed(e, newSim) * done)
      {
        var mode := modes[i];
        var mask := EntryMask(e', mode);
        ghost var cut := Changed(e, newSim) * done;
        if Masked(e'.sim, mask) != Masked(newSim, mask) {
          UnaliasTwice(old(aliases), e, cut, {mode});
          UnmappedIsUnaliased(old(aliases), e, cut, newSim, mode);
          e' := DeleteMappingsMode(e', mode);
        }
        done := done + {mode};
      }
      assert modes[0] in done && modes[1] in done && modes[2] in done;
      AllModes(done);
      assert Changed(e, newSim) * done == Changed(e, newSim);
    }

    /** mapTLBEntry, without the update of the physical protection map. */
    method MapTLBEntry(e: Entry, mode: Mode, priv: Priv, va: nat) returns (e': Entry)
      modifies `aliases
      ensures e' == e.(mapped := e.mapped + {mode})
      ensures aliases == old(aliases) + {NewAlias(k, e, mode, priv, va, e.sim)}
    {
      var lowPA, highPA := e.t.PA, e.t.PA + e.t.highVA - e.t.lowVA;
      var lowVA := e.t.lowVA;
      var size := highPA - lowPA + 1;
      if size > Pow2(k.aliasBits) {
        var vaToPA := lowPA - lowVA;
        size := Pow2(k.aliasBits);
        lowVA := Floor(va, k.aliasBits);
        lowPA := lowVA + vaToPA;
      }
      aliases := aliases + {Alias(mode, lowVA, lowVA + size - 1, lowPA, priv, EntryMask(e, mode), e.sim)};
      e' := e.(mapped := e.mapped + {mode});
    }

    /** validateTLBEntryPriv, which may delete the entry. */
    method ValidateTLBEntryPriv(e: Entry, mode: Mode, acc: Acc) returns (priv: Option<Priv>)
      modifies `tlb, `aliases
      ensures match Validate(CtxOf(k, sim), mode, e, acc)
              case Inadequate => priv == None && St() == old(St())
              case Stale => priv == None && St() == Delete(old(St()), {e})
              case Usable(p) => priv == Some(p) && St() == old(St())
    {
      var p := CheckPriv(CtxOf(k, sim), mode, e.t.priv, e.t.U, acc);
      if p == NONE {
        return None;
      } else if acc == W && !e.t.D {
        DeleteTLBEntry(e);
        return None;
      } else {
        if !e.t.D {
          p := p.(w := false);
        }
        return Some(p);
      }
    }

    /** tlbLookup; the walkers leave the tables as the walk does. */
    method TlbLookup(mode: Mode, acc: Acc, va: nat) returns (r: Result)
      requires va < Pow2(if k.scheme == Sv32 then 32 else 64)
      modifies `m
      ensures (r, m) == Walk(old(m), CtxOf(k, sim), mode, acc, va)
    {
      var c := CtxOf(k, sim);
      match k.scheme {
        case Sv32 => r, m := TlbLookupSv32(m, c, mode, acc, va);
        case Sv39 => r, m := TlbLookupSv39(m, c, mode, acc, va);
        case Sv48 => r, m := TlbLookupSv48(m, c, mode, acc, va);
      }
    }

    /** The tail of tlbMiss; the entry is new or has been taken out of the TLB. */
    method Remap(e: Entry, mode: Mode, priv: Priv, va: nat)
      modifies `tlb, `aliases
      ensures St() == Map(k, old(St()), e, mode, priv, va)
    {
      var e' := UnmapNewASID(e, sim);
      e' := e'.(sim := sim);
      e' := MapTLBEntry(e', mode, priv, va);
      tlb := tlb + {e'};
    }

    /** The walk and the new entry of findOrCreateTLBEntry. */
    method Create(mode: Mode, acc: Acc, va: nat) returns (r: Result)
      requires va < Pow2(if k.scheme == Sv32 then 32 else 64)
      modifies `m, `tlb, `aliases
      ensures (r, St()) == Reload(k, old(St()), mode, acc, va)
    {
      FreshIsUsable(m, CtxOf(k, sim), mode, acc, va);
      r := TlbLookup(mode, acc, va);
      if r.Ok? {
        var e := NewEntry(r.t);
        var priv := ValidateTLBEntryPriv(e, mode, acc);
        Remap(e, mode, priv.value, va);
      }
    }

    /** tlbMiss */
    method TlbMiss(mode: Mode, acc: Acc, va: nat) returns (r: Result)
      requires va < Pow2(if k.scheme == Sv32 then 32 else 64)
      modifies `m, `tlb, `aliases
      ensures exists found :: Found(old(St()), va, found) && (r, St()) == Miss(k, old(St()), found, mode, acc, va)
    {
      var found := FindTLBEntry(va);
      if found.Some? {
        var e := found.value;
        var priv := ValidateTLBEntryPriv(e, mode, acc);
        if priv.Some? {
          tlb := tlb - {e};
          Remap(e, mode, priv.value, va);
          return Ok(e.t);
        }
      }
      r := Create(mode, acc, va);
    }

    /** riscvVMMiss for a virtual domain: map the pages of an access one after another. It succeeds exactly
        if every byte of the access can be translated, and then every byte is served by an alias; otherwise it
        reports the fault of a byte. */
    method VMMiss(mode: Mode, acc: Acc, address: nat, bytes: nat) returns (r: Result)
      requires Inv(k, St()) && mode != M && bytes > 0
      requires address + bytes <= Pow2(if k.scheme == Sv32 then 32 else 64)
      modifies `m, `tlb, `aliases
      ensures Inv(k, St())
      ensures r.Ok? ==> forall va :: address <= va < address + bytes ==> Served(St(), mode, acc, va)
      ensures r.Ok? <==>
              forall va :: address <= va < address + bytes ==> Walk(old(m), CtxOf(k, sim), mode, acc, va).0.Ok?
      ensures r.Fault? ==>
              exists va :: address <= va < address + bytes && Walk(old(m), CtxOf(k, sim), mode, acc, va).0 == r
    {
      var last := address + bytes - 1;
      var next := address;
      var more := true;
      r := Fault(READ); // replaced in the first turn of the loop
      while more
        invariant address <= next && Inv(k, St()) && sim == old(sim)
        invariant Advances(CtxOf(k, sim), old(m), m)
        invariant more ==> next <= last
        invariant !more ==> r.Ok? && last < next
        invariant forall va :: address <= va < next ==> Served(St(), mode, acc, va)
        decreases more, last - next
      {
        ghost var st := St();
        r := TlbMiss(mode, acc, next);
        ghost var found :| Found(st, next, found) && (r, St()) == Miss(k, st, found, mode, acc, next);
        MissIsWalk(k, st, found, mode, acc, next);
        MissAdvances(k, old(m), st, found, mode, acc, next);
        if r.Fault? {
          FaultAtStart(k, old(m), st, r, mode, acc, next);
          return;
        }
        MissServesMore(k, st, found, mode, acc, address, next);
        var high := AliasHigh(k, r.t, next);
        next := high + 1;
        more := last > high;
      }
      forall va | address <= va < address + bytes
        ensures Walk(old(m), CtxOf(k, sim), mode, acc, va).0.Ok?
      {
        ServedTranslates(k, old(m), St(), mode, acc, va);
      }
    }
  }

  /** Transitivity of table updates along a miss, and what a fault at one address says of the tables at
      the start. */
  lemma FaultAtStart(k: Config, m: Tables, st: State, r: Result, mode: Mode, acc: Acc, va: nat)
    requires Advances(CtxOf(k, st.sim), m, st.m) && r.Fault?
    requires SameOutcome(r, Walk(st.m, CtxOf(k, st.sim), mode, acc, va).0)
    ensures Walk(m, CtxOf(k, st.sim), mode, acc, va).0 == r
  {
    OutcomeIsStable(m, st.m, CtxOf(k, st.sim), mode, acc, va);
  }

  lemma MissAdvances(k: Config, m: Tables, st: State, found: Option<Entry>, mode: Mode, acc: Acc, va: nat)
    requires Inv(k, st) && Found(st, va, found) && Advances(CtxOf(k, st.sim), m, st.m)
    ensures Advances(CtxOf(k, st.sim), m, Miss(k, st, found, mode, acc, va).1.m)
  {
    MissIsWalk(k, st, found, mode, acc, va);
    WalkAdvances(st.m, CtxOf(k, st.sim), mode, acc, va);
    AdvancesTransitive(CtxOf(k, st.sim), m, st.m, Walk(st.m, CtxOf(k, st.sim), mode, acc, va).1);
  }

  /** A mode in which the entry is not mapped has no aliases of the entry. */
  lemma UnmappedIsUnaliased(aliases: set<Alias>, e: Entry, cut: set<Mode>, sim: SimAsid, mode: Mode)
    requires Masked(e.sim, EntryMask(e, mode)) != Masked(sim, EntryMask(e, mode))
    ensures Unalias(aliases, e, cut + {mode}) == Unalias(aliases, e, cut + Changed(e, sim) * {mode})
  {
  }
}

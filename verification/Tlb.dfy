/** The TLB and the memory aliases made from its entries, as functions on values. */
module Tlb {
  import opened Access
  import opened Bits
  import opened PageWalk

  /** Which parts of the simulated identifier an alias depends on. */
  datatype AsidMask = AsidMask(asid: bool, mxr: bool, sum: bool)

  function Masked(s: SimAsid, k: AsidMask): SimAsid {
    SimAsid(if k.asid then s.asid else 0, k.mxr && s.mxr, k.sum && s.sum)
  }

  /** A TLB entry; mapped holds the modes in which it has aliases. */
  datatype Entry = Entry(t: Translation, sim: SimAsid, mapped: set<Mode>)

  /** A range of a mode's virtual domain that reaches physical memory while the masked identifiers agree. */
  datatype Alias = Alias(mode: Mode, lowVA: nat, highVA: nat, lowPA: int, priv: Priv, mask: AsidMask, sim: SimAsid)

  /** What does not change: the configuration, the address spaces in use with the root page number of each,
      and the largest alias the simulator can make, 2^aliasBits bytes (32 bits, that is 4 GB, in the source). */
  datatype Config = Config(
    scheme: Scheme, spaces: set<nat>, roots: nat -> nat, noAsid: bool,
    v111: bool, updateA: bool, updateD: bool, aliasBits: nat)

  datatype State = State(m: Tables, sim: SimAsid, tlb: set<Entry>, aliases: set<Alias>)

  function CtxOf(k: Config, sim: SimAsid): Ctx {
    Ctx(k.scheme, k.roots(sim.asid), sim.asid, k.noAsid, sim.mxr, sim.sum, k.v111, k.updateA, k.updateD)
  }

  /** getEntryASIDMask */
  function EntryMask(e: Entry, mode: Mode): AsidMask {
    AsidMask(!e.t.G, true, e.t.U && mode == S)
  }

  /** matchASID */
  predicate Matches(e: Entry, asid: nat) {
    e.t.G || e.sim.asid == asid
  }

  predicate InRange(e: Entry, va: nat) {
    e.t.lowVA <= va <= e.t.highVA
  }

  predicate Live(a: Alias, sim: SimAsid) {
    Masked(a.sim, a.mask) == Masked(sim, a.mask)
  }

  /** vmirtUnaliasMemoryVM, called for entry e, removes a. */
  predicate Unaliased(e: Entry, a: Alias) {
    && a.mode in e.mapped
    && e.t.lowVA <= a.lowVA && a.highVA <= e.t.highVA
    && a.mask == EntryMask(e, a.mode)
    && Masked(a.sim, a.mask) == Masked(e.sim, a.mask)
  }

  /** Remove the aliases of e in the given modes. */
  function Unalias(aliases: set<Alias>, e: Entry, modes: set<Mode>): set<Alias> {
    set a | a in aliases && !(a.mode in modes && Unaliased(e, a))
  }

  /** Delete entries with all their aliases. */
  function Delete(st: State, dead: set<Entry>): State {
    st.(tlb := st.tlb - dead,
        aliases := set a | a in st.aliases && forall e :: e in dead ==> !Unaliased(e, a))
  }

  /** deleteTLBEntryMode: a fence with an identifier spares global entries, unless there are no identifiers. */
  predicate Fenced(k: Config, e: Entry, low: nat, high: nat, any: bool, asid: nat) {
    && e.t.lowVA <= high && low <= e.t.highVA
    && (any || k.noAsid || (!e.t.G && e.sim.asid == asid))
  }

  function Fence(k: Config, st: State, low: nat, high: nat, any: bool, asid: nat): State {
    Delete(st, set e | e in st.tlb && Fenced(k, e, low, high, any, asid))
  }

  /** The modes in which a new simulated identifier changes the entry's masked identifier. */
  function Changed(e: Entry, sim: SimAsid): set<Mode> {
    set mode | mode in e.mapped && Masked(e.sim, EntryMask(e, mode)) != Masked(sim, EntryMask(e, mode))
  }

  /** The entry after unmapTLBEntryNewASID and the update of its identifier. */
  function Retag(e: Entry, sim: SimAsid): Entry {
    e.(mapped := e.mapped - Changed(e, sim), sim := sim)
  }

  predicate Oversized(k: Config, t: Translation) {
    t.highVA - t.lowVA + 1 > Pow2(k.aliasBits)
  }

  /** The addresses mapped for an access: the whole entry, or the largest possible window of a larger one. */
  function AliasLow(k: Config, t: Translation, va: nat): nat {
    if Oversized(k, t) then Floor(va, k.aliasBits) else t.lowVA
  }

  function AliasHigh(k: Config, t: Translation, va: nat): nat {
    if Oversized(k, t) then Floor(va, k.aliasBits) + Pow2(k.aliasBits) - 1 else t.highVA
  }

  function NewAlias(k: Config, e: Entry, mode: Mode, priv: Priv, va: nat, sim: SimAsid): Alias {
    var low := AliasLow(k, e.t, va);
    Alias(mode, low, AliasHigh(k, e.t, va), low + (e.t.PA - e.t.lowVA), priv, EntryMask(e, mode), sim)
  }

  /** Retag an entry, which has been taken out of the TLB or is new, map it and put it in: the tail of
      tlbMiss. */
  function Map(k: Config, st: State, e: Entry, mode: Mode, priv: Priv, va: nat): State {
    var e' := Retag(e, st.sim);
    st.(tlb := st.tlb + {e'.(mapped := e'.mapped + {mode})},
        aliases := Unalias(st.aliases, e, Changed(e, st.sim)) + {NewAlias(k, e', mode, priv, va, st.sim)})
  }

  datatype Verdict = Inadequate | Stale | Usable(priv: Priv)

  /** validateTLBEntryPriv: a usable entry is mapped without write permission while it is not dirty. */
  function Validate(c: Ctx, mode: Mode, e: Entry, acc: Acc): Verdict {
    var p := CheckPriv(c, mode, e.t.priv, e.t.U, acc);
    if p == NONE then Inadequate
    else if acc == W && !e.t.D then Stale
    else Usable(if e.t.D then p else p.(w := false))
  }

  datatype Option<T> = None | Some(value: T)

  /** A translation fresh from the walk. */
  function NewEntry(t: Translation): Entry {
    Entry(t, SimAsid(0, false, false), {})
  }

  lemma FinishIsUsable(m: Tables, c: Ctx, mode: Mode, acc: Acc, va: nat, addr: nat, p: Pte, level: nat)
    ensures var r := Finish(m, c, mode, acc, va, addr, p, level).0;
            r.Ok? ==> Validate(c, mode, NewEntry(r.t), acc).Usable?
  {
  }

  /** The walk has made the checks already. */
  lemma FreshIsUsable(m: Tables, c: Ctx, mode: Mode, acc: Acc, va: nat)
    ensures var r := Walk(m, c, mode, acc, va).0;
            r.Ok? ==> Validate(c, mode, NewEntry(r.t), acc).Usable?
  {
    match LeafFor(m, c, va)
    case NoLeaf(_) =>
    case Leaf(addr, p, level) => FinishIsUsable(m, c, mode, acc, va, addr, p, level);
  }

  /** Result of a miss: an exception or the entry's translation. */
  function Reload(k: Config, st: State, mode: Mode, acc: Acc, va: nat): (Result, State) {
    var c := CtxOf(k, st.sim);
    var (r, m') := Walk(st.m, c, mode, acc, va);
    match r
    case Fault(_) => (r, st.(m := m'))
    case Ok(t) =>
      FreshIsUsable(st.m, c, mode, acc, va);
      (r, Map(k, st.(m := m'), NewEntry(t), mode, Validate(c, mode, NewEntry(t), acc).priv, va))
  }

  /** tlbMiss, given the entry that findTLBEntry returned. */
  function Miss(k: Config, st: State, found: Option<Entry>, mode: Mode, acc: Acc, va: nat): (Result, State) {
    match found
    case None => Reload(k, st, mode, acc, va)
    case Some(e) =>
      match Validate(CtxOf(k, st.sim), mode, e, acc)
      case Inadequate => Reload(k, st, mode, acc, va)
      case Stale => Reload(k, Delete(st, {e}), mode, acc, va)
      case Usable(priv) => (Ok(e.t), Map(k, st.(tlb := st.tlb - {e}), e, mode, priv, va))
  }

  /** What findTLBEntry may return. */
  predicate Found(st: State, va: nat, found: Option<Entry>) {
    match found
    case None => forall e :: e in st.tlb ==> !(InRange(e, va) && Matches(e, st.sim.asid))
    case Some(e) => e in st.tlb && InRange(e, va) && Matches(e, st.sim.asid)
  }
}

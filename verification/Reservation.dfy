/** Load-reserved and store-conditional across harts (section 7.2 of the RISC-V User-Level ISA v2.2): a tag per
    hart, and write watches that exist only while a hart is suspended. */
module Reservation {
  import opened Bits

  /** Reservations cover 2^grainBits bytes. */
  datatype Config = Config(harts: nat, grainBits: nat)

  /** RISCV_NO_TAG: all ones */
  const NO_TAG: nat := WORD - 1

  datatype Watch = Watch(owner: nat, low: nat, high: nat)

  datatype System = System(tags: seq<nat>, running: nat, watches: set<Watch>)

  predicate Valid(c: Config, s: System) {
    |s.tags| == c.harts && s.running < c.harts && c.grainBits <= 64
  }

  /** generateEATag: addr & -grain, by AndHigh of module Bits. */
  function Granule(c: Config, addr: nat): nat {
    Floor(addr, c.grainBits)
  }

  /** Granules are the aligned blocks of 2^grainBits bytes: two addresses are in the same one exactly if they agree
      above the low grainBits bits. */
  lemma GranuleIsBlock(c: Config, addr: nat, addr': nat)
    ensures Granule(c, addr) % Pow2(c.grainBits) == 0 && Granule(c, addr) <= addr < Granule(c, addr) + Pow2(c.grainBits)
    ensures Granule(c, addr) == Granule(c, addr') <==> addr / Pow2(c.grainBits) == addr' / Pow2(c.grainBits)
  {
    GranuleIsQuotient(c, addr);
    GranuleIsQuotient(c, addr');
    var p := Pow2(c.grainBits);
    DivModUnique(addr / p * p, p, addr / p, 0);
    DivModUnique(addr' / p * p, p, addr' / p, 0);
  }

  lemma GranuleIsQuotient(c: Config, addr: nat)
    ensures Granule(c, addr) == addr / Pow2(c.grainBits) * Pow2(c.grainBits)
    ensures 0 <= addr - Granule(c, addr) < Pow2(c.grainBits)
  {
    LowIsRemainder(addr, c.grainBits);
  }

  function WatchOf(c: Config, owner: nat, tag: nat): Watch {
    Watch(owner, tag, tag + Pow2(c.grainBits) - 1)
  }

  predicate Overlaps(low: nat, high: nat, addr: nat, size: nat) {
    addr <= high && low < addr + size
  }

  ghost predicate ByteOf(low: nat, high: nat, x: nat) {
    low <= x <= high
  }

  /** A store overlaps a range exactly if they have a byte in common. */
  lemma OverlapsMeaning(low: nat, high: nat, addr: nat, size: nat)
    requires low <= high && size > 0
    ensures Overlaps(low, high, addr, size) <==> exists x: nat :: ByteOf(low, high, x) && ByteOf(addr, addr + size - 1, x)
  {
    if Overlaps(low, high, addr, size) {
      var x := if addr >= low then addr else low;
      assert ByteOf(low, high, x) && ByteOf(addr, addr + size - 1, x);
    }
  }

  /** riscvUpdateExclusiveAccessCallback */
  function UpdateCallback(c: Config, s: System, h: nat, install: bool): System
    requires Valid(c, s) && h < c.harts
  {
    if s.tags[h] == NO_TAG then s
    else if install then s.(watches := s.watches + {WatchOf(c, h, s.tags[h])})
    else s.(watches := s.watches - {WatchOf(c, h, s.tags[h])})
  }

  /** riscvContextSwitchCB for the hart that stops and the hart that starts. */
  function Switch(c: Config, s: System, next: nat): System
    requires Valid(c, s) && next < c.harts
  {
    UpdateCallback(c, UpdateCallback(c, s, s.running, true), next, false).(running := next)
  }

  /** riscvAbortExclusiveAccess for each of some harts. */
  function AbortAll(c: Config, s: System, hit: set<nat>): System
    requires Valid(c, s)
  {
    System(
      seq(c.harts, h requires 0 <= h < c.harts => if h in hit then NO_TAG else s.tags[h]),
      s.running,
      set w | w in s.watches
              && !(w.owner < c.harts && w.owner in hit
                   && s.tags[w.owner] != NO_TAG && w == WatchOf(c, w.owner, s.tags[w.owner])))
  }

  /** The owners of the watches that a write triggers (abortEA). */
  function Hit(s: System, addr: nat, size: nat): set<nat> {
    set w | w in s.watches && Overlaps(w.low, w.high, addr, size) :: w.owner
  }

  function Store(c: Config, s: System, addr: nat, size: nat): System
    requires Valid(c, s)
  {
    AbortAll(c, s, Hit(s, addr, size))
  }

  function ClearTag(c: Config, s: System, h: nat): System
    requires Valid(c, s) && h < c.harts
  {
    s.(tags := s.tags[h := NO_TAG])
  }

  predicate ScSucceeds(c: Config, s: System, addr: nat)
    requires Valid(c, s)
  {
    s.tags[s.running] == Granule(c, addr)
  }

  /** emitSC: the store is made if the tags match, and the reservation ends either way. */
  function StoreConditional(c: Config, s: System, addr: nat, size: nat): System
    requires Valid(c, s)
  {
    ClearTag(c, if ScSucceeds(c, s, addr) then Store(c, s, addr, size) else s, s.running)
  }

  // ---- Events ----

  datatype Event =
    | Lr(hart: nat, addr: nat)
    | Sc(hart: nat, addr: nat, size: nat, ok: bool)
    | Write(hart: nat, addr: nat, size: nat)
    | TrapOrReturn(hart: nat)
    | Nmi(hart: nat)
    | SwitchTo(next: nat)
    | ResetHart(hart: nat)

  /** Events of the running hart carry its number; LR and SC are on aligned words. Non-maskable interrupts and
      resets are signals, which may reach any hart. */
  predicate Allowed(c: Config, s: System, e: Event)
    requires Valid(c, s)
  {
    match e
    case Lr(h, addr) => h == s.running && addr < WORD && addr % 4 == 0
    case Sc(h, addr, size, ok) => h == s.running && addr < WORD && addr % 4 == 0 && ok == ScSucceeds(c, s, addr)
    case Write(h, _, _) => h == s.running
    case TrapOrReturn(h) => h == s.running
    case Nmi(h) => h < c.harts
    case SwitchTo(next) => next < c.harts
    case ResetHart(h) => h < c.harts
  }

  /** The entry to the handler of a non-maskable interrupt (doNMI), unlike every other trap, keeps the tag. */
  function Next(c: Config, s: System, e: Event): System
    requires Valid(c, s) && Allowed(c, s, e)
  {
    match e
    case Lr(h, addr) => s.(tags := s.tags[h := Granule(c, addr)])
    case Sc(h, addr, size, _) => StoreConditional(c, s, addr, size)
    case Write(h, addr, size) => Store(c, s, addr, size)
    case TrapOrReturn(h) => ClearTag(c, s, h)
    case Nmi(_) => s
    case SwitchTo(next) => Switch(c, s, next)
    case ResetHart(h) => ClearTag(c, s, h)
  }

  // ---- What a reservation is ----

  /** e ends or replaces hart h's reservation of the granule at g, if it is not a non-maskable interrupt. */
  ghost predicate Ends(c: Config, e: Event, h: nat, g: nat) {
    match e
    case Lr(hart, _) => hart == h
    case Sc(hart, addr, size, ok) => hart == h || (ok && Overlaps(g, g + Pow2(c.grainBits) - 1, addr, size))
    case Write(hart, addr, size) => hart != h && Overlaps(g, g + Pow2(c.grainBits) - 1, addr, size)
    case TrapOrReturn(hart) => hart == h
    case Nmi(_) => false
    case SwitchTo(_) => false
    case ResetHart(hart) => hart == h
  }

  /** Hart h's latest LR, at event j, was on g, and no event but perhaps a non-maskable interrupt has ended
      the reservation since. */
  ghost predicate HeldSince(c: Config, events: seq<Event>, h: nat, g: nat, j: nat)
    requires j < |events|
  {
    && events[j].Lr? && events[j].hart == h && Granule(c, events[j].addr) == g
    && forall k :: j < k < |events| ==> !Ends(c, events[k], h, g)
  }

  ghost predicate Held(c: Config, events: seq<Event>, h: nat, g: nat) {
    exists j :: 0 <= j < |events| && HeldSince(c, events, h, g, j)
  }

  /** After these events hart h has a reservation of g: its latest LR was on g, and since then it has taken no
      trap of any kind, no return and no SC, and no other hart has written to the granule. */
  ghost predicate Reserved(c: Config, events: seq<Event>, h: nat, g: nat) {
    exists j :: 0 <= j < |events| && HeldSince(c, events, h, g, j) && forall k :: j < k < |events| ==> events[k] != Nmi(h)
  }

  /** Hart h has had a non-maskable interrupt since its latest LR. */
  ghost predicate Interrupted(events: seq<Event>, h: nat) {
    exists k :: 0 <= k < |events| && events[k] == Nmi(h)
                && forall l :: k < l < |events| ==> !(events[l].Lr? && events[l].hart == h)
  }

  /** The two notions differ by exactly that. */
  lemma ReservedIsHeld(c: Config, events: seq<Event>, h: nat, g: nat)
    ensures Reserved(c, events, h, g) <==> Held(c, events, h, g) && !Interrupted(events, h)
  {
    if Held(c, events, h, g) {
      var j :| 0 <= j < |events| && HeldSince(c, events, h, g, j);
      if !Interrupted(events, h) {
        assert forall k :: j < k < |events| ==> events[k] != Nmi(h);
      }
    }
  }

  /** A later event keeps a reservation exactly if it does not end it. */
  lemma HeldAfter(c: Config, events: seq<Event>, e: Event, h: nat, g: nat)
    ensures Held(c, events + [e], h, g) <==>
            (e.Lr? && e.hart == h && Granule(c, e.addr) == g) || (Held(c, events, h, g) && !Ends(c, e, h, g))
  {
    var after := events + [e];
    if e.Lr? && e.hart == h && Granule(c, e.addr) == g {
      assert HeldSince(c, after, h, g, |events|);
    } else if Held(c, events, h, g) && !Ends(c, e, h, g) {
      var j :| 0 <= j < |events| && HeldSince(c, events, h, g, j);
      assert HeldSince(c, after, h, g, j);
    }
    if Held(c, after, h, g) {
      var j :| 0 <= j < |after| && HeldSince(c, after, h, g, j);
      if j < |events| {
        assert after[|events|] == e;
        assert forall k :: j < k < |events| ==> after[k] == events[k];
        assert HeldSince(c, events, h, g, j);
      }
    }
  }
}

/** Register settings for which the invalidation of a write does not reach every address whose
    permission changes, so that the side conditions of PmpCoherence cannot be dropped. */
module PmpExamples {
  import opened Access
  import opened Bits
  import opened PmpRegions
  import opened PmpPriority
  import opened PmpWrites
  import opened PmpCoherence
  import opened PmpMachine

  const TWO: Config := Config(2, 0, 32)

  function TwoEntries(e0: Cfg, a0: nat, e1: Cfg, a1: nat): (r: Regs)
    ensures |r.cfg| == |r.addr| == NUM_PMPS
  {
    ClearRegs().(cfg := ClearRegs().cfg[0 := e0][1 := e1], addr := ClearRegs().addr[0 := a0][1 := a1])
  }

  /** Raising the base of a TOR entry by writing the preceding, disabled entry strands address 0. */
  lemma TorBaseWriteStrands()
    ensures var r := TwoEntries(CFG0, 0, Cfg(RWX, TOR, false), 0x1000);
            ValidConfig(TWO) && ValidRegs(TWO, r) && StaleAt(TWO, r, 0, 0x800, 0)
  {
    var e := Cfg(RWX, TOR, false);
    var r := TwoEntries(CFG0, 0, e, 0x1000);
    Stored();
    var r' := WriteAddrRegs(TWO, r, 0, 0x800);
    FromTo(0);
    FromTo(0x800);
    assert RegionOf(TWO, r, 1) == Range(0, 0x3fff, RWX, false);
    assert RegionOf(TWO, r', 1) == Range(0x2000, 0x3fff, RWX, false);
    assert RegionOf(TWO, r, 0) == RegionOf(TWO, r', 0) == Vacant;
  }

  lemma Stored()
    ensures MaskAddr(TWO, 0x800) == 0x800
  {
    ImplementedBitsBound(32, 0x800);
    assert Pow2(6) == 64;
    Pow2Add(6, 6);
    Pow2Mono(12, 30);
    LowSmall(0x800, 30);
  }

  lemma FromTo(prev: nat)
    requires prev < 0x1000
    ensures EntryRegion(0, Cfg(RWX, TOR, false), 0x1000, prev) == Range(4 * prev, 0x3fff, RWX, false)
  {
    EffectiveAddrMeaning(0, Cfg(RWX, TOR, false), 0x1000);
    TorRegion(0, Cfg(RWX, TOR, false), 0x1000, prev);
  }

  lemma {:induction false} NotInMachBlank(c: Config, r: Regs, r': Regs, raw: seq<Cfg>, n: nat, a: nat)
    requires c.grain <= 29 && |r.cfg| == |r.addr| == |r'.cfg| == |r'.addr| == NUM_PMPS
    requires n <= NUM_PMPS && forall k :: 0 <= k < n ==> a !in MachPart(c, r, r', raw, k)
    ensures a !in MachBlank(c, r, r', raw, n)
  {
    if n > 0 {
      NotInMachBlank(c, r, r', raw, n - 1, a);
    }
  }

  function Shadowing(): (r: Regs)
    ensures ValidConfig(TWO) && ValidRegs(TWO, r)
  {
    TwoEntries(Cfg(RWX, NA4, false), 0x1000, Cfg(NONE, NA4, true), 0x1000)
  }

  /** Clearing both bytes at once removes entry 0 and leaves locked entry 1, but the Machine-mode lock
      test already sees the cleared byte of entry 1: address 0x4000 is stranded. */
  lemma ClearingShadowOfLockedEntry()
    ensures MachStaleAt(TWO, Shadowing(), Op.WriteCfg(false, 0, 0), 0x4000)
  {
    var r, op, a := Shadowing(), Op.WriteCfg(false, 0, 0), 0x4000;
    var r', raw := ApplyRegs(TWO, r, op), RawCfgs(TWO, r.cfg, false, 0, 0);
    forall i | 0 <= i < NUM_PMPS
      ensures raw[i] == CFG0
    {
      if i < 4 { ZeroField(i); }
    }
    Na4Region(0, r.cfg[0], 0x1000, 0);
    Na4Region(0, r.cfg[1], 0x1000, 0x1000);
    var t, t' := TableOf(TWO, r), TableOf(TWO, r');
    assert Contains(t[0], a) && !t[0].L && Contains(t[1], a) && t[1].L;
    assert FirstLocked(t, a, 0) == 1;
    assert Shadowed(t, a, 1) && !Shadowed(t', a, 1);
    NotInMachBlank(TWO, r, r', raw, NUM_PMPS, a);
  }

  lemma ZeroField(k: nat)
    ensures CfgField(0, k) == CFG0
  {
    DivModUnique(0, Pow2(8 * k), 0, 0);
  }
}

/** What writes to the protection registers do, stated on register values, and what they keep. */
module PmpWrites {
  import opened Access
  import opened Bits
  import opened PmpRegions
  import opened PmpPriority

  // ---- From registers to the region table ----

  function EntryRegion(g: nat, e: Cfg, addr: nat, prev: nat): Region
    requires g <= 29
  {
    if !EntryActive(g, e, addr) then Vacant
    else
      var b := EntryBounds(g, e, addr, prev);
      if b.0 <= b.1 then Range(b.0, b.1, e.priv, e.L) else Vacant
  }

  function RegionOf(c: Config, r: Regs, i: nat): Region
    requires c.grain <= 29 && i < |r.cfg| && i < |r.addr|
  {
    EntryRegion(c.grain, r.cfg[i], r.addr[i], PrevAddr(r, i))
  }

  function TableOf(c: Config, r: Regs): (t: Table)
    requires c.grain <= 29 && c.numRegs <= |r.cfg| && c.numRegs <= |r.addr|
    ensures |t| == c.numRegs
    ensures forall i :: 0 <= i < c.numRegs ==> t[i] == RegionOf(c, r, i)
  {
    seq(c.numRegs, i requires 0 <= i < c.numRegs => RegionOf(c, r, i))
  }

  lemma TableIsAligned(c: Config, r: Regs)
    requires ValidConfig(c) && ValidRegs(c, r)
    ensures Aligned(TableOf(c, r))
  {
    forall i | 0 <= i < c.numRegs && RegionOf(c, r, i).Range?
      ensures var g := RegionOf(c, r, i); g.low <= g.high < WORD && g.low % 4 == 0 && g.high % 4 == 3
    {
      RegionsAreAligned(c, r, i);
    }
  }

  ghost function Span(g: Region): iset<nat> {
    iset a: nat | Contains(g, a)
  }

  /** lowerPriorityPMPEntryLocked */
  predicate LowerLocked(cfg: seq<Cfg>, i: nat) {
    exists k :: i < k < |cfg| && cfg[k].L && cfg[k].mode != OFF
  }

  // ---- pmpaddr writes ----

  /** getAddressMask(extBits) >> 2 */
  function ImplementedBits(extBits: nat, v: nat): nat
    requires 2 <= extBits <= 64
  {
    And(v, (Pow2(extBits) - 1) / 4)
  }

  /** The value a pmpaddr write stores: implemented external bits, rounded down to half a NAPOT grain. */
  function MaskAddr(c: Config, v: nat): nat
    requires ValidConfig(c)
  {
    if c.grain > 0 then
      SmallPow2(c.grain - 1); And(ImplementedBits(c.extBits, v), WORD - Pow2(c.grain - 1))
    else ImplementedBits(c.extBits, v)
  }

  /** The implemented bits of the value, rounded down to half a NAPOT grain. */
  lemma MaskAddrValue(c: Config, v: nat)
    requires ValidConfig(c)
    ensures MaskAddr(c, v) == Floor(v % Pow2(c.extBits - 2), if c.grain > 0 then c.grain - 1 else 0)
  {
    ImplementedBitsBound(c.extBits, v);
    LowIsRemainder(v, c.extBits - 2);
    if c.grain > 0 {
      RoundToGrain(ImplementedBits(c.extBits, v), c.grain - 1);
    }
  }

  lemma MaskAddrBound(c: Config, v: nat)
    requires ValidConfig(c)
    ensures MaskAddr(c, v) < ADDR_LIMIT
    ensures c.grain > 0 ==> Low(MaskAddr(c, v), c.grain - 1) == 0
  {
    ImplementedBitsBound(c.extBits, v);
    if c.grain > 0 {
      RoundToGrain(ImplementedBits(c.extBits, v), c.grain - 1);
    }
  }

  lemma ImplementedBitsBound(extBits: nat, v: nat)
    requires 2 <= extBits <= 64
    ensures ImplementedBits(extBits, v) == Low(v, extBits - 2) < ADDR_LIMIT
  {
    var k := extBits - 2;
    assert Pow2(extBits) == 4 * Pow2(k) by { assert Pow2(k + 2) == 2 * Pow2(k + 1); }
    AndLow(v, k);
    SmallPow2(k);
  }

  lemma RoundToGrain(m: nat, k: nat)
    requires m < ADDR_LIMIT && k <= 62
    ensures Pow2(k) <= WORD
    ensures And(m, WORD - Pow2(k)) == Floor(m, k) <= m && Low(And(m, WORD - Pow2(k)), k) == 0
  {
    WordIsPow2();
    AndHigh(64, m, k);
    LowOfFloor(m, k);
  }

  /** Is the register itself unlocked, and not the base of a locked TOR entry? */
  predicate AddrWritable(r: Regs, i: nat)
    requires i < |r.cfg|
  {
    && !r.cfg[i].L
    && !(i + 1 < |r.cfg| && r.cfg[i + 1].mode == TOR && r.cfg[i + 1].L)
  }

  predicate AddrChanges(c: Config, r: Regs, i: nat, v: nat)
    requires ValidConfig(c) && |r.cfg| == |r.addr| == NUM_PMPS
  {
    i < c.numRegs && r.addr[i] != MaskAddr(c, v) && AddrWritable(r, i)
  }

  function WriteAddrRegs(c: Config, r: Regs, i: nat, v: nat): (r': Regs)
    requires ValidConfig(c) && |r.cfg| == |r.addr| == NUM_PMPS
    ensures ValidRegs(c, r) ==> ValidRegs(c, r')
  {
    MaskAddrBound(c, v);
    if AddrChanges(c, r, i, v) then r.(addr := r.addr[i := MaskAddr(c, v)]) else r
  }

  /** After a pmpaddr write the register holds the implemented bits of the value unless it does not exist, is locked
      or is the base of a locked TOR entry; nothing else changes. */
  lemma AddrReadsBack(c: Config, r: Regs, i: nat, v: nat)
    requires ValidConfig(c) && ValidRegs(c, r)
    ensures var r' := WriteAddrRegs(c, r, i, v);
            var frozen := i >= c.numRegs || r.cfg[i].L || (i + 1 < NUM_PMPS && r.cfg[i + 1].mode == TOR && r.cfg[i + 1].L);
            && r'.cfg == r.cfg
            && (forall j :: 0 <= j < NUM_PMPS && j != i ==> r'.addr[j] == r.addr[j])
            && (i < NUM_PMPS ==>
                  r'.addr[i] == if frozen then r.addr[i]
                                else Floor(v % Pow2(c.extBits - 2), if c.grain > 0 then c.grain - 1 else 0))
  {
    MaskAddrValue(c, v);
  }

  /** The addresses a pmpaddr write invalidates: entry i before and after the write. */
  ghost function AddrBlank(c: Config, r: Regs, i: nat, v: nat): iset<nat>
    requires ValidConfig(c) && |r.cfg| == |r.addr| == NUM_PMPS
  {
    if AddrChanges(c, r, i, v)
    then Span(RegionOf(c, r, i)) + Span(RegionOf(c, WriteAddrRegs(c, r, i, v), i))
    else iset{}
  }

  // ---- pmpcfg writes ----

  function DecodeCfg(b: nat): Cfg {
    Cfg(Priv(b % 2 == 1, b / 2 % 2 == 1, b / 4 % 2 == 1),
        match b / 8 % 4 case 0 => OFF case 1 => TOR case 2 => NA4 case _ => NAPOT,
        b / 128 % 2 == 1)
  }

  /** Byte k of a configuration register value. */
  function CfgField(v: nat, k: nat): Cfg {
    DecodeCfg(v / Pow2(8 * k) % 256)
  }

  /** Byte i right after the register store, before any entry is validated: register number index
      holds 8 entries in 64-bit mode, where only even registers exist, and 4 in 32-bit mode. */
  function RawCfg(c: Config, cfg: seq<Cfg>, rv64: bool, index: nat, v: nat, i: nat): Cfg
    requires i < |cfg|
  {
    var entries := if rv64 then 8 else 4;
    var offset := if rv64 then index / 2 else index;
    if offset >= (c.numRegs + entries - 1) / entries then cfg[i]
    else if i < offset * entries || offset * entries + entries <= i then cfg[i]
    else if i < c.numRegs then CfgField(v, i - offset * entries)
    else CFG0
  }

  function RawCfgs(c: Config, cfg: seq<Cfg>, rv64: bool, index: nat, v: nat): (raw: seq<Cfg>)
    requires |cfg| == NUM_PMPS
    ensures |raw| == NUM_PMPS
    ensures forall i :: 0 <= i < NUM_PMPS ==> raw[i] == RawCfg(c, cfg, rv64, index, v, i)
  {
    seq(NUM_PMPS, i requires 0 <= i < NUM_PMPS => RawCfg(c, cfg, rv64, index, v, i))
  }

  /** NA4 cannot be selected when the grain exceeds 4 bytes. */
  function Selectable(g: nat, cur: Cfg, raw: Cfg): Cfg {
    if g > 0 && raw.mode == NA4 then raw.(mode := cur.mode) else raw
  }

  function NewCfg(g: nat, cur: Cfg, raw: Cfg): Cfg {
    if cur.L then cur else Selectable(g, cur, raw)
  }

  function WriteCfgRegs(c: Config, r: Regs, raw: seq<Cfg>): (r': Regs)
    requires |r.cfg| == |raw| == NUM_PMPS
    ensures |r'.cfg| == NUM_PMPS && r'.addr == r.addr
    ensures forall i :: 0 <= i < NUM_PMPS ==> r'.cfg[i] == NewCfg(c.grain, r.cfg[i], raw[i])
  {
    r.(cfg := seq(NUM_PMPS, i requires 0 <= i < NUM_PMPS => NewCfg(c.grain, r.cfg[i], raw[i])))
  }

  lemma WriteCfgKeepsValid(c: Config, r: Regs, rv64: bool, index: nat, v: nat)
    requires ValidConfig(c) && ValidRegs(c, r)
    ensures ValidRegs(c, WriteCfgRegs(c, r, RawCfgs(c, r.cfg, rv64, index, v)))
  {
  }

  /** What entry i contributes to the Supervisor invalidation of a configuration write. */
  ghost function SupPart(c: Config, r: Regs, r': Regs, i: nat): iset<nat>
    requires c.grain <= 29 && |r.cfg| == |r.addr| == |r'.cfg| == |r'.addr| == NUM_PMPS && i < NUM_PMPS
  {
    if r.cfg[i] == r'.cfg[i] then iset{} else Span(RegionOf(c, r, i)) + Span(RegionOf(c, r', i))
  }

  /** The same for Machine mode, where the lock test reads the unvalidated bytes. */
  ghost function MachPart(c: Config, r: Regs, r': Regs, raw: seq<Cfg>, i: nat): iset<nat>
    requires c.grain <= 29 && |r.cfg| == |r.addr| == |r'.cfg| == |r'.addr| == NUM_PMPS && i < NUM_PMPS
  {
    if r.cfg[i] == r'.cfg[i] then iset{}
    else
      (if LowerLocked(raw, i) then Span(RegionOf(c, r, i)) else iset{})
      + (if r'.cfg[i].L || LowerLocked(raw, i) then Span(RegionOf(c, r', i)) else iset{})
  }

  ghost function SupBlank(c: Config, r: Regs, r': Regs, n: nat): iset<nat>
    requires c.grain <= 29 && |r.cfg| == |r.addr| == |r'.cfg| == |r'.addr| == NUM_PMPS && n <= NUM_PMPS
  {
    if n == 0 then iset{} else SupBlank(c, r, r', n - 1) + SupPart(c, r, r', n - 1)
  }

  ghost function MachBlank(c: Config, r: Regs, r': Regs, raw: seq<Cfg>, n: nat): iset<nat>
    requires c.grain <= 29 && |r.cfg| == |r.addr| == |r'.cfg| == |r'.addr| == NUM_PMPS && n <= NUM_PMPS
  {
    if n == 0 then iset{} else MachBlank(c, r, r', raw, n - 1) + MachPart(c, r, r', raw, n - 1)
  }

  // ---- Reset ----

  /** At reset the preceding address register is already clear when an entry is invalidated. */
  ghost function ResetBlank(m: Mode, c: Config, r: Regs, n: nat): iset<nat>
    requires c.grain <= 29 && |r.cfg| == |r.addr| == NUM_PMPS && n <= NUM_PMPS
  {
    if n == 0 then iset{}
    else ResetBlank(m, c, r, n - 1)
         + if m != M || r.cfg[n - 1].L || LowerLocked(r.cfg, n - 1)
           then Span(EntryRegion(c.grain, r.cfg[n - 1], r.addr[n - 1], 0))
           else iset{}
  }
}

/** The physical memory protection registers and the address ranges they describe. */
module PmpRegions {
  import opened Access
  import opened Bits

  const NUM_PMPS: nat := 16

  /** 2^62: pmpaddr holds an address shifted right by 2. */
  const ADDR_LIMIT: nat := 0x4000_0000_0000_0000

  /** Address matching mode of an entry. */
  datatype Match = OFF | TOR | NA4 | NAPOT

  /** One pmpcfg byte: permission, address matching mode and lock bit. */
  datatype Cfg = Cfg(priv: Priv, mode: Match, L: bool)

  const CFG0 := Cfg(NONE, OFF, false)

  /** Implemented entries, grain and width of the external address space. */
  datatype Config = Config(numRegs: nat, grain: nat, extBits: nat)

  ghost predicate ValidConfig(c: Config) {
    c.numRegs <= NUM_PMPS && c.grain <= 29 && 2 <= c.extBits <= 64
  }

  /** The pmpcfg bytes and the pmpaddr registers. */
  datatype Regs = Regs(cfg: seq<Cfg>, addr: seq<nat>)

  /** All registers clear. */
  function ClearRegs(): (r: Regs)
    ensures |r.cfg| == |r.addr| == NUM_PMPS
    ensures forall i :: 0 <= i < NUM_PMPS ==> r.cfg[i] == CFG0 && r.addr[i] == 0
  {
    Regs(seq(NUM_PMPS, i => CFG0), seq(NUM_PMPS, i => 0))
  }

  /** What every register write maintains. */
  ghost predicate ValidRegs(c: Config, r: Regs) {
    && |r.cfg| == NUM_PMPS && |r.addr| == NUM_PMPS
    && (forall i :: c.numRegs <= i < NUM_PMPS ==> r.cfg[i] == CFG0 && r.addr[i] == 0)
    && (forall i :: 0 <= i < NUM_PMPS ==> r.addr[i] < ADDR_LIMIT)
    && (forall i :: 0 <= i < NUM_PMPS ==> c.grain >= 1 ==> r.cfg[i].mode != NA4)
  }

  lemma SmallPow2(k: nat)
    requires k <= 64
    ensures Pow2(k) <= WORD
    ensures k <= 62 ==> Pow2(k) <= ADDR_LIMIT
  {
    WordIsPow2();
    Pow2Mono(k, 64);
    if k <= 62 { Pow2Mono(k, 62); }
  }

  /** pmpaddr value seen through the grain (getEffectivePMPAddr). */
  function EffectiveAddr(g: nat, e: Cfg, addr: nat): nat
    requires g <= 29
  {
    if g >= 2 && e.mode == NAPOT then Or(addr, Pow2(g - 1) - 1)
    else if g >= 1 && e.mode != NAPOT then (SmallPow2(g); And(addr, WORD - Pow2(g)))
    else addr
  }

  /** Can the entry match anything (getPMPRegionActive)? */
  predicate EntryActive(g: nat, e: Cfg, addr: nat)
    requires g <= 29
  {
    if e.mode == OFF then false
    else if e.mode != TOR then true
    else EffectiveAddr(g, e, addr) != 0
  }

  /** low << 2 in a 64-bit word */
  function Shl2(x: nat): (r: nat)
    ensures r < WORD
  {
    (x * 4) % WORD
  }

  /** All ones up to and including the bit above the lowest set bit of n. */
  function MaskAbove(n: nat): (mask: nat)
    requires n < WORD
    ensures mask < WORD
  {
    ((And(n, Neg64(n)) * 2) % WORD + WORD - 1) % WORD
  }

  function NapotMask(low: nat): (mask: nat)
    ensures mask < WORD
  {
    MaskAbove(Not64((low + 3) % WORD))
  }

  function TorBase(g: nat, prev: nat): nat
    requires g <= 29
  {
    SmallPow2(g + 2);
    And(Shl2(prev), WORD - Pow2(g + 2))
  }

  /** First and last address of the entry (getPMPEntryBounds); prev is the preceding pmpaddr, or 0. */
  function EntryBounds(g: nat, e: Cfg, addr: nat, prev: nat): (nat, nat)
    requires g <= 29
  {
    var low := Shl2(EffectiveAddr(g, e, addr));
    match e.mode
    case NA4 => (low, (low + 3) % WORD)
    case NAPOT =>
      var mask := NapotMask(low);
      var base := And(low, Not64(mask));
      (base, Or(base, mask))
    case _ => (TorBase(g, prev), (low + WORD - 1) % WORD)
  }

  function PrevAddr(r: Regs, i: nat): nat
    requires i < |r.addr|
  {
    if i == 0 then 0 else r.addr[i - 1]
  }

  function Bounds(c: Config, r: Regs, i: nat): (nat, nat)
    requires c.grain <= 29 && i < |r.cfg| && i < |r.addr|
  {
    EntryBounds(c.grain, r.cfg[i], r.addr[i], PrevAddr(r, i))
  }

  predicate Active(c: Config, r: Regs, i: nat)
    requires c.grain <= 29 && i < |r.cfg| && i < |r.addr|
  {
    EntryActive(c.grain, r.cfg[i], r.addr[i])
  }

  // ---- The arithmetic meaning of the bit operations ----

  /** The effective address is the register rounded to the grain: down for TOR and NA4, up to the
      end of the smallest representable block for NAPOT. */
  lemma EffectiveAddrMeaning(g: nat, e: Cfg, addr: nat)
    requires g <= 29 && addr < ADDR_LIMIT
    ensures EffectiveAddr(g, e, addr) < ADDR_LIMIT
    ensures e.mode != NAPOT ==> EffectiveAddr(g, e, addr) == Floor(addr, g)
    ensures e.mode == NAPOT && g >= 2 ==>
              EffectiveAddr(g, e, addr) == Floor(addr, g - 1) + Pow2(g - 1) - 1
    ensures e.mode == NAPOT && g < 2 ==> EffectiveAddr(g, e, addr) == addr
  {
    WordIsPow2();
    if g >= 2 && e.mode == NAPOT {
      OrLow(addr, g - 1);
      FloorBound(addr, g - 1, 62);
    } else if g >= 1 && e.mode != NAPOT {
      AndHigh(64, addr, g);
    }
  }

  /** A 62-bit register shifted left by 2 still fits. */
  lemma Quadruple(x: nat)
    requires x < ADDR_LIMIT
    ensures 4 * x + 3 < WORD
    ensures Shl2(x) == 4 * x
    ensures (4 * x + 3) % WORD == 4 * x + 3
  {
  }

  /** NA4 names 4 bytes. */
  lemma Na4Region(g: nat, e: Cfg, addr: nat, prev: nat)
    requires g <= 29 && addr < ADDR_LIMIT && e.mode == NA4
    ensures var eff := EffectiveAddr(g, e, addr);
            EntryBounds(g, e, addr, prev) == (4 * eff, 4 * eff + 3) && 4 * eff + 3 < WORD
  {
    EffectiveAddrMeaning(g, e, addr);
    Quadruple(EffectiveAddr(g, e, addr));
  }

  /** TOR runs from the preceding register up to the address below its own, both rounded to the grain. */
  lemma TorRegion(g: nat, e: Cfg, addr: nat, prev: nat)
    requires g <= 29 && addr < ADDR_LIMIT && prev < ADDR_LIMIT && e.mode == TOR
    requires EntryActive(g, e, addr)
    ensures EntryBounds(g, e, addr, prev) == (4 * Floor(prev, g), 4 * Floor(addr, g) - 1)
    ensures 0 < 4 * Floor(addr, g) < WORD
  {
    TorEffective(g, e, addr);
    TorBaseMeaning(g, prev);
    TorBounds(g, e, addr, prev, Floor(addr, g), 4 * Floor(prev, g));
  }

  lemma TorEffective(g: nat, e: Cfg, addr: nat)
    requires g <= 29 && addr < ADDR_LIMIT && e.mode == TOR && EntryActive(g, e, addr)
    ensures 0 < EffectiveAddr(g, e, addr) == Floor(addr, g) < ADDR_LIMIT
  {
    EffectiveAddrMeaning(g, e, addr);
  }

  lemma TorBounds(g: nat, e: Cfg, addr: nat, prev: nat, eff: nat, base: nat)
    requires g <= 29 && e.mode == TOR && EffectiveAddr(g, e, addr) == eff && TorBase(g, prev) == base
    requires 0 < eff < ADDR_LIMIT
    ensures EntryBounds(g, e, addr, prev) == (base, 4 * eff - 1) && 4 * eff < WORD
  {
    TorTop(eff);
  }

  lemma TorTop(eff: nat)
    requires 0 < eff < ADDR_LIMIT
    ensures (Shl2(eff) + WORD - 1) % WORD == 4 * eff - 1
    ensures 4 * eff < WORD
  {
    Quadruple(eff);
  }

  lemma TorBaseMeaning(g: nat, prev: nat)
    requires g <= 29 && prev < ADDR_LIMIT
    ensures TorBase(g, prev) == 4 * Floor(prev, g)
  {
    WordIsPow2();
    Quadruple(prev);
    AndHigh(64, 4 * prev, g + 2);
    LowOfQuadruple(prev, g);
  }

  /** Number of bytes named by a NAPOT entry whose effective address ends in t ones. */
  function NapotBits(t: nat): nat {
    if t < 62 then t + 3 else 64
  }

  /** A NAPOT entry whose effective address ends in t ones names the aligned block of 2^(t+3) bytes
      that starts at the remaining bits; when all 62 bits are ones it names the whole address space. */
  lemma NapotRegion(g: nat, e: Cfg, addr: nat, prev: nat)
    requires g <= 29 && addr < ADDR_LIMIT && e.mode == NAPOT
    ensures var eff := EffectiveAddr(g, e, addr);
            var t := TrailingOnes(eff);
            var b := EntryBounds(g, e, addr, prev);
            && t <= 62
            && b.0 == 4 * (eff + 1 - Pow2(t))
            && b.1 == b.0 + Pow2(NapotBits(t)) - 1 && b.1 < WORD
            && Low(b.0, NapotBits(t)) == 0
  {
    var eff := EffectiveAddr(g, e, addr);
    assert eff < ADDR_LIMIT by { EffectiveAddrMeaning(g, e, addr); }
    AtMost62Ones(eff);
    Quadruple(eff);
    NapotBlock(eff, TrailingOnes(eff));
  }

  lemma NapotBlock(eff: nat, t: nat)
    requires eff < ADDR_LIMIT && Low(eff, t + 1) == Pow2(t) - 1
    requires t < 62 || (t == 62 && eff == ADDR_LIMIT - 1)
    ensures var mask := NapotMask(4 * eff);
            var base := And(4 * eff, Not64(mask));
            && base == 4 * (eff + 1 - Pow2(t))
            && Or(base, mask) == base + Pow2(NapotBits(t)) - 1 < WORD
            && Low(base, NapotBits(t)) == 0
  {
    NapotMaskMeaning(eff, t);
    BlockOf(4 * eff, NapotBits(t));
    NapotBase(eff, t);
  }

  lemma AtMost62Ones(eff: nat)
    requires eff < ADDR_LIMIT
    ensures TrailingOnes(eff) <= 62
    ensures Low(eff, TrailingOnes(eff) + 1) == Pow2(TrailingOnes(eff)) - 1
    ensures TrailingOnes(eff) == 62 ==> eff == ADDR_LIMIT - 1
  {
    var t := TrailingOnes(eff);
    LowOfTrailingOnes(eff);
    WordIsPow2();
    if t > 62 { Pow2Mono(62, t); }
  }

  lemma NapotBase(eff: nat, t: nat)
    requires eff < ADDR_LIMIT && Low(eff, t + 1) == Pow2(t) - 1
    requires t < 62 || (t == 62 && eff == ADDR_LIMIT - 1)
    ensures Floor(4 * eff, NapotBits(t)) == 4 * (eff + 1 - Pow2(t))
  {
    if t < 62 {
      LowOfQuadruple(eff, t + 1);
    } else {
      WordIsPow2();
      LowSmall(4 * eff, 64);
    }
  }

  lemma NapotMaskMeaning(eff: nat, t: nat)
    requires eff < ADDR_LIMIT && Low(eff, t + 1) == Pow2(t) - 1
    requires t < 62 || (t == 62 && eff == ADDR_LIMIT - 1)
    ensures NapotMask(4 * eff) == Pow2(NapotBits(t)) - 1
  {
    Quadruple(eff);
    if t < 62 {
      NapotLowestClear(eff, t);
      MaskAboveBit(Not64(4 * eff + 3), t + 2);
    } else {
      WordIsPow2();
    }
  }

  lemma NapotLowestClear(eff: nat, t: nat)
    requires eff < ADDR_LIMIT && Low(eff, t + 1) == Pow2(t) - 1 && t < 62
    ensures And(Not64(4 * eff + 3), Neg64(Not64(4 * eff + 3))) == Pow2(t + 2)
  {
    WordIsPow2();
    var n := Not64(4 * eff + 3);
    assert Pow2(t + 3) == 2 * Pow2(t + 2) && Pow2(t + 2) == 4 * Pow2(t) by {
      Pow2Add(t, 2);
    }
    assert Low(4 * eff + 3, t + 3) == Pow2(t + 2) - 1 by {
      LowOfQuadruple(eff, t + 1);
    }
    LowOfNot(64, 4 * eff + 3, t + 3);
    LowestBit(64, n, t + 2);
  }

  /** The mask is k + 1 ones, also when 2^(k+1) itself wraps to 0. */
  lemma MaskAboveBit(n: nat, k: nat)
    requires n < WORD && k < 64 && And(n, Neg64(n)) == Pow2(k)
    ensures MaskAbove(n) == Pow2(k + 1) - 1
  {
    SmallPow2(k + 1);
    OnesUpTo(Pow2(k));
  }

  lemma OnesUpTo(p: nat)
    requires 0 < p && 2 * p <= WORD
    ensures ((p * 2) % WORD + WORD - 1) % WORD == 2 * p - 1
  {
    if 2 * p < WORD {
      DivModUnique(2 * p, WORD, 0, 2 * p);
      DivModUnique(2 * p + WORD - 1, WORD, 1, 2 * p - 1);
    }
  }

  /** The block of 2^k addresses around x, by masking. */
  lemma BlockOf(x: nat, k: nat)
    requires k <= 64 && x < WORD
    ensures Pow2(k) <= WORD
    ensures And(x, Not64(Pow2(k) - 1)) == Floor(x, k)
    ensures Or(Floor(x, k), Pow2(k) - 1) == Floor(x, k) + Pow2(k) - 1
    ensures Floor(x, k) + Pow2(k) <= WORD
    ensures Low(Floor(x, k), k) == 0
  {
    WordIsPow2();
    AndHigh(64, x, k);
    LowOfFloor(x, k);
    OrLow(Floor(x, k), k);
    FloorBound(x, k, 64);
  }

  /** A byte range that consists of whole grains of 2^(g+2) bytes. */
  ghost predicate WholeGrains(g: nat, b: (nat, nat)) {
    && Low(b.0, g + 2) == 0 && Low(b.1 + 1, g + 2) == 0
    && b.0 < WORD && b.1 < WORD
  }

  /** Every active region that is not empty consists of whole grains of 2^(G+2) bytes. */
  lemma RegionsAreWholeGrains(c: Config, r: Regs, i: nat)
    requires ValidConfig(c) && ValidRegs(c, r) && i < NUM_PMPS && Active(c, r, i)
    ensures WholeGrains(c.grain, Bounds(c, r, i))
  {
    var g, e, addr, prev := c.grain, r.cfg[i], r.addr[i], PrevAddr(r, i);
    assert addr < ADDR_LIMIT && prev < ADDR_LIMIT;
    match e.mode {
      case OFF =>
      case TOR => TorGrains(g, e, addr, prev);
      case NA4 => Na4Grains(g, e, addr, prev);
      case NAPOT => NapotGrains(g, e, addr, prev);
    }
  }

  /** In particular a region starts on a multiple of 4 and ends just below one. */
  lemma RegionsAreAligned(c: Config, r: Regs, i: nat)
    requires ValidConfig(c) && ValidRegs(c, r) && i < NUM_PMPS && Active(c, r, i)
    ensures var b := Bounds(c, r, i); b.0 % 4 == 0 && b.1 % 4 == 3 && b.1 < WORD
  {
    RegionsAreWholeGrains(c, r, i);
    GrainsAreAligned(c.grain, Bounds(c, r, i));
  }

  lemma GrainsAreAligned(g: nat, b: (nat, nat))
    requires WholeGrains(g, b)
    ensures b.0 % 4 == 0 && b.1 % 4 == 3
  {
    MultipleOfFour(b.0, g);
    MultipleOfFour(b.1 + 1, g);
  }

  lemma MultipleOfFour(x: nat, g: nat)
    requires Low(x, g + 2) == 0
    ensures x % 4 == 0
  {
    LowOfMultiple(x, 2, g + 2);
    assert Low(x, 2) == x % 2 + 2 * Low(x / 2, 1);
    assert Low(x / 2, 1) == x / 2 % 2 + 2 * Low(x / 2 / 2, 0);
  }

  lemma Na4Grains(g: nat, e: Cfg, addr: nat, prev: nat)
    requires g == 0 && addr < ADDR_LIMIT && e.mode == NA4
    ensures WholeGrains(g, EntryBounds(g, e, addr, prev))
  {
    Na4Region(g, e, addr, prev);
    var eff := EffectiveAddr(g, e, addr);
    LowOfQuadruple(eff, 0);
    LowOfQuadruple(eff + 1, 0);
  }

  lemma TorGrains(g: nat, e: Cfg, addr: nat, prev: nat)
    requires g <= 29 && addr < ADDR_LIMIT && prev < ADDR_LIMIT && e.mode == TOR
    requires EntryActive(g, e, addr)
    ensures WholeGrains(g, EntryBounds(g, e, addr, prev))
  {
    TorRegion(g, e, addr, prev);
    LowOfFloor(prev, g);
    LowOfFloor(addr, g);
    LowOfQuadruple(Floor(prev, g), g);
    LowOfQuadruple(Floor(addr, g), g);
    Quadruple(Floor(prev, g));
  }

  lemma NapotGrains(g: nat, e: Cfg, addr: nat, prev: nat)
    requires g <= 29 && addr < ADDR_LIMIT && e.mode == NAPOT
    ensures WholeGrains(g, EntryBounds(g, e, addr, prev))
  {
    NapotRegion(g, e, addr, prev);
    NapotGrain(g, e, addr);
    BlockGrains(g, EntryBounds(g, e, addr, prev), NapotBits(TrailingOnes(EffectiveAddr(g, e, addr))));
  }

  lemma BlockGrains(g: nat, b: (nat, nat), k: nat)
    requires g + 2 <= k && Low(b.0, k) == 0 && b.1 == b.0 + Pow2(k) - 1 && b.1 < WORD
    ensures WholeGrains(g, b)
  {
    LowOfMultiple(b.0, g + 2, k);
    LowOfNext(b.0, k);
    LowOfMultiple(b.1 + 1, g + 2, k);
  }

  /** Under grain G a NAPOT effective address ends in at least G - 1 ones. */
  lemma NapotGrain(g: nat, e: Cfg, addr: nat)
    requires g <= 29 && addr < ADDR_LIMIT && e.mode == NAPOT
    ensures g <= TrailingOnes(EffectiveAddr(g, e, addr)) + 1
  {
    if g >= 2 {
      EffectiveAddrMeaning(g, e, addr);
      LowOfFloor(addr, g - 1);
      LowOfSum(Floor(addr, g - 1), Pow2(g - 1) - 1, g - 1);
      EndsInOnes(EffectiveAddr(g, e, addr), g - 1);
    }
  }
}

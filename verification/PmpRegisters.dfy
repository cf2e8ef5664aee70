/** The configuration registers as software sees them: a register value is made of bytes, a byte of its bits
    (section 3.6.1 of the Privileged Architecture), and what a write leaves to be read. */
module PmpRegisters {
  import opened Access
  import opened Bits
  import opened PmpRegions
  import opened PmpWrites

  function Bit(b: bool): nat {
    if b then 1 else 0
  }

  /** The address matching field A. */
  function ModeBits(m: Match): nat {
    match m case OFF => 0 case TOR => 1 case NA4 => 2 case NAPOT => 3
  }

  /** A configuration byte by the weights of its bits: R, W, X, A and L. */
  function CfgByte(e: Cfg): (b: nat)
    ensures b < 256
  {
    Bit(e.priv.r) + 2 * Bit(e.priv.w) + 4 * Bit(e.priv.x) + 8 * ModeBits(e.mode) + 128 * Bit(e.L)
  }

  /** Byte k of a register value. */
  function Byte(v: nat, k: nat): nat {
    v / Pow2(8 * k) % 256
  }

  /** Entries per register. */
  function Entries(rv64: bool): nat {
    if rv64 then 8 else 4
  }

  /** The first entry of a register; with 64 bits every other register is missing. */
  function FirstEntry(rv64: bool, index: nat): nat {
    if rv64 then index / 2 * 8 else index * 4
  }

  /** The value of some bytes, the first one lowest. */
  function ValueOf(cfg: seq<Cfg>): nat {
    if cfg == [] then 0 else CfgByte(cfg[0]) + 256 * ValueOf(cfg[1..])
  }

  /** readPMPCFGInt */
  function ReadCfg(r: Regs, rv64: bool, index: nat): nat
    requires |r.cfg| == NUM_PMPS && index < 4
  {
    ValueOf(r.cfg[FirstEntry(rv64, index)..FirstEntry(rv64, index) + Entries(rv64)])
  }

  // ---- Bytes of a value ----

  lemma FirstByte(b: nat, rest: nat)
    requires b < 256
    ensures Byte(b + 256 * rest, 0) == b
  {
    assert Pow2(8 * 0) == 1;
    DivModUnique(b + 256 * rest, 256, rest, b);
  }

  lemma NextByte(b: nat, rest: nat, k: nat)
    requires b < 256 && k > 0
    ensures Byte(b + 256 * rest, k) == Byte(rest, k - 1)
  {
    var p := Pow2(8 * (k - 1));
    EightBits(k);
    ShiftOne(b, rest, p);
  }

  lemma EightBits(k: nat)
    requires k > 0
    ensures Pow2(8 * k) == 256 * Pow2(8 * (k - 1))
  {
    Pow2Add(8, 8 * (k - 1));
    assert 8 + 8 * (k - 1) == 8 * k && Pow2(8) == 256;
  }

  lemma ShiftOne(b: nat, rest: nat, p: nat)
    requires b < 256 && p > 0
    ensures (b + 256 * rest) / (256 * p) == rest / p
  {
    var q, m := rest / p, rest % p;
    assert rest == q * p + m;
    assert 256 * (q * p) == q * (256 * p);
    DivModUnique(b + 256 * rest, 256 * p, q, 256 * m + b);
  }

  lemma {:induction false} ByteOfValue(cfg: seq<Cfg>, k: nat)
    requires k < |cfg|
    ensures Byte(ValueOf(cfg), k) == CfgByte(cfg[k])
    decreases k
  {
    if k == 0 {
      FirstByte(CfgByte(cfg[0]), ValueOf(cfg[1..]));
    } else {
      NextByte(CfgByte(cfg[0]), ValueOf(cfg[1..]), k);
      ByteOfValue(cfg[1..], k - 1);
    }
  }

  lemma ByteRead(r: Regs, rv64: bool, index: nat, k: nat)
    requires |r.cfg| == NUM_PMPS && index < 4 && k < Entries(rv64)
    ensures Byte(ReadCfg(r, rv64, index), k) == CfgByte(r.cfg[FirstEntry(rv64, index) + k])
  {
    ByteOfValue(r.cfg[FirstEntry(rv64, index)..FirstEntry(rv64, index) + Entries(rv64)], k);
  }

  // ---- What a write leaves to be read ----

  /** A written byte with the reserved bits 5 and 6 clear. */
  function Writable(b: nat): nat {
    b % 32 + b / 128 % 2 * 128
  }

  /** The byte with field A of the other. */
  function WithModeOf(b: nat, other: nat): int {
    b - b / 8 % 4 * 8 + other / 8 % 4 * 8
  }

  /** What byte was becomes when b is written to it: a locked byte stays; reserved bits are clear; NA4 cannot be
      selected with a grain above 4 bytes and leaves A as it was. */
  function NewByte(grain: nat, was: nat, b: nat): int {
    if was >= 128 then was
    else if grain > 0 && b / 8 % 4 == 2 then WithModeOf(Writable(b), was)
    else Writable(b)
  }

  lemma DecodedByte(b: nat)
    requires b < 256
    ensures CfgByte(DecodeCfg(b)) == Writable(b)
  {
    var d := DecodeCfg(b);
    assert ModeBits(d.mode) == b / 8 % 4;
    LowFields(b);
  }

  lemma LowFields(b: nat)
    ensures b % 32 == b % 2 + 2 * (b / 2 % 2) + 4 * (b / 4 % 2) + 8 * (b / 8 % 4)
  {
    var x := b / 2;
    var y := x / 2;
    var z := y / 2;
    assert b / 4 == y && b / 8 == z;
    DivModUnique(b, 32, z / 4, b % 2 + 2 * (x % 2) + 4 * (y % 2) + 8 * (z % 4));
  }

  lemma ByteFields(e: Cfg)
    ensures CfgByte(e) / 8 % 4 == ModeBits(e.mode)
    ensures CfgByte(e) >= 128 <==> e.L
  {
  }

  lemma WithMode(e: Cfg, m: Match)
    ensures CfgByte(e.(mode := m)) == CfgByte(e) - 8 * ModeBits(e.mode) + 8 * ModeBits(m)
  {
  }

  lemma WrittenByte(grain: nat, e: Cfg, b: nat)
    requires b < 256
    ensures CfgByte(NewCfg(grain, e, DecodeCfg(b))) == NewByte(grain, CfgByte(e), b)
  {
    var d := DecodeCfg(b);
    DecodedByte(b);
    ByteFields(e);
    ByteFields(d);
    WithMode(d, e.mode);
  }

  /** One byte after a pmpcfg write, read through any register: bytes without an implemented entry are 0, those of
      other registers stay, and those of the written one become what NewByte says. */
  ghost predicate ByteWritten(c: Config, rv64: bool, index: nat, v: nat, i: nat, was: nat, now: nat) {
    var first := FirstEntry(rv64, index);
    now == if i >= c.numRegs then 0
           else if first <= i < first + Entries(rv64) then NewByte(c.grain, was, Byte(v, i - first))
           else was
  }

  lemma EntryWritten(c: Config, r: Regs, rv64: bool, index: nat, v: nat, i: nat)
    requires ValidConfig(c) && ValidRegs(c, r) && i < NUM_PMPS
    ensures var r' := WriteCfgRegs(c, r, RawCfgs(c, r.cfg, rv64, index, v));
            ByteWritten(c, rv64, index, v, i, CfgByte(r.cfg[i]), CfgByte(r'.cfg[i]))
  {
    var first := FirstEntry(rv64, index);
    var r' := WriteCfgRegs(c, r, RawCfgs(c, r.cfg, rv64, index, v));
    WriteCfgKeepsValid(c, r, rv64, index, v);
    if i < c.numRegs && first <= i < first + Entries(rv64) {
      WrittenByte(c.grain, r.cfg[i], Byte(v, i - first));
      assert r'.cfg[i] == NewCfg(c.grain, r.cfg[i], DecodeCfg(Byte(v, i - first)));
    }
  }

  /** What software reads from any pmpcfg register, in either width, after a write of one. */
  lemma CfgReadsBack(c: Config, r: Regs, rv64: bool, index: nat, v: nat, view64: bool, other: nat, k: nat)
    requires ValidConfig(c) && ValidRegs(c, r) && other < 4 && k < Entries(view64)
    ensures var r' := WriteCfgRegs(c, r, RawCfgs(c, r.cfg, rv64, index, v));
            ByteWritten(c, rv64, index, v, FirstEntry(view64, other) + k,
                        Byte(ReadCfg(r, view64, other), k), Byte(ReadCfg(r', view64, other), k))
  {
    var r' := WriteCfgRegs(c, r, RawCfgs(c, r.cfg, rv64, index, v));
    ByteRead(r, view64, other, k);
    ByteRead(r', view64, other, k);
    EntryWritten(c, r, rv64, index, v, FirstEntry(view64, other) + k);
  }

  /** Writing back what was read changes no entry. */
  lemma RewriteKeeps(c: Config, r: Regs, rv64: bool, index: nat, i: nat)
    requires ValidConfig(c) && ValidRegs(c, r) && index < 4 && i < NUM_PMPS
    ensures WriteCfgRegs(c, r, RawCfgs(c, r.cfg, rv64, index, ReadCfg(r, rv64, index))).cfg[i] == r.cfg[i]
  {
    var first := FirstEntry(rv64, index);
    if first <= i < first + Entries(rv64) {
      ByteRead(r, rv64, index, i - first);
      EncodedByte(r.cfg[i]);
    }
  }

  lemma EncodedByte(e: Cfg)
    ensures DecodeCfg(CfgByte(e)) == e
  {
  }
}

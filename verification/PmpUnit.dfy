/** The protection unit of one hart, updated in place: register writes invalidate parts of the two
    permission maps, and misses fill them again. */
module PmpUnit {
  import opened Access
  import opened Bits
  import opened PmpRegions
  import opened PmpPriority
  import opened PmpWrites
  import opened PmpRegisters
  import PmpCoherence

  class Unit {
    const c: Config
    var pmpcfg: seq<Cfg>
    var pmpaddr: seq<nat>
    /** Permission map shared by Supervisor and User mode. */
    var supDomain: Cache
    var machDomain: Cache
    /** Was the last failing access denied by protection (AFErrorIn)? */
    var pmpFault: bool

    ghost predicate Valid()
      reads this
    {
      ValidConfig(c) && ValidRegs(c, Registers())
    }

    function Registers(): Regs
      reads this
    {
      Regs(pmpcfg, pmpaddr)
    }

    ghost function State(): PmpCoherence.State
      reads this
    {
      PmpCoherence.State(Registers(), supDomain, machDomain)
    }

    ghost function Domain(mode: Mode): Cache
      reads this
    {
      if mode == M then machDomain else supDomain
    }

    constructor (config: Config)
      requires ValidConfig(config)
      ensures c == config && Valid() && PmpCoherence.Init(c, State())
    {
      c := config;
      pmpcfg := ClearRegs().cfg;
      pmpaddr := ClearRegs().addr;
      var p := if config.numRegs == 0 then RWX else NONE;
      supDomain := (a: nat) => p;
      machDomain := (a: nat) => p;
      pmpFault := false;
    }

    /** setPMPPriv on a unified domain. */
    method SetPriv(mode: Mode, low: nat, high: nat, priv: Priv)
      modifies this`supDomain, this`machDomain
      ensures if mode == M then supDomain == old(supDomain) else machDomain == old(machDomain)
      ensures SetRange(old(Domain(mode)), Domain(mode), low, high, priv)
    {
      if mode == M {
        var f := machDomain;
        machDomain := (a: nat) => if low <= a <= high then priv else f(a);
      } else {
        var f := supDomain;
        supDomain := (a: nat) => if low <= a <= high then priv else f(a);
      }
    }

    /** invalidatePMPEntry */
    method InvalidateEntry(i: nat)
      requires c.grain <= 29 && |pmpcfg| == |pmpaddr| == NUM_PMPS && i < NUM_PMPS
      modifies this`supDomain, this`machDomain
      ensures Blanks(old(supDomain), supDomain, Span(RegionOf(c, Registers(), i)))
      ensures Blanks(old(machDomain), machDomain,
                     if pmpcfg[i].L || LowerLocked(pmpcfg, i) then Span(RegionOf(c, Registers(), i)) else iset{})
    {
      if Active(c, Registers(), i) {
        var (low, high) := Bounds(c, Registers(), i);
        if low <= high {
          SetPriv(S, low, high, NONE);
          if pmpcfg[i].L || LowerLocked(pmpcfg, i) {
            SetPriv(M, low, high, NONE);
          }
        }
      }
    }

    /** riscvVMWritePMPAddr: a register that is not locked takes the implemented bits of the value, and no other
        changes. */
    method WriteAddr(i: nat, value: nat) returns (effective: nat)
      requires Valid() && i < NUM_PMPS
      modifies this`pmpaddr, this`supDomain, this`machDomain
      ensures Valid()
      ensures PmpCoherence.Step(c, old(State()), PmpCoherence.Op.WriteAddr(i, value), State())
      ensures effective == EffectiveAddr(c.grain, pmpcfg[i], pmpaddr[i])
      ensures forall j :: 0 <= j < NUM_PMPS && j != i ==> pmpaddr[j] == old(pmpaddr)[j]
      ensures pmpaddr[i] == if i >= c.numRegs || pmpcfg[i].L || (i + 1 < NUM_PMPS && pmpcfg[i + 1].mode == TOR && pmpcfg[i + 1].L)
                            then old(pmpaddr)[i]
                            else Floor(value % Pow2(c.extBits - 2), if c.grain > 0 then c.grain - 1 else 0)
    {
      AddrReadsBack(c, Registers(), i, value);
      var newValue := MaskAddr(c, value);
      MaskAddrBound(c, value);
      if i < c.numRegs && pmpaddr[i] != newValue {
        if pmpcfg[i].L {
        } else if i + 1 < NUM_PMPS && pmpcfg[i + 1].mode == TOR && pmpcfg[i + 1].L {
        } else {
          ghost var sup0, mach0, r := supDomain, machDomain, Registers();
          InvalidateEntry(i);
          ghost var sup1, mach1 := supDomain, machDomain;
          pmpaddr := pmpaddr[i := newValue];
          InvalidateEntry(i);
          assert Registers() == WriteAddrRegs(c, r, i, value);
          BlanksTwice(sup0, sup1, supDomain, Span(RegionOf(c, r, i)), Span(RegionOf(c, Registers(), i)));
          if LowerLocked(pmpcfg, i) {
            BlanksTwice(mach0, mach1, machDomain, Span(RegionOf(c, r, i)), Span(RegionOf(c, Registers(), i)));
          }
        }
      }
      effective := EffectiveAddr(c.grain, pmpcfg[i], pmpaddr[i]);
    }

    /** One iteration of the validation loop of riscvVMWritePMPCFG: entry i holds its unvalidated byte,
        the entries after it too. */
    method ValidateEntry(i: nat, was: Cfg)
      requires c.grain <= 29 && |pmpcfg| == |pmpaddr| == NUM_PMPS && i < NUM_PMPS
      modifies this`pmpcfg, this`supDomain, this`machDomain
      ensures pmpcfg == old(pmpcfg)[i := NewCfg(c.grain, was, old(pmpcfg)[i])]
      ensures var r, r' := Regs(old(pmpcfg)[i := was], pmpaddr), Registers();
              && Blanks(old(supDomain), supDomain, SupPart(c, r, r', i))
              && Blanks(old(machDomain), machDomain, MachPart(c, r, r', old(pmpcfg), i))
    {
      ghost var raw, sup0, mach0 := pmpcfg, supDomain, machDomain;
      var newCfg := Selectable(c.grain, was, pmpcfg[i]);
      pmpcfg := pmpcfg[i := newCfg];
      if was != newCfg {
        pmpcfg := pmpcfg[i := was];
        if !was.L {
          ghost var r := Registers();
          assert LowerLocked(pmpcfg, i) == LowerLocked(raw, i) by { LowerLockedLocal(pmpcfg, raw, i); }
          InvalidateEntry(i);
          ghost var sup1, mach1 := supDomain, machDomain;
          pmpcfg := pmpcfg[i := newCfg];
          assert LowerLocked(pmpcfg, i) == LowerLocked(raw, i) by { LowerLockedLocal(pmpcfg, raw, i); }
          InvalidateEntry(i);
          assert pmpcfg == raw[i := newCfg];
          BlanksTwice(sup0, sup1, supDomain, Span(RegionOf(c, r, i)), Span(RegionOf(c, Registers(), i)));
          BlanksTwice(mach0, mach1, machDomain,
                      if LowerLocked(raw, i) then Span(RegionOf(c, r, i)) else iset{},
                      if newCfg.L || LowerLocked(raw, i) then Span(RegionOf(c, Registers(), i)) else iset{});
        }
      }
    }

    /** riscvVMWritePMPCFG: the bytes of the register read as written where they can be written; all others stay. */
    method WriteCfg(rv64: bool, index: nat, value: nat) returns (effective: nat)
      requires Valid() && index < 4
      modifies this`pmpcfg, this`supDomain, this`machDomain
      ensures Valid()
      ensures PmpCoherence.Step(c, old(State()), PmpCoherence.Op.WriteCfg(rv64, index, value), State())
      ensures effective == ReadCfg(Registers(), rv64, index)
      ensures forall i :: 0 <= i < NUM_PMPS ==>
        ByteWritten(c, rv64, index, value, i, CfgByte(old(pmpcfg)[i]), CfgByte(pmpcfg[i]))
    {
      ghost var r := Registers();
      var oldValue := pmpcfg;
      pmpcfg := RawCfgs(c, pmpcfg, rv64, index, value);
      ghost var raw := pmpcfg;
      ghost var r' := WriteCfgRegs(c, r, raw);
      var i := 0;
      while i < NUM_PMPS
        invariant i <= NUM_PMPS && |pmpcfg| == NUM_PMPS
        invariant forall k :: 0 <= k < NUM_PMPS ==> pmpcfg[k] == if k < i then r'.cfg[k] else raw[k]
        invariant Blanks(old(supDomain), supDomain, SupBlank(c, r, r', i))
        invariant Blanks(old(machDomain), machDomain, MachBlank(c, r, r', raw, i))
      {
        ghost var sup0, mach0, cfg0 := supDomain, machDomain, pmpcfg;
        ValidateEntry(i, oldValue[i]);
        ghost var was := Regs(cfg0[i := oldValue[i]], pmpaddr);
        PartsAreLocal(c, was, Registers(), cfg0, r, r', raw, i);
        BlanksTwice(old(supDomain), sup0, supDomain, SupBlank(c, r, r', i), SupPart(c, r, r', i));
        BlanksTwice(old(machDomain), mach0, machDomain, MachBlank(c, r, r', raw, i), MachPart(c, r, r', raw, i));
        i := i + 1;
      }
      assert pmpcfg == r'.cfg;
      WriteCfgKeepsValid(c, r, rv64, index, value);
      forall k | 0 <= k < NUM_PMPS
        ensures ByteWritten(c, rv64, index, value, k, CfgByte(r.cfg[k]), CfgByte(r'.cfg[k]))
      {
        EntryWritten(c, r, rv64, index, value, k);
      }
      effective := ReadCfg(Registers(), rv64, index);
    }

    /** Reset of entry i, after the entries before it. */
    method ResetEntry(i: nat)
      requires c.grain <= 29 && |pmpcfg| == |pmpaddr| == NUM_PMPS && i < NUM_PMPS && PrevAddr(Registers(), i) == 0
      modifies this`pmpcfg, this`pmpaddr, this`supDomain, this`machDomain
      ensures pmpcfg == old(pmpcfg)[i := CFG0] && pmpaddr == old(pmpaddr)[i := 0]
      ensures var g := EntryRegion(c.grain, old(pmpcfg[i]), old(pmpaddr[i]), 0);
              && Blanks(old(supDomain), supDomain, Span(g))
              && Blanks(old(machDomain), machDomain,
                        if old(pmpcfg)[i].L || LowerLocked(old(pmpcfg), i) then Span(g) else iset{})
    {
      if pmpaddr[i] != 0 || pmpcfg[i] != CFG0 {
        InvalidateEntry(i);
        pmpaddr := pmpaddr[i := 0];
        pmpcfg := pmpcfg[i := CFG0];
      }
    }

    /** riscvVMResetPMP */
    method Reset()
      requires Valid()
      modifies this`pmpcfg, this`pmpaddr, this`supDomain, this`machDomain
      ensures Valid()
      ensures PmpCoherence.Step(c, old(State()), PmpCoherence.Op.Reset, State())
    {
      ghost var r := Registers();
      var i := 0;
      while i < c.numRegs
        invariant i <= c.numRegs && |pmpcfg| == |pmpaddr| == NUM_PMPS
        invariant forall k :: 0 <= k < i ==> pmpcfg[k] == CFG0 && pmpaddr[k] == 0
        invariant forall k :: i <= k < NUM_PMPS ==> pmpcfg[k] == r.cfg[k] && pmpaddr[k] == r.addr[k]
        invariant Blanks(old(supDomain), supDomain, ResetBlank(S, c, r, i))
        invariant Blanks(old(machDomain), machDomain, ResetBlank(M, c, r, i))
      {
        ghost var sup0, mach0 := supDomain, machDomain;
        ghost var g := EntryRegion(c.grain, r.cfg[i], r.addr[i], 0);
        LowerLockedLocal(pmpcfg, r.cfg, i);
        ResetEntry(i);
        BlanksTwice(old(supDomain), sup0, supDomain, ResetBlank(S, c, r, i), Span(g));
        BlanksTwice(old(machDomain), mach0, machDomain, ResetBlank(M, c, r, i),
                    if r.cfg[i].L || LowerLocked(r.cfg, i) then Span(g) else iset{});
        i := i + 1;
      }
      assert pmpcfg == ClearRegs().cfg && pmpaddr == ClearRegs().addr;
    }

    ghost function Table(): PmpPriority.Table
      requires Valid()
      reads this
    {
      TableOf(c, Registers())
    }

    /** mapPMPInt: set the permission of the widest range found around pa. */
    method MapInt(mode: Mode, required: Priv, pa: nat) returns (low: nat, high: nat, priv: Priv)
      requires Valid() && pa < Pow2(c.extBits)
      modifies this`supDomain, this`machDomain, this`pmpFault
      ensures Uniform(mode, Table(), pa, 0, low, high, priv)
      ensures SetRange(old(Domain(mode)), Domain(mode), low, high, priv)
      ensures if mode == M then supDomain == old(supDomain) else machDomain == old(machDomain)
      ensures pmpFault == (old(pmpFault) || !Covers(priv, required))
    {
      TableIsAligned(c, Registers());
      ImplementedTop(c.extBits);
      low, high, priv := RefineAll(mode, TableOf(c, Registers()), pa, Pow2(c.extBits) - 1);
      if !Covers(priv, required) {
        pmpFault := true;
      }
      SetPriv(mode, low, high, priv);
    }

    /** mapPMP: fill every implemented address of the request, and report a protection fault exactly if
        one of them lacks the required permission. */
    method Map(mode: Mode, required: Priv, low: nat, high: nat)
      requires Valid()
      modifies this`supDomain, this`machDomain, this`pmpFault
      ensures Valid()
      ensures PmpCoherence.Step(c, old(State()), PmpCoherence.Op.Map(mode, low, high), State())
      ensures c.numRegs > 0 && low <= high ==>
        (pmpFault <==> old(pmpFault) || Denied(mode, Table(), Pow2(c.extBits), required, low, high + 1))
    {
      if c.numRegs > 0 {
        MapRequest(mode, required, low, high);
      }
    }

    method MapRequest(mode: Mode, required: Priv, low: nat, high: nat)
      requires Valid()
      modifies this`supDomain, this`machDomain, this`pmpFault
      ensures if mode == M then supDomain == old(supDomain) else machDomain == old(machDomain)
      ensures Filled(mode, Table(), Pow2(c.extBits), old(Domain(mode)), Domain(mode), low, high + 1)
      ensures low <= high ==>
        pmpFault == (old(pmpFault) || Denied(mode, Table(), Pow2(c.extBits), required, low, high + 1))
    {
      ghost var t, limit, f0 := Table(), Pow2(c.extBits), Domain(mode);
      ImplementedTop(c.extBits);
      var next := low;
      var more := true;
      while more
        invariant low <= next && Valid() && Table() == t
        invariant more && next > low ==> next <= high
        invariant if mode == M then supDomain == old(supDomain) else machDomain == old(machDomain)
        invariant Filled(mode, t, limit, f0, Domain(mode), low, next)
        invariant !more ==> high < next || next >= limit
        invariant more ==> pmpFault == (old(pmpFault) || Denied(mode, t, limit, required, low, next))
        invariant !more && low <= high ==> pmpFault == (old(pmpFault) || Denied(mode, t, limit, required, low, high + 1))
        decreases more, high - next
      {
        if next < Pow2(c.extBits) {
          ghost var f := Domain(mode);
          var lo, hi, priv := MapInt(mode, required, next);
          FillMore(mode, t, limit, f0, f, Domain(mode), low, next, lo, hi, priv);
          DeniedFrom(mode, t, limit, required, low, next, lo, hi, priv, hi + 1);
          if low <= high <= hi {
            DeniedFrom(mode, t, limit, required, low, next, lo, hi, priv, high + 1);
          }
          next := hi + 1;
          more := hi < high;
        } else {
          more := false;
        }
      }
    }
  }

  lemma ImplementedTop(extBits: nat)
    requires 2 <= extBits <= 64
    ensures Pow2(extBits) <= WORD && (Pow2(extBits) - 1) % 4 == 3
  {
    SmallPow2(extBits);
    OneBelowQuad(Pow2(extBits - 2));
    assert Pow2(extBits) == 2 * Pow2(extBits - 1) && Pow2(extBits - 1) == 2 * Pow2(extBits - 2);
  }

  lemma OneBelowQuad(p: nat)
    requires p > 0
    ensures (4 * p - 1) % 4 == 3
  {
  }

  lemma LowerLockedLocal(a: seq<Cfg>, b: seq<Cfg>, i: nat)
    requires |a| == |b| && forall k :: i < k < |a| ==> a[k] == b[k]
    ensures LowerLocked(a, i) == LowerLocked(b, i)
  {
  }

  /** What entry i contributes depends only on entry i and, for the lock test, on the entries after it. */
  lemma PartsAreLocal(c: Config, was: Regs, now: Regs, mid: seq<Cfg>, r: Regs, r': Regs, raw: seq<Cfg>, i: nat)
    requires c.grain <= 29 && i < NUM_PMPS
    requires |was.cfg| == |now.cfg| == |mid| == |r.cfg| == |r'.cfg| == |raw| == NUM_PMPS
    requires |r.addr| == NUM_PMPS && was.addr == now.addr == r.addr == r'.addr
    requires was.cfg[i] == r.cfg[i] && now.cfg[i] == r'.cfg[i]
    requires forall k :: i < k < NUM_PMPS ==> mid[k] == raw[k]
    ensures SupPart(c, was, now, i) == SupPart(c, r, r', i)
    ensures MachPart(c, was, now, mid, i) == MachPart(c, r, r', raw, i)
  {
    LowerLockedLocal(mid, raw, i);
  }
}

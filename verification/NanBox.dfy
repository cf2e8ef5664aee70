/** NaN boxing of single-precision values (section 9.2 of the RISC-V User-Level ISA v2.2): within a block the
    translator leaves out the box test of registers it knows to hold boxed values. */
module NanBox {
  import opened Bits

  /** 2^32 */
  const HALF: nat := 0x1_0000_0000

  const DEFAULT_QNAN: nat := 0x7fc0_0000

  /** An operand: a register read as 32 or as 64 bits. */
  datatype Source = Source(reg: nat, single: bool)

  /** An instruction that writes a function of its operands to a register, as 32 or as 64 bits. */
  datatype Instr = Instr(srcs: seq<Source>, dst: nat, single: bool, compute: seq<nat> -> nat)

  type Regs = map<nat, nat>

  predicate ValidRegs(regs: Regs) {
    forall r :: 0 <= r < 32 ==> r in regs && regs[r] < WORD
  }

  predicate ValidInstr(i: Instr) {
    i.dst < 32 && forall s :: s in i.srcs ==> s.reg < 32
  }

  predicate ValidBlock(block: seq<Instr>) {
    forall k :: 0 <= k < |block| ==> ValidInstr(block[k])
  }

  // ---- The rule ----

  function Upper(v: nat): nat {
    v / HALF
  }

  /** A single-precision operand of a 64-bit register is its lower half if the upper half is all ones, and
      the default NaN otherwise. wide says that registers have 64 bits. */
  function CheckedRead(wide: bool, regs: Regs, s: Source): nat
    requires ValidRegs(regs) && s.reg < 32
  {
    if !s.single then regs[s.reg]
    else if !wide || Upper(regs[s.reg]) == HALF - 1 then regs[s.reg] % HALF
    else DEFAULT_QNAN
  }

  /** Writing a single-precision result to a 64-bit register boxes it. */
  function Written(wide: bool, regs: Regs, i: Instr, v: nat): Regs {
    regs[i.dst := if i.single then (if wide then (HALF - 1) * HALF + v % HALF else v % HALF) else v % WORD]
  }

  function CheckedOperands(wide: bool, regs: Regs, srcs: seq<Source>): seq<nat>
    requires ValidRegs(regs) && forall s :: s in srcs ==> s.reg < 32
  {
    if srcs == [] then [] else [CheckedRead(wide, regs, srcs[0])] + CheckedOperands(wide, regs, srcs[1..])
  }

  /** The registers after a block in which every single-precision operand is tested. */
  function RunChecked(wide: bool, regs: Regs, block: seq<Instr>): Regs
    requires ValidRegs(regs) && ValidBlock(block)
    decreases |block|
  {
    if block == [] then regs
    else
      var i := block[0];
      RunChecked(wide, Written(wide, regs, i, i.compute(CheckedOperands(wide, regs, i.srcs))), block[1..])
  }

  // ---- The translation ----

  /** riscvGetVMIRegFS: no test for registers in the mask. */
  function ElidedRead(wide: bool, regs: Regs, mask: set<nat>, s: Source): nat
    requires ValidRegs(regs) && s.reg < 32
  {
    if s.single && wide && s.reg !in mask then
      if Upper(regs[s.reg]) == HALF - 1 then regs[s.reg] % HALF else DEFAULT_QNAN
    else if s.single then regs[s.reg] % HALF
    else regs[s.reg]
  }

  function ElidedOperands(wide: bool, regs: Regs, mask: set<nat>, srcs: seq<Source>): seq<nat>
    requires ValidRegs(regs) && forall s :: s in srcs ==> s.reg < 32
  {
    if srcs == [] then [] else [ElidedRead(wide, regs, mask, srcs[0])] + ElidedOperands(wide, regs, mask, srcs[1..])
  }

  /** riscvWriteRegSize: the mask after a write. */
  function NewMask(wide: bool, mask: set<nat>, i: Instr): set<nat> {
    if wide && i.single then mask + {i.dst} else mask - {i.dst}
  }

  /** The registers after a block in which the tests of registers in the mask are left out. */
  function RunElided(wide: bool, regs: Regs, mask: set<nat>, block: seq<Instr>): Regs
    requires ValidRegs(regs) && ValidBlock(block)
    decreases |block|
  {
    if block == [] then regs
    else
      var i := block[0];
      RunElided(wide, Written(wide, regs, i, i.compute(ElidedOperands(wide, regs, mask, i.srcs))),
                NewMask(wide, mask, i), block[1..])
  }

  // ---- The translation preserves meaning ----

  /** Registers in the mask hold boxed values, and the mask is empty where there is nothing to box. */
  ghost predicate Boxed(wide: bool, regs: Regs, mask: set<nat>)
    requires ValidRegs(regs)
  {
    forall r :: r in mask ==> wide && r < 32 && Upper(regs[r]) == HALF - 1
  }

  lemma ReadsAgree(wide: bool, regs: Regs, mask: set<nat>, s: Source)
    requires ValidRegs(regs) && Boxed(wide, regs, mask) && s.reg < 32
    ensures ElidedRead(wide, regs, mask, s) == CheckedRead(wide, regs, s)
  {
  }

  lemma {:induction false} OperandsAgree(wide: bool, regs: Regs, mask: set<nat>, srcs: seq<Source>)
    requires ValidRegs(regs) && Boxed(wide, regs, mask) && forall s :: s in srcs ==> s.reg < 32
    ensures ElidedOperands(wide, regs, mask, srcs) == CheckedOperands(wide, regs, srcs)
  {
    if srcs == [] {
    } else {
      assert srcs[0] in srcs;
      ReadsAgree(wide, regs, mask, srcs[0]);
      OperandsAgree(wide, regs, mask, srcs[1..]);
    }
  }

  /** The upper half of a boxed value is all ones. */
  lemma BoxUpper(v: nat)
    requires v < HALF
    ensures Upper((HALF - 1) * HALF + v) == HALF - 1 && (HALF - 1) * HALF + v < WORD
  {
  }

  lemma WriteKeepsBoxed(wide: bool, regs: Regs, mask: set<nat>, i: Instr, v: nat)
    requires ValidRegs(regs) && Boxed(wide, regs, mask) && ValidInstr(i)
    ensures ValidRegs(Written(wide, regs, i, v)) && Boxed(wide, Written(wide, regs, i, v), NewMask(wide, mask, i))
  {
    BoxUpper(v % HALF);
  }

  /** Along any straight-line block, leaving out the tests gives the same registers. */
  lemma {:induction false} ElisionPreserves(wide: bool, regs: Regs, mask: set<nat>, block: seq<Instr>)
    requires ValidRegs(regs) && ValidBlock(block) && Boxed(wide, regs, mask)
    ensures RunElided(wide, regs, mask, block) == RunChecked(wide, regs, block)
    decreases |block|
  {
    if block == [] {
    } else {
      var i := block[0];
      OperandsAgree(wide, regs, mask, i.srcs);
      var v := i.compute(CheckedOperands(wide, regs, i.srcs));
      WriteKeepsBoxed(wide, regs, mask, i, v);
      ElisionPreserves(wide, Written(wide, regs, i, v), NewMask(wide, mask, i), block[1..]);
    }
  }

  /** A block starts with an empty mask (riscvStartBlock). */
  lemma BlockPreserves(wide: bool, regs: Regs, block: seq<Instr>)
    requires ValidRegs(regs) && ValidBlock(block)
    ensures RunElided(wide, regs, {}, block) == RunChecked(wide, regs, block)
  {
    ElisionPreserves(wide, regs, {}, block);
  }

  // ---- As the source runs it ----

  class Unit {
    const wide: bool
    var regs: Regs
    var fpNaNBoxMask: set<nat>

    ghost predicate Valid()
      reads this
    {
      ValidRegs(regs) && Boxed(wide, regs, fpNaNBoxMask)
    }

    constructor (wide: bool, regs: Regs)
      requires ValidRegs(regs)
      ensures Valid() && this.wide == wide && this.regs == regs && fpNaNBoxMask == {}
    {
      this.wide, this.regs, fpNaNBoxMask := wide, regs, {};
    }

    /** riscvGetVMIRegFS and the code it emits: the operand is the one the rule demands although the test may
        be left out. */
    method ReadOperand(s: Source) returns (v: nat)
      requires Valid() && s.reg < 32
      ensures v == CheckedRead(wide, regs, s)
    {
      v := if s.single then regs[s.reg] % HALF else regs[s.reg];
      if s.single && wide && s.reg !in fpNaNBoxMask {
        if Upper(regs[s.reg]) != HALF - 1 {
          v := DEFAULT_QNAN;
        }
      }
    }

    /** riscvWriteRegSize, after the result has been written to the lower part of the register: the result
        reads back, and a double-precision read of a boxed single is a NaN pattern. */
    method WriteRegSize(i: Instr, v: nat)
      requires Valid() && ValidInstr(i)
      modifies `regs, `fpNaNBoxMask
      ensures Valid() && regs == Written(wide, old(regs), i, v)
      ensures CheckedRead(wide, regs, Source(i.dst, i.single)) == if i.single then v % HALF else v % WORD
      ensures i.single && wide ==> Upper(regs[i.dst]) == HALF - 1 && i.dst in fpNaNBoxMask
      ensures forall r :: r in old(regs) && r != i.dst ==> regs[r] == old(regs)[r]
    {
      WriteKeepsBoxed(wide, regs, fpNaNBoxMask, i, v);
      BoxUpper(v % HALF);
      var value := if i.single then v % HALF else v % WORD;
      if wide && i.single {
        value := (HALF - 1) * HALF + value;
        fpNaNBoxMask := fpNaNBoxMask + {i.dst};
      } else {
        fpNaNBoxMask := fpNaNBoxMask - {i.dst};
      }
      regs := regs[i.dst := value];
    }

    /** A block translated with the mask leaves the registers that the rule demands. */
    method RunBlock(block: seq<Instr>)
      requires ValidRegs(regs) && ValidBlock(block)
      modifies `regs, `fpNaNBoxMask
      ensures Valid() && regs == RunChecked(wide, old(regs), block)
    {
      fpNaNBoxMask := {};
      var k := 0;
      assert block[0..] == block;
      while k < |block|
        invariant 0 <= k <= |block| && Valid()
        invariant RunChecked(wide, regs, block[k..]) == RunChecked(wide, old(regs), block)
      {
        var i := block[k];
        var operands := ReadOperands(i.srcs);
        assert block[k..][1..] == block[k + 1..];
        WriteRegSize(i, i.compute(operands));
        k := k + 1;
      }
    }

    method ReadOperands(srcs: seq<Source>) returns (values: seq<nat>)
      requires Valid() && forall s :: s in srcs ==> s.reg < 32
      ensures values == CheckedOperands(wide, regs, srcs)
    {
      values := [];
      var k := |srcs|;
      while k > 0
        invariant 0 <= k <= |srcs| && values == CheckedOperands(wide, regs, srcs[k..])
      {
        k := k - 1;
        var v := ReadOperand(srcs[k]);
        assert srcs[k..][1..] == srcs[k + 1..];
        values := [v] + values;
      }
    }
  }
}

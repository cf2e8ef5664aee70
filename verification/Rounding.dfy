/** The floating-point rounding mode: a run-time and a translation-time cache, both of which skip updates of
    the host rounding control. */
module Rounding {

  /** Rounding mode of an instruction, or of a cache. */
  datatype RM = NA | CURRENT | RTE | RTZ | RDN | RUP | RMM | BAD5 | BAD6

  /** Rounding control of the host. */
  datatype RC = Nearest | Zero | NegInf | PosInf | Away | Unset

  /** frm and the run-time cache, the host's rounding control, the cache of the block being translated, and
      whether execution is still inside that block. */
  datatype Fpu = Fpu(frm: nat, active: RM, host: RC, known: RM, inBlock: bool)

  // ---- What is asked for ----

  /** The mode a legal instruction asks for: its own, or the one in frm. Ties away from zero are not done by
      the host. */
  function Requested(rm: RM, frm: nat): RC {
    match rm
    case RTE => Nearest
    case RTZ => Zero
    case RDN => NegInf
    case RUP => PosInf
    case RMM => Away
    case CURRENT =>
      if frm == 0 then Nearest else if frm == 1 then Zero else if frm == 2 then NegInf
      else if frm == 3 then PosInf else if frm == 4 then Away else Unset
    case _ => Unset
  }

  predicate Legal(rm: RM, frm: nat) {
    Requested(rm, frm) != Unset
  }

  // ---- What the source does ----

  /** mapRMDescToRC; for NA, CURRENT and the illegal modes the table holds no rounding of its own. */
  function MapRM(rm: RM): RC {
    match rm
    case RTE => Nearest
    case RTZ => Zero
    case RDN => NegInf
    case RUP => PosInf
    case RMM => Away
    case _ => Unset
  }

  /** mapFRMToRC; Unset stands for the invalid values 5 to 7. */
  function MapFrm(frm: nat): RC {
    match frm
    case 0 => Nearest
    case 1 => Zero
    case 2 => NegInf
    case 3 => PosInf
    case 4 => Away
    case _ => Unset
  }

  /** setFPCW */
  function SetHost(f: Fpu, rc: RC): Fpu {
    if rc != Away then f.(host := rc) else f
  }

  /** refreshFPCW; an invalid frm raises an exception, which leaves the block. */
  function Refresh(f: Fpu, rm: RM): Fpu {
    if rm == CURRENT then
      if MapFrm(f.frm) == Unset then f.(inBlock := false)
      else SetHost(f, MapFrm(f.frm)).(active := CURRENT)
    else SetHost(f, MapRM(rm)).(active := rm)
  }

  /** emitSetRM together with the code it emits; an illegal mode in the instruction raises an exception. */
  function SetRM(f: Fpu, rm: RM): Fpu {
    if rm == BAD5 || rm == BAD6 then f.(inBlock := false)
    else if f.known == rm then f
    else
      var f1 := if f.active == rm then f else Refresh(f, rm);
      f1.(known := rm)
  }

  /** frmW and fcsrW, with the end of the assumption in the block. */
  function WriteFrm(f: Fpu, frm: nat): Fpu {
    f.(frm := frm, active := if f.frm != frm && f.active == CURRENT then NA else f.active, known := NA)
  }

  /** riscvStartBlock */
  function StartBlock(f: Fpu): Fpu {
    f.(known := NA, inBlock := true)
  }

  // ---- Soundness of the caches ----

  ghost predicate Sound(f: Fpu) {
    && f.active !in {BAD5, BAD6}
    && (f.active in {RTE, RTZ, RDN, RUP} ==> f.host == MapRM(f.active))
    && (f.active == CURRENT ==> Legal(CURRENT, f.frm) && (f.frm < 4 ==> f.host == MapFrm(f.frm)))
    && (f.inBlock && f.known != NA ==> f.known == f.active)
  }

  datatype Event = Operate(rm: RM) | FrmWrite(frm: nat) | Begin

  /** Instructions run inside a block; after an exception a new block begins. Operations that do not round,
      such as FMIN and FNEG, carry no rounding mode (NA) but go through the same code. */
  predicate Allowed(f: Fpu, e: Event) {
    match e
    case Operate(_) => f.inBlock
    case FrmWrite(frm) => f.inBlock && frm < 8
    case Begin => true
  }

  function Step(f: Fpu, e: Event): Fpu {
    match e
    case Operate(rm) => SetRM(f, rm)
    case FrmWrite(frm) => WriteFrm(f, frm)
    case Begin => StartBlock(f)
  }

  lemma StepSound(f: Fpu, e: Event)
    requires Sound(f) && Allowed(f, e)
    ensures Sound(Step(f, e))
  {
  }

  /** In a sound state an operation goes on exactly if its mode is legal, and then, unless it rounds ties
      away, the host rounds as asked. */
  lemma HostRoundsAsAsked(f: Fpu, rm: RM)
    requires Sound(f) && Allowed(f, Operate(rm)) && rm != NA
    ensures var f' := SetRM(f, rm);
            && f'.frm == f.frm
            && (f'.inBlock <==> Legal(rm, f.frm))
            && (Legal(rm, f.frm) && Requested(rm, f.frm) != Away ==> f'.host == Requested(rm, f.frm))
  {
  }

  ghost predicate Run(states: seq<Fpu>, events: seq<Event>) {
    && |states| == |events| + 1 && states[0].active == NA && !states[0].inBlock
    && forall i :: 0 <= i < |events| ==> Allowed(states[i], events[i]) && states[i + 1] == Step(states[i], events[i])
  }

  lemma {:induction false} AlwaysSound(states: seq<Fpu>, events: seq<Event>, i: nat)
    requires Run(states, events) && i <= |events|
    ensures Sound(states[i])
    decreases i
  {
    if i > 0 {
      AlwaysSound(states, events, i - 1);
      StepSound(states[i - 1], events[i - 1]);
    }
  }

  /** For every sequence of operations and frm writes, however it is split into blocks, each operation that
      rounds is performed with the rounding it asks for, and exactly the illegal ones raise an exception. */
  lemma EveryOperationRounds(states: seq<Fpu>, events: seq<Event>, i: nat)
    requires Run(states, events) && i < |events| && events[i].Operate? && events[i].rm != NA
    ensures var rm, frm := events[i].rm, states[i].frm;
            && (states[i + 1].inBlock <==> Legal(rm, frm))
            && (Legal(rm, frm) && Requested(rm, frm) != Away ==> states[i + 1].host == Requested(rm, frm))
  {
    AlwaysSound(states, events, i);
    HostRoundsAsAsked(states[i], events[i].rm);
  }

  // ---- As the source runs it ----

  class Unit {
    var frm: nat
    var fpActiveRM: RM
    var host: RC
    var fpActiveRMMT: RM
    var inBlock: bool

    ghost function St(): Fpu
      reads this
    {
      Fpu(frm, fpActiveRM, host, fpActiveRMMT, inBlock)
    }

    ghost predicate Valid()
      reads this
    {
      Sound(St())
    }

    constructor ()
      ensures Valid() && frm == 0 && fpActiveRM == NA && !inBlock
    {
      frm, fpActiveRM, host, fpActiveRMMT, inBlock := 0, NA, Nearest, NA, false;
    }

    method SetFPCW(rc: RC)
      modifies `host
      ensures host == if rc != Away then rc else old(host)
    {
      if rc != Away {
        host := rc;
      }
    }

    /** Afterwards, unless frm is invalid, the host rounds as asked and the run-time cache says so; an invalid
        frm leaves the block and every cache as it was. */
    method RefreshFPCW(rm: RM)
      requires rm != BAD5 && rm != BAD6
      modifies `fpActiveRM, `host, `inBlock
      ensures St() == Refresh(old(St()), rm)
      ensures rm == NA || Legal(rm, frm) ==> fpActiveRM == rm && inBlock == old(inBlock)
      ensures Legal(rm, frm) && Requested(rm, frm) != Away ==> host == Requested(rm, frm)
      ensures rm != NA && !Legal(rm, frm) ==> !inBlock && host == old(host) && fpActiveRM == old(fpActiveRM)
    {
      if rm == CURRENT {
        var rc := MapFrm(frm);
        if rc == Unset {
          inBlock := false;
        } else {
          SetFPCW(rc);
          fpActiveRM := CURRENT;
        }
      } else {
        SetFPCW(MapRM(rm));
        fpActiveRM := rm;
      }
    }

    /** Whatever either cache skips, the operation that follows rounds as it asks, or has raised its
        exception. */
    method EmitSetRM(rm: RM)
      requires Valid() && inBlock
      modifies `fpActiveRM, `host, `fpActiveRMMT, `inBlock
      ensures Valid() && St() == SetRM(old(St()), rm)
      ensures rm != NA ==> (inBlock <==> Legal(rm, frm))
      ensures Legal(rm, frm) && Requested(rm, frm) != Away ==> host == Requested(rm, frm)
    {
      if rm == BAD5 || rm == BAD6 {
        inBlock := false;
      } else if fpActiveRMMT != rm {
        if fpActiveRM != rm {
          RefreshFPCW(rm);
        }
        fpActiveRMMT := rm;
      }
    }

    /** A write of frm leaves no cache that speaks of the old value. */
    method FrmW(newRM: nat)
      requires Valid() && inBlock
      modifies `frm, `fpActiveRM, `fpActiveRMMT
      ensures Valid() && St() == WriteFrm(old(St()), newRM)
      ensures frm == newRM && (fpActiveRM == CURRENT ==> newRM == old(frm))
    {
      var oldRM := frm;
      frm := newRM;
      if oldRM != newRM && fpActiveRM == CURRENT {
        fpActiveRM := NA;
      }
      fpActiveRMMT := NA;
    }

    /** A block may start anywhere: the run-time cache carries over, the block's own does not. */
    method BeginBlock()
      requires Valid()
      modifies `fpActiveRMMT, `inBlock
      ensures Valid() && St() == StartBlock(old(St()))
    {
      fpActiveRMMT := NA;
      inBlock := true;
    }
  }
}

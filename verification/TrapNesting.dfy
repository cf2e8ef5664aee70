/** Nested traps: how many interrupts can follow each other, and that returns undo traps. */
module TrapNesting {
  import opened Access
  import opened Hart
  import opened HartRuns

  // ---- Interrupts taken back to back ----

  function Rank(mode: Mode): nat {
    match mode case U => 0 case S => 1 case M => 2
  }

  /** Consecutive fetches each of which takes an interrupt. */
  ghost predicate BackToBack(c: Config, states: seq<State>, chosen: seq<nat>) {
    && |states| == |chosen| + 1
    && forall j :: 0 <= j < |chosen| ==>
         IsMax(PendingEnabled(states[j]), chosen[j]) && states[j + 1] == FetchStep(c, states[j], chosen[j])
  }

  /** Each interrupt after the first goes to a higher mode than the one before. */
  lemma {:induction false} Climbing(c: Config, states: seq<State>, chosen: seq<nat>, j: nat)
    requires BackToBack(c, states, chosen) && 1 <= j <= |chosen|
    ensures Rank(Cur(states[j])) >= j - 1
    ensures forall i :: i in PendingEnabled(states[j]) ==>
      Level(Delegated(states[j].irq.mideleg, states[j].irq.sideleg, i)) > Level(Cur(states[j]))
    decreases j
  {
    var st, x := states[j - 1], chosen[j - 1];
    assert IsMax(PendingEnabled(st), x) && states[j - 1 + 1] == FetchStep(c, st, x);
    TakenToDelegated(st, x);
    if j > 1 {
      Climbing(c, states, chosen, j - 1);
    }
    forall i | i in PendingEnabled(states[j])
      ensures Level(Delegated(st.irq.mideleg, st.irq.sideleg, i)) > Level(Cur(states[j]))
    {
      TrapNeverAdds(c, st, true, x, 0, i);
    }
  }

  /** At most three interrupts are taken before an instruction of a handler runs. */
  lemma AtMostThree(c: Config, states: seq<State>, chosen: seq<nat>)
    requires BackToBack(c, states, chosen)
    ensures |chosen| <= 3
  {
    if |chosen| > 3 {
      Climbing(c, states, chosen, 3);
      assert false;
    }
  }

  /** Three do occur: a User, a Supervisor and a Machine interrupt, numbered downwards. */
  lemma ThreeOccur(c: Config, st: State) returns (states: seq<State>, chosen: seq<nat>)
    requires Cur(st) == U && st.traps.u.ie && Pending(st.irq) == {8, 5, 3}
    requires st.irq.mideleg == {8, 5} && st.irq.sideleg == {8}
    ensures BackToBack(c, states, chosen) && |chosen| == 3 && states[0] == st
  {
    var st1 := TakeAt(c, st, 8, U);
    var st2 := TakeAt(c, st1, 5, S);
    var st3 := TakeAt(c, st2, 3, M);
    states, chosen := [st, st1, st2, st3], [8, 5, 3];
  }

  lemma TakeAt(c: Config, st: State, i: nat, x: Mode) returns (st': State)
    requires Pending(st.irq) == {8, 5, 3} && st.irq.mideleg == {8, 5} && st.irq.sideleg == {8}
    requires i in {8, 5, 3} && x == Delegated(st.irq.mideleg, st.irq.sideleg, i)
    requires EffectiveIE(Cur(st), st.traps, x)
    requires forall j :: j in {8, 5, 3} && j > i ==> !EffectiveIE(Cur(st), st.traps, Delegated(st.irq.mideleg, st.irq.sideleg, j))
    ensures IsMax(PendingEnabled(st), i) && st' == FetchStep(c, st, i)
    ensures st'.irq == st.irq && Cur(st') == x && !BankOf(st'.traps, x).ie
  {
    EnabledMeaning(Cur(st), st.traps, st.irq, i);
    forall j | j in PendingEnabled(st)
      ensures j <= i
    {
      EnabledMeaning(Cur(st), st.traps, st.irq, j);
    }
    TakenToDelegated(st, i);
    st' := FetchStep(c, st, i);
  }

  // ---- Returns undo traps ----

  /** What runs in one mode: instructions and events that leave the trap registers alone, and traps with what
      their handler runs before it returns. */
  datatype Body =
    | End
    | Do(op: Op, rest: Body)
    | Nested(isInterrupt: bool, code: nat, tval: nat, handler: Body, rest: Body)

  /** Anything but another trap, return or write of the status and trap registers. */
  predicate Quiet(op: Op) {
    !(op.Raise? || op.Fetch? || op.Leave? || op.Nmi? || op.StatusWrite? || op.VectorWrite? || op.EpcWrite?)
  }

  function TargetOf(st: State, isInterrupt: bool, code: nat): Mode {
    ModeX(st.irq, Cur(st), isInterrupt, code)
  }

  /** A trap, its handler and the matching return. */
  function Visit(c: Config, st: State, isInterrupt: bool, code: nat, tval: nat, handler: Body): State
    requires ValidConfig(c)
    decreases handler, 1
  {
    Return(c, Exec(c, TakeException(c, st, isInterrupt, code, tval), handler), TargetOf(st, isInterrupt, code))
  }

  function Exec(c: Config, st: State, b: Body): State
    requires ValidConfig(c)
    decreases b, 0
  {
    match b
    case End => st
    case Do(op, rest) => Exec(c, Step(c, st, op), rest)
    case Nested(isInterrupt, code, tval, handler, rest) =>
      Exec(c, Visit(c, st, isInterrupt, code, tval, handler), rest)
  }

  /** Every trap goes to a higher mode than the one it interrupts, and no step switches the width of the
      registers. */
  ghost predicate Climbs(c: Config, st: State, b: Body)
    requires ValidConfig(c)
    decreases b
  {
    match b
    case End => true
    case Do(op, rest) =>
      && Quiet(op) && Enabled(c, st, op) && Narrow(Step(c, st, op).derived.arch) == Narrow(st.derived.arch)
      && Climbs(c, Step(c, st, op), rest)
    case Nested(isInterrupt, code, tval, handler, rest) =>
      && code < 32 && Level(TargetOf(st, isInterrupt, code)) > Level(Cur(st))
      && Climbs(c, TakeException(c, st, isInterrupt, code, tval), handler)
      && Climbs(c, Visit(c, st, isInterrupt, code, tval, handler), rest)
  }

  /** The field for the previous mode holds every mode a trap can come from: in Supervisor mode one bit is
      enough. */
  lemma NoTruncation(q: Irq, cur: Mode, isInterrupt: bool, code: nat)
    ensures var x := ModeX(q, cur, isInterrupt, code);
            x != U ==> PPField(x, Level(cur)) == Level(cur) && ModeOf(PPField(x, Level(cur))) == cur
  {
  }

  /** The return that matches a trap is legal in the mode the trap enters. */
  lemma ReturnIsLegal(c: Config, st: State, isInterrupt: bool, code: nat, tval: nat)
    requires ValidConfig(c) && Implemented(c, Cur(st)) && DelegationInv(c, st.irq)
    ensures MayReturn(c, Cur(TakeException(c, st, isInterrupt, code, tval)), TargetOf(st, isInterrupt, code))
  {
    DelegatedImplemented(c, st.irq, code);
  }

  /** The registers of the modes up to and including x, or below x. */
  ghost predicate SameUpTo(t: Traps, t': Traps, x: Mode) {
    forall y: Mode :: Level(y) <= Level(x) ==> BankOf(t', y) == BankOf(t, y)
  }

  ghost predicate SameBelow(t: Traps, t': Traps, x: Mode) {
    forall y: Mode :: Level(y) < Level(x) ==> BankOf(t', y) == BankOf(t, y)
  }

  ghost predicate SameIE(t: Traps, t': Traps) {
    forall y: Mode :: BankOf(t', y).ie == BankOf(t, y).ie
  }

  /** What code can rely on while higher modes handle traps. */
  ghost predicate Undisturbed(c: Config, st: State, st': State) {
    && Cur(st') == Cur(st) && SameIE(st.traps, st'.traps) && SameUpTo(st.traps, st'.traps, Cur(st))
    && DelegationInv(c, st'.irq)
  }

  lemma QuietFrame(c: Config, st: State, op: Op)
    requires ValidConfig(c) && Quiet(op)
    ensures Step(c, st, op).traps == st.traps && Cur(Step(c, st, op)) == Cur(st)
  {
  }

  lemma TrapFrame(c: Config, st: State, isInterrupt: bool, code: nat, tval: nat)
    ensures var x, st1 := TargetOf(st, isInterrupt, code), TakeException(c, st, isInterrupt, code, tval);
            && Cur(st1) == x && st1.irq == st.irq
            && BankOf(st1.traps, x).pie == BankOf(st.traps, x).ie
            && BankOf(st1.traps, x).epc == AlignPC(c, st.pc)
            && BankOf(st1.traps, x).pp == PPField(x, Level(Cur(st)))
            && forall y: Mode :: y != x ==> BankOf(st1.traps, y) == BankOf(st.traps, y)
  {
  }

  /** A return undoes its trap if the handler has left the registers of its mode and below as it found them. */
  lemma ReturnUndoes(c: Config, st: State, isInterrupt: bool, code: nat, tval: nat, inner: State)
    requires ValidConfig(c) && Implemented(c, Cur(st))
    requires Undisturbed(c, TakeException(c, st, isInterrupt, code, tval), inner)
    ensures var x := TargetOf(st, isInterrupt, code);
            var st' := Return(c, inner, x);
            && Cur(st') == Cur(st) && st'.pc == AlignPC(c, st.pc) && DelegationInv(c, st'.irq)
            && SameIE(st.traps, st'.traps) && SameBelow(st.traps, st'.traps, x)
  {
    TrapFrame(c, st, isInterrupt, code, tval);
    NoTruncation(st.irq, Cur(st), isInterrupt, code);
  }

  /** However many traps to higher modes interrupt it, one after another or nested, code finds its mode, all
      interrupt enable bits and the trap registers of its mode and below as they were. */
  lemma {:induction false} BodyIsUndisturbed(c: Config, st: State, b: Body)
    requires ValidConfig(c) && Implemented(c, Cur(st)) && DelegationInv(c, st.irq) && Climbs(c, st, b)
    ensures Undisturbed(c, st, Exec(c, st, b))
    decreases b, 0
  {
    match b
    case End =>
    case Do(op, rest) =>
      QuietFrame(c, st, op);
      StepDelegation(c, st, op);
      BodyIsUndisturbed(c, Step(c, st, op), rest);
    case Nested(isInterrupt, code, tval, handler, rest) =>
      VisitRestores(c, st, isInterrupt, code, tval, handler);
      BodyIsUndisturbed(c, Visit(c, st, isInterrupt, code, tval, handler), rest);
  }

  /** A trap, a handler that may itself be interrupted by any chain or tree of traps to higher modes, and the
      matching return restore the mode, the program counter and all interrupt enable bits, and do not touch
      the registers of the modes below the one that handled it. */
  lemma {:induction false} VisitRestores(c: Config, st: State, isInterrupt: bool, code: nat, tval: nat, handler: Body)
    requires ValidConfig(c) && Implemented(c, Cur(st)) && DelegationInv(c, st.irq) && code < 32
    requires Climbs(c, TakeException(c, st, isInterrupt, code, tval), handler)
    ensures var st' := Visit(c, st, isInterrupt, code, tval, handler);
            && Cur(st') == Cur(st) && st'.pc == AlignPC(c, st.pc) && DelegationInv(c, st'.irq)
            && SameIE(st.traps, st'.traps) && SameBelow(st.traps, st'.traps, TargetOf(st, isInterrupt, code))
    decreases handler, 1
  {
    var st1 := TakeException(c, st, isInterrupt, code, tval);
    TrapFrame(c, st, isInterrupt, code, tval);
    DelegatedImplemented(c, st.irq, code);
    BodyIsUndisturbed(c, st1, handler);
    ReturnUndoes(c, st, isInterrupt, code, tval, Exec(c, st1, handler));
  }

  /** Whatever interrupts it, a handler finds the cause of its own trap: interrupt or exception, code, value and
      the address to return to are those of the trap that entered it, until it returns. */
  lemma CauseSurvives(c: Config, st: State, isInterrupt: bool, code: nat, tval: nat, handler: Body)
    requires ValidConfig(c) && Implemented(c, Cur(st)) && DelegationInv(c, st.irq) && code < 32
    requires Climbs(c, TakeException(c, st, isInterrupt, code, tval), handler)
    ensures var st' := Exec(c, TakeException(c, st, isInterrupt, code, tval), handler);
            var b := BankOf(st'.traps, Cur(st'));
            && Cur(st') == TargetOf(st, isInterrupt, code)
            && b.isInterrupt == isInterrupt && b.code == code && b.tval == tval && b.epc == AlignPC(c, st.pc)
  {
    var st1 := TakeException(c, st, isInterrupt, code, tval);
    TrapFrame(c, st, isInterrupt, code, tval);
    DelegatedImplemented(c, st.irq, code);
    BodyIsUndisturbed(c, st1, handler);
  }
}

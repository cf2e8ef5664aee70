/** The page-table walk of Sv32, Sv39 and Sv48 (section 4.3.2 of the RISC-V Privileged
    Architecture v1.10), with hardware update of the accessed and dirty bits. */
module PageWalk {
  import opened Access
  import opened Bits

  /** Fields of a page table entry. */
  datatype Pte = Pte(V: bool, priv: Priv, U: bool, G: bool, A: bool, D: bool, RSW: nat, PPN: nat, top: nat)

  /** The entries the walker can read, by address, and the addresses it can write. */
  datatype Tables = Tables(pte: map<nat, Pte>, writable: set<nat>)

  datatype Scheme = Sv32 | Sv39 | Sv48

  datatype Acc = R | W | X

  /** Everything a walk depends on besides the tables and the access. */
  datatype Ctx = Ctx(
    scheme: Scheme, root: nat, asid: nat, noAsid: bool, mxr: bool, sum: bool,
    v111: bool, updateA: bool, updateD: bool)

  datatype Error = VAEXTEND | READ | WRITE | V0 | R0W1 | LEAF | ALIGN | PRIV | A0 | D0

  const LOAD_ACCESS_FAULT: nat := 5
  const STORE_ACCESS_FAULT: nat := 7
  const INSTRUCTION_PAGE_FAULT: nat := 12
  const LOAD_PAGE_FAULT: nat := 13
  const STORE_PAGE_FAULT: nat := 15

  /** handlePTWException: the exception code of a failed walk. */
  function ExceptionOf(e: Error, acc: Acc): nat {
    if e == READ then LOAD_ACCESS_FAULT
    else if e == WRITE then STORE_ACCESS_FAULT
    else match acc
      case R => LOAD_PAGE_FAULT
      case W => STORE_PAGE_FAULT
      case X => INSTRUCTION_PAGE_FAULT
  }

  /** The translation a successful walk delivers (the fields of a TLB entry it fills in). */
  datatype Translation = Translation(
    lowVA: nat, highVA: nat, PA: nat, priv: Priv, U: bool, G: bool, A: bool, D: bool)

  datatype Result = Fault(error: Error) | Ok(t: Translation)

  // ---- Address arithmetic ----

  function Levels(sc: Scheme): nat {
    match sc case Sv32 => 2 case Sv39 => 3 case Sv48 => 4
  }

  /** A leaf at level i maps an aligned block of 2^PageBits bytes. */
  function PageBits(sc: Scheme, i: nat): nat {
    if sc == Sv32 then i * 10 + 12 else i * 9 + 12
  }

  /** Bits of virtual page number per level: 10 in Sv32, 9 otherwise. */
  function VpnShift(sc: Scheme): nat {
    PageBits(sc, 1) - PageBits(sc, 0)
  }

  function Vpn(sc: Scheme, va: nat, i: nat): nat {
    Low(Shr(va, PageBits(sc, i)), VpnShift(sc))
  }

  /** Bits of a virtual address: 32, 39 or 48. */
  function VaBits(sc: Scheme): nat {
    PageBits(sc, Levels(sc))
  }

  /** The bits above the virtual address repeat its top bit (validVA); Sv32 addresses have none. */
  predicate ValidVA(sc: Scheme, va: nat) {
    var n := VaBits(sc);
    if sc == Sv32 || Low(Shr(va, n - 1), 1) == 0 then Shr(va, n) == 0
    else Shr(va, n) == Pow2(64 - n) - 1
  }

  // ---- The walk ----

  datatype Lookup = NoLeaf(error: Error) | Leaf(addr: nat, pte: Pte, level: nat)

  /** The page numbers of all levels. */
  function Vpns(sc: Scheme, va: nat): (v: seq<nat>)
    ensures |v| == Levels(sc)
    ensures forall i :: 0 <= i < Levels(sc) ==> v[i] == Vpn(sc, va, i)
  {
    seq(Levels(sc), i requires 0 <= i < Levels(sc) => Vpn(sc, va, i))
  }

  /** Address of the entry for page number vpn in table a. */
  function PteAddr(sc: Scheme, vpn: nat, a: nat): nat {
    a + vpn * (if sc == Sv32 then 4 else 8)
  }

  /** Search for the leaf of page numbers v from table a at level n - 1 downwards. */
  function FindLeaf(m: Tables, sc: Scheme, v: seq<nat>, n: nat, a: nat): Lookup
    requires n <= |v|
  {
    if n == 0 then NoLeaf(LEAF)
    else
      var addr := PteAddr(sc, v[n - 1], a);
      if addr !in m.pte then NoLeaf(READ)
      else
        var p := m.pte[addr];
        if !p.V then NoLeaf(V0)
        else if p.priv.w && !p.priv.r then NoLeaf(R0W1)
        else if p.priv != NONE then Leaf(addr, p, n - 1)
        else FindLeaf(m, sc, v, n - 1, p.PPN * 4096)
  }

  function Required(acc: Acc): Priv {
    Priv(acc == R, acc == W, acc == X)
  }

  /** The permission an entry grants in a mode, before the required permission is tested. */
  function EntryPriv(c: Ctx, mode: Mode, priv: Priv, u: bool): Priv {
    var p := if priv.x && c.mxr then priv.(r := true) else priv;
    if mode == U then (if u then p else NONE)
    else if u then
      if !c.sum then NONE
      else if c.v111 then p.(x := false)
      else p
    else p
  }

  /** checkEntryPermission */
  function CheckPriv(c: Ctx, mode: Mode, priv: Priv, u: bool, acc: Acc): Priv {
    var p := EntryPriv(c, mode, priv, u);
    if Covers(p, Required(acc)) then p else NONE
  }

  function MakeTranslation(c: Ctx, va: nat, p: Pte, level: nat): Translation {
    var low := Floor(va, PageBits(c.scheme, level));
    Translation(low, low + Pow2(PageBits(c.scheme, level)) - 1, p.PPN * 4096, p.priv, p.U, p.G || c.noAsid, p.A, p.D)
  }

  /** Update the accessed and dirty bits of a leaf and of the translation t taken from it. */
  function Settle(m: Tables, c: Ctx, acc: Acc, addr: nat, p: Pte, t: Translation): (Result, Tables) {
    if !p.A && !c.updateA then (Fault(A0), m)
    else if acc == W && !p.D && !c.updateD then (Fault(D0), m)
    else
      var p' := p.(A := true, D := p.D || acc == W);
      var t' := t.(A := true, D := p'.D);
      if p' == p then (Ok(t'), m)
      else if addr !in m.writable then (Fault(WRITE), m)
      else (Ok(t'), m.(pte := m.pte[addr := p']))
  }

  /** Test alignment and permission of the leaf and update its accessed and dirty bits. */
  function Finish(m: Tables, c: Ctx, mode: Mode, acc: Acc, va: nat, addr: nat, p: Pte, level: nat): (Result, Tables) {
    if Low(p.PPN * 4096, PageBits(c.scheme, level)) != 0 then (Fault(ALIGN), m)
    else if CheckPriv(c, mode, p.priv, p.U, acc) == NONE then (Fault(PRIV), m)
    else Settle(m, c, acc, addr, p, MakeTranslation(c, va, p, level))
  }

  function LeafFor(m: Tables, c: Ctx, va: nat): Lookup {
    FindLeaf(m, c.scheme, Vpns(c.scheme, va), Levels(c.scheme), c.root * 4096)
  }

  /** The walk, given whether the address is valid and what the search finds. */
  function WalkTo(m: Tables, c: Ctx, mode: Mode, acc: Acc, va: nat, valid: bool, l: Lookup): (Result, Tables) {
    if !valid then (Fault(VAEXTEND), m)
    else
      match l
      case NoLeaf(e) => (Fault(e), m)
      case Leaf(addr, p, level) => Finish(m, c, mode, acc, va, addr, p, level)
  }

  function Walk(m: Tables, c: Ctx, mode: Mode, acc: Acc, va: nat): (Result, Tables) {
    WalkTo(m, c, mode, acc, va, ValidVA(c.scheme, va), LeafFor(m, c, va))
  }

  // ---- Addresses under the same leaf ----

  ghost predicate InBlock(sc: Scheme, va: nat, va': nat, i: nat) {
    Shr(va, PageBits(sc, i)) == Shr(va', PageBits(sc, i))
  }

  /** Addresses in the same block agree on all bits above it. */
  lemma SameAbove(va: nat, va': nat, a: nat, b: nat)
    requires a <= b && Shr(va, a) == Shr(va', a)
    ensures Shr(va, b) == Shr(va', b)
  {
    ShrShr(va, a, b - a);
    ShrShr(va', a, b - a);
  }

  /** The page numbers agree from level i on. */
  ghost predicate SameFrom(v: seq<nat>, v': seq<nat>, i: nat) {
    |v| == |v'| && forall j :: i <= j < |v| ==> v[j] == v'[j]
  }

  /** Addresses in the same block have the same page numbers at its level and above. */
  lemma BlockVpns(sc: Scheme, va: nat, va': nat, i: nat)
    requires InBlock(sc, va, va', i)
    ensures SameFrom(Vpns(sc, va), Vpns(sc, va'), i)
  {
    forall j | i <= j < Levels(sc)
      ensures Vpns(sc, va)[j] == Vpns(sc, va')[j]
    {
      SameAbove(va, va', PageBits(sc, i), PageBits(sc, j));
    }
  }

  /** Page numbers that agree from the level of a leaf on find that leaf. */
  lemma {:induction false} LeafOfSame(m: Tables, sc: Scheme, v: seq<nat>, v': seq<nat>, n: nat, a: nat)
    requires n <= |v| && |v'| == |v|
    requires var l := FindLeaf(m, sc, v, n, a); l.Leaf? && SameFrom(v, v', l.level)
    ensures FindLeaf(m, sc, v', n, a) == FindLeaf(m, sc, v, n, a)
  {
    LeafLevel(m, sc, v, n, a);
    var addr := PteAddr(sc, v[n - 1], a);
    if m.pte[addr].priv == NONE {
      LeafOfSame(m, sc, v, v', n - 1, m.pte[addr].PPN * 4096);
    }
  }

  /** Every address in the block of a leaf finds that leaf. */
  lemma LeafOfBlock(m: Tables, sc: Scheme, va: nat, va': nat, a: nat)
    requires var l := FindLeaf(m, sc, Vpns(sc, va), Levels(sc), a); l.Leaf? && InBlock(sc, va, va', l.level)
    ensures FindLeaf(m, sc, Vpns(sc, va'), Levels(sc), a) == FindLeaf(m, sc, Vpns(sc, va), Levels(sc), a)
  {
    BlockVpns(sc, va, va', FindLeaf(m, sc, Vpns(sc, va), Levels(sc), a).level);
    LeafOfSame(m, sc, Vpns(sc, va), Vpns(sc, va'), Levels(sc), a);
  }

  lemma {:induction false} LeafLevel(m: Tables, sc: Scheme, v: seq<nat>, n: nat, a: nat)
    requires n <= |v|
    ensures var l := FindLeaf(m, sc, v, n, a);
            l.Leaf? ==> l.level < n && l.addr in m.pte && m.pte[l.addr] == l.pte && l.pte.V && l.pte.priv != NONE
  {
    if n > 0 {
      var addr := PteAddr(sc, v[n - 1], a);
      if addr in m.pte {
        LeafLevel(m, sc, v, n - 1, m.pte[addr].PPN * 4096);
      }
    }
  }

  /** Inside one leaf all addresses are canonical or none is. */
  lemma ValidVAOfBlock(sc: Scheme, va: nat, va': nat, i: nat)
    requires i < Levels(sc) && InBlock(sc, va, va', i)
    ensures ValidVA(sc, va) == ValidVA(sc, va')
  {
    assert PageBits(sc, i) <= VaBits(sc) - 1;
    SameAbove(va, va', PageBits(sc, i), VaBits(sc) - 1);
    SameAbove(va, va', PageBits(sc, i), VaBits(sc));
  }
}

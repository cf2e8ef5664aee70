/** The three page-table walkers, one per scheme, each proved equal to the generic walk. */
module Walkers {
  import opened Access
  import opened Bits
  import opened PageWalk

  /** validVA: vpn is a signed field of n bits, ext the signed field of e bits above it. */
  method ValidExtension(vpn: nat, n: nat, ext: nat, e: nat) returns (ok: bool)
    requires n > 0
    ensures ok <==> ext == if Shr(vpn, n - 1) == 0 then 0 else Pow2(e) - 1
  {
    if Shr(vpn, n - 1) == 0 {
      ok := ext == 0;
    } else {
      ok := ext == Pow2(e) - 1;
    }
  }

  /** The fields of a virtual address of n + 12 bits decide its validity. */
  lemma ValidVAOfFields(sc: Scheme, va: nat, n: nat)
    requires sc != Sv32 && n + 12 == VaBits(sc)
    ensures ValidVA(sc, va) <==>
            Shr(va, n + 12) == if Shr(Low(Shr(va, 12), n), n - 1) == 0 then 0 else Pow2(52 - n) - 1
  {
    ShrOfLow(Shr(va, 12), n - 1, 1);
    ShrShr(va, 12, n - 1);
  }

  /** Bits k and up of the low k + j bits. */
  lemma {:induction false} ShrOfLow(x: nat, k: nat, j: nat)
    ensures Shr(Low(x, k + j), k) == Low(Shr(x, k), j)
  {
    if k > 0 {
      ShrOfLow(x / 2, k - 1, j);
    }
  }

  lemma {:induction false} ShrSmall(x: nat, k: nat)
    requires x < Pow2(k)
    ensures Shr(x, k) == 0
  {
    if k > 0 {
      ShrSmall(x / 2, k - 1);
    }
  }

  /** A slice inside the low n bits. */
  lemma {:induction false} LowOfLow(x: nat, a: nat, b: nat)
    requires a <= b
    ensures Low(Low(x, b), a) == Low(x, a)
  {
    if a > 0 {
      LowOfLow(x / 2, a - 1, b - 1);
    }
  }

  /** A slice of the low n bits is a slice of the whole. */
  lemma SliceOfLow(x: nat, n: nat, k: nat, j: nat)
    requires k + j <= n
    ensures Low(Shr(Low(x, n), k), j) == Low(Shr(x, k), j)
  {
    ShrOfLow(x, k, n - k);
    LowOfLow(Shr(x, k), j, n - k);
  }

  /** va & -2^k in a word of w bits */
  method RoundDown(va: nat, w: nat, k: nat) returns (low: nat)
    requires va < Pow2(w) && k <= w
    ensures low == Floor(va, k)
  {
    AndHigh(w, va, k);
    low := And(va, Pow2(w) - Pow2(k));
  }

  /** pa & (2^k - 1) */
  method OffsetBits(pa: nat, k: nat) returns (offset: nat)
    ensures offset == Low(pa, k)
  {
    AndLow(pa, k);
    offset := And(pa, Pow2(k) - 1);
  }

  /** The part shared by the walkers: fill the entry from the leaf, test it, and write the leaf back if an
      accessed or dirty bit changed. The virtual address has w bits. */
  method FillEntry(m: Tables, c: Ctx, mode: Mode, acc: Acc, va: nat, w: nat, addr: nat, p: Pte, level: nat)
    returns (r: Result, m': Tables)
    requires va < Pow2(w) && PageBits(c.scheme, level) <= w
    ensures (r, m') == Finish(m, c, mode, acc, va, addr, p, level)
  {
    var bits := PageBits(c.scheme, level);
    var offset := OffsetBits(p.PPN * 4096, bits);
    if offset != 0 {
      return Fault(ALIGN), m;
    }
    var lowVA := RoundDown(va, w, bits);
    var entry := Translation(lowVA, lowVA + Pow2(bits) - 1, p.PPN * 4096, p.priv, p.U, p.G || c.noAsid, p.A, p.D);
    if CheckPriv(c, mode, entry.priv, entry.U, acc) == NONE {
      return Fault(PRIV), m;
    }
    r, m' := UpdateAD(m, c, acc, addr, p, entry);
  }

  /** Set the accessed and dirty bits of the leaf and the entry as the access demands. */
  method UpdateAD(m: Tables, c: Ctx, acc: Acc, addr: nat, pte: Pte, filled: Translation)
    returns (r: Result, m': Tables)
    requires filled.A == pte.A && filled.D == pte.D
    ensures (r, m') == Settle(m, c, acc, addr, pte, filled)
  {
    m' := m;
    var entry, p := filled, pte;
    var doWrite := false;
    if entry.A {
    } else if !c.updateA {
      return Fault(A0), m;
    } else {
      entry, p := entry.(A := true), p.(A := true);
      doWrite := true;
    }
    if entry.D || acc != W {
    } else if !c.updateD {
      return Fault(D0), m;
    } else {
      entry, p := entry.(D := true), p.(D := true);
      doWrite := true;
    }
    if doWrite {
      if addr !in m.writable {
        return Fault(WRITE), m;
      }
      m' := m.(pte := m.pte[addr := p]);
    }
    r := Ok(entry);
  }

  /** (VPN >> k) & mask(j), of the page number field of n bits above the page offset */
  method VpnSlice(sc: Scheme, va: nat, n: nat, i: nat, k: nat, j: nat) returns (vpn: nat)
    requires n == VaBits(sc) - 12 && i < Levels(sc) && k == PageBits(sc, i) - 12 && j == VpnShift(sc)
    ensures vpn == Vpn(sc, va, i)
  {
    vpn := Slice(va, PageBits(sc, 0), n, k, j);
  }

  method Slice(x: nat, o: nat, n: nat, k: nat, j: nat) returns (r: nat)
    requires k + j <= n
    ensures r == Low(Shr(x, o + k), j)
  {
    SliceOfLow(Shr(x, o), n, k, j);
    ShrShr(x, o, k);
    r := Low(Shr(Low(Shr(x, o), n), k), j);
  }

  /** One turn of the loop: read the entry at addr, and stop at an error or a leaf or go on to the next table. */
  method ReadLevel(m: Tables, sc: Scheme, ghost v: seq<nat>, i: nat, a: nat, addr: nat)
    returns (done: bool, l: Lookup, next: nat)
    requires i < |v| && addr == PteAddr(sc, v[i], a)
    ensures done ==> l == FindLeaf(m, sc, v, i + 1, a)
    ensures !done ==> FindLeaf(m, sc, v, i, next) == FindLeaf(m, sc, v, i + 1, a)
  {
    if addr !in m.pte {
      return true, NoLeaf(READ), a;
    }
    var p := m.pte[addr];
    if !p.V {
      return true, NoLeaf(V0), a;
    } else if p.priv.w && !p.priv.r {
      return true, NoLeaf(R0W1), a;
    } else if p.priv != NONE {
      return true, Leaf(addr, p, i), a;
    }
    return false, NoLeaf(LEAF), p.PPN * 4096;
  }

  /** getSv32VPNi */
  method GetSv32VPNi(va: nat, i: nat) returns (vpn: nat)
    requires i < 2
    ensures vpn == Vpn(Sv32, va, i)
  {
    vpn := VpnSlice(Sv32, va, 20, i, i * 10, 10);
  }

  /** The table walk loop of tlbLookupSv32 */
  method SearchSv32(m: Tables, sc: Scheme, va: nat, root: nat) returns (l: Lookup)
    requires sc == Sv32
    ensures l == FindLeaf(m, sc, Vpns(sc, va), Levels(sc), root * 4096)
  {
    ghost var v, found := Vpns(sc, va), FindLeaf(m, sc, Vpns(sc, va), Levels(sc), root * 4096);
    var i: int, a: nat := 1, root * 4096;
    while i >= 0
      invariant -1 <= i <= 1
      invariant FindLeaf(m, sc, v, i + 1, a) == found
    {
      var vpn := GetSv32VPNi(va, i);
      var done: bool;
      done, l, a := ReadLevel(m, sc, v, i, a, a + vpn * 4);
      if done {
        return l;
      }
      i := i - 1;
    }
    return NoLeaf(LEAF);
  }

  method TlbLookupSv32(m: Tables, c: Ctx, mode: Mode, acc: Acc, va: nat) returns (r: Result, m': Tables)
    requires c.scheme == Sv32 && va < Pow2(32)
    ensures (r, m') == Walk(m, c, mode, acc, va)
  {
    ShrSmall(va, 32);
    var l := SearchSv32(m, c.scheme, va, c.root);
    LeafLevel(m, c.scheme, Vpns(c.scheme, va), Levels(c.scheme), c.root * 4096);
    match l {
      case NoLeaf(e) => r, m' := Fault(e), m;
      case Leaf(addr, p, level) => r, m' := FillEntry(m, c, mode, acc, va, 32, addr, p, level);
    }
  }

  /** getSv39VPNi */
  method GetSv39VPNi(va: nat, i: nat) returns (vpn: nat)
    requires i < 3
    ensures vpn == Vpn(Sv39, va, i)
  {
    vpn := VpnSlice(Sv39, va, 27, i, i * 9, 9);
  }

  method ValidSv39VA(va: nat) returns (ok: bool)
    ensures ok <==> ValidVA(Sv39, va)
  {
    ValidVAOfFields(Sv39, va, 27);
    ok := ValidExtension(Low(Shr(va, 12), 27), 27, Shr(va, 39), 25);
  }

  /** The table walk loop of tlbLookupSv39 */
  method SearchSv39(m: Tables, sc: Scheme, va: nat, root: nat) returns (l: Lookup)
    requires sc == Sv39
    ensures l == FindLeaf(m, sc, Vpns(sc, va), Levels(sc), root * 4096)
  {
    ghost var v, found := Vpns(sc, va), FindLeaf(m, sc, Vpns(sc, va), Levels(sc), root * 4096);
    var i: int, a: nat := 2, root * 4096;
    while i >= 0
      invariant -1 <= i <= 2
      invariant FindLeaf(m, sc, v, i + 1, a) == found
    {
      var vpn := GetSv39VPNi(va, i);
      var done: bool;
      done, l, a := ReadLevel(m, sc, v, i, a, a + vpn * 8);
      if done {
        return l;
      }
      i := i - 1;
    }
    return NoLeaf(LEAF);
  }

  method TlbLookupSv39(m: Tables, c: Ctx, mode: Mode, acc: Acc, va: nat) returns (r: Result, m': Tables)
    requires c.scheme == Sv39 && va < Pow2(64)
    ensures (r, m') == Walk(m, c, mode, acc, va)
  {
    var valid := ValidSv39VA(va);
    if !valid {
      return Fault(VAEXTEND), m;
    }
    var l := SearchSv39(m, c.scheme, va, c.root);
    LeafLevel(m, c.scheme, Vpns(c.scheme, va), Levels(c.scheme), c.root * 4096);
    match l {
      case NoLeaf(e) => r, m' := Fault(e), m;
      case Leaf(addr, p, level) => r, m' := FillEntry(m, c, mode, acc, va, 64, addr, p, level);
    }
  }

  /** getSv48VPNi */
  method GetSv48VPNi(va: nat, i: nat) returns (vpn: nat)
    requires i < 4
    ensures vpn == Vpn(Sv48, va, i)
  {
    vpn := VpnSlice(Sv48, va, 36, i, i * 9, 9);
  }

  method ValidSv48VA(va: nat) returns (ok: bool)
    ensures ok <==> ValidVA(Sv48, va)
  {
    ValidVAOfFields(Sv48, va, 36);
    ok := ValidExtension(Low(Shr(va, 12), 36), 36, Shr(va, 48), 16);
  }

  /** The table walk loop of tlbLookupSv48 */
  method SearchSv48(m: Tables, sc: Scheme, va: nat, root: nat) returns (l: Lookup)
    requires sc == Sv48
    ensures l == FindLeaf(m, sc, Vpns(sc, va), Levels(sc), root * 4096)
  {
    ghost var v, found := Vpns(sc, va), FindLeaf(m, sc, Vpns(sc, va), Levels(sc), root * 4096);
    var i: int, a: nat := 3, root * 4096;
    while i >= 0
      invariant -1 <= i <= 3
      invariant FindLeaf(m, sc, v, i + 1, a) == found
    {
      var vpn := GetSv48VPNi(va, i);
      var done: bool;
      done, l, a := ReadLevel(m, sc, v, i, a, a + vpn * 8);
      if done {
        return l;
      }
      i := i - 1;
    }
    return NoLeaf(LEAF);
  }

  method TlbLookupSv48(m: Tables, c: Ctx, mode: Mode, acc: Acc, va: nat) returns (r: Result, m': Tables)
    requires c.scheme == Sv48 && va < Pow2(64)
    ensures (r, m') == Walk(m, c, mode, acc, va)
  {
    var valid := ValidSv48VA(va);
    if !valid {
      return Fault(VAEXTEND), m;
    }
    var l := SearchSv48(m, c.scheme, va, c.root);
    LeafLevel(m, c.scheme, Vpns(c.scheme, va), Levels(c.scheme), c.root * 4096);
    match l {
      case NoLeaf(e) => r, m' := Fault(e), m;
      case Leaf(addr, p, level) => r, m' := FillEntry(m, c, mode, acc, va, 64, addr, p, level);
    }
  }
}

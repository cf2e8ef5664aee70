/** What the page-table walk guarantees: it computes the translation of section 4.3.2, its accessed and
    dirty bit updates are confined to the leaf, and they never change what another walk returns. */
module WalkProperties {
  import opened Access
  import opened Bits
  import opened PageWalk

  // ---- The translation process, stated over paths of table entries ----

  predicate IsPointer(p: Pte) {
    p.V && p.priv == NONE
  }

  predicate IsLeaf(p: Pte) {
    p.V && p.priv != NONE && !(p.priv.w && !p.priv.r)
  }

  /** path lists the entries visited for page numbers v from table a with n levels left: pointers up to the
      last, which is a leaf. */
  ghost predicate IsPath(m: Tables, sc: Scheme, v: seq<nat>, n: nat, a: nat, path: seq<nat>)
    requires n <= |v|
    decreases |path|
  {
    && 0 < |path| <= n && path[0] == PteAddr(sc, v[n - 1], a) && path[0] in m.pte
    && if |path| == 1 then IsLeaf(m.pte[path[0]])
       else IsPointer(m.pte[path[0]]) && IsPath(m, sc, v, n - 1, m.pte[path[0]].PPN * 4096, path[1..])
  }

  lemma {:induction false} PathOfLeaf(m: Tables, sc: Scheme, v: seq<nat>, n: nat, a: nat) returns (path: seq<nat>)
    requires n <= |v| && FindLeaf(m, sc, v, n, a).Leaf?
    ensures IsPath(m, sc, v, n, a, path)
  {
    var addr := PteAddr(sc, v[n - 1], a);
    var p := m.pte[addr];
    if p.priv != NONE {
      path := [addr];
    } else {
      var rest := PathOfLeaf(m, sc, v, n - 1, p.PPN * 4096);
      path := [addr] + rest;
      assert path[1..] == rest;
    }
  }

  lemma {:induction false} LeafOfPath(m: Tables, sc: Scheme, v: seq<nat>, n: nat, a: nat, path: seq<nat>)
    requires n <= |v| && IsPath(m, sc, v, n, a, path)
    ensures var addr := path[|path| - 1];
            addr in m.pte && FindLeaf(m, sc, v, n, a) == Leaf(addr, m.pte[addr], n - |path|)
    decreases |path|
  {
    if |path| > 1 {
      LeafOfPath(m, sc, v, n - 1, m.pte[path[0]].PPN * 4096, path[1..]);
    }
  }

  /** The access rules of the specification for a leaf. */
  predicate Grants(c: Ctx, mode: Mode, acc: Acc, p: Pte) {
    && (match acc
        case R => p.priv.r || (c.mxr && p.priv.x)
        case W => p.priv.w
        case X => p.priv.x)
    && (if mode == U then p.U
        else p.U ==> c.sum && (c.v111 ==> acc != X))
  }

  /** The accessed and dirty bits are set or can be set by the walker. */
  predicate Updatable(m: Tables, c: Ctx, acc: Acc, addr: nat, p: Pte) {
    && (!p.A ==> c.updateA && addr in m.writable)
    && (acc == W && !p.D ==> c.updateD && addr in m.writable)
  }

  lemma GrantsMeaning(c: Ctx, mode: Mode, acc: Acc, p: Pte)
    ensures Grants(c, mode, acc, p) <==> CheckPriv(c, mode, p.priv, p.U, acc) != NONE
  {
  }

  lemma FinishMeaning(m: Tables, c: Ctx, mode: Mode, acc: Acc, va: nat, addr: nat, p: Pte, level: nat)
    ensures var r := Finish(m, c, mode, acc, va, addr, p, level).0;
            && (r.Ok? <==> Low(p.PPN * 4096, PageBits(c.scheme, level)) == 0
                           && Grants(c, mode, acc, p) && Updatable(m, c, acc, addr, p))
            && (r.Ok? ==> r.t == MakeTranslation(c, va, p.(A := true, D := p.D || acc == W), level))
  {
    GrantsMeaning(c, mode, acc, p);
  }

  lemma TranslationAddress(c: Ctx, va: nat, p: Pte, level: nat)
    ensures var t, k := MakeTranslation(c, va, p, level), PageBits(c.scheme, level);
            t.lowVA <= va <= t.highVA && t.PA + (va - t.lowVA) == p.PPN * 4096 + Low(va, k)
  {
  }

  lemma LeafAtEnd(m: Tables, c: Ctx, va: nat, path: seq<nat>) returns (l: Lookup)
    requires IsPath(m, c.scheme, Vpns(c.scheme, va), Levels(c.scheme), c.root * 4096, path)
    ensures 0 < |path| <= Levels(c.scheme) && path[|path| - 1] in m.pte && LeafFor(m, c, va) == l
    ensures l == Leaf(path[|path| - 1], m.pte[path[|path| - 1]], Levels(c.scheme) - |path|)
  {
    LeafOfPath(m, c.scheme, Vpns(c.scheme, va), Levels(c.scheme), c.root * 4096, path);
    l := LeafFor(m, c, va);
  }

  /** t is the translation by leaf l of the block around va. */
  ghost predicate TranslatesBy(c: Ctx, acc: Acc, va: nat, l: Lookup, t: Translation)
    requires l.Leaf?
  {
    var k := PageBits(c.scheme, l.level);
    && t.lowVA <= va <= t.highVA && t.PA + (va - t.lowVA) == l.pte.PPN * 4096 + Low(va, k)
    && Low(t.lowVA, k) == 0 && t.highVA + 1 - t.lowVA == Pow2(k)
    && t.priv == l.pte.priv && t.U == l.pte.U && (t.G <==> l.pte.G || c.noAsid)
    && t.A && (t.D <==> l.pte.D || acc == W)
  }

  /** r and m' are what the specification makes of leaf l: success or a fault, the translation, and the accessed and
      dirty bits of the leaf. */
  ghost predicate Follows(m: Tables, c: Ctx, mode: Mode, acc: Acc, va: nat, valid: bool, l: Lookup, r: Result, m': Tables)
    requires l.Leaf?
  {
    && (r.Ok? <==> valid && Low(l.pte.PPN * 4096, PageBits(c.scheme, l.level)) == 0
                   && Grants(c, mode, acc, l.pte) && Updatable(m, c, acc, l.addr, l.pte))
    && (r.Ok? ==> TranslatesBy(c, acc, va, l, r.t))
    && m'.writable == m.writable
    && m'.pte == if r.Ok? then m.pte[l.addr := l.pte.(A := true, D := l.pte.D || acc == W)] else m.pte
  }

  lemma FinishTables(m: Tables, c: Ctx, mode: Mode, acc: Acc, va: nat, addr: nat, p: Pte, level: nat)
    requires addr in m.pte && m.pte[addr] == p
    ensures var (r, m') := Finish(m, c, mode, acc, va, addr, p, level);
            m' == if r.Ok? then m.(pte := m.pte[addr := p.(A := true, D := p.D || acc == W)]) else m
  {
    assert m.pte[addr := p] == m.pte;
  }

  lemma WalkToMeaning(m: Tables, c: Ctx, mode: Mode, acc: Acc, va: nat, valid: bool, l: Lookup)
    requires l.Leaf? && l.addr in m.pte && m.pte[l.addr] == l.pte
    ensures var w := WalkTo(m, c, mode, acc, va, valid, l); Follows(m, c, mode, acc, va, valid, l, w.0, w.1)
  {
    FinishMeaning(m, c, mode, acc, va, l.addr, l.pte, l.level);
    FinishTables(m, c, mode, acc, va, l.addr, l.pte, l.level);
    TranslationAddress(c, va, l.pte.(A := true, D := l.pte.D || acc == W), l.level);
    LowOfFloor(va, PageBits(c.scheme, l.level));
  }

  /** The walk succeeds exactly when the tables hold a path to an aligned leaf that grants the access
      and whose accessed and dirty bits are or can be set; the address it delivers is the leaf's page number
      followed by the low bits of the virtual address; it sets A, for a write also D, and changes nothing else. */
  lemma WalkIsTranslation(m: Tables, c: Ctx, mode: Mode, acc: Acc, va: nat, path: seq<nat>) returns (l: Lookup)
    requires IsPath(m, c.scheme, Vpns(c.scheme, va), Levels(c.scheme), c.root * 4096, path)
    ensures 0 < |path| <= Levels(c.scheme) && path[|path| - 1] in m.pte
    ensures l == Leaf(path[|path| - 1], m.pte[path[|path| - 1]], Levels(c.scheme) - |path|)
    ensures var w := Walk(m, c, mode, acc, va); Follows(m, c, mode, acc, va, ValidVA(c.scheme, va), l, w.0, w.1)
  {
    l := LeafAtEnd(m, c, va, path);
    WalkToMeaning(m, c, mode, acc, va, ValidVA(c.scheme, va), l);
  }

  /** Without such a path there is no translation. */
  lemma NoPathNoTranslation(m: Tables, c: Ctx, mode: Mode, acc: Acc, va: nat)
    requires forall path :: !IsPath(m, c.scheme, Vpns(c.scheme, va), Levels(c.scheme), c.root * 4096, path)
    ensures Walk(m, c, mode, acc, va).0.Fault? && Walk(m, c, mode, acc, va).1 == m
  {
    if FindLeaf(m, c.scheme, Vpns(c.scheme, va), Levels(c.scheme), c.root * 4096).Leaf? {
      var path := PathOfLeaf(m, c.scheme, Vpns(c.scheme, va), Levels(c.scheme), c.root * 4096);
      assert false;
    }
  }

  // ---- Accessed and dirty bits ----

  /** p' is p with accessed and dirty bits possibly raised, as the hardware may. */
  ghost predicate Raised(c: Ctx, writable: bool, p: Pte, p': Pte) {
    && p' == p.(A := p'.A, D := p'.D)
    && (p.A ==> p'.A) && (p.D ==> p'.D)
    && (p'.A && !p.A ==> c.updateA && writable)
    && (p'.D && !p.D ==> c.updateD && writable)
  }

  ghost predicate Advances(c: Ctx, m: Tables, m': Tables) {
    && m'.writable == m.writable && m'.pte.Keys == m.pte.Keys
    && forall a :: a in m.pte ==> Raised(c, a in m.writable, m.pte[a], m'.pte[a])
  }

  lemma AdvancesTransitive(c: Ctx, m0: Tables, m1: Tables, m2: Tables)
    requires Advances(c, m0, m1) && Advances(c, m1, m2)
    ensures Advances(c, m0, m2)
  {
    forall a | a in m0.pte
      ensures Raised(c, a in m0.writable, m0.pte[a], m2.pte[a])
    {
      assert Raised(c, a in m0.writable, m0.pte[a], m1.pte[a]);
      assert Raised(c, a in m0.writable, m1.pte[a], m2.pte[a]);
    }
  }

  lemma FinishAdvances(m: Tables, c: Ctx, mode: Mode, acc: Acc, va: nat, addr: nat, p: Pte, level: nat)
    requires addr in m.pte && m.pte[addr] == p
    ensures var (r, m') := Finish(m, c, mode, acc, va, addr, p, level);
            && Advances(c, m, m')
            && (r.Fault? ==> m' == m)
            && forall a :: a in m.pte && a != addr ==> m'.pte[a] == m.pte[a]
  {
    SettleAdvances(m, c, acc, addr, p, MakeTranslation(c, va, p, level));
  }

  lemma SettleAdvances(m: Tables, c: Ctx, acc: Acc, addr: nat, p: Pte, t: Translation)
    requires addr in m.pte && m.pte[addr] == p
    ensures var (r, m') := Settle(m, c, acc, addr, p, t);
            && Advances(c, m, m')
            && (r.Fault? ==> m' == m)
            && forall a :: a in m.pte && a != addr ==> m'.pte[a] == m.pte[a]
  {
  }

  /** A walk changes at most its leaf entry, there at most the accessed and dirty bits, and nothing if
      it faults. */
  lemma WalkAdvances(m: Tables, c: Ctx, mode: Mode, acc: Acc, va: nat)
    ensures var (r, m') := Walk(m, c, mode, acc, va);
            && Advances(c, m, m')
            && (r.Fault? ==> m' == m)
            && forall a :: a in m.pte && m'.pte[a] != m.pte[a] ==> LeafFor(m, c, va).Leaf? && a == LeafFor(m, c, va).addr
  {
    LeafLevel(m, c.scheme, Vpns(c.scheme, va), Levels(c.scheme), c.root * 4096);
    WalkToAdvances(m, c, mode, acc, va, ValidVA(c.scheme, va), LeafFor(m, c, va));
  }

  lemma WalkToAdvances(m: Tables, c: Ctx, mode: Mode, acc: Acc, va: nat, valid: bool, l: Lookup)
    requires l.Leaf? ==> l.addr in m.pte && m.pte[l.addr] == l.pte
    ensures var (r, m') := WalkTo(m, c, mode, acc, va, valid, l);
            && Advances(c, m, m')
            && (r.Fault? ==> m' == m)
            && forall a :: a in m.pte && m'.pte[a] != m.pte[a] ==> l.Leaf? && a == l.addr
  {
    assert Advances(c, m, m);
    if l.Leaf? {
      FinishAdvances(m, c, mode, acc, va, l.addr, l.pte, l.level);
    }
  }

  /** Raising bits does not move a leaf. */
  lemma {:induction false} FindLeafAdvances(c: Ctx, m: Tables, m': Tables, sc: Scheme, v: seq<nat>, n: nat, a: nat)
    requires n <= |v| && Advances(c, m, m')
    ensures var l, l' := FindLeaf(m, sc, v, n, a), FindLeaf(m', sc, v, n, a);
            if l.Leaf? then l.addr in m'.pte && l' == Leaf(l.addr, m'.pte[l.addr], l.level) else l' == l
  {
    if n > 0 {
      var addr := PteAddr(sc, v[n - 1], a);
      if addr in m.pte {
        SameShape(c, m, m', addr);
        if IsPointer(m.pte[addr]) {
          FindLeafAdvances(c, m, m', sc, v, n - 1, m.pte[addr].PPN * 4096);
        }
      }
    }
  }

  /** Raising bits leaves what the search looks at. */
  lemma SameShape(c: Ctx, m: Tables, m': Tables, addr: nat)
    requires Advances(c, m, m') && addr in m.pte
    ensures addr in m'.pte
    ensures var p, p' := m.pte[addr], m'.pte[addr]; p'.V == p.V && p'.priv == p.priv && p'.PPN == p.PPN
  {
    assert Raised(c, addr in m.writable, m.pte[addr], m'.pte[addr]);
  }

  /** The same fault, or the same translation except that the dirty bit may be higher. */
  predicate SameOutcome(r: Result, r': Result) {
    match r
    case Fault(e) => r' == r
    case Ok(t) => r'.Ok? && r'.t == t.(D := r'.t.D) && (t.D ==> r'.t.D)
  }

  lemma FinishIsStable(m: Tables, m': Tables, c: Ctx, mode: Mode, acc: Acc, va: nat, addr: nat, level: nat)
    requires Advances(c, m, m') && addr in m.pte
    ensures SameOutcome(Finish(m, c, mode, acc, va, addr, m.pte[addr], level).0,
                        Finish(m', c, mode, acc, va, addr, m'.pte[addr], level).0)
  {
    assert Raised(c, addr in m.writable, m.pte[addr], m'.pte[addr]);
  }

  lemma WalkToIsStable(m: Tables, m': Tables, c: Ctx, mode: Mode, acc: Acc, va: nat, valid: bool, l: Lookup, l': Lookup)
    requires Advances(c, m, m')
    requires if l.Leaf? then l.addr in m.pte && m.pte[l.addr] == l.pte && l' == Leaf(l.addr, m'.pte[l.addr], l.level) else l' == l
    ensures SameOutcome(WalkTo(m, c, mode, acc, va, valid, l).0, WalkTo(m', c, mode, acc, va, valid, l').0)
  {
    if l.Leaf? {
      FinishIsStable(m, m', c, mode, acc, va, l.addr, l.level);
    }
  }

  /** No accessed or dirty bit update changes the outcome of any walk, in any mode and for any access,
      even if the tables map themselves. */
  lemma OutcomeIsStable(m: Tables, m': Tables, c: Ctx, mode: Mode, acc: Acc, va: nat)
    requires Advances(c, m, m')
    ensures SameOutcome(Walk(m, c, mode, acc, va).0, Walk(m', c, mode, acc, va).0)
  {
    FindLeafAdvances(c, m, m', c.scheme, Vpns(c.scheme, va), Levels(c.scheme), c.root * 4096);
    LeafLevel(m, c.scheme, Vpns(c.scheme, va), Levels(c.scheme), c.root * 4096);
    WalkToIsStable(m, m', c, mode, acc, va, ValidVA(c.scheme, va), LeafFor(m, c, va), LeafFor(m', c, va));
  }

  lemma FinishAgain(m: Tables, c: Ctx, mode: Mode, acc: Acc, va: nat, addr: nat, level: nat)
    requires addr in m.pte
    ensures var (r, m') := Finish(m, c, mode, acc, va, addr, m.pte[addr], level);
            r.Ok? ==> addr in m'.pte && Finish(m', c, mode, acc, va, addr, m'.pte[addr], level) == (r, m')
  {
  }

  lemma WalkToAgain(m: Tables, c: Ctx, mode: Mode, acc: Acc, va: nat, valid: bool, l: Lookup, l': Lookup)
    requires l.Leaf? ==> l.addr in m.pte && m.pte[l.addr] == l.pte
    requires var m' := WalkTo(m, c, mode, acc, va, valid, l).1;
             if l.Leaf? then l.addr in m'.pte && l' == Leaf(l.addr, m'.pte[l.addr], l.level) else l' == l
    ensures var (r, m') := WalkTo(m, c, mode, acc, va, valid, l);
            r.Ok? ==> WalkTo(m', c, mode, acc, va, valid, l') == (r, m')
  {
    if l.Leaf? {
      FinishAgain(m, c, mode, acc, va, l.addr, l.level);
    }
  }

  /** Repeating a successful walk gives the same translation and writes nothing. */
  lemma WalkAgain(m: Tables, c: Ctx, mode: Mode, acc: Acc, va: nat)
    ensures var (r, m') := Walk(m, c, mode, acc, va);
            r.Ok? ==> Walk(m', c, mode, acc, va) == (r, m')
  {
    var m' := Walk(m, c, mode, acc, va).1;
    WalkAdvances(m, c, mode, acc, va);
    FindLeafAdvances(c, m, m', c.scheme, Vpns(c.scheme, va), Levels(c.scheme), c.root * 4096);
    LeafLevel(m, c.scheme, Vpns(c.scheme, va), Levels(c.scheme), c.root * 4096);
    WalkToAgain(m, c, mode, acc, va, ValidVA(c.scheme, va), LeafFor(m, c, va), LeafFor(m', c, va));
  }

  /** Addresses in the block of their leaf walk alike, for every access in every mode. */
  lemma BlockWalksAlike(m: Tables, c: Ctx, mode: Mode, acc: Acc, va: nat, va': nat)
    requires var l := LeafFor(m, c, va); l.Leaf? && InBlock(c.scheme, va, va', l.level)
    ensures Walk(m, c, mode, acc, va') == Walk(m, c, mode, acc, va)
  {
    var l := LeafFor(m, c, va);
    LeafLevel(m, c.scheme, Vpns(c.scheme, va), Levels(c.scheme), c.root * 4096);
    ValidVAOfBlock(c.scheme, va, va', l.level);
    LeafOfBlock(m, c.scheme, va, va', c.root * 4096);
    if ValidVA(c.scheme, va) {
      WalkOfLeaf(m, c, mode, acc, va, l);
      WalkOfLeaf(m, c, mode, acc, va', l);
      FinishAlike(m, c, mode, acc, va, va', l);
    }
  }

  lemma WalkOfLeaf(m: Tables, c: Ctx, mode: Mode, acc: Acc, va: nat, l: Lookup)
    requires ValidVA(c.scheme, va) && LeafFor(m, c, va) == l && l.Leaf?
    ensures Walk(m, c, mode, acc, va) == Finish(m, c, mode, acc, va, l.addr, l.pte, l.level)
  {
  }

  lemma FinishAlike(m: Tables, c: Ctx, mode: Mode, acc: Acc, va: nat, va': nat, l: Lookup)
    requires l.Leaf? && InBlock(c.scheme, va, va', l.level)
    ensures Finish(m, c, mode, acc, va', l.addr, l.pte, l.level) == Finish(m, c, mode, acc, va, l.addr, l.pte, l.level)
  {
    SameBlock(va, va', PageBits(c.scheme, l.level));
  }

  /** A translation covers exactly the block of its leaf. */
  lemma TranslationRange(m: Tables, c: Ctx, mode: Mode, acc: Acc, va: nat, va': nat)
    requires Walk(m, c, mode, acc, va).0.Ok?
    ensures var t, l := Walk(m, c, mode, acc, va).0.t, LeafFor(m, c, va);
            l.Leaf? && (t.lowVA <= va' <= t.highVA <==> InBlock(c.scheme, va, va', l.level))
  {
    var l := LeafFor(m, c, va);
    FinishMeaning(m, c, mode, acc, va, l.addr, l.pte, l.level);
    SameBlock(va, va', PageBits(c.scheme, l.level));
  }

  /** Every address in the range of a translation has that translation: caching a superpage as one entry
      is sound. */
  lemma RangeTranslatesAlike(m: Tables, c: Ctx, mode: Mode, acc: Acc, va: nat, va': nat, mode': Mode, acc': Acc)
    requires var r := Walk(m, c, mode, acc, va).0; r.Ok? && r.t.lowVA <= va' <= r.t.highVA
    ensures Walk(m, c, mode', acc', va') == Walk(m, c, mode', acc', va)
  {
    TranslationRange(m, c, mode, acc, va, va');
    BlockWalksAlike(m, c, mode', acc', va, va');
  }
}

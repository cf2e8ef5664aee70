/** Which exception an access raises and which address it reaches, stated over the entries of the page tables on its
    way alone. */
module WalkFaults {
  import opened Access
  import opened Bits
  import opened PageWalk
  import opened WalkProperties

  /** The exception code of a page fault: 12 for a fetch, 13 for a load, 15 for a store. */
  function PageFault(acc: Acc): nat {
    match acc case X => 12 case R => 13 case W => 15
  }

  // ---- Entries on the way ----

  /** path lists the entries looked at for page numbers v from table a with n levels left: pointers up to the last,
      which may be anything, even out of reach. */
  ghost predicate Visits(m: Tables, sc: Scheme, v: seq<nat>, n: nat, a: nat, path: seq<nat>)
    requires n <= |v|
    decreases |path|
  {
    && 0 < |path| <= n && path[0] == PteAddr(sc, v[n - 1], a)
    && (|path| > 1 ==> path[0] in m.pte && IsPointer(m.pte[path[0]])
                       && Visits(m, sc, v, n - 1, m.pte[path[0]].PPN * 4096, path[1..]))
  }

  /** Some entry on the way cannot be read. */
  ghost predicate Unreadable(m: Tables, c: Ctx, va: nat) {
    exists path :: Visits(m, c.scheme, Vpns(c.scheme, va), Levels(c.scheme), c.root * 4096, path) && Last(path) !in m.pte
  }

  ghost function Last(path: seq<nat>): nat {
    if path == [] then 0 else path[|path| - 1]
  }

  ghost predicate LeafPath(m: Tables, c: Ctx, va: nat, path: seq<nat>) {
    IsPath(m, c.scheme, Vpns(c.scheme, va), Levels(c.scheme), c.root * 4096, path)
  }

  /** The leaf at the end of a path is aligned and grants the access. */
  ghost predicate Fits(m: Tables, c: Ctx, mode: Mode, acc: Acc, path: seq<nat>)
    requires |path| <= Levels(c.scheme)
  {
    && Last(path) in m.pte
    && Low(m.pte[Last(path)].PPN * 4096, PageBits(c.scheme, Levels(c.scheme) - |path|)) == 0
    && Grants(c, mode, acc, m.pte[Last(path)])
  }

  /** An accessed or dirty bit has to be set by the walker and the walker is allowed to, but the entry cannot be
      written. */
  ghost predicate Refused(m: Tables, c: Ctx, acc: Acc, addr: nat)
    requires addr in m.pte
  {
    var setA, setD := !m.pte[addr].A, acc == W && !m.pte[addr].D;
    (setA || setD) && (setA ==> c.updateA) && (setD ==> c.updateD) && addr !in m.writable
  }

  /** The leaf would do, but its update is refused. */
  ghost predicate WriteRefused(m: Tables, c: Ctx, mode: Mode, acc: Acc, va: nat) {
    exists path :: LeafPath(m, c, va, path) && Fits(m, c, mode, acc, path) && Refused(m, c, acc, Last(path))
  }

  /** The access reaches pa: a path leads to an aligned leaf that grants it and is or can be updated, and pa is the
      leaf's page number followed by the low bits of the virtual address. */
  ghost predicate Reached(m: Tables, c: Ctx, mode: Mode, acc: Acc, va: nat, pa: int) {
    exists path :: LeafPath(m, c, va, path) && ReachedBy(m, c, mode, acc, va, pa, path)
  }

  ghost predicate ReachedBy(m: Tables, c: Ctx, mode: Mode, acc: Acc, va: nat, pa: int, path: seq<nat>)
    requires |path| <= Levels(c.scheme)
  {
    && Fits(m, c, mode, acc, path) && Updatable(m, c, acc, Last(path), m.pte[Last(path)])
    && pa == m.pte[Last(path)].PPN * 4096 + Low(va, PageBits(c.scheme, Levels(c.scheme) - |path|))
  }

  // ---- The search fails to read ----

  lemma {:induction false} UnreadableStops(m: Tables, sc: Scheme, v: seq<nat>, n: nat, a: nat, path: seq<nat>)
    requires n <= |v| && Visits(m, sc, v, n, a, path) && Last(path) !in m.pte
    ensures FindLeaf(m, sc, v, n, a) == NoLeaf(READ)
    decreases |path|
  {
    if |path| > 1 {
      UnreadableStops(m, sc, v, n - 1, m.pte[path[0]].PPN * 4096, path[1..]);
    }
  }

  lemma {:induction false} StopIsUnreadable(m: Tables, sc: Scheme, v: seq<nat>, n: nat, a: nat) returns (path: seq<nat>)
    requires n <= |v| && FindLeaf(m, sc, v, n, a) == NoLeaf(READ)
    ensures Visits(m, sc, v, n, a, path) && Last(path) !in m.pte
  {
    var addr := PteAddr(sc, v[n - 1], a);
    if addr !in m.pte {
      path := [addr];
    } else {
      var rest := StopIsUnreadable(m, sc, v, n - 1, m.pte[addr].PPN * 4096);
      path := [addr] + rest;
      assert path[1..] == rest;
    }
  }

  lemma ReadFails(m: Tables, c: Ctx, va: nat)
    ensures LeafFor(m, c, va) == NoLeaf(READ) <==> Unreadable(m, c, va)
  {
    if LeafFor(m, c, va) == NoLeaf(READ) {
      var path := StopIsUnreadable(m, c.scheme, Vpns(c.scheme, va), Levels(c.scheme), c.root * 4096);
    }
    if Unreadable(m, c, va) {
      var path :| Visits(m, c.scheme, Vpns(c.scheme, va), Levels(c.scheme), c.root * 4096, path) && Last(path) !in m.pte;
      UnreadableStops(m, c.scheme, Vpns(c.scheme, va), Levels(c.scheme), c.root * 4096, path);
    }
  }

  lemma {:induction false} SearchErrors(m: Tables, sc: Scheme, v: seq<nat>, n: nat, a: nat)
    requires n <= |v|
    ensures var l := FindLeaf(m, sc, v, n, a); l.NoLeaf? ==> l.error in {READ, V0, R0W1, LEAF}
  {
    if n > 0 {
      var addr := PteAddr(sc, v[n - 1], a);
      if addr in m.pte {
        SearchErrors(m, sc, v, n - 1, m.pte[addr].PPN * 4096);
      }
    }
  }

  // ---- The leaf ----

  /** The leaf decides by itself: which address is reached, and which fault is raised. */
  ghost predicate Decided(m: Tables, c: Ctx, mode: Mode, acc: Acc, va: nat, path: seq<nat>, r: Result)
    requires 0 < |path| <= Levels(c.scheme) && Last(path) in m.pte
  {
    && (r.Ok? <==> exists pa :: ReachedBy(m, c, mode, acc, va, pa, path))
    && (r.Ok? ==> ReachedBy(m, c, mode, acc, va, r.t.PA + (va - r.t.lowVA), path))
    && (r.Fault? ==> r.error != READ)
    && (r == Fault(WRITE) <==> Fits(m, c, mode, acc, path) && Refused(m, c, acc, Last(path)))
  }

  lemma FinishFaults(m: Tables, c: Ctx, mode: Mode, acc: Acc, va: nat, addr: nat, level: nat)
    requires addr in m.pte
    ensures var p, r := m.pte[addr], Finish(m, c, mode, acc, va, addr, m.pte[addr], level).0;
            && r != Fault(READ)
            && (r == Fault(WRITE) <==> Low(p.PPN * 4096, PageBits(c.scheme, level)) == 0
                                       && Grants(c, mode, acc, p) && Refused(m, c, acc, addr))
  {
    GrantsMeaning(c, mode, acc, m.pte[addr]);
  }

  lemma LeafDecides(m: Tables, c: Ctx, mode: Mode, acc: Acc, va: nat, path: seq<nat>)
    requires 0 < |path| <= Levels(c.scheme) && Last(path) in m.pte
    ensures Decided(m, c, mode, acc, va, path,
                    Finish(m, c, mode, acc, va, Last(path), m.pte[Last(path)], Levels(c.scheme) - |path|).0)
  {
    var p, level := m.pte[Last(path)], Levels(c.scheme) - |path|;
    FinishMeaning(m, c, mode, acc, va, Last(path), p, level);
    FinishFaults(m, c, mode, acc, va, Last(path), level);
    TranslationAddress(c, va, p.(A := true, D := p.D || acc == W), level);
    LeafDecidesAs(m, c, mode, acc, va, path, Finish(m, c, mode, acc, va, Last(path), p, level).0);
  }

  lemma LeafDecidesAs(m: Tables, c: Ctx, mode: Mode, acc: Acc, va: nat, path: seq<nat>, r: Result)
    requires 0 < |path| <= Levels(c.scheme) && Last(path) in m.pte && r != Fault(READ)
    requires r.Ok? <==> Fits(m, c, mode, acc, path) && Updatable(m, c, acc, Last(path), m.pte[Last(path)])
    requires r.Ok? ==> r.t.PA + (va - r.t.lowVA)
                       == m.pte[Last(path)].PPN * 4096 + Low(va, PageBits(c.scheme, Levels(c.scheme) - |path|))
    requires r == Fault(WRITE) <==> Fits(m, c, mode, acc, path) && Refused(m, c, acc, Last(path))
    ensures Decided(m, c, mode, acc, va, path, r)
  {
    var pa := m.pte[Last(path)].PPN * 4096 + Low(va, PageBits(c.scheme, Levels(c.scheme) - |path|));
    assert r.Ok? ==> ReachedBy(m, c, mode, acc, va, pa, path);
  }

  /** All paths to a leaf are one. */
  lemma {:induction false} OnePath(m: Tables, sc: Scheme, v: seq<nat>, n: nat, a: nat, path: seq<nat>, other: seq<nat>)
    requires n <= |v| && IsPath(m, sc, v, n, a, path) && IsPath(m, sc, v, n, a, other)
    ensures path == other
    decreases |path|
  {
    if |path| > 1 && |other| > 1 {
      OnePath(m, sc, v, n - 1, m.pte[path[0]].PPN * 4096, path[1..], other[1..]);
      assert path == [path[0]] + path[1..] && other == [other[0]] + other[1..];
    }
  }

  // ---- What an access does ----

  /** What the tables demand of an access: the addresses it may reach, of which there is at most one, whether an entry
      on the way cannot be read, and whether the update of the leaf is refused. */
  datatype Demand = Demand(reach: iset<int>, unreadable: bool, refused: bool)

  ghost function DemandOf(m: Tables, c: Ctx, mode: Mode, acc: Acc, va: nat): Demand {
    var valid := ValidVA(c.scheme, va);
    Demand((iset pa: int | valid && Reached(m, c, mode, acc, va, pa)),
           valid && Unreadable(m, c, va), valid && WriteRefused(m, c, mode, acc, va))
  }

  /** r is the result of an access as the tables demand it. */
  ghost predicate Meets(d: Demand, va: nat, r: Result) {
    && (forall pa :: pa in d.reach <==> r.Ok? && pa == r.t.PA + (va - r.t.lowVA))
    && (r == Fault(READ) <==> d.unreadable)
    && (r == Fault(WRITE) <==> d.refused)
  }

  lemma WithoutLeaf(m: Tables, c: Ctx, mode: Mode, acc: Acc, va: nat)
    requires LeafFor(m, c, va).NoLeaf?
    ensures Meets(DemandOf(m, c, mode, acc, va), va, Walk(m, c, mode, acc, va).0)
  {
    ReadFails(m, c, va);
    SearchErrors(m, c.scheme, Vpns(c.scheme, va), Levels(c.scheme), c.root * 4096);
    forall path
      ensures !LeafPath(m, c, va, path)
    {
      if LeafPath(m, c, va, path) {
        var l := LeafAtEnd(m, c, va, path);
        assert false;
      }
    }
  }

  ghost predicate OnlyPath(m: Tables, c: Ctx, va: nat, path: seq<nat>) {
    LeafPath(m, c, va, path) && forall other :: LeafPath(m, c, va, other) ==> other == path
  }

  lemma ReachedOnPath(m: Tables, c: Ctx, mode: Mode, acc: Acc, va: nat, path: seq<nat>, pa: int)
    requires OnlyPath(m, c, va, path) && |path| <= Levels(c.scheme)
    ensures Reached(m, c, mode, acc, va, pa) <==> ReachedBy(m, c, mode, acc, va, pa, path)
  {
  }

  lemma RefusedOnPath(m: Tables, c: Ctx, mode: Mode, acc: Acc, va: nat, path: seq<nat>)
    requires OnlyPath(m, c, va, path) && |path| <= Levels(c.scheme)
    ensures WriteRefused(m, c, mode, acc, va) <==> Fits(m, c, mode, acc, path) && Refused(m, c, acc, Last(path))
  {
  }

  /** What the only path decides is what the tables demand. */
  lemma OnlyPathDecides(m: Tables, c: Ctx, mode: Mode, acc: Acc, va: nat, path: seq<nat>, r: Result)
    requires 0 < |path| <= Levels(c.scheme) && Last(path) in m.pte && !Unreadable(m, c, va)
    requires forall pa :: Reached(m, c, mode, acc, va, pa) <==> ReachedBy(m, c, mode, acc, va, pa, path)
    requires WriteRefused(m, c, mode, acc, va) <==> Fits(m, c, mode, acc, path) && Refused(m, c, acc, Last(path))
    requires if ValidVA(c.scheme, va) then Decided(m, c, mode, acc, va, path, r) else r == Fault(VAEXTEND)
    ensures Meets(DemandOf(m, c, mode, acc, va), va, r)
  {
  }

  lemma PathIsOnly(m: Tables, c: Ctx, va: nat, path: seq<nat>)
    requires LeafPath(m, c, va, path)
    ensures OnlyPath(m, c, va, path)
  {
    forall other | LeafPath(m, c, va, other)
      ensures other == path
    {
      OnePath(m, c.scheme, Vpns(c.scheme, va), Levels(c.scheme), c.root * 4096, path, other);
    }
  }

  lemma WalkDecided(m: Tables, c: Ctx, mode: Mode, acc: Acc, va: nat, path: seq<nat>)
    requires LeafPath(m, c, va, path)
    ensures 0 < |path| <= Levels(c.scheme) && Last(path) in m.pte && !Unreadable(m, c, va)
    ensures var r := Walk(m, c, mode, acc, va).0;
            if ValidVA(c.scheme, va) then Decided(m, c, mode, acc, va, path, r) else r == Fault(VAEXTEND)
  {
    ReadFails(m, c, va);
    var l := LeafAtEnd(m, c, va, path);
    if ValidVA(c.scheme, va) {
      LeafDecides(m, c, mode, acc, va, path);
      WalkOfLeaf(m, c, mode, acc, va, l);
    }
  }

  lemma WithLeaf(m: Tables, c: Ctx, mode: Mode, acc: Acc, va: nat, path: seq<nat>)
    requires LeafPath(m, c, va, path)
    ensures Meets(DemandOf(m, c, mode, acc, va), va, Walk(m, c, mode, acc, va).0)
  {
    PathIsOnly(m, c, va, path);
    WalkDecided(m, c, mode, acc, va, path);
    forall pa
      ensures Reached(m, c, mode, acc, va, pa) <==> ReachedBy(m, c, mode, acc, va, pa, path)
    {
      ReachedOnPath(m, c, mode, acc, va, path, pa);
    }
    RefusedOnPath(m, c, mode, acc, va, path);
    OnlyPathDecides(m, c, mode, acc, va, path, Walk(m, c, mode, acc, va).0);
  }

  lemma WalkIsDemanded(m: Tables, c: Ctx, mode: Mode, acc: Acc, va: nat)
    ensures Meets(DemandOf(m, c, mode, acc, va), va, Walk(m, c, mode, acc, va).0)
  {
    if LeafFor(m, c, va).Leaf? {
      var path := PathOfLeaf(m, c.scheme, Vpns(c.scheme, va), Levels(c.scheme), c.root * 4096);
      WithLeaf(m, c, mode, acc, va, path);
    } else {
      WithoutLeaf(m, c, mode, acc, va);
    }
  }

  /** An access that raises: an access fault for loads if an entry on the way cannot be read, an access fault for
      stores if a needed update of the leaf is refused, and in every other case the page fault of its kind. */
  lemma RaisedException(m: Tables, c: Ctx, mode: Mode, acc: Acc, va: nat)
    requires Walk(m, c, mode, acc, va).0.Fault?
    ensures var code, d := ExceptionOf(Walk(m, c, mode, acc, va).0.error, acc), DemandOf(m, c, mode, acc, va);
            (code == 5 <==> d.unreadable) && (code == 7 <==> d.refused)
            && (!d.unreadable && !d.refused ==> code == PageFault(acc))
  {
    WalkIsDemanded(m, c, mode, acc, va);
  }
}

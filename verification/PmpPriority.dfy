/** Priority matching over a table of protection regions, entry 0 first
    (section 3.6 of the RISC-V Privileged Architecture v1.10), and the
    permission caches that are filled from it. */
module PmpPriority {
  import opened Access
  import opened Bits

  datatype Region = Vacant | Range(low: nat, high: nat, priv: Priv, L: bool)

  type Table = seq<Region>

  predicate Contains(g: Region, a: nat) {
    g.Range? && g.low <= a <= g.high
  }

  /** The first entry at or after i that contains a, or |t| if there is none. */
  function FirstMatch(t: Table, a: nat, i: nat): (k: nat)
    requires i <= |t|
    ensures i <= k <= |t|
    ensures k < |t| ==> Contains(t[k], a)
    ensures forall j :: i <= j < k ==> !Contains(t[j], a)
    decreases |t| - i
  {
    if i == |t| || Contains(t[i], a) then i else FirstMatch(t, a, i + 1)
  }

  /** What matching entry k grants: Machine mode is bound by locked entries only, and without a
      match the other modes get nothing as soon as one entry is implemented. */
  function Grant(m: Mode, t: Table, k: nat): Priv
    requires k <= |t| && (k < |t| ==> t[k].Range?)
  {
    if k < |t| then
      if m != M || t[k].L then t[k].priv else RWX
    else if m == M || |t| == 0 then RWX
    else NONE
  }

  function Perm(m: Mode, t: Table, a: nat): Priv {
    Grant(m, t, FirstMatch(t, a, 0))
  }

  /** The first match is determined by its defining property. */
  lemma FirstMatchUnique(t: Table, a: nat, k: nat)
    requires k <= |t| && (k < |t| ==> Contains(t[k], a))
    requires forall j :: 0 <= j < k ==> !Contains(t[j], a)
    ensures FirstMatch(t, a, 0) == k
  {
  }

  /** Supervisor and User mode get what the first entry that contains the address grants, locked or not; without
      one they get nothing as soon as an entry is implemented, and everything otherwise. */
  lemma SupervisorPerm(m: Mode, t: Table, a: nat, k: nat)
    requires m != M && k <= |t| && forall j :: 0 <= j < k ==> !Contains(t[j], a)
    ensures k < |t| && Contains(t[k], a) ==> Perm(m, t, a) == t[k].priv
    ensures k == |t| ==> Perm(m, t, a) == Priv(|t| == 0, |t| == 0, |t| == 0)
  {
    if k == |t| || Contains(t[k], a) {
      FirstMatchUnique(t, a, k);
    }
  }

  // ---- Range refinement ----

  /** Regions start on a multiple of 4 and end just below one. */
  ghost predicate Aligned(t: Table) {
    forall k :: 0 <= k < |t| ==> t[k].Range? ==>
      t[k].low <= t[k].high < WORD && t[k].low % 4 == 0 && t[k].high % 4 == 3
  }

  /** All addresses of [low, high] have the same first match among the entries from i on as pa,
      and priv is what that match grants. */
  ghost predicate Uniform(m: Mode, t: Table, pa: nat, i: nat, low: nat, high: nat, priv: Priv)
    requires i <= |t|
  {
    && low <= pa <= high < WORD && low % 4 == 0 && high % 4 == 3
    && (forall a :: low <= a <= high ==> FirstMatch(t, a, i) == FirstMatch(t, pa, i))
    && priv == Grant(m, t, FirstMatch(t, pa, i))
  }

  /** refinePMPRegionRange: narrow [low, high] around pa by region i, or move to that region if it
      contains pa. */
  method RefineRange(m: Mode, t: Table, low0: nat, high0: nat, pa: nat, i: nat, priv0: Priv)
      returns (low: nat, high: nat, priv: Priv)
    requires i < |t| && Aligned(t) && Uniform(m, t, pa, i + 1, low0, high0, priv0)
    ensures Uniform(m, t, pa, i, low, high, priv)
  {
    low, high, priv := low0, high0, priv0;
    var g := t[i];
    if g.Range? {
      if g.low <= pa && pa <= g.high {
        low := g.low;
        high := g.high;
        priv := if m != M || g.L then g.priv else RWX;
      } else if g.low > pa && g.low < high {
        high := g.low - 1;
      } else if g.high < pa && g.high > low {
        low := g.high + 1;
      }
    }
    assert forall a :: low <= a <= high ==> (Contains(g, a) <==> Contains(g, pa));
  }

  /** The refinement loop of mapPMPInt, from the lowest to the highest priority: it ends with a range
      around pa on which every address has the first match, and so the permission, of pa. */
  method RefineAll(m: Mode, t: Table, pa: nat, top: nat) returns (low: nat, high: nat, priv: Priv)
    requires Aligned(t) && pa <= top < WORD && top % 4 == 3
    ensures Uniform(m, t, pa, 0, low, high, priv)
  {
    low, high := 0, top;
    priv := if m == M || |t| == 0 then RWX else NONE;
    var i: nat := |t|;
    while i > 0
      invariant i <= |t|
      invariant Uniform(m, t, pa, i, low, high, priv)
    {
      i := i - 1;
      low, high, priv := RefineRange(m, t, low, high, pa, i, priv);
    }
  }

  // ---- Permission caches ----

  type Cache = nat -> Priv

  /** Every cached permission is either withheld or exactly the first-match permission. */
  ghost predicate Coherent(m: Mode, t: Table, f: Cache) {
    forall a: nat :: a < WORD ==> f(a) == NONE || f(a) == Perm(m, t, a)
  }

  /** f' is f with the addresses of b made inaccessible. */
  ghost predicate Blanks(f: Cache, f': Cache, b: iset<nat>) {
    forall a: nat :: f'(a) == if a in b then NONE else f(a)
  }

  /** Registers change from t to t' and exactly b is blanked. No address outside b keeps a stale grant. */
  ghost predicate CoversChange(m: Mode, t: Table, t': Table, b: iset<nat>) {
    forall a: nat :: a < WORD && a !in b ==> Perm(m, t, a) == NONE || Perm(m, t', a) == Perm(m, t, a)
  }

  /** Blanking b is enough for every coherent cache exactly when each address whose granted
      permission changes lies in b. */
  lemma BlankingExact(m: Mode, t: Table, t': Table, b: iset<nat>)
    ensures CoversChange(m, t, t', b) <==>
            forall f: Cache, f': Cache :: Coherent(m, t, f) && Blanks(f, f', b) ==> Coherent(m, t', f')
  {
    if forall f: Cache, f': Cache :: Coherent(m, t, f) && Blanks(f, f', b) ==> Coherent(m, t', f') {
      var f: Cache := (a: nat) => Perm(m, t, a);
      var f': Cache := (a: nat) => if a in b then NONE else Perm(m, t, a);
      assert Coherent(m, t, f) && Blanks(f, f', b);
      assert Coherent(m, t', f');
      forall a: nat | a < WORD && a !in b
        ensures Perm(m, t, a) == NONE || Perm(m, t', a) == Perm(m, t, a)
      {
        assert f'(a) == Perm(m, t, a);
      }
    }
  }

  lemma BlanksTwice(f: Cache, g: Cache, h: Cache, b: iset<nat>, b': iset<nat>)
    requires Blanks(f, g, b) && Blanks(g, h, b')
    ensures Blanks(f, h, b + b')
  {
  }

  lemma BlankingKeepsCoherence(m: Mode, t: Table, t': Table, b: iset<nat>, f: Cache, f': Cache)
    requires CoversChange(m, t, t', b) && Coherent(m, t, f) && Blanks(f, f', b)
    ensures Coherent(m, t', f')
  {
  }

  /** Two regions decide address a alike: both or neither contain it, and with the same permission. */
  ghost predicate AgreeAt(g: Region, g': Region, a: nat) {
    && (Contains(g, a) <==> Contains(g', a))
    && (Contains(g, a) ==> g.priv == g'.priv && g.L == g'.L)
  }

  ghost predicate SameAt(t: Table, t': Table, a: nat, n: nat)
    requires n <= |t| == |t'|
  {
    forall k :: 0 <= k < n ==> AgreeAt(t[k], t'[k], a)
  }

  lemma SamePerm(m: Mode, t: Table, t': Table, a: nat)
    requires |t| == |t'| && SameAt(t, t', a, |t|)
    ensures Perm(m, t, a) == Perm(m, t', a)
  {
    SameFirstMatch(t, t', a, |t|);
  }

  /** Tables that agree on their first n entries have the same first match, or none there. */
  lemma SameFirstMatch(t: Table, t': Table, a: nat, n: nat)
    requires n <= |t| == |t'| && SameAt(t, t', a, n)
    ensures FirstMatch(t, a, 0) == FirstMatch(t', a, 0) || (FirstMatch(t, a, 0) >= n && FirstMatch(t', a, 0) >= n)
    ensures var k := FirstMatch(t, a, 0); k < n ==> t[k].priv == t'[k].priv && t[k].L == t'[k].L
  {
    var k := FirstMatch(t, a, 0);
    if k < n {
      assert AgreeAt(t[k], t'[k], a);
      forall j | 0 <= j < k
        ensures !Contains(t'[j], a)
      {
        assert AgreeAt(t[j], t'[j], a);
      }
      FirstMatchUnique(t', a, k);
    } else {
      var k' := FirstMatch(t', a, 0);
      assert k' < n ==> AgreeAt(t[k'], t'[k'], a);
    }
  }

  // ---- Filling ----

  /** Some implemented address of [low, high) is not granted the required permission. */
  ghost predicate Denied(m: Mode, t: Table, limit: nat, required: Priv, low: nat, high: nat) {
    exists a: nat :: low <= a < high && a < limit && !Covers(Perm(m, t, a), required)
  }

  /** f arises from f0 by adding first-match permissions only, among them all implemented addresses of
      [low, next). */
  ghost predicate Filled(m: Mode, t: Table, limit: nat, f0: Cache, f: Cache, low: nat, next: nat) {
    && (forall a: nat :: a < WORD ==> f(a) == f0(a) || f(a) == Perm(m, t, a))
    && (forall a: nat :: low <= a < next && a < limit ==> f(a) == Perm(m, t, a))
  }

  /** f' is f with [low, high] set to priv. */
  ghost predicate SetRange(f: Cache, f': Cache, low: nat, high: nat, priv: Priv) {
    forall a: nat :: f'(a) == if low <= a <= high then priv else f(a)
  }

  lemma FillMore(m: Mode, t: Table, limit: nat, f0: Cache, f: Cache, f': Cache,
                 low: nat, pa: nat, lo: nat, hi: nat, priv: Priv)
    requires Filled(m, t, limit, f0, f, low, pa) && low <= pa && limit <= WORD
    requires Uniform(m, t, pa, 0, lo, hi, priv) && SetRange(f, f', lo, hi, priv)
    ensures Filled(m, t, limit, f0, f', low, hi + 1)
  {
  }

  lemma DeniedFrom(m: Mode, t: Table, limit: nat, required: Priv, low: nat, pa: nat, lo: nat, hi: nat, priv: Priv, high: nat)
    requires low <= pa < high <= hi + 1 && pa < limit && Uniform(m, t, pa, 0, lo, hi, priv)
    ensures Denied(m, t, limit, required, low, high)
        <==> Denied(m, t, limit, required, low, pa) || !Covers(priv, required)
  {
    assert Perm(m, t, pa) == priv;
    forall a: nat | pa <= a < high
      ensures Perm(m, t, a) == priv
    {
    }
  }
}

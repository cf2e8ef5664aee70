/** Over every interleaving of harts, a live tag is a reservation that nothing but perhaps a non-maskable
    interrupt has ended: store-conditional succeeds only when it may, and, unless a suspended hart with a live
    tag has been reset, whenever it may. */
module ReservationRuns {
  import opened Bits
  import opened Reservation

  // ---- Invariants ----

  /** Every suspended hart with a live tag has a watch on its granule. */
  ghost predicate Watched(c: Config, s: System)
    requires Valid(c, s)
  {
    forall h :: 0 <= h < c.harts && h != s.running && s.tags[h] != NO_TAG ==> WatchOf(c, h, s.tags[h]) in s.watches
  }

  /** A live tag is a reservation. */
  ghost predicate Safe(c: Config, s: System, events: seq<Event>)
    requires Valid(c, s)
  {
    forall h :: 0 <= h < c.harts && s.tags[h] != NO_TAG ==> Held(c, events, h, s.tags[h])
  }

  /** Every watch belongs to a suspended hart with a live tag, and watches its granule. */
  ghost predicate NoStale(c: Config, s: System)
    requires Valid(c, s)
  {
    forall w :: w in s.watches ==>
      w.owner < c.harts && w.owner != s.running && s.tags[w.owner] != NO_TAG && w == WatchOf(c, w.owner, s.tags[w.owner])
  }

  /** A reservation is a live tag. */
  ghost predicate Complete(c: Config, s: System, events: seq<Event>)
    requires Valid(c, s)
  {
    forall h, g :: 0 <= h < c.harts && Held(c, events, h, g) ==> s.tags[h] == g
  }

  lemma NextValid(c: Config, s: System, e: Event)
    requires Valid(c, s) && Allowed(c, s, e)
    ensures Valid(c, Next(c, s, e))
  {
  }

  lemma GranuleIsTag(c: Config, addr: nat)
    requires addr < WORD && addr % 4 == 0
    ensures Granule(c, addr) != NO_TAG
  {
  }

  // ---- Safety ----

  lemma StepWatched(c: Config, s: System, e: Event)
    requires Valid(c, s) && Allowed(c, s, e) && Watched(c, s)
    ensures Watched(c, Next(c, s, e))
  {
    var s' := Next(c, s, e);
    forall h | 0 <= h < c.harts && h != s'.running && s'.tags[h] != NO_TAG
      ensures WatchOf(c, h, s'.tags[h]) in s'.watches
    {
      if !e.SwitchTo? {
        assert WatchOf(c, h, s.tags[h]) in s.watches;
      }
    }
  }

  /** A store that leaves a suspended hart's tag alone misses its granule. */
  lemma StoreSpares(c: Config, s: System, addr: nat, size: nat, h: nat)
    requires Valid(c, s) && Watched(c, s) && h < c.harts && h != s.running
    requires Store(c, s, addr, size).tags[h] != NO_TAG
    ensures s.tags[h] == Store(c, s, addr, size).tags[h]
    ensures !Overlaps(s.tags[h], s.tags[h] + Pow2(c.grainBits) - 1, addr, size)
  {
    var w := WatchOf(c, h, s.tags[h]);
    assert w in s.watches;
    assert h !in Hit(s, addr, size);
  }

  lemma StepSafeAt(c: Config, s: System, events: seq<Event>, e: Event, h: nat)
    requires Valid(c, s) && Allowed(c, s, e) && Watched(c, s) && Safe(c, s, events)
    requires h < c.harts && Next(c, s, e).tags[h] != NO_TAG
    ensures Held(c, events + [e], h, Next(c, s, e).tags[h])
  {
    HeldAfter(c, events, e, h, Next(c, s, e).tags[h]);
    match e
    case Sc(r, addr, size, ok) =>
      if ok && h != r {
        StoreSpares(c, s, addr, size, h);
      }
    case Write(r, addr, size) =>
      if h != r {
        StoreSpares(c, s, addr, size, h);
      }
    case _ =>
  }

  lemma StepSafe(c: Config, s: System, events: seq<Event>, e: Event)
    requires Valid(c, s) && Allowed(c, s, e) && Watched(c, s) && Safe(c, s, events)
    ensures Safe(c, Next(c, s, e), events + [e])
  {
    forall h | 0 <= h < c.harts && Next(c, s, e).tags[h] != NO_TAG
      ensures Held(c, events + [e], h, Next(c, s, e).tags[h])
    {
      StepSafeAt(c, s, events, e, h);
    }
  }

  // ---- Exactness ----

  /** e is not the reset of a suspended hart with a live tag. */
  ghost predicate Tidy(c: Config, s: System, e: Event)
    requires Valid(c, s)
  {
    !(e.ResetHart? && e.hart < c.harts && e.hart != s.running && s.tags[e.hart] != NO_TAG)
  }

  /** Exactly the reset of a suspended hart with a live tag leaves a stale watch behind. */
  lemma StepNoStaleExact(c: Config, s: System, e: Event)
    requires Valid(c, s) && Allowed(c, s, e) && NoStale(c, s) && Watched(c, s)
    ensures NoStale(c, Next(c, s, e)) <==> Tidy(c, s, e)
  {
    if Tidy(c, s, e) {
      StepNoStale(c, s, e);
    } else {
      ResetLeavesStale(c, s, e.hart);
    }
  }

  lemma StepNoStale(c: Config, s: System, e: Event)
    requires Valid(c, s) && Allowed(c, s, e) && Tidy(c, s, e) && NoStale(c, s)
    ensures NoStale(c, Next(c, s, e))
  {
    var s' := Next(c, s, e);
    forall w | w in s'.watches
      ensures w.owner < c.harts && w.owner != s'.running && s'.tags[w.owner] != NO_TAG
      ensures w == WatchOf(c, w.owner, s'.tags[w.owner])
    {
      match e
      case SwitchTo(next) =>
        if w.owner != s.running {
          assert w in s.watches;
        }
      case _ => assert w in s.watches;
    }
  }

  /** A store takes a tag only from a hart whose granule it overlaps. */
  lemma StoreTakes(c: Config, s: System, addr: nat, size: nat, h: nat)
    requires Valid(c, s) && NoStale(c, s) && h < c.harts && Store(c, s, addr, size).tags[h] != s.tags[h]
    ensures h != s.running && Overlaps(s.tags[h], s.tags[h] + Pow2(c.grainBits) - 1, addr, size)
  {
    var w :| w in s.watches && w.owner == h && Overlaps(w.low, w.high, addr, size);
    assert w == WatchOf(c, h, s.tags[h]);
  }

  lemma StepCompleteAt(c: Config, s: System, events: seq<Event>, e: Event, h: nat, g: nat)
    requires Valid(c, s) && Allowed(c, s, e) && NoStale(c, s) && Complete(c, s, events)
    requires h < c.harts && Held(c, events + [e], h, g)
    ensures Next(c, s, e).tags[h] == g
  {
    HeldAfter(c, events, e, h, g);
    match e
    case Sc(r, addr, size, ok) =>
      if ok && h != r && Store(c, s, addr, size).tags[h] != s.tags[h] {
        StoreTakes(c, s, addr, size, h);
      }
    case Write(r, addr, size) =>
      if Store(c, s, addr, size).tags[h] != s.tags[h] {
        StoreTakes(c, s, addr, size, h);
      }
    case _ =>
  }

  lemma StepComplete(c: Config, s: System, events: seq<Event>, e: Event)
    requires Valid(c, s) && Allowed(c, s, e) && NoStale(c, s) && Complete(c, s, events)
    ensures Complete(c, Next(c, s, e), events + [e])
  {
    forall h, g | 0 <= h < c.harts && Held(c, events + [e], h, g)
      ensures Next(c, s, e).tags[h] == g
    {
      StepCompleteAt(c, s, events, e, h, g);
    }
  }

  // ---- Runs ----

  ghost predicate Init(c: Config, s: System) {
    Valid(c, s) && s.watches == {} && forall h :: 0 <= h < c.harts ==> s.tags[h] == NO_TAG
  }

  ghost predicate Run(c: Config, states: seq<System>, events: seq<Event>) {
    && |states| == |events| + 1 && Init(c, states[0])
    && forall i :: 0 <= i < |events| ==>
         Valid(c, states[i]) && Allowed(c, states[i], events[i]) && states[i + 1] == Next(c, states[i], events[i])
  }

  lemma {:induction false} AlwaysSafe(c: Config, states: seq<System>, events: seq<Event>, i: nat)
    requires Run(c, states, events) && i <= |events|
    ensures Valid(c, states[i]) && Watched(c, states[i]) && Safe(c, states[i], events[..i])
    decreases i
  {
    if i > 0 {
      AlwaysSafe(c, states, events, i - 1);
      var s, e := states[i - 1], events[i - 1];
      assert states[i - 1 + 1] == Next(c, s, e);
      NextValid(c, s, e);
      StepWatched(c, s, e);
      StepSafe(c, s, events[..i - 1], e);
      assert events[..i] == events[..i - 1] + [e];
    }
  }

  /** A succeeding SC: the hart's latest LR was on the same granule, since then the hart has taken no trap but
      perhaps a non-maskable interrupt, no return, reset or SC, and no other hart has written to the granule. So
      the reservation stands if and only if the hart has had no non-maskable interrupt since its LR. */
  lemma ScIsSafe(c: Config, states: seq<System>, events: seq<Event>, i: nat)
    requires Run(c, states, events) && i < |events| && events[i].Sc? && events[i].ok
    ensures var h, g := events[i].hart, Granule(c, events[i].addr);
            && Held(c, events[..i], h, g)
            && (Reserved(c, events[..i], h, g) <==> !Interrupted(events[..i], h))
  {
    AlwaysSafe(c, states, events, i);
    assert Allowed(c, states[i], events[i]);
    GranuleIsTag(c, events[i].addr);
    ReservedIsHeld(c, events[..i], events[i].hart, Granule(c, events[i].addr));
  }

  lemma {:induction false} AlwaysExact(c: Config, states: seq<System>, events: seq<Event>, i: nat)
    requires Run(c, states, events) && i <= |events|
    requires forall k :: 0 <= k < i ==> Valid(c, states[k]) && Tidy(c, states[k], events[k])
    ensures Valid(c, states[i]) && NoStale(c, states[i]) && Complete(c, states[i], events[..i])
    decreases i
  {
    if i == 0 {
      assert events[..0] == [];
    } else {
      AlwaysExact(c, states, events, i - 1);
      var s, e := states[i - 1], events[i - 1];
      assert states[i - 1 + 1] == Next(c, s, e);
      NextValid(c, s, e);
      StepNoStale(c, s, e);
      StepComplete(c, s, events[..i - 1], e);
      assert events[..i] == events[..i - 1] + [e];
    }
  }

  /** Unless a suspended hart with a live tag has been reset, SC succeeds exactly when no event but perhaps a
      non-maskable interrupt has ended the reservation; and without such an interrupt since the hart's LR,
      exactly when the reservation stands. */
  lemma ScIsExact(c: Config, states: seq<System>, events: seq<Event>, i: nat)
    requires Run(c, states, events) && i < |events| && events[i].Sc?
    requires forall k :: 0 <= k < i ==> Valid(c, states[k]) && Tidy(c, states[k], events[k])
    ensures var h, g := events[i].hart, Granule(c, events[i].addr);
            && (events[i].ok <==> Held(c, events[..i], h, g))
            && (!Interrupted(events[..i], h) ==> (events[i].ok <==> Reserved(c, events[..i], h, g)))
  {
    AlwaysExact(c, states, events, i);
    if events[i].ok {
      ScIsSafe(c, states, events, i);
    }
    assert Allowed(c, states[i], events[i]);
    ReservedIsHeld(c, events[..i], events[i].hart, Granule(c, events[i].addr));
  }

  // ---- The stale watch ----

  /** Resetting a suspended hart that holds a reservation leaves its watch behind. */
  lemma ResetLeavesStale(c: Config, s: System, h: nat)
    requires Valid(c, s) && Watched(c, s) && h < c.harts && h != s.running && s.tags[h] != NO_TAG
    ensures var s' := Next(c, s, ResetHart(h)); WatchOf(c, h, s.tags[h]) in s'.watches && !NoStale(c, s')
  {
    var w := WatchOf(c, h, s.tags[h]);
    assert w in Next(c, s, ResetHart(h)).watches;
  }

  /** A write to a stale watch of a suspended hart takes a reservation that the write does not end, so that
      the next SC fails where it may succeed. */
  lemma StaleWatchTakes(c: Config, s: System, w: Watch, addr: nat, size: nat)
    requires Valid(c, s) && w in s.watches && w.owner < c.harts && w.owner != s.running
    requires Overlaps(w.low, w.high, addr, size)
    requires var g := s.tags[w.owner]; g != NO_TAG && !Overlaps(g, g + Pow2(c.grainBits) - 1, addr, size)
    ensures var e := Write(s.running, addr, size);
            Next(c, s, e).tags[w.owner] == NO_TAG && !Ends(c, e, w.owner, s.tags[w.owner])
  {
    assert w.owner in Hit(s, addr, size);
  }

  // ---- Two runs that show the conditions are needed ----

  /** One more event of a run. */
  lemma Extend(c: Config, states: seq<System>, events: seq<Event>, e: Event)
      returns (states': seq<System>, events': seq<Event>)
    requires Run(c, states, events) && Valid(c, states[|events|]) && Allowed(c, states[|events|], e)
    ensures states' == states + [Next(c, states[|events|], e)] && events' == events + [e]
    ensures Run(c, states', events') && Valid(c, states'[|events'|])
  {
    states', events' := states + [Next(c, states[|events|], e)], events + [e];
    NextValid(c, states[|events|], e);
    forall i | 0 <= i < |events'|
      ensures Valid(c, states'[i]) && Allowed(c, states'[i], events'[i]) && states'[i + 1] == Next(c, states'[i], events'[i])
    {
      if i < |events| {
        assert states'[i] == states[i] && states'[i + 1] == states[i + 1] && events'[i] == events[i];
      }
    }
  }

  lemma Start(c: Config) returns (states: seq<System>, events: seq<Event>)
    requires c == Config(2, 3)
    ensures Run(c, states, events) && events == [] && states == [System([NO_TAG, NO_TAG], 0, {})]
  {
    states, events := [System([NO_TAG, NO_TAG], 0, {})], [];
  }

  /** Granules of eight bytes. */
  lemma SmallGranules(c: Config)
    requires c == Config(2, 3)
    ensures Granule(c, 0) == 0 && Granule(c, 8) == 8 && Pow2(c.grainBits) == 8
  {
    LowIsRemainder(8, 3);
  }

  /** LR, a non-maskable interrupt, SC in its handler: the SC succeeds although a trap has been taken. */
  lemma NmiKeepsReservation() returns (c: Config, states: seq<System>, events: seq<Event>)
    ensures Run(c, states, events) && events == [Lr(0, 0), Nmi(0), Sc(0, 0, 4, true)]
    ensures !Reserved(c, events[..2], 0, Granule(c, 0))
  {
    c := Config(2, 3);
    SmallGranules(c);
    states, events := Start(c);
    states, events := Extend(c, states, events, Lr(0, 0));
    states, events := Extend(c, states, events, Nmi(0));
    states, events := Extend(c, states, events, Sc(0, 0, 4, true));
    assert events[..2][1] == Nmi(0);
    assert Interrupted(events[..2], 0);
    ReservedIsHeld(c, events[..2], 0, Granule(c, 0));
  }

  /** A reset of hart 0 while it is suspended leaves the watch of its first LR behind; a later write there by
      hart 1 makes the SC that belongs to its second LR, on another granule, fail although the reservation
      stands. */
  lemma StaleWatchFails() returns (c: Config, states: seq<System>, events: seq<Event>)
    ensures Run(c, states, events)
    ensures events == [Lr(0, 0), SwitchTo(1), ResetHart(0), SwitchTo(0), Lr(0, 8), SwitchTo(1), Write(1, 0, 4),
                       SwitchTo(0), Sc(0, 8, 4, false)]
    ensures Reserved(c, events[..8], 0, Granule(c, 8))
  {
    c := Config(2, 3);
    SmallGranules(c);
    states, events := UpToWrite(c);
    states, events := Extend(c, states, events, SwitchTo(0));
    states, events := Extend(c, states, events, Sc(0, 8, 4, false));
    assert events[..8] == [Lr(0, 0), SwitchTo(1), ResetHart(0), SwitchTo(0), Lr(0, 8), SwitchTo(1), Write(1, 0, 4),
                           SwitchTo(0)];
    StillReserved(c, events[..8]);
  }

  lemma StillReserved(c: Config, events: seq<Event>)
    requires c == Config(2, 3)
    requires events == [Lr(0, 0), SwitchTo(1), ResetHart(0), SwitchTo(0), Lr(0, 8), SwitchTo(1), Write(1, 0, 4),
                        SwitchTo(0)]
    ensures Reserved(c, events, 0, Granule(c, 8))
  {
    SmallGranules(c);
    assert HeldSince(c, events, 0, 8, 4);
  }

  lemma UpToReset(c: Config) returns (states: seq<System>, events: seq<Event>)
    requires c == Config(2, 3)
    ensures Run(c, states, events) && events == [Lr(0, 0), SwitchTo(1), ResetHart(0), SwitchTo(0)]
    ensures states[4] == System([NO_TAG, NO_TAG], 0, {Watch(0, 0, 7)})
  {
    SmallGranules(c);
    states, events := Start(c);
    states, events := Extend(c, states, events, Lr(0, 0));
    assert states[1] == System([0, NO_TAG], 0, {});
    states, events := Extend(c, states, events, SwitchTo(1));
    assert states[2] == System([0, NO_TAG], 1, {Watch(0, 0, 7)});
    states, events := Extend(c, states, events, ResetHart(0));
    states, events := Extend(c, states, events, SwitchTo(0));
  }

  lemma UpToSecondLr(c: Config) returns (states: seq<System>, events: seq<Event>)
    requires c == Config(2, 3)
    ensures Run(c, states, events)
    ensures events == [Lr(0, 0), SwitchTo(1), ResetHart(0), SwitchTo(0), Lr(0, 8), SwitchTo(1)]
    ensures states[6] == System([8, NO_TAG], 1, {Watch(0, 0, 7), Watch(0, 8, 15)})
  {
    SmallGranules(c);
    states, events := UpToReset(c);
    states, events := Extend(c, states, events, Lr(0, 8));
    assert states[5] == System([8, NO_TAG], 0, {Watch(0, 0, 7)});
    states, events := Extend(c, states, events, SwitchTo(1));
  }

  lemma UpToWrite(c: Config) returns (states: seq<System>, events: seq<Event>)
    requires c == Config(2, 3)
    ensures Run(c, states, events)
    ensures events == [Lr(0, 0), SwitchTo(1), ResetHart(0), SwitchTo(0), Lr(0, 8), SwitchTo(1), Write(1, 0, 4)]
    ensures Valid(c, states[7]) && states[7].running == 1 && states[7].tags == [NO_TAG, NO_TAG]
  {
    states, events := UpToSecondLr(c);
    StaleStore(c, states[6]);
    states, events := Extend(c, states, events, Write(1, 0, 4));
  }

  lemma StaleStore(c: Config, s: System)
    requires c == Config(2, 3) && s == System([8, NO_TAG], 1, {Watch(0, 0, 7), Watch(0, 8, 15)})
    ensures Store(c, s, 0, 4).running == 1 && Store(c, s, 0, 4).tags == [NO_TAG, NO_TAG]
  {
    assert Watch(0, 0, 7) in s.watches;
    assert 0 in Hit(s, 0, 4);
  }
}

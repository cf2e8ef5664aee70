/** The exclusive access monitor as the source runs it: methods that update the tags and watches in place,
    proved against the functions of module Reservation. */
module MonitorUnit {
  import opened Bits
  import opened Reservation
  import opened ReservationRuns

  lemma AbortOne(c: Config, s: System, hit: set<nat>, h: nat)
    requires Valid(c, s) && h < c.harts
    ensures var s1 := AbortAll(c, s, hit);
            AbortAll(c, s, hit + {h}) ==
            if s1.tags[h] == NO_TAG then s1
            else System(s1.tags[h := NO_TAG], s1.running, s1.watches - {WatchOf(c, h, s1.tags[h])})
  {
    var s1, s2 := AbortAll(c, s, hit), AbortAll(c, s, hit + {h});
    if s1.tags[h] == NO_TAG {
      assert s2.tags == s1.tags;
      assert s2.watches == s1.watches;
    } else {
      assert s2.tags == s1.tags[h := NO_TAG];
      assert s2.watches == s1.watches - {WatchOf(c, h, s1.tags[h])};
    }
  }

  class Monitor {
    const c: Config
    var tags: seq<nat>
    var running: nat
    var watches: set<Watch>
    /** What has happened so far. */
    ghost var events: seq<Event>

    ghost function Sys(): System
      reads this
    {
      System(tags, running, watches)
    }

    ghost predicate Shape()
      reads this
    {
      Reservation.Valid(c, Sys()) && forall w :: w in watches ==> w.owner < c.harts
    }

    /** Every live tag is a reservation that the events so far have not ended, and every suspended hart with a
        live tag is watched. */
    ghost predicate Valid()
      reads this
    {
      Shape() && Watched(c, Sys()) && Safe(c, Sys(), events)
    }

    constructor (c: Config)
      requires c.harts > 0 && c.grainBits <= 64
      ensures this.c == c && Valid() && Init(c, Sys()) && events == []
    {
      this.c := c;
      tags := seq(c.harts, _ => NO_TAG);
      running, watches, events := 0, {}, [];
    }

    /** The event e has been carried out: record it. */
    ghost method Record(e: Event, before: System)
      requires Reservation.Valid(c, before) && Allowed(c, before, e) && Sys() == Next(c, before, e) && Shape()
      requires Watched(c, before) && Safe(c, before, events)
      modifies `events
      ensures Valid() && events == old(events) + [e]
    {
      StepWatched(c, before, e);
      StepSafe(c, before, events, e);
      events := events + [e];
    }

    /** updateExclusiveAccessCallback, if there is a live tag */
    method UpdateExclusiveAccessCallback(h: nat, install: bool)
      requires Shape() && h < c.harts
      modifies `watches
      ensures Shape() && Sys() == UpdateCallback(c, old(Sys()), h, install)
    {
      if tags[h] != NO_TAG {
        var simLow := tags[h];
        var simHigh := simLow + Pow2(c.grainBits) - 1;
        if install {
          watches := watches + {Watch(h, simLow, simHigh)};
        } else {
          watches := watches - {Watch(h, simLow, simHigh)};
        }
      }
    }

    /** riscvAbortExclusiveAccess: the hart loses its tag and its watch, and no other suspended hart loses
        its protection. The watch is removed before the tag is cleared. */
    method AbortExclusiveAccess(h: nat)
      requires Shape() && h < c.harts
      modifies `tags, `watches
      ensures Shape() && tags == old(tags)[h := NO_TAG]
      ensures old(tags)[h] != NO_TAG ==> watches == old(watches) - {WatchOf(c, h, old(tags)[h])}
      ensures old(tags)[h] == NO_TAG ==> watches == old(watches)
      ensures old(Watched(c, Sys())) ==> Watched(c, Sys())
    {
      if tags[h] != NO_TAG {
        UpdateExclusiveAccessCallback(h, false);
        tags := tags[h := NO_TAG];
      }
    }

    /** riscvContextSwitchCB for the hart that stops, then for the hart that starts: from then on writes by the
        new hart reach the reservation of the old one, and its own no longer watch it. */
    method ContextSwitch(next: nat)
      requires Valid() && next < c.harts
      modifies `running, `watches, `events
      ensures Valid() && Sys() == Switch(c, old(Sys()), next) && events == old(events) + [SwitchTo(next)]
      ensures tags == old(tags) && running == next
      ensures next != old(running) && tags[old(running)] != NO_TAG
              ==> WatchOf(c, old(running), tags[old(running)]) in watches
      ensures tags[next] != NO_TAG ==> WatchOf(c, next, tags[next]) !in watches
    {
      ghost var before := Sys();
      UpdateExclusiveAccessCallback(running, true);
      UpdateExclusiveAccessCallback(next, false);
      running := next;
      Record(SwitchTo(next), before);
    }

    /** generateEATag */
    method GenerateEATag(ra: nat) returns (tag: nat)
      requires Shape() && ra < WORD
      ensures tag == Granule(c, ra)
    {
      WordIsPow2();
      AndHigh(64, ra, c.grainBits);
      tag := And(ra, Pow2(64) - Pow2(c.grainBits));
    }

    /** emitLR */
    method LoadReserved(ra: nat)
      requires Valid() && ra < WORD && ra % 4 == 0
      modifies `tags, `events
      ensures Valid() && events == old(events) + [Lr(running, ra)]
      ensures tags == old(tags)[running := Granule(c, ra)]
    {
      ghost var before := Sys();
      var tag := GenerateEATag(ra);
      tags := tags[running := tag];
      Record(Lr(running, ra), before);
    }

    /** A store calls back every watch it overlaps. */
    method CallBack(addr: nat, size: nat)
      requires Shape()
      modifies `tags, `watches
      ensures Shape() && Sys() == Store(c, old(Sys()), addr, size)
    {
      ghost var before := Sys();
      ghost var hit: set<nat> := {};
      var rest := watches;
      assert AbortAll(c, before, hit).tags == before.tags;
      while rest != {}
        invariant rest <= before.watches
        invariant running == before.running && Shape()
        invariant Sys() == AbortAll(c, before, hit)
        invariant hit == set w | w in before.watches - rest && Overlaps(w.low, w.high, addr, size) :: w.owner
        decreases |rest|
      {
        var w :| w in rest;
        if Overlaps(w.low, w.high, addr, size) {
          AbortOne(c, before, hit, w.owner);
          AbortExclusiveAccess(w.owner);
          hit := hit + {w.owner};
        }
        rest := rest - {w};
      }
      assert hit == Hit(before, addr, size);
    }

    /** An ordinary store of the running hart: afterwards no other hart holds a tag on a granule it touched. */
    method DoStore(addr: nat, size: nat)
      requires Valid()
      modifies `tags, `watches, `events
      ensures Valid() && events == old(events) + [Write(running, addr, size)]
      ensures Sys() == Store(c, old(Sys()), addr, size)
      ensures forall h :: 0 <= h < c.harts && h != running && tags[h] != NO_TAG
                ==> !Overlaps(tags[h], tags[h] + Pow2(c.grainBits) - 1, addr, size)
    {
      ghost var before := Sys();
      CallBack(addr, size);
      Record(Write(running, addr, size), before);
      forall h | 0 <= h < c.harts && h != running && tags[h] != NO_TAG
        ensures !Overlaps(tags[h], tags[h] + Pow2(c.grainBits) - 1, addr, size)
      {
        StoreSpares(c, before, addr, size, h);
      }
    }

    /** emitSC: rd is 0 on success and 1 on failure. Success means that nothing but perhaps a non-maskable
        interrupt has ended the reservation; the reservation ends either way. */
    method DoStoreConditional(ra: nat, size: nat) returns (rd: nat)
      requires Valid() && ra < WORD && ra % 4 == 0
      modifies `tags, `watches, `events
      ensures Valid() && events == old(events) + [Sc(running, ra, size, rd == 0)] && rd in {0, 1}
      ensures Sys() == StoreConditional(c, old(Sys()), ra, size) && tags[running] == NO_TAG
      ensures rd == 0 ==> Held(c, old(events), running, Granule(c, ra))
    {
      ghost var before := Sys();
      var tag := GenerateEATag(ra);
      GranuleIsTag(c, ra);
      if tags[running] != tag {
        rd := 1;
      } else {
        CallBack(ra, size);
        rd := 0;
      }
      tags := tags[running := NO_TAG];
      Record(Sc(running, ra, size, rd == 0), before);
    }

    /** clearEA on a trap or return of the running hart */
    method TrapOrReturnEntry()
      requires Valid()
      modifies `tags, `events
      ensures Valid() && events == old(events) + [TrapOrReturn(running)] && tags == old(tags)[running := NO_TAG]
    {
      ghost var before := Sys();
      tags := tags[running := NO_TAG];
      Record(TrapOrReturn(running), before);
    }
  }
}

/** Reference and pin counts of memory objects, on values: when an object's storage goes
    back to its allocator, and what the shared monitor counts. */
module Lifecycle {

  datatype Event = RefUp | RefDown | Pin | Unpin

  /** One object: its counts, whether it is still valid, and how often its storage has been
      returned. Returning the storage of an invalid object does nothing. */
  datatype Counts = Counts(ref: int, pin: int, valid: bool, returned: nat) {
    function Free(): Counts { if valid then this.(valid := false, returned := returned + 1) else this }

    function Step(e: Event): Counts {
      match e
      case RefUp => this.(ref := ref + 1)
      case RefDown =>
        if ref <= 0 then this.(ref := 0)
        else
          var next := this.(ref := ref - 1);
          if next.ref == 0 && pin == 0 then next.Free() else next
      case Pin => this.(pin := pin + 1)
      case Unpin =>
        var next := this.(pin := pin - 1);
        var freed := if next.pin <= 0 && ref <= 0 then next.Free() else next;
        if freed.pin < 0 then freed.(pin := 0) else freed
    }

    /** What one event adds to the monitor's number of pinned objects. */
    function PinnedDelta(e: Event): int {
      if e == Pin && pin == 0 then 1 else if e == Unpin && pin - 1 == 0 then -1 else 0
    }

    predicate Unused() { ref == 0 && pin == 0 }
  }

  /** A freshly allocated object. */
  const ALLOCATED := Counts(1, 0, true, 0)

  function Run(es: seq<Event>): Counts
    decreases |es|
  {
    if es == [] then ALLOCATED else Run(es[..|es| - 1]).Step(es[|es| - 1])
  }

  // ----- the counts are sums over the events -----

  /** How many more events of one kind there are than of the other. */
  function Net(es: seq<Event>, up: Event, down: Event): int {
    multiset(es)[up] as int - multiset(es)[down] as int
  }

  /** A count that starts from `start`, goes up and down with the events and never goes below zero: the
      largest of what the whole run leaves and what any end of it leaves. */
  ghost predicate IsCount(n: int, start: int, es: seq<Event>, up: Event, down: Event) {
    && start + Net(es, up, down) <= n
    && (forall k :: 0 <= k <= |es| ==> Net(es[k..], up, down) <= n)
    && (n == start + Net(es, up, down) || exists k :: 0 <= k <= |es| && n == Net(es[k..], up, down))
  }

  lemma NetSnoc(es: seq<Event>, e: Event, up: Event, down: Event)
    requires up != down
    ensures Net(es + [e], up, down) == Net(es, up, down) + if e == up then 1 else if e == down then -1 else 0
  {
    assert multiset(es + [e]) == multiset(es) + multiset{e};
  }

  /** A count after one more event. */
  function Moved(n: int, e: Event, up: Event, down: Event): int {
    if e == up then n + 1 else if e == down then if n > 0 then n - 1 else 0 else n
  }

  /** One more event moves such a count by one, but not below zero. */
  lemma CountSnoc(n: int, start: int, es: seq<Event>, e: Event, up: Event, down: Event)
    requires up != down && IsCount(n, start, es, up, down)
    ensures IsCount(Moved(n, e, up, down), start, es + [e], up, down)
  {
    var delta := if e == up then 1 else if e == down then -1 else 0;
    var all, m := es + [e], Moved(n, e, up, down);
    NetSnoc(es, e, up, down);
    assert all[|all|..] == [] && es[|es|..] == [];
    forall k | 0 <= k <= |es| ensures Net(all[k..], up, down) == Net(es[k..], up, down) + delta {
      NetSnoc(es[k..], e, up, down);
      assert all[k..] == es[k..] + [e];
    }
    if n > 0 && n != start + Net(es, up, down) {
      var k :| 0 <= k <= |es| && n == Net(es[k..], up, down);
      assert m == Net(all[k..], up, down);
    }
    assert m == start + Net(all, up, down) || m == Net(all[|all|..], up, down)
      || exists k :: 0 <= k <= |es| && m == Net(all[k..], up, down);
  }

  lemma StepMoves(c: Counts, e: Event)
    requires c.ref >= 0 && c.pin >= 0
    ensures c.Step(e).ref == Moved(c.ref, e, RefUp, RefDown) && c.Step(e).pin == Moved(c.pin, e, Pin, Unpin)
  {
  }

  lemma CountIsNotNegative(n: int, start: int, es: seq<Event>, up: Event, down: Event)
    requires IsCount(n, start, es, up, down)
    ensures n >= 0
  {
    assert es[|es|..] == [] && Net(es[|es|..], up, down) <= n;
  }

  /** The reference count starts at one and the pin count at zero, and both follow the events. */
  lemma {:induction false} CountsAreSums(es: seq<Event>)
    ensures IsCount(Run(es).ref, 1, es, RefUp, RefDown) && IsCount(Run(es).pin, 0, es, Pin, Unpin)
    decreases |es|
  {
    if es == [] {
      assert es[0..] == [];
    } else {
      var front, e := es[..|es| - 1], es[|es| - 1];
      CountsAreSums(front);
      assert es == front + [e];
      CountIsNotNegative(Run(front).ref, 1, front, RefUp, RefDown);
      CountIsNotNegative(Run(front).pin, 0, front, Pin, Unpin);
      StepMoves(Run(front), e);
      CountSnoc(Run(front).ref, 1, front, e, RefUp, RefDown);
      CountSnoc(Run(front).pin, 0, front, e, Pin, Unpin);
    }
  }

  /** While nobody gives up more than there is, the counts are what was taken and not given up. */
  lemma BalancedCounts(es: seq<Event>)
    requires forall k :: 0 <= k <= |es| ==> Net(es[..k], RefUp, RefDown) >= -1 && Net(es[..k], Pin, Unpin) >= 0
    ensures Run(es).ref == 1 + Net(es, RefUp, RefDown) && Run(es).pin == Net(es, Pin, Unpin)
  {
    CountsAreSums(es);
    forall k | 0 <= k <= |es|
      ensures Net(es[k..], RefUp, RefDown) <= 1 + Net(es, RefUp, RefDown) && Net(es[k..], Pin, Unpin) <= Net(es, Pin, Unpin)
    {
      assert es == es[..k] + es[k..];
      assert multiset(es) == multiset(es[..k]) + multiset(es[k..]);
    }
  }

  /** Everything taken has been given up: no end of the run takes more than it gives up, and neither does
      the whole run, with the reference that the object was made with. */
  ghost predicate GivenUp(es: seq<Event>) {
    && Net(es, RefUp, RefDown) < 0
    && forall k :: 0 <= k <= |es| ==> Net(es[k..], RefUp, RefDown) <= 0 && Net(es[k..], Pin, Unpin) <= 0
  }

  lemma UnusedIsGivenUp(es: seq<Event>)
    ensures Run(es).Unused() <==> GivenUp(es)
    ensures Run(es).ref >= 0 && Run(es).pin >= 0
  {
    CountsAreSums(es);
    assert es[|es|..] == [] && es[0..] == es;
    var c := Run(es);
    assert Net(es[|es|..], RefUp, RefDown) == 0 && Net(es[|es|..], Pin, Unpin) == 0;
    assert Net(es[0..], Pin, Unpin) == Net(es, Pin, Unpin);
  }

  /** At some time so far everything had been given up. */
  ghost predicate GivenUpWithin(es: seq<Event>)
    decreases |es|
  {
    GivenUp(es) || (es != [] && GivenUpWithin(es[..|es| - 1]))
  }

  /** Over every sequence of events, unbalanced ones included: the storage is returned at most once, and it
      has been returned precisely when all references and pins had been given up at some time so far. */
  lemma {:induction false} StorageReturnedExactlyOnce(es: seq<Event>)
    ensures var c := Run(es);
      && c.returned == (if GivenUpWithin(es) then 1 else 0)
      && (c.valid <==> !GivenUpWithin(es))
    decreases |es|
  {
    UnusedIsGivenUp(es);
    if es != [] {
      UnusedIsGivenUp(es[..|es| - 1]);
      StorageReturnedExactlyOnce(es[..|es| - 1]);
    }
  }

  // ----- pages -----

  /** A page has the same counts, but returning it does not invalidate it. */
  function PageStep(c: Counts, e: Event): Counts { c.Step(e).(valid := true) }

  function PageRun(es: seq<Event>): Counts
    decreases |es|
  {
    if es == [] then ALLOCATED else PageStep(PageRun(es[..|es| - 1]), es[|es| - 1])
  }

  /** Its counts are those of any object. */
  lemma {:induction false} PageCounts(es: seq<Event>)
    ensures PageRun(es).ref == Run(es).ref && PageRun(es).pin == Run(es).pin && PageRun(es).valid
    decreases |es|
  {
    if es != [] { PageCounts(es[..|es| - 1]); }
  }

  /** The event gives up the last reference while nothing is pinned, or unpins without references. */
  predicate GivesBack(c: Counts, e: Event) {
    (e == RefDown && c.ref == 1 && c.pin == 0) || (e == Unpin && c.ref == 0 && c.pin <= 1)
  }

  /** Event number `k` gives back a page that has been unused before. */
  ghost predicate Again(es: seq<Event>, k: nat)
    requires k < |es|
  {
    GivenUpWithin(es[..k]) && GivesBack(PageRun(es[..k]), es[k])
  }

  lemma PageStepReturns(c: Counts, e: Event)
    requires c.ref >= 0 && c.pin >= 0 && c.valid
    ensures var next := PageStep(c, e);
      && next.ref >= 0 && next.pin >= 0 && next.valid
      && next.returned == c.returned + (if GivesBack(c, e) then 1 else 0)
      && (!c.Unused() ==> (GivesBack(c, e) <==> next.Unused()))
      && (c.Unused() ==> (GivesBack(c, e) <==> e == Unpin))
  {
  }

  lemma AgainStep(es: seq<Event>)
    requires es != []
    ensures var front := es[..|es| - 1];
      (exists k :: 0 <= k < |es| && Again(es, k)) <==>
        (exists k :: 0 <= k < |front| && Again(front, k)) ||
        (GivenUpWithin(front) && GivesBack(PageRun(front), es[|es| - 1]))
  {
    var front := es[..|es| - 1];
    assert forall k :: 0 <= k < |front| ==> es[..k] == front[..k] && es[k] == front[k];
    assert forall k :: 0 <= k < |front| ==> (Again(es, k) <==> Again(front, k));
    assert Again(es, |front|) <==> GivenUpWithin(front) && GivesBack(PageRun(front), es[|es| - 1]);
  }

  /** A page is in the free list once both its counts have been zero, and a second time exactly when some
      later event gives it back again: an unpin without references, or a reference taken and dropped. */
  lemma {:induction false} PageReturnedTwice(es: seq<Event>)
    ensures var c := PageRun(es);
      && c.valid
      && (c.returned >= 1 <==> GivenUpWithin(es))
      && (c.returned >= 2 <==> exists k :: 0 <= k < |es| && Again(es, k))
    decreases |es|
  {
    UnusedIsGivenUp(es);
    PageCounts(es);
    if es != [] {
      UnusedIsGivenUp(es[..|es| - 1]);
      PageCounts(es[..|es| - 1]);
      PageReturnedTwice(es[..|es| - 1]);
      PageStepReturns(PageRun(es[..|es| - 1]), es[|es| - 1]);
      AgainStep(es);
    }
  }

  // ----- many objects and one monitor -----

  datatype System = System(objs: map<nat, Counts>, pinnedTotal: int) {
    function Step(id: nat, e: Event): System {
      if id !in objs then this
      else System(objs[id := objs[id].Step(e)], pinnedTotal + objs[id].PinnedDelta(e))
    }
  }

  function RunSystem(s: System, es: seq<(nat, Event)>): System
    decreases |es|
  {
    if es == [] then s else RunSystem(s, es[..|es| - 1]).Step(es[|es| - 1].0, es[|es| - 1].1)
  }

  function PinnedIds(s: System): set<nat> { set id | id in s.objs && s.objs[id].pin > 0 }

  ghost predicate Counted(s: System) {
    && s.pinnedTotal == |PinnedIds(s)|
    && forall id :: id in s.objs ==> s.objs[id].pin >= 0
  }

  lemma StepKeepsCounted(s: System, id: nat, e: Event)
    requires Counted(s)
    ensures Counted(s.Step(id, e))
  {
    if id in s.objs {
      var t := s.Step(id, e);
      var others := PinnedIds(s) - {id};
      assert PinnedIds(s) == if s.objs[id].pin > 0 then others + {id} else others;
      assert PinnedIds(t) == if t.objs[id].pin > 0 then others + {id} else others;
    }
  }

  /** The monitor's total is the number of objects whose pin count is positive. */
  lemma {:induction false} MonitorCountsPinned(s: System, es: seq<(nat, Event)>)
    requires Counted(s)
    ensures Counted(RunSystem(s, es))
    decreases |es|
  {
    if es != [] {
      MonitorCountsPinned(s, es[..|es| - 1]);
      StepKeepsCounted(RunSystem(s, es[..|es| - 1]), es[|es| - 1].0, es[|es| - 1].1);
    }
  }
}

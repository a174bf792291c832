/** The monitor that hands the one network link to text and KV transfers: a busy flag and a count of
    waiting text transfers under a condition variable. Tasks are interleaved at the points where
    they wait; everything between two such points is one step. */
module LinkMonitor {

  datatype Kind = Text | Kv

  /** `Entering`: not yet in the monitor; `Awake`: notified, but not yet run; `Done`: gone. */
  datatype Status = Entering | Sleeping | Awake | Holding | Done

  datatype Task = Task(kind: Kind, status: Status)

  datatype Event =
    | Spawn(id: nat, kind: Kind)
    | Enter(id: nat)
    | Resume(id: nat)
    | Release(id: nat)
    | Cancel(id: nat)

  datatype Link = Link(busy: bool, textWaiters: int, tasks: map<nat, Task>)
  {
    predicate Is(id: nat, kind: Kind, status: Status) { id in tasks && tasks[id] == Task(kind, status) }

    predicate At(id: nat, status: Status) { id in tasks && tasks[id].status == status }

    predicate Waits(id: nat) { At(id, Sleeping) || At(id, Awake) }

    function Put(id: nat, kind: Kind, status: Status): Link {
      this.(tasks := tasks[id := Task(kind, status)])
    }

    /** The test of the wait loops: text yields only to a running transfer, KV also to waiting text. */
    predicate Blocked(kind: Kind) { busy || (kind == Kv && textWaiters > 0) }

    /** One turn of a wait loop: sleep again, or take the link. */
    function Try(id: nat, kind: Kind): Link {
      if Blocked(kind) then Put(id, kind, Sleeping)
      else Put(id, kind, Holding).(busy := true, textWaiters := if kind == Text then textWaiters - 1 else textWaiters)
    }

    predicate Enabled(e: Event) {
      match e
      case Spawn(id, kind) => id !in tasks
      case Enter(id) => At(id, Entering)
      case Resume(id) => At(id, Awake)
      case Release(id) => At(id, Holding)
      case Cancel(id) => Waits(id)
    }

    function Step(e: Event): Link
      requires Enabled(e)
    {
      match e
      case Spawn(id, kind) => Put(id, kind, Entering)
      case Enter(id) =>
        var kind := tasks[id].kind;
        (if kind == Text then this.(textWaiters := textWaiters + 1) else this).Try(id, kind)
      case Resume(id) => Try(id, tasks[id].kind)
      case Release(id) => Put(id, tasks[id].kind, Done).(busy := false).NotifyAll()
      case Cancel(id) =>
        var kind := tasks[id].kind;
        (if kind == Text then this.(textWaiters := textWaiters - 1) else this).Put(id, kind, Done)
    }

    function NotifyAll(): Link {
      this.(tasks := map id | id in tasks :: if tasks[id].status == Sleeping then tasks[id].(status := Awake) else tasks[id])
    }

    ghost function Holders(): set<nat> { set id | id in tasks && tasks[id].status == Holding }

    ghost function WaitingText(): set<nat> { set id | id in tasks && tasks[id].kind == Text && Waits(id) }

    ghost predicate OneHolder() { |Holders()| == if busy then 1 else 0 }

    ghost predicate WaitersCounted() { textWaiters == |WaitingText()| }

    /** While the link is idle every waiting text task has been notified, and a KV task sleeps on
        only while such a text task is about to run. */
    ghost predicate NoLostWakeup() {
      !busy ==>
        && (forall id :: !Is(id, Text, Sleeping))
        && ((exists id :: Is(id, Kv, Sleeping)) ==> exists id :: Is(id, Text, Awake))
    }

    /** A cancellation after which somebody is still there to wake whoever sleeps. */
    ghost predicate Harmless(e: Event) {
      e.Cancel? ==>
        || busy
        || (exists i :: i != e.id && i in WaitingText())
        || !(exists i :: i != e.id && Is(i, Kv, Sleeping))
    }

    ghost predicate Sound() { OneHolder() && WaitersCounted() && NoLostWakeup() }
  }

  const IDLE := Link(false, 0, map[])

  ghost predicate IsRun(es: seq<Event>)
    decreases |es|, 0
  {
    es == [] || (IsRun(es[..|es| - 1]) && After(es[..|es| - 1]).Enabled(es[|es| - 1]))
  }

  /** The state after a run. */
  ghost function After(es: seq<Event>): Link
    requires IsRun(es)
    decreases |es|, 1
  {
    if es == [] then IDLE else After(es[..|es| - 1]).Step(es[|es| - 1])
  }

  // ----- what every step keeps -----

  /** How one changed task changes the two counts. */
  lemma CountHolders(s: Link, t: Link, id: nat, task: Task)
    requires t.tasks == s.tasks[id := task]
    ensures |t.Holders()| - (if task.status == Holding then 1 else 0) == |s.Holders()| - (if s.At(id, Holding) then 1 else 0)
  {
    SameWithout(s.Holders(), t.Holders(), id);
  }

  lemma CountWaiting(s: Link, t: Link, id: nat, task: Task)
    requires t.tasks == s.tasks[id := task] && (id in s.tasks ==> s.tasks[id].kind == task.kind)
    ensures |t.WaitingText()| - (if task.kind == Text && t.Waits(id) then 1 else 0) ==
      |s.WaitingText()| - (if task.kind == Text && s.Waits(id) then 1 else 0)
  {
    SameWithout(s.WaitingText(), t.WaitingText(), id);
  }

  lemma SameWithout<T(!new)>(s: set<T>, t: set<T>, x: T)
    requires forall y :: y != x ==> (y in s <==> y in t)
    ensures |s| - (if x in s then 1 else 0) == |t| - (if x in t then 1 else 0)
  {
    assert s - {x} == t - {x};
    SizeWithout(s, x);
    SizeWithout(t, x);
  }

  lemma SizeWithout<T>(s: set<T>, x: T)
    ensures |s| == |s - {x}| + if x in s then 1 else 0
  {
    assert x !in s ==> s - {x} == s;
  }

  lemma NotifyKeepsSets(s: Link)
    ensures s.NotifyAll().Holders() == s.Holders() && s.NotifyAll().WaitingText() == s.WaitingText()
    ensures forall id :: !s.NotifyAll().At(id, Sleeping)
  {
  }

  lemma ReleaseKeepsCounts(s: Link, id: nat)
    requires s.Enabled(Release(id)) && s.OneHolder() && s.WaitersCounted()
    ensures s.Step(Release(id)).OneHolder() && s.Step(Release(id)).WaitersCounted()
  {
    var kind := s.tasks[id].kind;
    var u := s.Put(id, kind, Done).(busy := false);
    CountHolders(s, u, id, Task(kind, Done));
    CountWaiting(s, u, id, Task(kind, Done));
    NotifyKeepsSets(u);
    assert id in s.Holders();
  }

  lemma CountsKept(s: Link, e: Event)
    requires s.Enabled(e) && s.OneHolder() && s.WaitersCounted()
    ensures s.Step(e).OneHolder() && s.Step(e).WaitersCounted()
  {
    if e.Release? {
      ReleaseKeepsCounts(s, e.id);
    } else {
      var t := s.Step(e);
      CountHolders(s, t, e.id, t.tasks[e.id]);
      CountWaiting(s, t, e.id, t.tasks[e.id]);
    }
  }

  lemma WakeupKept(s: Link, e: Event)
    requires s.Enabled(e) && s.Sound() && !e.Cancel?
    ensures s.Step(e).NoLostWakeup()
  {
    var t := s.Step(e);
    if e.Release? {
      NotifyKeepsSets(s.Put(e.id, s.tasks[e.id].kind, Done).(busy := false));
    } else if !t.busy {
      assert forall id :: id != e.id ==> (id in t.tasks <==> id in s.tasks) && (id in t.tasks ==> t.tasks[id] == s.tasks[id]);
      assert forall id :: t.Is(id, Text, Sleeping) ==> s.Is(id, Text, Sleeping);
      if k :| t.Is(k, Kv, Sleeping) {
        var id: nat;
        if k == e.id {
          assert s.WaitingText() != {};
          id :| id in s.WaitingText();
          assert !s.Is(id, Text, Sleeping);
        } else {
          assert s.Is(k, Kv, Sleeping);
          id :| s.Is(id, Text, Awake);
        }
        assert t.Is(id, Text, Awake);
      }
    }
  }

  /** Over every run, cancellations included: at most one task holds the link, the flag says whether one
      does, and the count is the number of waiting text tasks. */
  lemma {:induction false} EveryRunCounts(es: seq<Event>)
    requires IsRun(es)
    ensures After(es).OneHolder() && After(es).WaitersCounted()
    decreases |es|
  {
    if es == [] {
      assert IDLE.Holders() == {} && IDLE.WaitingText() == {};
    } else {
      EveryRunCounts(es[..|es| - 1]);
      CountsKept(After(es[..|es| - 1]), es[|es| - 1]);
    }
  }

  /** A step gives the link to a KV task only when no text task waits for it, and only when it was idle. */
  lemma TextGoesFirst(s: Link, e: Event, id: nat)
    requires s.Enabled(e) && s.WaitersCounted() && !s.At(id, Holding) && s.Step(e).At(id, Holding)
    ensures !s.busy && s.Step(e).busy
    ensures s.Step(e).tasks[id].kind == Kv ==> forall i :: i in s.tasks && s.tasks[i].kind == Text ==> !s.Waits(i)
  {
    if s.Step(e).tasks[id].kind == Kv {
      forall i | i in s.tasks && s.tasks[i].kind == Text ensures !s.Waits(i) {
        assert s.Waits(i) ==> i in s.WaitingText();
        assert s.textWaiters <= 0;
        assert |s.WaitingText()| == 0;
      }
    }
  }

  // ----- progress -----

  /** While the link is idle and a task waits, some notified task takes the link as soon as it runs. */
  lemma IdleLinkIsTaken(s: Link, id: nat) returns (next: nat)
    requires s.Sound() && !s.busy && s.Waits(id)
    ensures s.Enabled(Resume(next)) && s.Step(Resume(next)).At(next, Holding)
  {
    if s.textWaiters > 0 {
      assert s.WaitingText() != {};
      next :| next in s.WaitingText();
      assert !s.Is(next, Text, Sleeping);
    } else {
      next := id;
      assert s.WaitingText() == {};
      assert forall i :: s.Is(i, Text, Awake) ==> i in s.WaitingText();
      assert s.tasks[id].kind == Text ==> id in s.WaitingText();
      assert !s.Is(id, Kv, Sleeping);
    }
  }

  ghost function Open(s: Link): set<nat> { set id | id in s.tasks && s.tasks[id].status != Done }

  ghost function Ready(s: Link): set<nat> {
    set id | id in s.tasks && (s.tasks[id].status == Entering || s.tasks[id].status == Awake)
  }

  /** Without new arrivals every step brings the run closer to its end: fewer tasks are left, or as
      many with fewer of them ready to run. */
  lemma StepsRunOut(s: Link, e: Event)
    requires s.Enabled(e) && (e.Enter? || e.Resume? || e.Release?)
    ensures Open(s.Step(e)) < Open(s) || (Open(s.Step(e)) == Open(s) && Ready(s.Step(e)) < Ready(s))
  {
    if e.Release? {
      assert e.id in Open(s);
    } else {
      assert e.id in Ready(s);
    }
  }

  /** A run that cannot continue without new arrivals has served every task. */
  lemma NobodyIsLeftWaiting(s: Link, id: nat)
    requires s.Sound() && id in s.tasks
    requires forall i :: !s.Enabled(Enter(i)) && !s.Enabled(Resume(i)) && !s.Enabled(Release(i))
    ensures s.At(id, Done)
  {
    assert !s.Enabled(Enter(id)) && !s.Enabled(Resume(id)) && !s.Enabled(Release(id));
    assert forall h :: h in s.Holders() ==> s.Enabled(Release(h));
    assert s.Holders() == {};
    if s.Waits(id) {
      var next := IdleLinkIsTaken(s, id);
    }
  }

  // ----- cancellation -----

  /** A cancelled waiter keeps the wake-ups exactly when the link is busy, another text task waits, or
      no KV task sleeps: otherwise it was the last reason to sleep, and nobody is told. */
  lemma CancelKeepsWakeup(s: Link, id: nat)
    requires s.Sound() && s.Waits(id)
    ensures s.Step(Cancel(id)).NoLostWakeup() <==> s.Harmless(Cancel(id))
  {
    var t := s.Step(Cancel(id));
    assert forall i :: i != id ==> (i in t.tasks <==> i in s.tasks) && (i in t.tasks ==> t.tasks[i] == s.tasks[i]);
    if !s.busy {
      forall i | i != id && i in s.WaitingText() ensures t.Is(i, Text, Awake) {
        assert !s.Is(i, Text, Sleeping);
      }
      assert forall i :: t.Is(i, Text, Awake) ==> i != id && i in s.WaitingText();
      assert forall i :: i != id && s.Is(i, Kv, Sleeping) ==> t.Is(i, Kv, Sleeping);
      assert forall i :: t.Is(i, Kv, Sleeping) ==> i != id && s.Is(i, Kv, Sleeping);
      assert forall i :: t.Is(i, Text, Sleeping) ==> s.Is(i, Text, Sleeping);
    }
  }

  ghost predicate AllHarmless(es: seq<Event>)
    requires IsRun(es)
    decreases |es|
  {
    es == [] || (AllHarmless(es[..|es| - 1]) && After(es[..|es| - 1]).Harmless(es[|es| - 1]))
  }

  ghost predicate SoundAt(es: seq<Event>, k: nat)
    requires k <= |es|
  {
    IsRun(es[..k]) && After(es[..k]).Sound()
  }

  lemma LastStep(s: Link, e: Event)
    requires s.Enabled(e) && s.Sound()
    ensures s.Step(e).Sound() <==> s.Harmless(e)
  {
    CountsKept(s, e);
    if e.Cancel? {
      CancelKeepsWakeup(s, e.id);
    } else {
      WakeupKept(s, e);
    }
  }

  /** Sound at every moment of the run. */
  ghost predicate AlwaysSound(es: seq<Event>)
    requires IsRun(es)
    decreases |es|
  {
    After(es).Sound() && (es == [] || AlwaysSound(es[..|es| - 1]))
  }

  lemma {:induction false} AlwaysSoundMeaning(es: seq<Event>)
    requires IsRun(es)
    ensures AlwaysSound(es) <==> forall k :: 0 <= k <= |es| ==> SoundAt(es, k)
    decreases |es|
  {
    assert es[..|es|] == es;
    assert SoundAt(es, |es|) <==> After(es).Sound();
    if es != [] {
      var front := es[..|es| - 1];
      AlwaysSoundMeaning(front);
      forall k | 0 <= k <= |front| ensures SoundAt(front, k) <==> SoundAt(es, k) {
        assert front[..k] == es[..k];
      }
    }
  }

  lemma {:induction false} HarmlessIsSound(es: seq<Event>)
    requires IsRun(es)
    ensures AllHarmless(es) <==> AlwaysSound(es)
    decreases |es|
  {
    EveryRunCounts(es);
    if es != [] {
      var front, e := es[..|es| - 1], es[|es| - 1];
      HarmlessIsSound(front);
      if After(front).Sound() {
        LastStep(After(front), e);
      }
    }
  }

  lemma {:induction false} NoCancelIsHarmless(es: seq<Event>)
    requires IsRun(es) && forall e :: e in es ==> !e.Cancel?
    ensures AllHarmless(es)
    decreases |es|
  {
    if es != [] { NoCancelIsHarmless(es[..|es| - 1]); }
  }

  /** A run is sound at every moment exactly when all its cancellations are harmless, and so in particular
      when it has none. */
  lemma EveryRunIsSound(es: seq<Event>)
    requires IsRun(es)
    ensures AllHarmless(es) <==> forall k :: 0 <= k <= |es| ==> SoundAt(es, k)
    ensures (forall e :: e in es ==> !e.Cancel?) ==> AllHarmless(es)
  {
    HarmlessIsSound(es);
    AlwaysSoundMeaning(es);
    if forall e :: e in es ==> !e.Cancel? {
      NoCancelIsHarmless(es);
    }
  }

  /** A run that leaves the link idle and a KV task asleep for good: the text task it yielded to is
      cancelled between its notification and its turn. */
  lemma CancelledTextStrandsKv()
    ensures exists es :: IsRun(es) && Stranded(After(es))
  {
    var es := KvYields();
    es := Extend(es, Cancel(2));
    StrandedExample(After(es));
  }

  /** The link is released, and the KV task runs first and yields to the text task. */
  lemma KvYields() returns (es: seq<Event>)
    ensures IsRun(es)
    ensures After(es) == Link(false, 1, map[0 := Task(Text, Done), 1 := Task(Kv, Sleeping), 2 := Task(Text, Awake)])
  {
    es := TwoBehindOne();
    es := Extend(es, Release(0));
    assert After(es) == Link(false, 1, map[0 := Task(Text, Done), 1 := Task(Kv, Awake), 2 := Task(Text, Awake)]);
    es := Extend(es, Resume(1));
  }

  lemma StrandedExample(s: Link)
    requires s == Link(false, 0, map[0 := Task(Text, Done), 1 := Task(Kv, Sleeping), 2 := Task(Text, Done)])
    ensures Stranded(s)
  {
    assert s.Is(1, Kv, Sleeping);
  }

  /** A text task holds the link; a KV task and then another text task wait for it. */
  lemma TwoBehindOne() returns (es: seq<Event>)
    ensures IsRun(es)
    ensures After(es) == Link(true, 1, map[0 := Task(Text, Holding), 1 := Task(Kv, Sleeping), 2 := Task(Text, Sleeping)])
  {
    es := Extend([], Spawn(0, Text));
    es := Extend(es, Enter(0));
    assert After(es) == Link(true, 0, map[0 := Task(Text, Holding)]);
    es := Extend(es, Spawn(1, Kv));
    es := Extend(es, Enter(1));
    assert After(es) == Link(true, 0, map[0 := Task(Text, Holding), 1 := Task(Kv, Sleeping)]);
    es := Extend(es, Spawn(2, Text));
    es := Extend(es, Enter(2));
  }

  lemma Extend(es: seq<Event>, e: Event) returns (longer: seq<Event>)
    requires IsRun(es) && After(es).Enabled(e)
    ensures IsRun(longer) && After(longer) == After(es).Step(e)
  {
    longer := es + [e];
    assert longer[..|longer| - 1] == es;
  }

  /** The link is idle, a KV task sleeps, and no task of the run can take a step any more. */
  ghost predicate Stranded(s: Link) {
    && !s.busy && (exists id :: s.Is(id, Kv, Sleeping))
    && forall i :: !s.Enabled(Enter(i)) && !s.Enabled(Resume(i)) && !s.Enabled(Release(i))
  }

  // ----- the monitor -----

  /** The module's globals, with the tasks that the event loop keeps. */
  class Monitor {
    var linkBusy: bool
    var textWaiters: int
    var tasks: map<nat, Task>

    ghost function State(): Link
      reads this
    {
      Link(linkBusy, textWaiters, tasks)
    }

    constructor ()
      ensures State() == IDLE
    {
      linkBusy, textWaiters, tasks := false, 0, map[];
    }

    method StartTask(id: nat, kind: Kind)
      requires id !in tasks
      modifies this
      ensures State() == old(State()).Step(Spawn(id, kind))
    {
      tasks := tasks[id := Task(kind, Entering)];
    }

    /** The text task's loop, up to its next wait or to the link. */
    method TryText(id: nat)
      modifies this
      ensures State() == old(State()).Try(id, Text)
    {
      if linkBusy {
        tasks := tasks[id := Task(Text, Sleeping)];
      } else {
        linkBusy := true;
        textWaiters := textWaiters - 1;
        tasks := tasks[id := Task(Text, Holding)];
      }
    }

    method TryKv(id: nat)
      modifies this
      ensures State() == old(State()).Try(id, Kv)
    {
      if linkBusy || textWaiters > 0 {
        tasks := tasks[id := Task(Kv, Sleeping)];
      } else {
        linkBusy := true;
        tasks := tasks[id := Task(Kv, Holding)];
      }
    }

    method AcquireTextSlot(id: nat)
      requires State().Is(id, Text, Entering)
      modifies this
      ensures State() == old(State()).Step(Enter(id))
    {
      textWaiters := textWaiters + 1;
      TryText(id);
    }

    method AcquireKvSlot(id: nat)
      requires State().Is(id, Kv, Entering)
      modifies this
      ensures State() == old(State()).Step(Enter(id))
    {
      TryKv(id);
    }

    /** A notified task runs on from its wait. */
    method ResumeTask(id: nat)
      requires State().At(id, Awake)
      modifies this
      ensures State() == old(State()).Step(Resume(id))
    {
      if tasks[id].kind == Text {
        TryText(id);
      } else {
        TryKv(id);
      }
    }

    method ReleaseSlot(id: nat)
      requires State().At(id, Holding)
      modifies this
      ensures State() == old(State()).Step(Release(id))
    {
      linkBusy := false;
      tasks := tasks[id := Task(tasks[id].kind, Done)];
      tasks := map i | i in tasks :: if tasks[i].status == Sleeping then tasks[i].(status := Awake) else tasks[i];
    }

    /** The wait of a task is cancelled; text tasks take themselves off the count. */
    method CancelWait(id: nat)
      requires State().Waits(id)
      modifies this
      ensures State() == old(State()).Step(Cancel(id))
    {
      if tasks[id].kind == Text {
        textWaiters := textWaiters - 1;
      }
      tasks := tasks[id := Task(tasks[id].kind, Done)];
    }
  }
}

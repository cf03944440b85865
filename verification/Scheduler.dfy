/**
  The round-robin scheduler of kernel.c, lines 59 to 79 and 382 to 390, on a ring of processes.
 */
module Scheduler {
  datatype ProcState = Free | Ready | Running | Blocked | Zombie | Interrupted

  /** What scheduling depends on, in ring order: states, time slices, ticks left; and who runs. */
  datatype View = View(states: seq<ProcState>, slices: seq<int>, ticks: seq<int>, current: nat) {
    ghost predicate Valid() {
      current < |states| == |slices| == |ticks|
    }
  }

  function After(i: nat, n: nat): (j: nat)
    requires i < n
    ensures j < n
  {
    if i + 1 == n then 0 else i + 1
  }

  /** Steps along the ring from i to j; a whole round when they are the same. */
  function Distance(i: nat, j: nat, n: nat): (d: nat)
    requires i < n && j < n
    ensures 1 <= d <= n
  {
    if j > i then j - i else j + n - i
  }

  // ---------------------------------------------------------------------------
  // The choice
  // ---------------------------------------------------------------------------

  /** The first READY process met from place k on, or the current one when the walk comes round to it. */
  ghost function ChoiceFrom(v: View, k: nat): (c: nat)
    requires v.Valid() && k < |v.states|
    ensures c < |v.states|
    decreases |v.states| - Distance(v.current, k, |v.states|)
  {
    if v.states[k] == Ready || k == v.current then k else ChoiceFrom(v, After(k, |v.states|))
  }

  ghost function Choice(v: View): (c: nat)
    requires v.Valid()
    ensures c < |v.states|
  {
    ChoiceFrom(v, After(v.current, |v.states|))
  }

  ghost predicate ReadyOrCurrent(v: View, k: nat)
    requires v.Valid()
  {
    k < |v.states| && (v.states[k] == Ready || k == v.current)
  }

  /** k is the nearest READY process behind the current one, which itself comes last, READY or not. */
  ghost predicate IsNearest(v: View, k: nat)
    requires v.Valid()
  {
    && ReadyOrCurrent(v, k)
    && forall j :: ReadyOrCurrent(v, j) ==> Distance(v.current, k, |v.states|) <= Distance(v.current, j, |v.states|)
  }

  lemma {:induction false} ChoiceFromIsNearest(v: View, k: nat)
    requires v.Valid() && k < |v.states|
    requires forall j :: ReadyOrCurrent(v, j) ==>
               Distance(v.current, k, |v.states|) <= Distance(v.current, j, |v.states|)
    ensures IsNearest(v, ChoiceFrom(v, k))
    decreases |v.states| - Distance(v.current, k, |v.states|)
  {
    if v.states[k] != Ready && k != v.current {
      ChoiceFromIsNearest(v, After(k, |v.states|));
    }
  }

  lemma ChoiceIsTheNearest(v: View, k: nat)
    requires v.Valid()
    ensures Choice(v) == k <==> IsNearest(v, k)
  {
    ChoiceFromIsNearest(v, After(v.current, |v.states|));
  }

  /** The state after schedule, and after timer_interrupt_handler. */
  ghost function Scheduled(v: View): View
    requires v.Valid()
  {
    var k := Choice(v);
    v.(states := v.states[k := Running], ticks := v.ticks[k := v.slices[k]], current := k)
  }

  /** One tick less is left for the current process. */
  ghost function OneTick(v: View): View
    requires v.Valid()
  {
    v.(ticks := v.ticks[v.current := v.ticks[v.current] - 1])
  }

  ghost function Ticked(v: View): View
    requires v.Valid()
  {
    var v' := OneTick(v);
    if v'.ticks[v.current] <= 0 then Scheduled(v'.(states := v.states[v.current := Ready])) else v'
  }

  // ---------------------------------------------------------------------------
  // The ring
  // ---------------------------------------------------------------------------

  class Process {
    var state: ProcState
    var timeslice: int
    var ticksRemaining: int
    var next: Process

    constructor (timeslice: int)
      ensures state == Ready && this.timeslice == ticksRemaining == timeslice && next == this
    {
      state, this.timeslice, ticksRemaining, next := Ready, timeslice, timeslice, this;
    }
  }

  class Kernel {
    var currentProcess: Process?
    var processQueue: Process?
    ghost var ring: seq<Process>
    ghost var view: View

    ghost predicate IsRing()
      reads this, ring
    {
      && |ring| == |view.states| && view.Valid()
      && (forall i, j :: 0 <= i < j < |ring| ==> ring[i] != ring[j])
      && (forall i :: 0 <= i < |ring| ==> ring[i].next == ring[After(i, |ring|)])
      && (forall i :: 0 <= i < |ring| ==> ring[i].state == view.states[i])
      && (forall i :: 0 <= i < |ring| ==> ring[i].timeslice == view.slices[i])
      && (forall i :: 0 <= i < |ring| ==> ring[i].ticksRemaining == view.ticks[i])
      && currentProcess == ring[view.current]
    }

    /** Before the first process there is neither a queue nor a current process. */
    ghost predicate Valid()
      reads this, ring
    {
      (processQueue == null <==> currentProcess == null) && (processQueue != null ==> IsRing())
    }

    constructor ()
      ensures Valid() && processQueue == null
    {
      currentProcess, processQueue, ring := null, null, [];
    }

    /** The start of the first process: a ring of one. */
    method StartInit(init: Process)
      requires Valid() && processQueue == null
      modifies this, init
      ensures Valid() && processQueue == init
      ensures view == View([Running], [old(init.timeslice)], [old(init.ticksRemaining)], 0)
    {
      currentProcess := init;
      init.state := Running;
      processQueue := init;
      init.next := init;
      ring := [init];
      view := View([Running], [init.timeslice], [init.ticksRemaining], 0);
    }

    /** The common end of both ways through schedule. */
    method Switch(next: Process, ghost k: nat)
      requires IsRing() && processQueue != null && k < |ring| && next == ring[k]
      modifies this`currentProcess, this`view, next`state, next`ticksRemaining
      ensures Valid() && IsRing()
      ensures view == old(view).(states := old(view).states[k := Running],
                                 ticks := old(view).ticks[k := old(view).slices[k]], current := k)
    {
      currentProcess := next;
      next.state := Running;
      next.ticksRemaining := next.timeslice;
      view := view.(states := view.states[k := Running], ticks := view.ticks[k := view.slices[k]], current := k);
    }

    method Schedule()
      requires Valid()
      modifies this`currentProcess, this`view, ring
      ensures Valid() && processQueue == old(processQueue) && ring == old(ring)
      ensures processQueue != null ==> view == Scheduled(old(view))
      ensures processQueue == null ==> currentProcess == null
    {
      if processQueue == null {
        return;
      }
      var next := currentProcess.next;
      var start := currentProcess;
      ghost var k: nat := After(view.current, |ring|);
      while true
        invariant IsRing() && view == old(view) && k < |ring| && next == ring[k] && start == ring[view.current]
        invariant ChoiceFrom(view, k) == Choice(view) && (k == view.current ==> |ring| == 1)
        decreases |ring| - Distance(view.current, k, |ring|)
      {
        if next.state == Ready {
          Switch(next, k);
          return;
        }
        next := next.next;
        k := After(k, |ring|);
        if next == start {
          break;
        }
      }
      Switch(currentProcess, view.current);
    }
  
    method CountTick()
      requires IsRing() && processQueue != null
      modifies this`view, currentProcess`ticksRemaining
      ensures IsRing() && view == OneTick(old(view))
    {
      currentProcess.ticksRemaining := currentProcess.ticksRemaining - 1;
      view := view.(ticks := view.ticks[view.current := view.ticks[view.current] - 1]);
    }

    method Preempt()
      requires IsRing() && processQueue != null
      modifies this`view, currentProcess`state
      ensures IsRing() && view == old(view).(states := old(view).states[old(view).current := Ready])
    {
      currentProcess.state := Ready;
      view := view.(states := view.states[view.current := Ready]);
    }

    method TimerInterrupt()
      requires Valid()
      modifies this`currentProcess, this`view, ring
      ensures Valid() && processQueue == old(processQueue) && ring == old(ring)
      ensures processQueue != null ==> view == Ticked(old(view))
      ensures processQueue == null ==> currentProcess == null
    {
      if currentProcess != null {
        CountTick();
        if currentProcess.ticksRemaining <= 0 {
          Preempt();
          Schedule();
        }
      }
    }
  }

  // ---------------------------------------------------------------------------
  // One running process
  // ---------------------------------------------------------------------------

  /** Process k runs and no other does. */
  ghost predicate OnlyRuns(states: seq<ProcState>, k: nat) {
    k < |states| && forall j :: 0 <= j < |states| ==> (states[j] == Running <==> j == k)
  }

  ghost predicate NobodyElseReady(v: View)
    requires v.Valid()
  {
    forall j :: 0 <= j < |v.states| && v.states[j] == Ready ==> j == v.current
  }

  /**
    schedule leaves the chosen process as the only one running if and only if no process but the
    current one was running, and the current one only where nobody else was ready: the callers
    have to take it out of RUNNING first.
   */
  lemma OneRunsAfterScheduleIff(v: View)
    requires v.Valid()
    ensures OnlyRuns(Scheduled(v).states, Scheduled(v).current)
            <==> && (forall j :: 0 <= j < |v.states| && v.states[j] == Running ==> j == v.current)
                 && (v.states[v.current] == Running ==> NobodyElseReady(v))
  {
    var k := Choice(v);
    var s := Scheduled(v).states;
    ChoiceIsTheNearest(v, k);
    ChoiceIsTheNearest(v, v.current);
    assert forall j :: 0 <= j < |s| && j != k ==> s[j] == v.states[j];
    if k == v.current {
      assert ReadyOrCurrent(v, k);
      forall j | 0 <= j < |v.states| && v.states[j] == Ready ensures j == v.current {
        assert ReadyOrCurrent(v, j);
      }
    }
  }

  /** A call with the current process still RUNNING and another one ready leaves two RUNNING. */
  lemma TwoCanRun()
    ensures Scheduled(View([Running, Ready], [10, 10], [10, 10], 0)).states == [Running, Running]
  {
    ChoiceIsTheNearest(View([Running, Ready], [10, 10], [10, 10], 0), 1);
  }

  // ---------------------------------------------------------------------------
  // Runs
  // ---------------------------------------------------------------------------

  /**
    What can happen: a timer interrupt; the current process leaves RUNNING for another state and
    schedule is called; another process's state changes.
   */
  datatype Event = Tick | Leave(state: ProcState) | Change(process: nat, state: ProcState)

  ghost predicate CanHappen(v: View, e: Event)
    requires v.Valid()
  {
    match e
    case Tick => true
    case Leave(s) => s != Running
    case Change(j, s) => j < |v.states| && j != v.current && s != Running
  }

  ghost function Step(v: View, e: Event): (v': View)
    requires v.Valid() && CanHappen(v, e)
    ensures v'.Valid() && |v'.states| == |v.states| && v'.slices == v.slices
  {
    match e
    case Tick => Ticked(v)
    case Leave(s) => Scheduled(v.(states := v.states[v.current := s]))
    case Change(j, s) => v.(states := v.states[j := s])
  }

  ghost predicate IsRun(v: View, events: seq<Event>)
    requires v.Valid()
    decreases |events|
  {
    events == [] || (CanHappen(v, events[0]) && IsRun(Step(v, events[0]), events[1..]))
  }

  ghost function Final(v: View, events: seq<Event>): View
    requires v.Valid() && IsRun(v, events)
    decreases |events|
  {
    if events == [] then v else Final(Step(v, events[0]), events[1..])
  }

  lemma StepKeepsOneRunning(v: View, e: Event)
    requires v.Valid() && CanHappen(v, e) && OnlyRuns(v.states, v.current)
    ensures OnlyRuns(Step(v, e).states, Step(v, e).current)
  {
    match e
    case Tick => OneRunsAfterScheduleIff(OneTick(v).(states := v.states[v.current := Ready]));
    case Leave(s) => OneRunsAfterScheduleIff(v.(states := v.states[v.current := s]));
    case Change(j, s) =>
  }

  /** Over every run exactly the current process is running. */
  lemma {:induction false} ExactlyOneRuns(v: View, events: seq<Event>)
    requires v.Valid() && IsRun(v, events) && OnlyRuns(v.states, v.current)
    ensures OnlyRuns(Final(v, events).states, Final(v, events).current)
    decreases |events|
  {
    if events != [] {
      StepKeepsOneRunning(v, events[0]);
      ExactlyOneRuns(Step(v, events[0]), events[1..]);
    }
  }

  /** p becomes the current process somewhere in the run. */
  ghost predicate Chosen(v: View, events: seq<Event>, p: nat)
    requires v.Valid() && IsRun(v, events)
    decreases |events|
  {
    v.current == p || (events != [] && Chosen(Step(v, events[0]), events[1..], p))
  }

  // ---------------------------------------------------------------------------
  // Leaving the processor
  // ---------------------------------------------------------------------------

  /** A process that leaves RUNNING, for whatever state, runs on if and only if nobody else is ready. */
  lemma LeavingRunsOnIff(v: View, state: ProcState)
    requires v.Valid() && state != Running
    ensures Step(v, Leave(state)).current == v.current <==> NobodyElseReady(v)
    ensures Step(v, Leave(state)).states[Step(v, Leave(state)).current] == Running
  {
    var u := v.(states := v.states[v.current := state]);
    ChoiceIsTheNearest(u, Choice(u));
    ChoiceIsTheNearest(u, v.current);
    if j: nat :| j < |v.states| && v.states[j] == Ready && j != v.current {
      assert ReadyOrCurrent(u, j);
    }
  }

  /** So a process that exits while the only other one is blocked is RUNNING again. */
  lemma ZombieRunsOn()
    ensures var v := Step(View([Running, Blocked], [10, 10], [10, 10], 0), Leave(Zombie));
            v.states == [Running, Blocked] && v.current == 0
  {
    var v := View([Running, Blocked], [10, 10], [10, 10], 0);
    LeavingRunsOnIff(v, Zombie);
    assert v.states[0 := Zombie][0 := Running] == [Running, Blocked];
  }

  ghost predicate Out(v: View, p: nat) {
    v.Valid() && p < |v.states| && p != v.current && v.states[p] != Ready && v.states[p] != Running
  }

  /** Some event makes p ready. */
  ghost predicate MadeReady(events: seq<Event>, p: nat) {
    exists k :: 0 <= k < |events| && events[k] == Change(p, Ready)
  }

  lemma StepKeepsOut(v: View, e: Event, p: nat)
    requires Out(v, p) && CanHappen(v, e) && e != Change(p, Ready)
    ensures Out(Step(v, e), p)
  {
    var u := match e
      case Tick => OneTick(v).(states := v.states[v.current := Ready])
      case Leave(s) => v.(states := v.states[v.current := s])
      case Change(j, s) => v;
    ChoiceIsTheNearest(u, Choice(u));
  }

  /** Once another process runs, one that is out does not run again unless it is made ready. */
  lemma {:induction false} OutStaysOut(v: View, events: seq<Event>, p: nat)
    requires Out(v, p) && IsRun(v, events) && !MadeReady(events, p)
    ensures !Chosen(v, events, p) && Out(Final(v, events), p)
    decreases |events|
  {
    if events != [] {
      assert events[0] != Change(p, Ready);
      StepKeepsOut(v, events[0], p);
      assert forall k :: 0 <= k < |events[1..]| ==> events[1..][k] == events[k + 1];
      OutStaysOut(Step(v, events[0]), events[1..], p);
    }
  }

  /**
    A process that leaves RUNNING without being ready, over any run in which it is not made ready:
    it does not run if and only if another process was ready when it left.
   */
  lemma LeftStaysOutIff(v: View, state: ProcState, events: seq<Event>)
    requires v.Valid() && state != Running && state != Ready
    requires IsRun(Step(v, Leave(state)), events) && !MadeReady(events, v.current)
    ensures !Chosen(Step(v, Leave(state)), events, v.current) <==> !NobodyElseReady(v)
  {
    LeavingRunsOnIff(v, state);
    var w := Step(v, Leave(state));
    if !NobodyElseReady(v) {
      assert w.states[v.current] == state;
      OutStaysOut(w, events, v.current);
    }
  }

  // ---------------------------------------------------------------------------
  // Time slices
  // ---------------------------------------------------------------------------

  function Ticks(events: seq<Event>): nat {
    if events == [] then 0 else (if events[0].Tick? then 1 else 0) + Ticks(events[1..])
  }

  ghost predicate NobodyLeaves(events: seq<Event>) {
    forall k :: 0 <= k < |events| ==> !events[k].Leave?
  }

  /** A process with ticks left runs on, and every interrupt takes one tick of it. */
  lemma {:induction false} TicksAreServed(v: View, events: seq<Event>)
    requires v.Valid() && IsRun(v, events) && NobodyLeaves(events) && Ticks(events) < v.ticks[v.current]
    ensures var u := Final(v, events);
            u.Valid() && u.current == v.current && u.slices == v.slices
            && u.ticks[u.current] == v.ticks[v.current] - Ticks(events)
    decreases |events|
  {
    if events != [] {
      assert !events[0].Leave?;
      assert forall k :: 0 <= k < |events[1..]| ==> events[1..][k] == events[k + 1];
      assert Step(v, events[0]).current == v.current;
      TicksAreServed(Step(v, events[0]), events[1..]);
    }
  }

  /**
    Whoever a call of schedule has chosen runs, unless it leaves by itself, until as many interrupts have come as
    its time slice has ticks; and the last of these takes the processor from it if and only if another is ready.
   */
  lemma FullSliceIsServed(v: View, e: Event, events: seq<Event>)
    requires v.Valid() && CanHappen(v, e) && CallsSchedule(v, e)
    requires IsRun(Step(v, e), events) && NobodyLeaves(events)
    requires Ticks(events) < v.slices[Step(v, e).current]
    ensures var k, u := Step(v, e).current, Final(Step(v, e), events);
            && u.Valid() && u.current == k
            && (Ticks(events) < v.slices[k] - 1 ==> Step(u, Tick).current == k)
            && (Ticks(events) == v.slices[k] - 1 ==> (Step(u, Tick).current == k <==> NobodyElseReady(u)))
  {
    var w := Step(v, e);
    TicksAreServed(w, events);
    var u := Final(w, events);
    if Ticks(events) == v.slices[w.current] - 1 {
      LastTickGivesUpIff(u);
    }
  }

  lemma LastTickGivesUpIff(u: View)
    requires u.Valid() && u.ticks[u.current] == 1
    ensures Step(u, Tick).current == u.current <==> NobodyElseReady(u)
  {
    var left := OneTick(u).(states := u.states[u.current := Ready]);
    ChoiceIsTheNearest(left, Choice(left));
    ChoiceIsTheNearest(left, u.current);
    if j: nat :| j < |u.states| && u.states[j] == Ready && j != u.current {
      assert ReadyOrCurrent(left, j);
    }
  }

  // ---------------------------------------------------------------------------
  // Bounded waiting
  // ---------------------------------------------------------------------------

  /** Nothing but being chosen takes p out of READY. */
  ghost predicate LeftReady(events: seq<Event>, p: nat) {
    forall k :: 0 <= k < |events| && events[k].Change? && events[k].process == p ==> events[k].state == Ready
  }

  ghost predicate CallsSchedule(v: View, e: Event)
    requires v.Valid()
  {
    e.Leave? || (e.Tick? && v.ticks[v.current] <= 1)
  }

  ghost function Calls(v: View, events: seq<Event>): nat
    requires v.Valid() && IsRun(v, events)
    decreases |events|
  {
    if events == [] then 0
    else (if CallsSchedule(v, events[0]) then 1 else 0) + Calls(Step(v, events[0]), events[1..])
  }

  function Interrupts(events: seq<Event>): nat {
    if events == [] then 0 else (if events[0].Change? then 0 else 1) + Interrupts(events[1..])
  }

  /** A call of schedule brings the choice nearer to any other process that is ready, or chooses it. */
  lemma ScheduleComesNearer(v: View, p: nat)
    requires v.Valid() && p < |v.states| && p != v.current && v.states[p] == Ready
    ensures var k, n := Choice(v), |v.states|;
            k == p || (Distance(k, p, n) < Distance(v.current, p, n) && Scheduled(v).states[p] == Ready)
  {
    ChoiceIsTheNearest(v, Choice(v));
    assert ReadyOrCurrent(v, p) && ReadyOrCurrent(v, Choice(v));
  }

  /** What is left of p's wait in interrupts, where no time slice is longer than t. */
  ghost function Wait(v: View, p: nat, t: nat): int
    requires v.Valid() && p < |v.states|
  {
    (if v.ticks[v.current] < 1 then 1 else v.ticks[v.current]) + (Distance(v.current, p, |v.states|) - 1) * t
  }

  lemma ScheduleShortensWait(u: View, p: nat, t: nat)
    requires u.Valid() && p < |u.states| && p != u.current && u.states[p] == Ready
    requires t >= 1 && forall j :: 0 <= j < |u.slices| ==> u.slices[j] <= t
    ensures var v', n := Scheduled(u), |u.states|;
            v'.current == p
            || (&& v'.states[p] == Ready
                && Distance(v'.current, p, n) < Distance(u.current, p, n)
                && Wait(v', p, t) <= (Distance(u.current, p, n) - 1) * t)
  {
    hide Distance, Choice;
    ScheduleComesNearer(u, p);
    if Choice(u) != p {
      var d, d' := Distance(u.current, p, |u.states|), Distance(Choice(u), p, |u.states|);
      OneSliceLess(d', d, t);
      assert u.slices[Choice(u)] <= t;
    }
  }

  lemma OneSliceLess(d': nat, d: nat, t: nat)
    requires d' < d
    ensures t + (d' - 1) * t <= (d - 1) * t
  {
    assert d' * t <= (d - 1) * t;
  }

  lemma WaitIsMore(v: View, p: nat, t: nat)
    requires v.Valid() && p < |v.states|
    ensures (Distance(v.current, p, |v.states|) - 1) * t <= Wait(v, p, t) - 1
  {
  }

  lemma StepShortensWait(v: View, e: Event, p: nat, t: nat)
    requires v.Valid() && CanHappen(v, e) && p < |v.states| && p != v.current && v.states[p] == Ready
    requires e.Change? && e.process == p ==> e.state == Ready
    requires t >= 1 && forall j :: 0 <= j < |v.slices| ==> v.slices[j] <= t
    ensures var v', n := Step(v, e), |v.states|;
            v'.current == p
            || (&& v'.states[p] == Ready
                && Distance(v'.current, p, n) <= Distance(v.current, p, n) - (if CallsSchedule(v, e) then 1 else 0)
                && Wait(v', p, t) <= Wait(v, p, t) - (if e.Change? then 0 else 1))
  {
    if CallsSchedule(v, e) {
      var left := if e.Tick? then v.ticks[v.current := v.ticks[v.current] - 1] else v.ticks;
      var u := v.(states := v.states[v.current := if e.Tick? then Ready else e.state], ticks := left);
      assert Step(v, e) == Scheduled(u);
      hide Step, Scheduled, Wait, Distance;
      ScheduleShortensWait(u, p, t);
      WaitIsMore(v, p, t);
    }
  }

  /**
    Bounded waiting, in calls: a process left READY, at distance d behind the current one and so at
    most n - 1, is chosen by the d-th call of schedule at the latest, whatever else happens.
   */
  lemma {:induction false} ChosenWithinDistance(v: View, events: seq<Event>, p: nat)
    requires v.Valid() && IsRun(v, events) && LeftReady(events, p)
    requires p < |v.states| && p != v.current && v.states[p] == Ready
    requires Calls(v, events) >= Distance(v.current, p, |v.states|)
    ensures Chosen(v, events, p)
    decreases |events|
  {
    assert events != [];
    var t := Longest(v.slices);
    StepShortensWait(v, events[0], p, t);
    if Step(v, events[0]).current != p {
      assert forall k :: 0 <= k < |events[1..]| ==> events[1..][k] == events[k + 1];
      ChosenWithinDistance(Step(v, events[0]), events[1..], p);
    }
  }

  ghost function Longest(slices: seq<int>): (t: nat)
    ensures t >= 1 && forall j :: 0 <= j < |slices| ==> slices[j] <= t
  {
    if slices == [] then 1
    else
      var t, x := Longest(slices[..|slices| - 1]), slices[|slices| - 1];
      if x > t then x else t
  }

  /** Bounded waiting, in time: the rest of the current slice and a full slice for each process in between. */
  lemma {:induction false} ChosenWithinTime(v: View, events: seq<Event>, p: nat, t: nat)
    requires v.Valid() && IsRun(v, events) && LeftReady(events, p)
    requires p < |v.states| && p != v.current && v.states[p] == Ready
    requires t >= 1 && forall j :: 0 <= j < |v.slices| ==> v.slices[j] <= t
    requires Interrupts(events) >= Wait(v, p, t)
    ensures Chosen(v, events, p)
    decreases |events|
  {
    WaitIsPositive(v, p, t);
    assert events != [];
    StepShortensWait(v, events[0], p, t);
    if Step(v, events[0]).current != p {
      assert forall k :: 0 <= k < |events[1..]| ==> events[1..][k] == events[k + 1];
      ChosenWithinTime(Step(v, events[0]), events[1..], p, t);
    }
  }

  lemma WaitIsPositive(v: View, p: nat, t: nat)
    requires v.Valid() && p < |v.states|
    ensures Wait(v, p, t) >= 1
  {
  }

  /** The bound is exact: where everyone is READY, p is not reached in fewer calls than its distance. */
  lemma {:induction false} DistanceIsNeeded(v: View, events: seq<Event>, p: nat)
    requires v.Valid() && p < |v.states| && p != v.current
    requires forall j :: 0 <= j < |v.states| && j != v.current ==> v.states[j] == Ready
    requires IsRun(v, events) && forall k :: 0 <= k < |events| ==> events[k] == Leave(Ready)
    requires |events| < Distance(v.current, p, |v.states|)
    ensures !Chosen(v, events, p) && Calls(v, events) == |events|
    decreases |events|
  {
    if events != [] {
      var u := v.(states := v.states[v.current := Ready]);
      var k := After(v.current, |v.states|);
      assert Choice(u) == k;
      assert forall j :: 0 <= j < |events[1..]| ==> events[1..][j] == events[j + 1];
      DistanceIsNeeded(Step(v, events[0]), events[1..], p);
    }
  }
}

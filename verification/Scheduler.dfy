/**
  kernel/sched.c in its own form: linked `Task` nodes, head and tail pointers, and loops
  that relink them.  The ghost sequences say which tasks the pointers thread together,
  and `Abs` reads the whole state off as a value of SchedCore; every method is proved to
  do to `Abs` what the function of the same routine does.
 */
module Scheduler {
  import opened Words
  import opened Results
  import opened Lists
  import opened DeltaQueue
  import opened SchedCore
  import opened SchedSystem

  /** The queue a task is linked into, if any. */
  datatype Place = Nowhere | InReady | Asleep

  class Task {
    var pid: Word
    var state: TaskState
    var cpuTime: Word
    var next: Task?
    var sleepTicks: Word
    ghost var place: Place

    /** new_task, as far as the scheduler sees it. */
    constructor (pid: Word)
      ensures this.pid == pid && state == Stopped && cpuTime == 0 && next == null && sleepTicks == 0 && place == Nowhere
    {
      this.pid := pid;
      state := Stopped;
      cpuTime := 0;
      next := null;
      sleepTicks := 0;
      place := Nowhere;
    }
  }

  /** `head` and `tail` thread exactly the tasks of `q`, in this order. */
  ghost predicate Linked(q: seq<Task>, head: Task?, tail: Task?)
    reads q`next
  {
    && (q == [] ==> head == null && tail == null)
    && (q != [] ==> head == q[0] && tail == q[|q| - 1])
    && (forall i {:trigger q[i].next} :: 0 <= i < |q| ==> q[i].next == if i + 1 < |q| then q[i + 1] else null)
    && (forall i, j :: 0 <= i < j < |q| ==> q[i] != q[j])
  }

  /** `d` lists the tasks of `q` with the deltas their sleep_ticks fields hold. */
  ghost predicate Holds(q: seq<Task>, d: Queue<Task>)
    reads q`sleepTicks
  {
    |d| == |q| && forall i :: 0 <= i < |q| ==> d[i] == Sleeper(q[i], q[i].sleepTicks)
  }

  lemma HoldsLast(q: seq<Task>, d: Queue<Task>, y: Task)
    requires Holds(q, d)
    ensures Holds(q + [y], d + [Sleeper(y, y.sleepTicks)])
  {
  }

  /** A state that moves `woken` and touches nothing else is what Wake computes. */
  lemma WakeByParts<T>(c: Core<T>, d: Core<T>, woken: seq<T>)
    requires Drain(Decrement(c.sleepers)) == (woken, d.sleepers)
    requires d.running == c.running && d.freed == c.freed && d.ready == c.ready + woken
    requires Elems(woken) <= d.states.Keys == c.states.Keys && d.ticks.Keys == c.ticks.Keys + Elems(woken)
    requires forall t :: t in d.states ==> d.states[t] == if t in Elems(woken) then Ready else c.states[t]
    requires forall t :: t in d.ticks ==> d.ticks[t] == if t in Elems(woken) then 0 else c.ticks[t]
    ensures d == Wake(c)
  {
    var w := Wake(c);
    assert w.states.Keys == d.states.Keys && w.ticks.Keys == d.ticks.Keys;
    assert d.states == w.states && d.ticks == w.ticks;
  }

  /** A state with the current task put away and nothing else touched is what Park computes. */
  lemma ParkByParts<T>(mode: Insertion, c: Core<T>, d: Core<T>)
    requires c.running in c.states && c.running in c.ticks
    requires d.running == c.running && d.freed == c.freed && d.states.Keys == c.states.Keys
    requires forall t :: t in c.states && t != c.running ==> d.states[t] == c.states[t]
    requires forall t :: t in d.ticks ==> t in c.ticks && d.ticks[t] == c.ticks[t]
    requires c.states[c.running] in {Running, Destroy} ==>
      d.ready == c.ready + [c.running] && d.sleepers == c.sleepers && d.ticks.Keys == c.ticks.Keys
      && d.states[c.running] == if c.states[c.running] == Running then Ready else Destroy
    requires c.states[c.running] == Sleeping ==>
      d.ready == c.ready && d.states == c.states && d.ticks.Keys == c.ticks.Keys - {c.running}
      && Enqueue(mode, c.sleepers, c.running, c.ticks[c.running]) == Some(d.sleepers)
    requires c.states[c.running] in {Running, Destroy, Sleeping}
    ensures Park(mode, c) == Next(d)
  {
    var p := Park(mode, c).value;
    assert p.states == d.states && p.ticks == d.ticks;
  }

  /** `c` without the task `t`, which has been freed. */
  ghost function Forget<T>(c: Core<T>, t: T): Core<T> {
    c.(states := c.states - {t}, ticks := c.ticks - {t}, freed := c.freed + {t})
  }

  /** `c` with the doomed task `t` taken off the front of the ready queue and freed. */
  ghost function Without<T>(c: Core<T>, t: T): Core<T>
    requires c.ready != []
  {
    Forget(c, t).(ready := c.ready[1..])
  }

  /** `c`, its ready queue already shortened, with `t` made the current task. */
  ghost function Chosen<T>(c: Core<T>, t: T): Core<T> {
    c.(running := t, states := c.states[t := Running])
  }

  /** The pick loop by one iteration. */
  lemma DispatchSteps<T>(c: Core<T>)
    requires Elems(c.ready) <= c.states.Keys && NoDup(c.ready)
    ensures c.ready == [] ==> Dispatch(c).Panic?
    ensures c.ready != [] && c.ready[0] in c.states && c.states[c.ready[0]] != Destroy ==>
      Dispatch(c) == Next(Chosen(c.(ready := c.ready[1..]), c.ready[0]))
    ensures c.ready != [] && c.ready[0] in c.states && c.states[c.ready[0]] == Destroy ==>
      Dispatch(c) == Dispatch(Without(c, c.ready[0]))
  {
    if c.ready != [] {
      if c.states[c.ready[0]] == Destroy {
        DispatchDoomed(c);
      } else {
        assert c.ready[..0] == [];
        assert c.states - {} == c.states && c.ticks - {} == c.ticks && c.freed + {} == c.freed;
      }
    }
  }

  lemma DispatchDoomed<T>(c: Core<T>)
    requires Elems(c.ready) <= c.states.Keys && NoDup(c.ready)
    requires c.ready != [] && c.ready[0] in c.states && c.states[c.ready[0]] == Destroy
    ensures Dispatch(c) == Dispatch(Without(c, c.ready[0]))
  {
    var t, d := c.ready[0], Without(c, c.ready[0]);
    DoomedWithout(d.ready, c.states, t);
    var n := Doomed(d.ready, d.states);
    assert c.ready[..n + 1][1..] == d.ready[..n];
    assert Elems(c.ready[..n + 1]) == {t} + Elems(d.ready[..n]);
    if n < |d.ready| {
      assert c.ready[n + 1] == d.ready[n] && c.ready[n + 2..] == d.ready[n + 1..];
      LessTwice(c.states, t, Elems(d.ready[..n]));
      LessTwice(c.ticks, t, Elems(d.ready[..n]));
      assert c.freed + Elems(c.ready[..n + 1]) == d.freed + Elems(d.ready[..n]);
    }
  }

  lemma LessTwice<T, V>(m: map<T, V>, t: T, gone: set<T>)
    ensures m - ({t} + gone) == m - {t} - gone
  {
  }

  lemma {:induction false} DoomedWithout<T>(u: seq<T>, states: map<T, TaskState>, t: T)
    requires Elems(u) <= states.Keys && t !in Elems(u)
    ensures Elems(u) <= (states - {t}).Keys && Doomed(u, states - {t}) == Doomed(u, states)
  {
    if u != [] && states[u[0]] == Destroy {
      DoomedWithout(u[1..], states, t);
    }
  }

  /** A doomed caller is not picked: after the switch it is freed or still doomed. */
  lemma ExitedStaysDoomed<T>(mode: Insertion, c: Core<T>)
    requires Switch(mode, c).Next? && c.running in c.states && c.states[c.running] == Destroy
    ensures var d, r := Switch(mode, c).value, c.running;
      r in d.freed || (r in d.states && r != d.running && d.states[r] == Destroy)
  {
  }

  /** One more iteration of the wake loop, seen on the value. */
  lemma DrainStep<T>(d: Queue<T>, woken: seq<T>, s: Queue<T>)
    requires s != [] && s[0].delta == 0
    requires Drain(d) == (woken + Drain(s).0, Drain(s).1)
    ensures Drain(d) == ((woken + [s[0].task]) + Drain(s[1..]).0, Drain(s[1..]).1)
    ensures Elems(woken + [s[0].task]) == Elems(woken) + {s[0].task}
  {
    var t := s[0].task;
    assert woken + ([t] + Drain(s[1..]).0) == (woken + [t]) + Drain(s[1..]).0;
    Concat(woken, [t]);
  }

  /** `r` is `q` with `y` put in at position `i`. */
  ghost predicate Spliced(q: seq<Task>, y: Task, i: nat, r: seq<Task>) {
    && i <= |q| && |r| == |q| + 1
    && forall k {:trigger r[k]} :: 0 <= k < |r| ==> r[k] == if k < i then q[k] else if k == i then y else q[k - 1]
  }

  lemma SplicedIn(q: seq<Task>, y: Task, i: nat, r: seq<Task>)
    requires Spliced(q, y, i, r)
    ensures forall u :: u in r ==> u == y || u in q
  {
  }

  lemma PrependNothing<T>(o: Option<Queue<T>>)
    ensures Prepend([], o) == o
  {
    match o
    case None =>
    case Some(r) => assert [] + r == r;
  }

  /** One more iteration of the insertion loop, seen on the value. */
  lemma WalkStep<T>(mode: Insertion, s: Queue<T>, y: T, target: Word, sum: Word, i: nat)
    requires i < |s| && !((mode.Repaired? || sum < target) && Add32(sum, s[i].delta) > target)
    ensures Prepend(s[..i], Walk(mode, s[i..], y, target, sum, i == 0))
         == Prepend(s[..i + 1], Walk(mode, s[i + 1..], y, target, Add32(sum, s[i].delta), false))
  {
    assert s[i..][1..] == s[i + 1..] && s[i..][..1] == [s[i]];
    assert s[..i] + [s[i]] == s[..i + 1];
    match Walk(mode, s[i + 1..], y, target, Add32(sum, s[i].delta), false)
    case None =>
    case Some(r) => assert s[..i] + ([s[i]] + r) == (s[..i] + [s[i]]) + r;
  }

  ghost predicate NoneHas(q: seq<Task>, pid: Word)
    reads q`pid
  {
    forall j :: 0 <= j < |q| ==> q[j].pid != pid
  }

  /** `t` is the first task of `q` with this pid. */
  ghost predicate FirstWith(q: seq<Task>, pid: Word, t: Task)
    reads q`pid
  {
    exists k :: 0 <= k < |q| && q[k] == t && t.pid == pid && NoneHas(q[..k], pid)
  }

  class Scheduler {
    var readyHead: Task?
    var readyTail: Task?
    var sleepHead: Task?
    var sleepTail: Task?
    var running: Task?
    var enabled: bool
    var ticks: Word
    const mode: Insertion

    ghost var tasks: set<Task>       // the tasks that exist
    ghost var readyQ: seq<Task>      // what the ready queue threads together
    ghost var sleepQ: seq<Task>      // what the sleep queue threads together
    ghost var sleepers: Queue<Task>  // the same with its deltas
    ghost var freed: set<Task>       // the tasks given to free_task

    ghost predicate ReadyLinked()
      reads `tasks, `readyQ, `readyHead, `readyTail, readyQ`next, readyQ`place
    {
      && (forall i :: 0 <= i < |readyQ| ==> readyQ[i] in tasks && readyQ[i].place == InReady)
      && Linked(readyQ, readyHead, readyTail)
    }

    ghost predicate SleepLinked()
      reads `tasks, `sleepQ, `sleepers, `sleepHead, `sleepTail, sleepQ`next, sleepQ`place, sleepQ`sleepTicks
    {
      && (forall i :: 0 <= i < |sleepQ| ==> sleepQ[i] in tasks && sleepQ[i].place == Asleep)
      && Linked(sleepQ, sleepHead, sleepTail) && Holds(sleepQ, sleepers)
    }

    ghost predicate Queues()
      reads `tasks, `freed, `readyQ, `sleepQ, `sleepers, `readyHead, `readyTail, `sleepHead, `sleepTail
      reads readyQ`next, readyQ`place, sleepQ`next, sleepQ`place, sleepQ`sleepTicks
    {
      tasks !! freed && ReadyLinked() && SleepLinked()
    }

    ghost predicate Valid()
      reads this, tasks, readyQ, sleepQ
    {
      && Queues()
      && running != null && running in tasks && running.next == null && running.place == Nowhere
    }

    /** The state as a value, with `r` as the current task. */
    ghost function AbsOf(r: Task): Core<Task>
      reads `tasks, `readyQ, `sleepers, `freed, tasks`state, tasks`sleepTicks, tasks`place
    {
      Core(r, readyQ, sleepers, map t | t in tasks :: t.state,
           map t | t in tasks && t.place != Asleep :: t.sleepTicks, freed)
    }

    ghost function Abs(): Core<Task>
      requires running != null
      reads this, tasks
    {
      AbsOf(running)
    }

    /** The static initial values, lines 29-36. */
    constructor (mode: Insertion)
      ensures this.mode == mode && !enabled && ticks == 0
      ensures readyHead == null && readyTail == null && sleepHead == null && sleepTail == null
    {
      this.mode := mode;
      readyHead, readyTail, sleepHead, sleepTail := null, null, null, null;
      running, enabled, ticks := null, false, 0;
      tasks, readyQ, sleepQ, sleepers, freed := {}, [], [], [], {};
    }

    /** Lines 301-310; `idle` is what new_task returned, and null is written through. */
    method SchedInit(idle: Task?) returns (status: Status)
      requires !enabled && (idle != null ==> idle.place == Nowhere && idle.sleepTicks == 0)
      requires readyHead == null && readyTail == null && sleepHead == null && sleepTail == null
      modifies this, if idle == null then {} else {idle}
      ensures status == if idle == null then Faulted else Ok
      ensures idle != null ==> Valid() && enabled && running == idle && ticks == old(ticks)
      ensures idle != null ==> Abs() == Boot<Task>(idle).core
      ensures idle != null ==> idle.state == Running && idle.next == null
      ensures idle != null ==> idle.pid == old(idle.pid) && idle.cpuTime == old(idle.cpuTime)
    {
      running, status := idle, Ok;
      if idle == null {
        return Faulted;
      }
      running.state := Running;
      running.next := null;
      enabled := true;
      tasks, readyQ, sleepQ, sleepers, freed := {idle}, [], [], [], {};
      assert Linked(readyQ, readyHead, readyTail) && Linked(sleepQ, sleepHead, sleepTail);
      hide Linked, Holds;
      BootAbs(idle);
    }

    /** The state as a value when there is only the idle task. */
    lemma BootAbs(idle: Task)
      requires running == idle && tasks == {idle} && readyQ == [] && sleepers == [] && freed == {}
      requires idle.state == Running && idle.sleepTicks == 0 && idle.place == Nowhere
      ensures Abs() == Boot(idle).core
    {
      assert Abs().states == map[idle := Running] && Abs().ticks == map[idle := 0];
    }

    /** A write to the state field of `t`. */
    method WriteState(t: Task, st: TaskState, ghost r: Task)
      requires t in tasks
      modifies t`state
      ensures t.state == st && AbsOf(r) == old(AbsOf(r)).(states := old(AbsOf(r)).states[t := st])
    {
      t.state := st;
      assert AbsOf(r).states == old(AbsOf(r)).states[t := st];
    }

    /** Lines 69-82. */
    method EnqueueReadyTask(t: Task)
      requires Queues() && t in tasks && t.place == Nowhere && t.next == null
      modifies `readyHead, `readyTail, `readyQ, tasks`next, t`place
      ensures Queues() && readyQ == old(readyQ) + [t] && t.place == InReady
      ensures forall u :: u in tasks && u.place == Nowhere ==> u.next == old(u.next)
    {
      if readyHead == null && readyTail == null {
        readyHead := t;
        readyTail := t;
      } else {
        readyTail.next := t;
        readyTail := t;
      }
      readyQ := readyQ + [t];
      t.place := InReady;
    }

    /** Lines 85-106; `null` is the panic on the empty queue. */
    method GetNextReadyTask() returns (t: Task?)
      requires Queues()
      modifies `readyHead, `readyTail, `readyQ, tasks`next, tasks`place
      ensures Queues()
      ensures old(readyQ) == [] ==> t == null && readyQ == []
      ensures old(readyQ) != [] ==>
        t == old(readyQ)[0] && readyQ == old(readyQ)[1..] && t.next == null && t.place == Nowhere
      ensures forall u :: u in tasks && u != t ==> u.next == old(u.next) && u.place == old(u.place)
    {
      ghost var q := readyQ;
      t := readyHead;
      if readyHead == null {
        return;
      }
      assert q[0].next == if 1 < |q| then q[1] else null;
      if readyHead == readyTail {
        readyHead := null;
        readyTail := null;
      } else {
        readyHead := readyHead.next;
      }
      t.next := null;
      t.place := Nowhere;
      readyQ := q[1..];
      assert forall i :: 0 <= i < |readyQ| ==> readyQ[i] == q[i + 1] && readyQ[i].next == old(q[i + 1].next);
    }

    lemma ReadyApart()
      requires Queues()
      ensures forall u :: u in sleepQ ==> u !in readyQ
    {
    }

    /** Lines 160-181. */
    method DequeueSleepTask() returns (t: Task?)
      requires Queues()
      modifies `sleepHead, `sleepTail, `sleepQ, `sleepers, tasks`next, tasks`place
      ensures Queues()
      ensures t == null ==>
        sleepQ == old(sleepQ) && sleepers == old(sleepers) && (sleepers == [] || sleepers[0].delta != 0)
      ensures t != null ==>
        && t in tasks && old(t.place) == Asleep && t.next == null && t.place == Nowhere && t.sleepTicks == 0
        && old(sleepers) != [] && t == old(sleepers)[0].task && old(sleepers)[0].delta == 0
        && sleepQ == old(sleepQ)[1..] && sleepers == old(sleepers)[1..]
      ensures forall u :: u in tasks && u != t ==> u.next == old(u.next) && u.place == old(u.place)
    {
      hide ReadyLinked;
      ReadyApart();
      ghost var q := sleepQ;
      t := sleepHead;
      if t != null && t.sleepTicks == 0 {
        assert t in q && q[0].next == if 1 < |q| then q[1] else null;
        sleepHead := t.next;
        if sleepHead == null {
          sleepTail := null;
        }
        t.next := null;
        t.place := Nowhere;
        sleepQ, sleepers := q[1..], sleepers[1..];
        assert forall i :: 0 <= i < |sleepQ| ==> sleepQ[i] == q[i + 1] && sleepQ[i].next == old(q[i + 1].next);
      } else {
        t := null;
      }
    }

    /** The body of the loop at lines 193-204. */
    method WakeHead() returns (t: Task?)
      requires Queues()
      modifies `readyHead, `readyTail, `sleepHead, `sleepTail, `readyQ, `sleepQ, `sleepers
      modifies tasks`next, tasks`state, tasks`place
      ensures Queues()
      ensures t == null ==>
        && sleepQ == old(sleepQ) && sleepers == old(sleepers) && readyQ == old(readyQ)
        && (sleepers == [] || sleepers[0].delta != 0)
      ensures t != null ==>
        && old(sleepers) != [] && old(sleepers)[0].task == t && old(sleepers)[0].delta == 0
        && t in tasks && old(t.place) == Asleep
        && sleepQ == old(sleepQ)[1..] && sleepers == old(sleepers)[1..] && readyQ == old(readyQ) + [t]
        && t.state == Ready && t.place == InReady && t.sleepTicks == 0
      ensures forall u :: u in tasks && u != t ==> u.state == old(u.state) && u.place == old(u.place)
      ensures forall u :: u in tasks && u.place == Nowhere ==> u.next == old(u.next)
    {
      hide Linked, Holds, Queues;
      t := DequeueSleepTask();
      if t != null {
        t.state := Ready;
        EnqueueReadyTask(t);
      }
    }

    /** The loop at lines 193-204: call dequeue_sleep_task until it returns 0. */
    method WakeDue() returns (ghost woken: seq<Task>)
      requires Queues()
      modifies `readyHead, `readyTail, `sleepHead, `sleepTail, `readyQ, `sleepQ, `sleepers
      modifies tasks`next, tasks`state, tasks`place
      ensures Queues()
      ensures readyQ == old(readyQ) + woken && Drain(old(sleepers)) == (woken, sleepers)
      ensures Elems(woken) <= tasks
      ensures forall u :: u in Elems(woken) ==>
        u.state == Ready && u.sleepTicks == 0 && u.place == InReady && old(u.place) == Asleep
      ensures forall u :: u in tasks && u !in Elems(woken) ==> u.state == old(u.state) && u.place == old(u.place)
      ensures forall u :: u in tasks && u.place == Nowhere ==> u.next == old(u.next)
    {
      hide Linked, Holds, Queues;
      woken := [];
      ghost var w: set<Task> := {};
      assert [] + Drain(sleepers).0 == Drain(sleepers).0;
      while true
        invariant Queues()
        invariant readyQ == old(readyQ) + woken && w == Elems(woken) <= tasks
        invariant Drain(old(sleepers)) == (woken + Drain(sleepers).0, Drain(sleepers).1)
        invariant forall u :: u in w ==>
          u.state == Ready && u.sleepTicks == 0 && u.place == InReady && old(u.place) == Asleep
        invariant forall u :: u in tasks && u !in w ==> u.state == old(u.state) && u.place == old(u.place)
        invariant forall u :: u in tasks && u.place == Nowhere ==> u.next == old(u.next)
        decreases |sleepers|
      {
        ghost var s := sleepers;
        var t := WakeHead();
        if t == null {
          break;
        }
        DrainStep(old(sleepers), woken, s);
        woken, w := woken + [s[0].task], w + {s[0].task};
      }
      assert woken + [] == woken;
    }

    /** Lines 188-190. */
    method DecrementHead()
      requires Queues()
      modifies `sleepers, tasks`sleepTicks
      ensures Queues() && sleepers == Decrement(old(sleepers))
      ensures forall u :: u in tasks && u.place != Asleep ==> u.sleepTicks == old(u.sleepTicks)
    {
      if sleepHead != null {
        sleepHead.sleepTicks := Sub32(sleepHead.sleepTicks, 1);
      }
      sleepers := Decrement(sleepers);
    }

    /** Lines 184-205: one tick off the head's delta, then wake whoever is due. */
    method UpdateSleepQueue()
      requires Valid()
      modifies `readyHead, `readyTail, `sleepHead, `sleepTail, `readyQ, `sleepQ, `sleepers
      modifies tasks`next, tasks`state, tasks`sleepTicks, tasks`place
      ensures Valid() && Abs() == Wake(old(Abs()))
    {
      hide Linked, Holds, Queues, Drain, Decrement, Wake, Elems;
      DecrementHead();
      ghost var woken := WakeDue();
      ghost var c, d := old(Abs()), Abs();
      assert forall t :: t in tasks ==> d.states[t] == if t in Elems(woken) then Ready else c.states[t];
      assert forall t :: t in d.ticks <==> t in c.ticks || t in Elems(woken);
      WakeByParts(c, d, woken);
    }

    /** The sleep queue, seen from its position `i`. */
    lemma SleepFacts(i: nat)
      requires SleepLinked()
      ensures Linked(sleepQ, sleepHead, sleepTail) && Holds(sleepQ, sleepers)
      ensures forall u :: u in sleepQ ==> u in tasks && u.place == Asleep
      ensures forall k :: 0 <= k < |sleepQ| && k != i && i < |sleepQ| ==> sleepQ[k] != sleepQ[i]
    {
    }

    /** A task that is nowhere is in neither queue. */
    lemma Outside(y: Task)
      requires Queues() && y.place == Nowhere
      ensures y !in sleepQ && y !in readyQ
      ensures forall u :: u in sleepQ ==> u in tasks && u.place == Asleep && u !in readyQ
    {
    }

    lemma Relinked()
      requires Linked(sleepQ, sleepHead, sleepTail) && Holds(sleepQ, sleepers)
      requires forall u :: u in sleepQ ==> u in tasks && u.place == Asleep
      ensures SleepLinked()
    {
    }

    /** The links of lines 137-138, with the head pointer kept up to date. */
    method LinkBefore(y: Task, x: Task?, z: Task, ghost i: nat)
      requires Linked(sleepQ, sleepHead, sleepTail) && y !in sleepQ
      requires i < |sleepQ| && z == sleepQ[i] && x == if i == 0 then null else sleepQ[i - 1]
      modifies `sleepHead, `sleepQ, y`next, (if x == null then {} else {x})`next
      ensures Linked(sleepQ, sleepHead, sleepTail) && Spliced(old(sleepQ), y, i, sleepQ)
    {
      if x == null {
        sleepHead := y;
      } else {
        x.next := y;
      }
      y.next := z;
      sleepQ := sleepQ[..i] + [y] + sleepQ[i..];
    }

    /** The deltas of lines 141-142, once the links are in place. */
    method SplitDelta(y: Task, z: Task, d: Word, ghost q: seq<Task>, ghost i: nat)
      requires Holds(q, sleepers) && i < |q| && z == q[i] && y !in q && Spliced(q, y, i, sleepQ)
      requires forall k :: 0 <= k < |q| && k != i ==> q[k] != z
      modifies `sleepers, y`sleepTicks, z`sleepTicks
      ensures Holds(sleepQ, sleepers)
      ensures sleepers == old(sleepers)[..i]
        + ([Sleeper(y, d), Sleeper(z, Sub32(old(sleepers)[i].delta, d))] + old(sleepers)[i + 1..])
    {
      ghost var s := sleepers;
      y.sleepTicks := d;
      z.sleepTicks := Sub32(z.sleepTicks, d);
      sleepers := s[..i] + ([Sleeper(y, d), Sleeper(z, Sub32(s[i].delta, d))] + s[i + 1..]);
    }

    /** Lines 137-142 on the sleep queue alone. */
    method SpliceBefore(y: Task, x: Task?, z: Task, d: Word, ghost i: nat)
      requires SleepLinked() && y in tasks && y !in sleepQ
      requires i < |sleepQ| && z == sleepQ[i] && x == if i == 0 then null else sleepQ[i - 1]
      modifies `sleepHead, `sleepQ, `sleepers, y`next, y`sleepTicks, y`place, z`sleepTicks
      modifies (if x == null then {} else {x})`next
      ensures SleepLinked() && y.place == Asleep
      ensures sleepers == old(sleepers)[..i]
        + ([Sleeper(y, d), Sleeper(z, Sub32(old(sleepers)[i].delta, d))] + old(sleepers)[i + 1..])
    {
      hide Holds, SleepLinked, Linked, Spliced;
      ghost var q := sleepQ;
      SleepFacts(i);
      LinkBefore(y, x, z, i);
      SplitDelta(y, z, d, q, i);
      y.place := Asleep;
      SplicedIn(q, y, i, sleepQ);
      Relinked();
    }

    /** Lines 137-142: put `y` before the task at position `i`, with delta `d`. */
    method InsertBefore(y: Task, x: Task?, z: Task, d: Word, ghost i: nat)
      requires Queues() && y in tasks && y.place == Nowhere
      requires i < |sleepQ| && z == sleepQ[i] && x == if i == 0 then null else sleepQ[i - 1]
      modifies `sleepHead, `sleepQ, `sleepers, y`next, y`sleepTicks, y`place, z`sleepTicks
      modifies (if x == null then {} else {x})`next
      ensures Queues() && y.place == Asleep
      ensures sleepers == old(sleepers)[..i]
        + ([Sleeper(y, d), Sleeper(z, Sub32(old(sleepers)[i].delta, d))] + old(sleepers)[i + 1..])
      ensures z.place == Asleep && (x != null ==> x.place == Asleep)
    {
      hide SleepLinked, ReadyLinked;
      assert z in sleepQ && (x != null ==> x in sleepQ);
      Outside(y);
      SpliceBefore(y, x, z, d, i);
    }

    /** The links of lines 120-122 and 152-154. */
    method LinkLast(y: Task)
      requires Linked(sleepQ, sleepHead, sleepTail) && y !in sleepQ
      modifies `sleepHead, `sleepTail, `sleepQ, y`next, (if sleepTail == null then {} else {sleepTail})`next
      ensures Linked(sleepQ, sleepHead, sleepTail) && sleepQ == old(sleepQ) + [y]
    {
      if sleepHead == null {
        sleepHead := y;
      } else {
        sleepTail.next := y;
      }
      sleepTail := y;
      y.next := null;
      sleepQ := sleepQ + [y];
    }

    /** Lines 118-124 and 152-155: put `y` last, with delta `d`. */
    method InsertLast(y: Task, d: Word)
      requires Queues() && y in tasks && y.place == Nowhere
      modifies `sleepHead, `sleepTail, `sleepQ, `sleepers, tasks`next, y`sleepTicks, y`place
      ensures Queues() && sleepers == old(sleepers) + [Sleeper(y, d)] && y.place == Asleep
      ensures forall u :: u in tasks && u.place != Asleep ==> u.next == old(u.next)
    {
      hide Holds, ReadyLinked, SleepLinked;
      SleepFacts(0);
      Outside(y);
      ghost var q := sleepQ;
      assert sleepTail != null ==> sleepTail in q;
      LinkLast(y);
      y.sleepTicks := d;
      y.place := Asleep;
      sleepers := sleepers + [Sleeper(y, d)];
      HoldsLast(q, old(sleepers), y);
      Relinked();
    }

    /** The search of lines 128-149: `z` is the first task that passes the test, `x` the one
        before it and `sum` the ticks up to it. */
    method FindPlace(y: Task, target: Word) returns (x: Task?, z: Task?, sum: Word, ghost i: nat)
      requires Queues()
      ensures i <= |sleepQ| && z == if i < |sleepQ| then sleepQ[i] else null
      ensures x == if i == 0 then null else sleepQ[i - 1]
      ensures z != null ==> (mode.Repaired? || sum < target) && Add32(sum, z.sleepTicks) > target
      ensures Walk(mode, sleepers, y, target, 0, true)
           == Prepend(sleepers[..i], Walk(mode, sleepers[i..], y, target, sum, i == 0))
    {
      sum, x, z, i := 0, null, sleepHead, 0;
      ghost var s := sleepers;
      assert s[..0] == [] && s[0..] == s;
      PrependNothing(Walk(mode, s, y, target, 0, true));
      while z != null && !((mode.Repaired? || sum < target) && Add32(sum, z.sleepTicks) > target)
        invariant 0 <= i <= |sleepQ| == |s|
        invariant z == if i < |sleepQ| then sleepQ[i] else null
        invariant x == if i == 0 then null else sleepQ[i - 1]
        invariant Walk(mode, s, y, target, 0, true) == Prepend(s[..i], Walk(mode, s[i..], y, target, sum, i == 0))
        decreases |sleepQ| - i
      {
        assert s[i] == Sleeper(sleepQ[i], z.sleepTicks);
        WalkStep(mode, s, y, target, sum, i);
        assert sleepQ[i].next == if i + 1 < |sleepQ| then sleepQ[i + 1] else null;
        sum, x, z, i := Add32(sum, z.sleepTicks), z, z.next, i + 1;
      }
    }

    lemma HeadNull()
      requires Queues()
      ensures (sleepHead == null <==> sleepQ == []) && |sleepers| == |sleepQ|
      ensures forall u :: u in sleepQ ==> u in tasks && u.place == Asleep
      ensures forall i :: 0 <= i < |sleepQ| ==> sleepers[i] == Sleeper(sleepQ[i], sleepQ[i].sleepTicks)
    {
    }

    /** Lines 111-156. */
    method EnqueueSleepTask(y: Task) returns (status: Status)
      requires Queues() && y in tasks && y.place == Nowhere
      modifies `sleepHead, `sleepTail, `sleepQ, `sleepers, tasks`next, tasks`sleepTicks, tasks`place
      ensures status == if Enqueue(mode, old(sleepers), y, old(y.sleepTicks)).None? then Faulted else Ok
      ensures status == Ok ==> Queues() && Enqueue(mode, old(sleepers), y, old(y.sleepTicks)) == Some(sleepers)
      ensures status == Ok ==> forall u :: u in tasks && u != y ==> u.place == old(u.place)
      ensures status == Ok ==>
        forall u :: u in tasks && u.place != Asleep ==> u.next == old(u.next) && u.sleepTicks == old(u.sleepTicks)
      ensures status == Ok ==> y.place == Asleep
    {
      hide Linked, Holds, ReadyLinked, SleepLinked;
      HeadNull();
      if sleepHead == null {
        InsertLast(y, y.sleepTicks);
        assert sleepers == [Sleeper(y, old(y.sleepTicks))];
        return Ok;
      }
      var target := y.sleepTicks;
      ghost var s := sleepers;
      var x, z, sum, i := FindPlace(y, target);
      if z == null {
        assert s[i..] == [] && s[..i] == s;
        InsertLast(y, Sub32(target, sum));
      } else {
        assert s[i..][0] == s[i] == Sleeper(sleepQ[i], z.sleepTicks) && s[i..][1..] == s[i + 1..];
        if x == null && mode.AsWritten? {
          return Faulted;
        }
        InsertBefore(y, x, z, Sub32(target, sum), i);
      }
      return Ok;
    }

    /** Lines 233-240: a running or doomed task goes to the end of the ready queue. */
    method Requeue()
      requires Valid() && running.state in {Running, Destroy}
      modifies `readyHead, `readyTail, `readyQ, tasks`next, running`state, running`place
      ensures Queues() && Park(mode, old(Abs())) == Next(AbsOf(running))
    {
      hide Linked, Holds, Elems, Queues;
      var r := running;
      if r.state == Running {
        r.state := Ready;
      }
      EnqueueReadyTask(r);
      ParkByParts(mode, old(Abs()), AbsOf(r));
    }

    /** Lines 241-245: a task that went to sleep joins the sleep queue. */
    method FallAsleep() returns (status: Status)
      requires Valid() && running.state == Sleeping
      modifies `sleepHead, `sleepTail, `sleepQ, `sleepers, tasks`next, tasks`sleepTicks, tasks`place
      ensures status != Panicked && (status == Faulted <==> Park(mode, old(Abs())).Fault?)
      ensures status == Ok ==> Queues() && Park(mode, old(Abs())) == Next(AbsOf(running))
    {
      hide Linked, Holds, Enqueue, Elems, Queues;
      status := EnqueueSleepTask(running);
      if status == Ok {
        ParkByParts(mode, old(Abs()), AbsOf(running));
      }
    }

    /** Lines 231-249: what becomes of the current task. */
    method ParkRunning() returns (status: Status)
      requires Valid()
      modifies `readyHead, `readyTail, `sleepHead, `sleepTail, `readyQ, `sleepQ, `sleepers
      modifies tasks`next, tasks`state, tasks`sleepTicks, tasks`place
      ensures Park(mode, old(Abs())).Panic? <==> status == Panicked
      ensures Park(mode, old(Abs())).Fault? <==> status == Faulted
      ensures status == Ok ==> Queues() && Park(mode, old(Abs())) == Next(AbsOf(running))
    {
      hide Linked, Holds, Enqueue, Elems, Queues;
      match running.state {
        case Running | Destroy =>
          Requeue();
          return Ok;
        case Sleeping =>
          status := FallAsleep();
        case _ =>
          return Panicked;
      }
    }

    lemma ReadyFacts()
      requires Queues()
      ensures Elems(readyQ) <= tasks && NoDup(readyQ)
    {
      ElemsSet(readyQ);
      NoDupIndex(readyQ);
    }

    /** free_task, as far as the scheduler sees it: the task is gone. */
    method FreeTask(t: Task, ghost r: Task)
      requires Queues() && t in tasks && t.place == Nowhere
      modifies `tasks, `freed
      ensures Queues() && tasks == old(tasks) - {t}
      ensures AbsOf(r) == Forget(old(AbsOf(r)), t)
    {
      hide Linked, Holds;
      tasks, freed := tasks - {t}, freed + {t};
      ghost var c, d := old(AbsOf(r)), AbsOf(r);
      assert d.states == c.states - {t} && d.ticks == c.ticks - {t};
    }

    /** Lines 257-259: one task off the ready queue, freed if it is doomed. */
    method TakeReady(ghost r: Task) returns (t: Task?, doomed: bool)
      requires Queues()
      modifies `readyHead, `readyTail, `readyQ, `tasks, `freed, tasks`next, tasks`place
      ensures Queues()
      ensures t == null ==> old(readyQ) == []
      ensures t != null ==> old(readyQ) != [] && t == old(readyQ)[0] && t in old(tasks) && |readyQ| < |old(readyQ)|
      ensures t != null && doomed ==> t.state == Destroy && AbsOf(r) == Without(old(AbsOf(r)), t)
      ensures t != null && !doomed ==>
        && t.state != Destroy && t in tasks && t.next == null && t.place == Nowhere
        && AbsOf(r) == old(AbsOf(r)).(ready := readyQ) && readyQ == old(readyQ)[1..]
      ensures tasks <= old(tasks)
    {
      hide Linked, Holds;
      doomed := false;
      t := GetNextReadyTask();
      if t != null {
        ghost var c, d := old(AbsOf(r)), AbsOf(r);
        assert d.states == c.states && d.ticks == c.ticks;
        if t.state == Destroy {
          hide Queues;
          doomed := true;
          FreeTask(t, r);
        }
      }
    }

    /** Lines 253-263: take tasks off the ready queue, freeing the doomed ones, until one
        may run.  `r` is the task that was running. */
    method PickNext(ghost r: Task) returns (status: Status)
      requires Queues()
      modifies `readyHead, `readyTail, `readyQ, `running, `tasks, `freed, tasks`next, tasks`place, tasks`state
      ensures Dispatch(old(AbsOf(r))).Panic? <==> status == Panicked
      ensures status != Faulted
      ensures status == Ok ==> Valid() && Dispatch(old(AbsOf(r))) == Next(Abs())
    {
      hide Linked, Holds, Dispatch, Elems, NoDup, Queues, Without;
      ghost var c := AbsOf(r);
      running := null;
      while running == null
        invariant Queues() && tasks <= old(tasks)
        invariant running == null ==> Dispatch(c) == Dispatch(AbsOf(r))
        invariant running != null ==> running in tasks && running.next == null && running.place == Nowhere
        invariant running != null ==> Dispatch(c) == Next(Chosen(AbsOf(r), running))
        decreases |readyQ|, running == null
      {
        ghost var e := AbsOf(r);
        ReadyFacts();
        var t, doomed := TakeReady(r);
        DispatchSteps(e);
        if t == null {
          return Panicked;
        }
        if !doomed {
          running := t;
        }
      }
      WriteState(running, Running, r);
      return Ok;
    }

    /** Lines 208-263 without the register transfer. */
    method SwitchTask() returns (status: Status)
      requires Valid()
      modifies this, tasks`next, tasks`state, tasks`sleepTicks, tasks`place
      ensures Switch(mode, old(Abs())).Panic? <==> status == Panicked
      ensures Switch(mode, old(Abs())).Fault? <==> status == Faulted
      ensures status == Ok ==> Valid() && Switch(mode, old(Abs())) == Next(Abs())
      ensures ticks == old(ticks) && enabled == old(enabled)
    {
      hide Linked, Holds, Dispatch, Park, Queues;
      ghost var r := running;
      status := ParkRunning();
      if status == Ok {
        status := PickNext(r);
      }
    }

    /** Lines 344-359. */
    method DoScheduling() returns (status: Status)
      requires enabled ==> Valid()
      modifies this, tasks
      ensures ticks == Add32(old(ticks), 1)
      ensures !old(enabled) ==>
        && status == Ok && unchanged(`running, `enabled, `readyHead, `readyTail, `sleepHead, `sleepTail)
        && unchanged(`tasks, `readyQ, `sleepQ, `sleepers, `freed) && unchanged(old(tasks))
      ensures old(enabled) ==> (Switch(mode, Wake(old(Abs()))).Panic? <==> status == Panicked)
      ensures old(enabled) ==> (Switch(mode, Wake(old(Abs()))).Fault? <==> status == Faulted)
      ensures old(enabled) && status == Ok ==> Valid() && Switch(mode, Wake(old(Abs()))) == Next(Abs())
      ensures old(enabled) ==> old(running).cpuTime == Add32(old(running.cpuTime), 1)
      ensures old(enabled) ==> forall t :: t in old(tasks) && t != old(running) ==> t.cpuTime == old(t.cpuTime)
    {
      hide Linked, Holds, Switch, Wake;
      ticks := Add32(ticks, 1);
      status := Ok;
      if enabled {
        running.cpuTime := Add32(running.cpuTime, 1);
        assert AbsOf(running) == old(AbsOf(running));
        UpdateSleepQueue();
        status := SwitchTask();
      }
    }

    /** One of the two loops of find_task. */
    method FindIn(pid: Word, head: Task?, ghost tail: Task?, ghost q: seq<Task>) returns (t: Task?)
      requires Linked(q, head, tail)
      ensures if t == null then NoneHas(q, pid) else FirstWith(q, pid, t)
    {
      t := head;
      ghost var k := 0;
      while t != null
        invariant 0 <= k <= |q| && t == if k < |q| then q[k] else null
        invariant NoneHas(q[..k], pid)
        decreases |q| - k
      {
        if t.pid == pid {
          return;
        }
        assert q[k].next == if k + 1 < |q| then q[k + 1] else null;
        t, k := t.next, k + 1;
      }
      assert q[..k] == q;
    }

    /** What find_task looks for: the first match among running task, ready queue and sleep
        queue, in this order. */
    ghost predicate Finds(pid: Word, t: Task?)
      requires running != null
      reads this, running`pid, readyQ`pid, sleepQ`pid
    {
      if running.pid == pid then t == running
      else if !NoneHas(readyQ, pid) then t != null && FirstWith(readyQ, pid, t)
      else if !NoneHas(sleepQ, pid) then t != null && FirstWith(sleepQ, pid, t)
      else t == null
    }

    /** Lines 39-66. */
    method FindTask(pid: Word) returns (t: Task?)
      requires Valid()
      ensures Finds(pid, t) && (t != null ==> t in tasks && t.pid == pid)
    {
      if running.pid == pid {
        return running;
      }
      t := FindIn(pid, readyHead, readyTail, readyQ);
      if t != null {
        return;
      }
      t := FindIn(pid, sleepHead, sleepTail, sleepQ);
    }

    /** Lines 381-387; `t` is the task that was found. */
    method Kill(pid: Word) returns (ghost t: Task?)
      requires Valid()
      modifies tasks`state
      ensures Valid() && Finds(pid, t) && (t != null ==> t in tasks)
      ensures Abs() == if t == null then old(Abs()) else Doom(old(Abs()), t)
      ensures t != null ==> t.state == Destroy
    {
      hide Linked, Holds;
      var u := FindTask(pid);
      t := u;
      if u != null {
        hide Queues, Finds;
        WriteState(u, Destroy, running);
      }
    }

    /** Lines 361-379; `task` is what new_task returned. */
    method CreateKernelTask(task: Task?) returns (pid: Word)
      requires Valid()
      requires task != null ==>
        task !in tasks && task !in freed && task.next == null && task.place == Nowhere && task.sleepTicks == 0
      modifies `readyHead, `readyTail, `readyQ, `tasks, tasks`next
      modifies (if task == null then {} else {task})
      ensures Valid()
      ensures task == null ==> pid == 0 && Abs() == old(Abs())
      ensures task != null ==> pid == task.pid == old(task.pid) && Abs() == Spawn(old(Abs()), task)
      ensures task != null ==> task.state == Ready && readyQ == old(readyQ) + [task] && tasks == old(tasks) + {task}
    {
      hide Linked, Holds;
      if task == null {
        return 0;
      }
      task.state := Ready;
      tasks := tasks + {task};
      EnqueueReadyTask(task);
      assert Abs().states == old(Abs()).states[task := Ready] && Abs().ticks == old(Abs()).ticks[task := 0];
      return task.pid;
    }

    /** Lines 394-398. */
    method SchedKill() returns (status: Status)
      requires Valid()
      modifies this, tasks
      ensures status == Ok ==> Valid() && Switch(mode, SetState(old(Abs()), Destroy)) == Next(Abs())
      ensures status != Ok ==> !Switch(mode, SetState(old(Abs()), Destroy)).Next?
      ensures status == Ok ==> var r := old(running); r in freed || (r in tasks && r != running && r.state == Destroy)
    {
      hide Linked, Holds, Switch;
      ghost var c, r := SetState(Abs(), Destroy), running;
      WriteState(running, Destroy, running);
      status := SwitchTask();
      if status == Ok {
        ExitedStaysDoomed(mode, c);
        assert r in Abs().states ==> Abs().states[r] == r.state;
      }
    }

    /** Lines 402-418 after the product: `n` is the number of ticks asked for. */
    method SleepFor(n: Word) returns (status: Status)
      requires Valid()
      modifies this, tasks
      ensures var c := SetState(SetTicks(old(Abs()), n), Sleeping);
        if status == Ok then Valid() && Switch(mode, c) == Next(Abs()) else !Switch(mode, c).Next?
    {
      hide Linked, Holds, Switch;
      running.sleepTicks := n;
      running.state := Sleeping;
      assert Abs().ticks == old(Abs()).ticks[running := n] && Abs().states == old(Abs()).states[running := Sleeping];
      status := SwitchTask();
    }

    /** Lines 402-409. */
    method Sleep(seconds: Word) returns (status: Status)
      requires Valid()
      modifies this, tasks
      ensures var c := SetState(SetTicks(old(Abs()), SleepTicks(seconds)), Sleeping);
        if status == Ok then Valid() && Switch(mode, c) == Next(Abs()) else !Switch(mode, c).Next?
    {
      hide Linked, Holds, Switch;
      var n := (HZ * seconds + 1) % WORD;
      status := SleepFor(n);
    }

    /** Lines 411-418. */
    method Usleep(millis: Word) returns (status: Status)
      requires Valid()
      modifies this, tasks
      ensures var c := SetState(SetTicks(old(Abs()), UsleepTicks(millis)), Sleeping);
        if status == Ok then Valid() && Switch(mode, c) == Next(Abs()) else !Switch(mode, c).Next?
    {
      hide Linked, Holds, Switch;
      var product := HZ * millis % WORD;
      status := SleepFor(product / 1000 + 1);
    }
  }
}

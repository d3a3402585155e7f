/**
  The scheduler of kernel/sched.c as functions on its state.  Every function here is one
  of the source's routines with the links abstracted away; the class in Scheduler.dfy is
  proved to compute them.  `T` is the identity of a task.
 */
module SchedCore {
  import opened Words
  import opened Lists
  import opened DeltaQueue

  datatype TaskState = Stopped | Ready | Running | Sleeping | Destroy

  /** `ticks` is the sleep_ticks field of the tasks outside the sleep queue (inside it the
      field is the delta), `freed` the tasks free_task has been called on. */
  datatype Core<T> = Core(
    running: T, ready: seq<T>, sleepers: Queue<T>,
    states: map<T, TaskState>, ticks: map<T, Word>, freed: set<T>)

  /** `Panic` is a kpanic, `Fault` an access through a null pointer or to a dead task. */
  datatype Outcome<+S> = Next(value: S) | Panic | Fault

  // ------------------------------------------------------------- the routines

  /** What switch_task does with the current task before it looks for the next. */
  ghost function Park<T>(mode: Insertion, c: Core<T>): Outcome<Core<T>> {
    var r := c.running;
    if r !in c.states || r !in c.ticks then Fault else
    match c.states[r]
    case Running => Next(c.(ready := c.ready + [r], states := c.states[r := Ready]))
    case Destroy => Next(c.(ready := c.ready + [r]))
    case Sleeping =>
      (match Enqueue(mode, c.sleepers, r, c.ticks[r])
       case None => Fault
       case Some(q) => Next(c.(sleepers := q, ticks := c.ticks - {r})))
    case _ => Panic
  }

  /** The length of the run of doomed tasks at the head of the ready queue. */
  function Doomed<T>(ready: seq<T>, states: map<T, TaskState>): (n: nat)
    requires Elems(ready) <= states.Keys
    ensures n <= |ready|
    ensures forall t :: t in Elems(ready[..n]) ==> t in states && states[t] == Destroy
    ensures n < |ready| ==> ready[n] in states
    ensures n < |ready| ==> states[ready[n]] != Destroy
  {
    if ready == [] || states[ready[0]] != Destroy then 0
    else
      var n := 1 + Doomed(ready[1..], states);
      assert ready[..n][1..] == ready[1..][..n - 1];
      n
  }

  /** The pick loop: free doomed tasks until one that may run is found. */
  ghost function Dispatch<T>(c: Core<T>): Outcome<Core<T>> {
    if !(Elems(c.ready) <= c.states.Keys) then Fault else
    var n := Doomed(c.ready, c.states);
    if n == |c.ready| then Panic
    else
      var gone := Elems(c.ready[..n]);
      Next(Core(c.ready[n], c.ready[n + 1..], c.sleepers,
                (c.states - gone)[c.ready[n] := Running], c.ticks - gone, c.freed + gone))
  }

  ghost function Switch<T>(mode: Insertion, c: Core<T>): Outcome<Core<T>> {
    match Park(mode, c)
    case Next(p) => Dispatch(p)
    case o => o
  }

  /** update_sleep_queue. */
  ghost function Wake<T>(c: Core<T>): Core<T> {
    var (woken, rest) := Drain(Decrement(c.sleepers));
    c.(ready := c.ready + woken, sleepers := rest,
       states := c.states + map t | t in Elems(woken) :: Ready,
       ticks := c.ticks + map t | t in Elems(woken) :: 0)
  }

  /** kill, once find_task has found `t` (or not). */
  ghost function Doom<T>(c: Core<T>, t: T): Core<T> {
    if t in c.states then c.(states := c.states[t := Destroy]) else c
  }

  /** create_kernel_task with a task from new_task. */
  ghost function Spawn<T>(c: Core<T>, t: T): Core<T> {
    c.(ready := c.ready + [t], states := c.states[t := Ready], ticks := c.ticks[t := 0])
  }

  /** The first write of sleep: how long. */
  ghost function SetTicks<T>(c: Core<T>, n: Word): Core<T> {
    c.(ticks := c.ticks[c.running := n])
  }

  /** The second write of sleep: the state. */
  ghost function SetState<T>(c: Core<T>, s: TaskState): Core<T> {
    c.(states := c.states[c.running := s])
  }

  // ------------------------------------------------------------ the invariant

  /** Running task, ready queue and sleep queue partition the live tasks. */
  ghost predicate Partition<T>(c: Core<T>) {
    && NoDup(c.ready) && Unique(c.sleepers)
    && c.running !in Elems(c.ready) && c.running !in Tasks(c.sleepers)
    && Elems(c.ready) !! Tasks(c.sleepers)
    && c.states.Keys == {c.running} + Elems(c.ready) + Tasks(c.sleepers)
    && c.ticks.Keys == {c.running} + Elems(c.ready)
    && c.freed !! c.states.Keys
  }

  /** Each task is in a state that fits the place it is in. */
  ghost predicate Places<T>(c: Core<T>)
    requires Partition(c)
  {
    && (forall t :: t in Elems(c.ready) ==> c.states[t] in {Ready, Destroy})
    && (forall t :: t in Tasks(c.sleepers) ==> c.states[t] in {Sleeping, Destroy})
    && c.states[c.running] in {Running, Sleeping, Destroy}
    && (c.states[c.running] == Sleeping ==> c.ticks[c.running] > 0)
  }

  /** The environment's promise about task 0: it only ever yields. */
  ghost predicate IdleAwake<T>(c: Core<T>, idle: T) {
    && (idle == c.running || idle in Elems(c.ready))
    && idle in c.states && c.states[idle] in {Ready, Running}
  }

  ghost predicate Inv<T>(c: Core<T>, idle: T) {
    Partition(c) && Places(c) && Settled(c.sleepers) && IdleAwake(c, idle)
  }

  /** Between Park and Dispatch nobody is running. */
  ghost predicate Parked<T>(c: Core<T>, idle: T) {
    && NoDup(c.ready) && Settled(c.sleepers)
    && Elems(c.ready) !! Tasks(c.sleepers)
    && c.states.Keys == Elems(c.ready) + Tasks(c.sleepers)
    && c.ticks.Keys == Elems(c.ready)
    && c.freed !! c.states.Keys
    && (forall t :: t in Elems(c.ready) ==> c.states[t] in {Ready, Destroy})
    && (forall t :: t in Tasks(c.sleepers) ==> c.states[t] in {Sleeping, Destroy})
    && idle in Elems(c.ready) && c.states[idle] == Ready
  }

  lemma ParkKeeps<T>(c: Core<T>, idle: T)
    requires Inv(c, idle)
    ensures Park(Repaired, c).Next? && Parked(Park(Repaired, c).value, idle)
  {
    var r := c.running;
    if c.states[r] == Sleeping {
      RepairedIsInsert(c.sleepers, r, c.ticks[r]);
      InsertSettled(c.sleepers, r, c.ticks[r]);
    } else {
      Concat(c.ready, [r]);
    }
  }

  lemma {:induction false} DoomedBefore<T>(ready: seq<T>, states: map<T, TaskState>, t: T)
    requires Elems(ready) <= states.Keys && t in Elems(ready) && states[t] != Destroy
    ensures Doomed(ready, states) < |ready|
  {
    if states[ready[0]] == Destroy {
      DoomedBefore(ready[1..], states, t);
    }
  }

  lemma SplitAt<T>(s: seq<T>, n: nat)
    requires n < |s|
    ensures Elems(s) == Elems(s[..n]) + {s[n]} + Elems(s[n + 1..])
    ensures NoDup(s) ==>
      NoDup(s[..n]) && NoDup(s[n + 1..]) && s[n] !in Elems(s[..n]) && s[n] !in Elems(s[n + 1..])
      && Elems(s[..n]) !! Elems(s[n + 1..])
  {
    Concat(s[..n], s[n..]);
    assert s == s[..n] + s[n..];
    assert s[n..][1..] == s[n + 1..];
  }

  /** Taking `gone` and `next` off the front of the ready queue. */
  lemma TakePartition<T>(c: Core<T>, gone: set<T>, next: T, rest: seq<T>, d: Core<T>)
    requires Unique(c.sleepers) && Elems(c.ready) !! Tasks(c.sleepers)
    requires c.states.Keys == Elems(c.ready) + Tasks(c.sleepers) && c.ticks.Keys == Elems(c.ready)
    requires c.freed !! c.states.Keys
    requires Elems(c.ready) == gone + {next} + Elems(rest) && NoDup(rest)
    requires next !in gone && next !in Elems(rest) && gone !! Elems(rest)
    requires d == Core(next, rest, c.sleepers, (c.states - gone)[next := Running], c.ticks - gone, c.freed + gone)
    ensures Partition(d)
  {
  }

  lemma DispatchPartition<T>(c: Core<T>, n: nat)
    requires NoDup(c.ready) && Unique(c.sleepers) && Elems(c.ready) !! Tasks(c.sleepers)
    requires c.states.Keys == Elems(c.ready) + Tasks(c.sleepers) && c.ticks.Keys == Elems(c.ready)
    requires c.freed !! c.states.Keys
    requires n == Doomed(c.ready, c.states) < |c.ready|
    ensures Partition(Dispatch(c).value)
    ensures Elems(c.ready) == Elems(c.ready[..n]) + {c.ready[n]} + Elems(c.ready[n + 1..])
  {
    SplitAt(c.ready, n);
    TakePartition(c, Elems(c.ready[..n]), c.ready[n], c.ready[n + 1..], Dispatch(c).value);
  }

  lemma DispatchKeeps<T>(c: Core<T>, idle: T)
    requires Parked(c, idle)
    ensures Dispatch(c).Next? && Inv(Dispatch(c).value, idle)
  {
    DoomedBefore(c.ready, c.states, idle);
    DispatchPartition(c, Doomed(c.ready, c.states));
  }

  /** Moving the tasks `woken` from the front of the sleep queue to the ready queue. */
  lemma MovePartition<T>(c: Core<T>, woken: seq<T>, rest: Queue<T>, w: Core<T>)
    requires Partition(c) && Settled(rest)
    requires NoDup(woken) && Elems(woken) !! Tasks(rest) && Tasks(c.sleepers) == Elems(woken) + Tasks(rest)
    requires w.running == c.running && w.ready == c.ready + woken && w.sleepers == rest && w.freed == c.freed
    requires w.states == c.states + map t | t in Elems(woken) :: Ready
    requires w.ticks == c.ticks + map t | t in Elems(woken) :: 0
    ensures Partition(w)
    ensures Elems(w.ready) == Elems(c.ready) + Elems(woken)
  {
    Concat(c.ready, woken);
  }

  lemma WakePartition<T>(c: Core<T>)
    requires Partition(c) && Settled(c.sleepers)
    ensures Partition(Wake(c)) && Settled(Wake(c).sleepers)
    ensures var woken := Elems(Drain(Decrement(c.sleepers)).0);
      Elems(Wake(c).ready) == Elems(c.ready) + woken && woken <= Tasks(c.sleepers)
      && Tasks(Wake(c).sleepers) == Tasks(c.sleepers) - woken
  {
    TickRefinesRemaining(c.sleepers);
    var (woken, rest) := Drain(Decrement(c.sleepers));
    MovePartition(c, woken, rest, Wake(c));
  }

  lemma WakeKeeps<T>(c: Core<T>, idle: T)
    requires Inv(c, idle)
    ensures Inv(Wake(c), idle)
  {
    WakePartition(c);
  }

  lemma SwitchKeeps<T>(c: Core<T>, idle: T)
    requires Inv(c, idle)
    ensures Switch(Repaired, c).Next? && Inv(Switch(Repaired, c).value, idle)
  {
    ParkKeeps(c, idle);
    DispatchKeeps(Park(Repaired, c).value, idle);
  }

  /** Without the idle task the empty-queue panic is real: the switch succeeds exactly
      when the current task wants to go on or somebody in the queue may run. */
  lemma SwitchPanicsIff<T>(c: Core<T>)
    requires Partition(c) && Places(c) && Settled(c.sleepers)
    ensures !Switch(Repaired, c).Fault?
    ensures Switch(Repaired, c).Panic? <==>
      c.states[c.running] != Running && forall t :: t in Elems(c.ready) ==> c.states[t] == Destroy
  {
    RepairedIsInsert(c.sleepers, c.running, c.ticks[c.running]);
    Concat(c.ready, [c.running]);
    var p := Park(Repaired, c).value;
    var n := Doomed(p.ready, p.states);
    if t :| t in Elems(p.ready) && p.states[t] != Destroy {
      DoomedBefore(p.ready, p.states, t);
    } else if n < |p.ready| {
      SplitAt(p.ready, n);
    }
  }

  lemma ElemsPrefix<T>(s: seq<T>, n: nat)
    requires n <= |s|
    ensures Elems(s[..n]) <= Elems(s)
  {
    Concat(s[..n], s[n..]);
    assert s == s[..n] + s[n..];
  }

  /** The pick loop stops before it has taken the last task in the queue. */
  lemma TailNotFreed<T>(ready: seq<T>, u: seq<T>, r: T, states: map<T, TaskState>, idle: T)
    requires u == ready + [r] && Elems(u) <= states.Keys
    requires idle in Elems(u) && states[idle] != Destroy
    ensures Elems(u[..Doomed(u, states)]) <= Elems(ready)
  {
    var n := Doomed(u, states);
    DoomedBefore(u, states, idle);
    assert u[..n] == ready[..n];
    ElemsPrefix(ready, n);
  }

  /** What a switch frees was doomed and waiting, and was not the caller. */
  lemma SwitchFrees<T>(c: Core<T>, idle: T, t: T)
    requires Inv(c, idle)
    requires Switch(Repaired, c).Next? && t in Switch(Repaired, c).value.freed && t !in c.freed
    ensures t in Elems(c.ready) && c.states[t] == Destroy && t != c.running
  {
    var r := c.running;
    var p := Park(Repaired, c).value;
    if c.states[r] == Sleeping {
      ElemsPrefix(c.ready, Doomed(c.ready, c.states));
    } else {
      Concat(c.ready, [r]);
      TailNotFreed(c.ready, p.ready, r, p.states, idle);
    }
  }

  /** The sleep queue as a switch leaves it. */
  ghost function Asleep<T>(c: Core<T>): Queue<T>
    requires c.running in c.states && c.running in c.ticks
  {
    if c.states[c.running] == Sleeping then Insert(c.sleepers, c.running, c.ticks[c.running]) else c.sleepers
  }

  lemma ParkEffect<T>(c: Core<T>, idle: T)
    requires Inv(c, idle)
    ensures var o := Park(Repaired, c); o.Next? && var p := o.value;
      && p.sleepers == Asleep(c) && p.freed == c.freed && p.states.Keys == c.states.Keys
      && p.ready == c.ready + (if c.states[c.running] == Sleeping then [] else [c.running])
      && (forall t :: t in p.ticks ==> t in c.ticks && p.ticks[t] == c.ticks[t])
      && (forall t :: t in p.states && t != c.running ==> p.states[t] == c.states[t])
  {
    RepairedIsInsert(c.sleepers, c.running, c.ticks[c.running]);
  }

  lemma DispatchEffect<T>(p: Core<T>, idle: T)
    requires Parked(p, idle)
    ensures var o := Dispatch(p); o.Next? && var d := o.value;
      && d.sleepers == p.sleepers
      && p.freed <= d.freed && p.freed + p.states.Keys == d.freed + d.states.Keys
      && d.states[d.running] == Running
      && (forall t :: t in d.ticks ==> t in p.ticks && d.ticks[t] == p.ticks[t])
      && (forall t :: t in d.states && t != d.running ==> d.states[t] == p.states[t])
  {
    var n := Doomed(p.ready, p.states);
    DoomedBefore(p.ready, p.states, idle);
    SplitAt(p.ready, n);
    assert Dispatch(p).value.states.Keys == p.states.Keys - Elems(p.ready[..n]);
  }

  /** What a switch changes, and what it leaves alone. */
  lemma SwitchEffect<T>(c: Core<T>, idle: T)
    requires Inv(c, idle)
    ensures var o := Switch(Repaired, c); o.Next? && var d := o.value;
      && d.sleepers == Asleep(c)
      && c.freed <= d.freed && c.freed + c.states.Keys == d.freed + d.states.Keys
      && d.states[d.running] == Running
      && (forall t :: t in d.ticks ==> t in c.ticks && d.ticks[t] == c.ticks[t])
      && (forall t :: t in d.states && t != d.running && t != c.running ==> d.states[t] == c.states[t])
  {
    ParkKeeps(c, idle);
    ParkEffect(c, idle);
    DispatchEffect(Park(Repaired, c).value, idle);
  }

  /** What update_sleep_queue changes, and what it leaves alone. */
  lemma WakeEffect<T>(c: Core<T>, idle: T)
    requires Inv(c, idle)
    ensures var w := Wake(c);
      && w.running == c.running && w.freed == c.freed && w.states.Keys == c.states.Keys
      && (forall t :: t in c.ticks ==> t in w.ticks && w.ticks[t] == c.ticks[t])
      && (forall t :: t in c.states && (t !in Tasks(c.sleepers) || t in Tasks(w.sleepers)) ==>
            w.states[t] == c.states[t])
  {
    WakePartition(c);
  }

  lemma SpawnKeeps<T>(c: Core<T>, idle: T, t: T)
    requires Inv(c, idle) && t !in c.states && t !in c.freed
    ensures Inv(Spawn(c, t), idle)
  {
    Concat(c.ready, [t]);
    var d := Spawn(c, t);
    assert d.states.Keys == c.states.Keys + {t} && d.ticks.Keys == c.ticks.Keys + {t};
    assert Partition(d);
  }

  lemma DoomKeeps<T>(c: Core<T>, idle: T, t: T)
    requires Inv(c, idle) && t != idle
    ensures Inv(Doom(c, t), idle)
  {
    assert Doom(c, t).states.Keys == c.states.Keys;
  }

  lemma SetTicksKeeps<T>(c: Core<T>, idle: T, n: Word)
    requires Inv(c, idle) && n > 0
    ensures Inv(SetTicks(c, n), idle)
  {
    assert SetTicks(c, n).ticks.Keys == c.ticks.Keys;
  }

  lemma SetStateKeeps<T>(c: Core<T>, idle: T, st: TaskState)
    requires Inv(c, idle) && c.running != idle
    requires st == Destroy || (st == Sleeping && c.ticks[c.running] > 0)
    ensures Inv(SetState(c, st), idle)
  {
    assert SetState(c, st).states.Keys == c.states.Keys;
  }
}

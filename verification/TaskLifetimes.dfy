/**
  Who runs, who waits and who is freed over whole runs (kernel/sched.c:69-106, 231-263,
  361-398): bounded waiting, what a kill achieves and when it is lost, and conservation.
 */
module TaskLifetimes {
  import opened Lists
  import opened DeltaQueue
  import opened SchedCore
  import opened SchedSystem
  import opened SleepDeadlines

  /** `t` stands at position `k` of the ready queue, in state `st`. */
  ghost predicate At<T>(c: Core<T>, t: T, k: int, st: TaskState) {
    0 <= k < |c.ready| && c.ready[k] == t && t in c.states && c.states[t] == st
  }

  function Cost<T>(a: Action<T>): nat {
    if Switches(a) then 1 else 0
  }

  lemma AtReady<T>(c: Core<T>, t: T, k: nat, st: TaskState)
    requires At(c, t, k, st)
    ensures t in Elems(c.ready)
  {
    ElemsIn(c.ready, t);
  }

  lemma InPrefix<T>(u: seq<T>, n: nat, k: nat)
    requires k < n <= |u|
    ensures u[k] in Elems(u[..n])
  {
    ElemsIn(u[..n], u[k]);
    assert u[..n][k] == u[k];
  }

  /** The pick loop never passes a task that may run. */
  lemma DoomedStopsAt<T>(u: seq<T>, states: map<T, TaskState>, k: nat)
    requires Elems(u) <= states.Keys && k < |u| && u[k] in states && states[u[k]] != Destroy
    ensures Doomed(u, states) <= k
  {
    var n := Doomed(u, states);
    if n > k {
      InPrefix(u, n, k);
    }
  }

  lemma ParkAt<T>(c: Core<T>, idle: T, t: T, k: nat, st: TaskState)
    requires Inv(c, idle) && At(c, t, k, st)
    ensures Park(Repaired, c).Next? && Parked(Park(Repaired, c).value, idle) && At(Park(Repaired, c).value, t, k, st)
  {
    ParkKeeps(c, idle);
    ParkEffect(c, idle);
    AtReady(c, t, k, st);
  }

  /** Where the pick loop leaves the task at position k of the queue. */
  lemma DispatchAt<T>(p: Core<T>, idle: T, t: T, k: nat, st: TaskState)
    requires Parked(p, idle) && At(p, t, k, st)
    ensures var n, o := Doomed(p.ready, p.states), Dispatch(p);
      && o.Next? && (st != Destroy ==> n <= k)
      && (k < n ==> t in o.value.freed) && (k == n ==> o.value.running == t && st != Destroy)
      && (k > n ==> At(o.value, t, k - n - 1, st))
  {
    DispatchEffect(p, idle);
    DispatchKeeps(p, idle);
    var n, d := Doomed(p.ready, p.states), Dispatch(p).value;
    if st != Destroy {
      DoomedStopsAt(p.ready, p.states, k);
    }
    if k < n {
      InPrefix(p.ready, n, k);
    } else if k > n {
      assert d.ready[k - n - 1] == t;
      ElemsIn(d.ready, t);
    }
  }

  lemma SwitchAdvances<T>(c: Core<T>, idle: T, t: T, k: nat) returns (j: int)
    requires Inv(c, idle) && At(c, t, k, Ready)
    ensures Switch(Repaired, c).Next? && j < k
    ensures Switch(Repaired, c).value.running == t || At(Switch(Repaired, c).value, t, j, Ready)
  {
    ParkAt(c, idle, t, k, Ready);
    var p := Park(Repaired, c).value;
    DispatchAt(p, idle, t, k, Ready);
    j := k - Doomed(p.ready, p.states) - 1;
  }

  lemma WakeAt<T>(c: Core<T>, idle: T, t: T, k: nat, st: TaskState)
    requires Inv(c, idle) && At(c, t, k, st)
    ensures At(Wake(c), t, k, st)
  {
    AtReady(c, t, k, st);
    WakeEffect(c, idle);
  }

  lemma StepAdvances<T>(s: Sys<T>, idle: T, a: Action<T>, t: T, k: nat) returns (j: int)
    requires SysInv(s, idle) && Enabled(s, idle, a) && At(s.core, t, k, Ready) && a != Kill(t)
    ensures Step(Repaired, s, a).Next? && j + Cost(a) <= k
    ensures (Switches(a) && Step(Repaired, s, a).value.core.running == t)
         || At(Step(Repaired, s, a).value.core, t, j, Ready)
  {
    AtReady(s.core, t, k, Ready);
    if Switches(a) {
      BeforeKeeps(s, idle, a);
      if a.Tick? {
        WakeAt(s.core, idle, t, k, Ready);
      }
      j := SwitchAdvances(Before(s, a).core, idle, t, k);
    } else {
      j := k;
    }
  }

  /** Bounded waiting: at position k and not killed, `t` runs within k + 1 switches, whatever
      is woken, created or killed meanwhile. */
  lemma {:induction false} BoundedWaiting<T>(s: Sys<T>, idle: T, acts: seq<Action<T>>, t: T, k: nat) returns (i: nat)
    requires SysInv(s, idle) && Legal(Repaired, s, idle, acts)
    requires At(s.core, t, k, Ready) && Kill(t) !in acts && SwitchCount(acts) > k
    ensures i <= |acts| && SwitchCount(acts[..i]) <= k + 1
    ensures Run(Repaired, s, acts[..i]).Next? && Run(Repaired, s, acts[..i]).value.core.running == t
    decreases |acts|
  {
    var a := acts[0];
    StepKeeps(s, idle, a);
    var j := StepAdvances(s, idle, a, t, k);
    var s1 := Step(Repaired, s, a).value;
    if Switches(a) && s1.core.running == t {
      i := 1;
      assert acts[..1] == [a] && acts[..1][1..] == [];
    } else {
      var i' := BoundedWaiting(s1, idle, acts[1..], t, j);
      i := i' + 1;
      assert acts[..i][0] == a && acts[..i][1..] == acts[1..][..i'];
    }
  }

  /** A created task stands ready at the end of the queue, */
  lemma CreatedReady<T>(s: Sys<T>, idle: T, t: T)
    requires SysInv(s, idle) && Enabled(s, idle, Create(t))
    ensures Step(Repaired, s, Create(t)).Next?
    ensures At(Step(Repaired, s, Create(t)).value.core, t, |s.core.ready|, Ready)
  {
  }

  /** so unless it is killed it runs, on every run, as soon as those before it had their turn. */
  lemma CreatedRuns<T>(s: Sys<T>, idle: T, acts: seq<Action<T>>, t: T) returns (i: nat)
    requires SysInv(s, idle) && Enabled(s, idle, Create(t)) && Legal(Repaired, s, idle, [Create(t)] + acts)
    requires Kill(t) !in acts && SwitchCount(acts) > |s.core.ready|
    ensures i <= |acts| && SwitchCount(acts[..i]) <= |s.core.ready| + 1
    ensures var o := Run(Repaired, s, [Create(t)] + acts[..i]); o.Next? && o.value.core.running == t
  {
    CreatedReady(s, idle, t);
    StepKeeps(s, idle, Create(t));
    Cons(s, idle, Create(t), acts);
    i := BoundedWaiting(Step(Repaired, s, Create(t)).value, idle, acts, t, |s.core.ready|);
    Cons(s, idle, Create(t), acts[..i]);
  }

  // ---------------------------------------------------------- runs by construction

  lemma Cons<T>(s: Sys<T>, idle: T, a: Action<T>, acts: seq<Action<T>>)
    requires Enabled(s, idle, a) && Step(Repaired, s, a).Next?
    ensures Legal(Repaired, s, idle, [a] + acts) <==> Legal(Repaired, Step(Repaired, s, a).value, idle, acts)
    ensures Run(Repaired, s, [a] + acts) == Run(Repaired, Step(Repaired, s, a).value, acts)
    ensures Ticks([a] + acts) == Ticks(acts) + if a.Tick? then 1 else 0
    ensures SwitchCount([a] + acts) == SwitchCount(acts) + Cost(a)
  {
    assert ([a] + acts)[1..] == acts;
  }

  lemma {:induction false} LegalConcat<T>(s: Sys<T>, idle: T, xs: seq<Action<T>>, ys: seq<Action<T>>)
    requires Legal(Repaired, s, idle, xs) && Run(Repaired, s, xs).Next?
    ensures Legal(Repaired, s, idle, xs + ys) <==> Legal(Repaired, Run(Repaired, s, xs).value, idle, ys)
    decreases |xs|
  {
    if xs == [] {
      assert xs + ys == ys;
    } else {
      assert (xs + ys)[0] == xs[0] && (xs + ys)[1..] == xs[1..] + ys;
      LegalConcat(Step(Repaired, s, xs[0]).value, idle, xs[1..], ys);
    }
  }

  lemma {:induction false} PrefixLegal<T>(s: Sys<T>, idle: T, xs: seq<Action<T>>, ys: seq<Action<T>>)
    requires Legal(Repaired, s, idle, xs + ys)
    ensures Legal(Repaired, s, idle, xs)
    decreases |xs|
  {
    if xs != [] {
      assert (xs + ys)[0] == xs[0] && (xs + ys)[1..] == xs[1..] + ys;
      if Step(Repaired, s, xs[0]).Next? {
        PrefixLegal(Step(Repaired, s, xs[0]).value, idle, xs[1..], ys);
      }
    }
  }

  /** A run through `xs`, then `a`, then `ys`. */
  lemma Split<T>(s: Sys<T>, idle: T, xs: seq<Action<T>>, a: Action<T>, ys: seq<Action<T>>)
    requires Legal(Repaired, s, idle, xs) && Run(Repaired, s, xs).Next?
    requires Enabled(Run(Repaired, s, xs).value, idle, a) && Step(Repaired, Run(Repaired, s, xs).value, a).Next?
    ensures var f := Step(Repaired, Run(Repaired, s, xs).value, a).value;
      && (Legal(Repaired, s, idle, xs + [a] + ys) <==> Legal(Repaired, f, idle, ys))
      && Run(Repaired, s, xs + [a] + ys) == Run(Repaired, f, ys)
  {
    assert xs + [a] + ys == xs + ([a] + ys);
    LegalConcat(s, idle, xs, [a] + ys);
    RunConcat(Repaired, s, xs, [a] + ys);
    Cons(Run(Repaired, s, xs).value, idle, a, ys);
  }

  /** What the running task does next if it only goes on with what it is at. */
  ghost function Onward<T>(s: Sys<T>): Action<T>
    requires s.core.running in s.phase
  {
    match s.phase[s.core.running]
    case Code => Yield
    case WroteTicks => SleepMark
    case WroteState => SleepSwitch
  }

  function ToSwitch(p: Phase): nat {
    if p.WroteTicks? then 1 else 0
  }

  lemma PhaseStays<T>(s: Sys<T>, idle: T, a: Action<T>, t: T)
    requires SysInv(s, idle) && Enabled(s, idle, a) && t in s.core.states && t != s.core.running
    requires Step(Repaired, s, a).Next?
    ensures t in s.phase && t in Step(Repaired, s, a).value.phase && Step(Repaired, s, a).value.phase[t] == s.phase[t]
  {
  }

  /** A task waiting in the ready queue can get to run without any tick passing. */
  lemma {:induction false} RunsQuietly<T>(s: Sys<T>, idle: T, t: T, k: nat) returns (acts: seq<Action<T>>)
    requires SysInv(s, idle) && At(s.core, t, k, Ready)
    ensures Legal(Repaired, s, idle, acts) && Ticks(acts) == 0
    ensures var o := Run(Repaired, s, acts);
      o.Next? && o.value.core.running == t && t in s.phase && t in o.value.phase && o.value.phase[t] == s.phase[t]
    decreases k, ToSwitch(s.phase[s.core.running])
  {
    var a := Onward(s);
    StepKeeps(s, idle, a);
    AtReady(s.core, t, k, Ready);
    var j := StepAdvances(s, idle, a, t, k);
    var s1 := Step(Repaired, s, a).value;
    PhaseStays(s, idle, a, t);
    hide Step, Inv;
    var rest := [];
    if s1.core.running != t {
      rest := RunsQuietly(s1, idle, t, j);
    }
    Cons(s, idle, a, rest);
    acts := [a] + rest;
  }

  /** A sleeper can get to run as soon as its deadline has come. */
  lemma {:induction false} SleeperReturns<T>(s: Sys<T>, idle: T, t: T) returns (acts: seq<Action<T>>)
    requires SysInv(s, idle) && t in Tasks(s.core.sleepers)
    ensures Legal(Repaired, s, idle, acts) && SwitchCount(acts) > 0 && Ticks(acts) == Remaining(s.core.sleepers, t)
    ensures var o := Run(Repaired, s, acts);
      o.Next? && o.value.core.running == t && t in s.phase && t in o.value.phase && o.value.phase[t] == s.phase[t]
    decreases Remaining(s.core.sleepers, t)
  {
    RemainingBounds(s.core.sleepers, t);
    StepKeeps(s, idle, Tick);
    PhaseStays(s, idle, Tick, t);
    var s1 := Step(Repaired, s, Tick).value;
    var rest := [];
    if Remaining(s.core.sleepers, t) > 1 {
      StepSleeper(s, idle, Tick, t);
      rest := SleeperReturns(s1, idle, t);
    } else {
      StepWakes(s, idle, t);
      if s1.core.running != t {
        ElemsIn(s1.core.ready, t);
        var k :| 0 <= k < |s1.core.ready| && s1.core.ready[k] == t;
        rest := RunsQuietly(s1, idle, t, k);
      }
    }
    Cons(s, idle, Tick, rest);
    acts := [Tick] + rest;
  }

  // ------------------------------------------------------------------- killing

  /** A doomed task in the ready queue: still `left` switches away from being freed at most. */
  ghost predicate Dying<T>(c: Core<T>, t: T, left: int) {
    t in c.freed || exists k :: 0 <= k < left && At(c, t, k, Destroy)
  }

  lemma SwitchDying<T>(c: Core<T>, idle: T, t: T, left: int)
    requires Inv(c, idle) && Dying(c, t, left)
    ensures Switch(Repaired, c).Next? && Dying(Switch(Repaired, c).value, t, left - 1)
  {
    SwitchEffect(c, idle);
    if t !in c.freed {
      var k :| 0 <= k < left && At(c, t, k, Destroy);
      ParkAt(c, idle, t, k, Destroy);
      DispatchAt(Park(Repaired, c).value, idle, t, k, Destroy);
    }
  }

  lemma StepDying<T>(s: Sys<T>, idle: T, a: Action<T>, t: T, left: int)
    requires SysInv(s, idle) && Enabled(s, idle, a) && Dying(s.core, t, left)
    ensures Step(Repaired, s, a).Next? && Dying(Step(Repaired, s, a).value.core, t, left - Cost(a))
  {
    if t !in s.core.freed {
      var k :| 0 <= k < left && At(s.core, t, k, Destroy);
      AtReady(s.core, t, k, Destroy);
      if Switches(a) {
        BeforeKeeps(s, idle, a);
        if a.Tick? {
          WakeAt(s.core, idle, t, k, Destroy);
        }
        assert At(Before(s, a).core, t, k, Destroy);
      } else {
        assert At(Step(Repaired, s, a).value.core, t, k, Destroy);
      }
    }
    if Switches(a) {
      BeforeKeeps(s, idle, a);
      SwitchDying(Before(s, a).core, idle, t, left);
    }
  }

  /** A kill that finds its target in the ready queue works: the target never runs again
      and is freed within k + 1 switches. */
  lemma {:induction false} KilledWhileReady<T>(s: Sys<T>, idle: T, acts: seq<Action<T>>, t: T, left: int)
    requires SysInv(s, idle) && Legal(Repaired, s, idle, acts) && Dying(s.core, t, left)
    ensures var o := Run(Repaired, s, acts);
      o.Next? && o.value.core.running != t && (SwitchCount(acts) >= left ==> t in o.value.core.freed)
    decreases |acts|
  {
    if acts == [] {
      if k :| 0 <= k < left && At(s.core, t, k, Destroy) {
        AtReady(s.core, t, k, Destroy);
      }
    } else {
      StepKeeps(s, idle, acts[0]);
      StepDying(s, idle, acts[0], t, left);
      KilledWhileReady(Step(Repaired, s, acts[0]).value, idle, acts[1..], t, left - Cost(acts[0]));
    }
  }

  /** A kill that finds its target asleep touches nothing but a field the wake-up overwrites. */
  ghost function DoomIn<T>(s: Sys<T>, t: T): Sys<T> {
    s.(core := Doom(s.core, t))
  }

  lemma {:induction false} DoomedElsewhere<T>(u: seq<T>, states: map<T, TaskState>, t: T)
    requires Elems(u) <= states.Keys && t !in Elems(u)
    ensures Doomed(u, states[t := Destroy]) == Doomed(u, states)
  {
    if u != [] && states[u[0]] == Destroy {
      DoomedElsewhere(u[1..], states, t);
    }
  }

  lemma UpdatesCommute<T>(m: map<T, TaskState>, gone: set<T>, next: T, t: T)
    requires t !in gone && t != next
    ensures (m[t := Destroy] - gone)[next := Running] == (m - gone)[next := Running][t := Destroy]
  {
  }

  lemma DispatchCommutes<T>(p: Core<T>, idle: T, t: T)
    requires Parked(p, idle) && t in Tasks(p.sleepers)
    ensures Dispatch(p).Next? && Dispatch(Doom(p, t)) == Next(Doom(Dispatch(p).value, t))
  {
    DispatchKeeps(p, idle);
    DispatchEffect(p, idle);
    DoomedElsewhere(p.ready, p.states, t);
    var n := Doomed(p.ready, p.states);
    UpdatesCommute(p.states, Elems(p.ready[..n]), p.ready[n], t) by { SplitAt(p.ready, n); }
  }

  lemma ParkCommutes<T>(c: Core<T>, t: T)
    requires t in c.states && t != c.running
    requires Park(Repaired, c).Next?
    ensures Park(Repaired, Doom(c, t)) == Next(Doom(Park(Repaired, c).value, t))
  {
    assert c.states[t := Destroy][c.running := Ready] == c.states[c.running := Ready][t := Destroy];
  }

  lemma SwitchCommutes<T>(c: Core<T>, idle: T, t: T)
    requires Inv(c, idle) && t in Tasks(c.sleepers)
    ensures Switch(Repaired, c).Next? && Switch(Repaired, Doom(c, t)) == Next(Doom(Switch(Repaired, c).value, t))
  {
    ParkKeeps(c, idle);
    ParkCommutes(c, t);
    var p := Park(Repaired, c).value;
    assert t in Tasks(p.sleepers) by {
      ParkEffect(c, idle);
      AsleepRemaining(c, idle, t);
    }
    DispatchCommutes(p, idle, t);
  }

  /** A tick treats the killed and the unkilled sleeper alike, and forgets the difference
      when it wakes them. */
  lemma WakeForgets<T>(c: Core<T>, idle: T, t: T)
    requires Inv(c, idle) && t in Tasks(c.sleepers)
    ensures Remaining(c.sleepers, t) == 1 ==> Wake(Doom(c, t)) == Wake(c)
    ensures Remaining(c.sleepers, t) > 1 ==> Wake(Doom(c, t)) == Doom(Wake(c), t) && t in Tasks(Wake(c).sleepers)
  {
    TickRefinesRemaining(c.sleepers);
    Overwritten(c.states, map u | u in Elems(Drain(Decrement(c.sleepers)).0) :: Ready, t);
  }

  lemma Overwritten<T>(states: map<T, TaskState>, woken: map<T, TaskState>, t: T)
    ensures t in woken ==> states[t := Destroy] + woken == states + woken
    ensures t !in woken ==> states[t := Destroy] + woken == (states + woken)[t := Destroy]
  {
  }

  lemma BeforeCommutes<T>(s: Sys<T>, idle: T, a: Action<T>, t: T)
    requires SysInv(s, idle) && t in Tasks(s.core.sleepers) && Switches(a)
    ensures !a.Tick? ==> Before(DoomIn(s, t), a) == DoomIn(Before(s, a), t) && t in Tasks(Before(s, a).core.sleepers)
    ensures a.Tick? && Remaining(s.core.sleepers, t) == 1 ==> Before(DoomIn(s, t), a) == Before(s, a)
    ensures a.Tick? && Remaining(s.core.sleepers, t) > 1 ==>
      Before(DoomIn(s, t), a) == DoomIn(Before(s, a), t) && t in Tasks(Before(s, a).core.sleepers)
  {
    var c := s.core;
    if a.Tick? {
      WakeForgets(c, idle, t);
    } else {
      assert c.states[t := Destroy][c.running := Destroy] == c.states[c.running := Destroy][t := Destroy];
    }
  }

  lemma CallCommutes<T>(s: Sys<T>, idle: T, a: Action<T>, t: T)
    requires SysInv(s, idle) && Enabled(s, idle, a) && t in Tasks(s.core.sleepers) && !Switches(a)
    ensures Step(Repaired, s, a).Next?
    ensures Step(Repaired, DoomIn(s, t), a) == Next(DoomIn(Step(Repaired, s, a).value, t))
  {
    var c := s.core;
    match a
    case Create(u) => assert c.states[t := Destroy][u := Ready] == c.states[u := Ready][t := Destroy];
    case Kill(u) => assert c.states[t := Destroy][u := Destroy] == c.states[u := Destroy][t := Destroy];
    case SleepMark =>
      var r := c.running;
      assert c.states[t := Destroy][r := Sleeping] == c.states[r := Sleeping][t := Destroy];
    case _ =>
  }

  lemma StepForgets<T>(s: Sys<T>, idle: T, a: Action<T>, t: T)
    requires SysInv(s, idle) && Enabled(s, idle, a) && t in Tasks(s.core.sleepers)
    ensures Step(Repaired, s, a).Next?
    ensures a.Tick? && Remaining(s.core.sleepers, t) == 1 ==>
      Step(Repaired, DoomIn(s, t), a) == Step(Repaired, s, a)
    ensures !(a.Tick? && Remaining(s.core.sleepers, t) == 1) ==>
      Step(Repaired, DoomIn(s, t), a) == Next(DoomIn(Step(Repaired, s, a).value, t))
  {
    if Switches(a) {
      RemainingBounds(s.core.sleepers, t);
      BeforeKeeps(s, idle, a);
      BeforeCommutes(s, idle, a, t);
      StepIsSwitch(Repaired, s, a);
      StepIsSwitch(Repaired, DoomIn(s, t), a);
      if a.Tick? && Remaining(s.core.sleepers, t) == 1 {
        SwitchKeeps(Before(s, a).core, idle);
      } else {
        SwitchCommutes(Before(s, a).core, idle, t);
      }
    } else {
      CallCommutes(s, idle, a, t);
    }
  }

  /** The kill is lost: past the sleeper's deadline the run with the kill and the run
      without it are the same. */
  lemma {:induction false} KilledWhileAsleepIsLost<T>(s: Sys<T>, idle: T, acts: seq<Action<T>>, t: T)
    requires SysInv(s, idle) && Legal(Repaired, s, idle, acts)
    requires t in Tasks(s.core.sleepers) && Ticks(acts) >= Remaining(s.core.sleepers, t)
    ensures Run(Repaired, DoomIn(s, t), acts) == Run(Repaired, s, acts)
    decreases |acts|
  {
    RemainingBounds(s.core.sleepers, t);
    var a := acts[0];
    StepKeeps(s, idle, a);
    StepForgets(s, idle, a, t);
    if !(a.Tick? && Remaining(s.core.sleepers, t) == 1) {
      StepSleeper(s, idle, a, t);
      KilledWhileAsleepIsLost(Step(Repaired, s, a).value, idle, acts[1..], t);
    }
  }

  /** Exactly when a kill works, whoever the target is: it never runs again after the next
      switch, on any legal run, if and only if it was waiting in the ready queue. */
  lemma KillWorksIffReady<T>(s: Sys<T>, idle: T, t: T)
    requires SysInv(s, idle) && Enabled(s, idle, Kill(t)) && t in s.core.states
    ensures Step(Repaired, s, Kill(t)) == Next(DoomIn(s, t))
    ensures t in Elems(s.core.ready) <==>
      forall acts :: Legal(Repaired, s, idle, [Kill(t)] + acts) && SwitchCount(acts) > 0 ==>
        Run(Repaired, s, [Kill(t)] + acts).Next? && Run(Repaired, s, [Kill(t)] + acts).value.core.running != t
  {
    var d := DoomIn(s, t);
    StepKeeps(s, idle, Kill(t));
    assert SysInv(d, idle);
    if t in Elems(s.core.ready) {
      ElemsIn(d.core.ready, t);
      var k :| 0 <= k < |d.core.ready| && d.core.ready[k] == t;
      assert At(d.core, t, k, Destroy);
      forall acts | Legal(Repaired, s, idle, [Kill(t)] + acts)
        ensures Run(Repaired, s, [Kill(t)] + acts).Next?
        ensures Run(Repaired, s, [Kill(t)] + acts).value.core.running != t
      {
        Cons(s, idle, Kill(t), acts);
        KilledWhileReady(d, idle, acts, t, k + 1);
      }
    } else if t == s.core.running {
      var acts := SleepsItOff(d, idle);
      Cons(s, idle, Kill(t), acts);
    } else {
      var acts := SleeperReturns(d, idle, t);
      Cons(s, idle, Kill(t), acts);
    }
  }

  // ------------------------------------------------------ killing oneself

  /** A doomed caller that goes to sleep is alive again. */
  lemma SleepsItOff<T>(s: Sys<T>, idle: T) returns (acts: seq<Action<T>>)
    requires SysInv(s, idle) && Enabled(s, idle, SleepBegin(1))
    ensures Legal(Repaired, s, idle, acts) && SwitchCount(acts) > 0
    ensures Run(Repaired, s, acts).Next? && Run(Repaired, s, acts).value.core.running == s.core.running
  {
    hide SysInv, Switch;
    var r := s.core.running;
    StepKeeps(s, idle, SleepBegin(1));
    var s1 := Step(Repaired, s, SleepBegin(1)).value;
    StepKeeps(s1, idle, SleepMark);
    var s2 := Step(Repaired, s1, SleepMark).value;
    StepKeeps(s2, idle, SleepSwitch);
    GoesToSleep(s2, idle, SleepSwitch);
    var s3 := Step(Repaired, s2, SleepSwitch).value;
    hide Step, Enabled;
    var rest := SleeperReturns(s3, idle, r);
    Cons(s2, idle, SleepSwitch, rest);
    Cons(s1, idle, SleepMark, [SleepSwitch] + rest);
    Cons(s, idle, SleepBegin(1), [SleepMark] + ([SleepSwitch] + rest));
    acts := [SleepBegin(1)] + ([SleepMark] + ([SleepSwitch] + rest));
  }

  /** Up to its next switch a doomed caller stays doomed unless it writes the sleeping state. */
  lemma {:induction false} UntilSwitch<T>(s: Sys<T>, idle: T, pre: seq<Action<T>>)
    requires SysInv(s, idle) && Legal(Repaired, s, idle, pre) && SwitchCount(pre) == 0
    requires s.core.states[s.core.running] == Destroy && s.phase[s.core.running] != WroteState
    ensures var o := Run(Repaired, s, pre);
      && o.Next? && SysInv(o.value, idle) && o.value.core.running == s.core.running
      && o.value.core.states[s.core.running] == if SleepMark in pre then Sleeping else Destroy
    decreases |pre|
  {
    if pre != [] {
      StepKeeps(s, idle, pre[0]);
      var s1 := Step(Repaired, s, pre[0]).value;
      if pre[0] == SleepMark {
        assert pre[1..] == [];
      } else {
        UntilSwitch(s1, idle, pre[1..]);
        assert SleepMark in pre <==> SleepMark in pre[1..];
      }
    }
  }

  /** A task that calls sched_kill never runs again on any legal run, and is freed within as
      many switches as tasks were waiting. */
  lemma ExitDies<T>(s: Sys<T>, idle: T, acts: seq<Action<T>>)
    requires SysInv(s, idle) && Enabled(s, idle, Exit) && Legal(Repaired, s, idle, [Exit] + acts)
    ensures Step(Repaired, s, Exit).Next? && Dying(Step(Repaired, s, Exit).value.core, s.core.running, |s.core.ready|)
    ensures var o := Run(Repaired, s, [Exit] + acts);
      && o.Next? && o.value.core.running != s.core.running
      && (SwitchCount(acts) >= |s.core.ready| ==> s.core.running in o.value.core.freed)
  {
    StepKeeps(s, idle, Exit);
    SwitchedOutAt(s, idle, Exit, Destroy);
    Cons(s, idle, Exit, acts);
    KilledWhileReady(Step(Repaired, s, Exit).value, idle, acts, s.core.running, |s.core.ready|);
  }

  /** Where a task that does not sleep is after a switch: at the end of the line, in the state
      it was in, moved up as far as others were taken off. */
  lemma SwitchedOutAt<T>(s: Sys<T>, idle: T, a: Action<T>, st: TaskState)
    requires SysInv(s, idle) && Enabled(s, idle, a) && Switches(a)
    requires var r := s.core.running;
      if a.Exit? then st == Destroy
      else st == if s.core.states[r] == Running then Ready else s.core.states[r]
    requires st in {Ready, Destroy}
    ensures Step(Repaired, s, a).Next?
    ensures var r, d, m := s.core.running, Step(Repaired, s, a).value.core, |Before(s, a).core.ready|;
      && (st == Destroy ==> Dying(d, r, m))
      && (st == Ready ==> d.running == r || exists k :: 0 <= k < m && At(d, r, k, Ready))
  {
    var r := s.core.running;
    BeforeKeeps(s, idle, a);
    if a.Tick? {
      WakeEffect(s.core, idle);
    }
    var c := Before(s, a).core;
    assert c.running == r && (if c.states[r] == Running then Ready else c.states[r]) == st;
    OutAt(c, idle, st);
  }

  lemma OutAt<T>(c: Core<T>, idle: T, st: TaskState)
    requires Inv(c, idle) && c.states[c.running] in {Running, Destroy}
    requires st == if c.states[c.running] == Running then Ready else Destroy
    ensures Switch(Repaired, c).Next?
    ensures var d, r, m := Switch(Repaired, c).value, c.running, |c.ready|;
      && (st == Destroy ==> Dying(d, r, m))
      && (st == Ready ==> d.running == r || exists k :: 0 <= k < m && At(d, r, k, Ready))
  {
    hide Inv, Parked, Dispatch, Park;
    ParkKeeps(c, idle);
    ParkState(c, idle);
    ParkEffect(c, idle);
    var p, m := Park(Repaired, c).value, |c.ready|;
    assert At(p, c.running, m, st);
    DispatchAt(p, idle, c.running, m, st);
    var d, n := Dispatch(p).value, Doomed(p.ready, p.states);
    assert m > n ==> At(d, c.running, m - n - 1, st);
  }

  lemma ParkState<T>(c: Core<T>, idle: T)
    requires Inv(c, idle) && c.states[c.running] != Sleeping
    ensures Park(Repaired, c).Next? && c.running in Park(Repaired, c).value.states
    ensures Park(Repaired, c).value.states[c.running] == if c.states[c.running] == Running then Ready else Destroy
  {
  }

  /** Exactly when killing oneself works: once switched out by `a`, the caller never runs
      again on any legal run if and only if it did not write the sleeping state between
      the kill and that switch. */
  lemma SelfKillWorksIff<T>(s: Sys<T>, idle: T, pre: seq<Action<T>>, a: Action<T>)
    requires SysInv(s, idle) && Enabled(s, idle, Kill(s.core.running))
    requires Step(Repaired, s, Kill(s.core.running)).Next?
    requires Legal(Repaired, Step(Repaired, s, Kill(s.core.running)).value, idle, pre + [a])
    requires SwitchCount(pre) == 0 && Switches(a)
    ensures var d, r := Step(Repaired, s, Kill(s.core.running)).value, s.core.running;
      SleepMark !in pre <==>
        forall acts :: Legal(Repaired, d, idle, pre + [a] + acts) ==>
          Run(Repaired, d, pre + [a] + acts).Next? && Run(Repaired, d, pre + [a] + acts).value.core.running != r
  {
    var r, d := s.core.running, DoomIn(s, s.core.running);
    StepKeeps(s, idle, Kill(r));
    assert Step(Repaired, s, Kill(r)).value == d && SysInv(d, idle);
    PrefixLegal(d, idle, pre, [a]);
    UntilSwitch(d, idle, pre);
    var e := Run(Repaired, d, pre).value;
    LegalConcat(d, idle, pre, [a]);
    StepKeeps(e, idle, a);
    var f := Step(Repaired, e, a).value;
    if SleepMark !in pre {
      SwitchedOutAt(e, idle, a, Destroy);
      var left := |Before(e, a).core.ready|;
      forall acts | Legal(Repaired, d, idle, pre + [a] + acts)
        ensures Run(Repaired, d, pre + [a] + acts).Next?
        ensures Run(Repaired, d, pre + [a] + acts).value.core.running != r
      {
        Split(d, idle, pre, a, acts);
        KilledWhileReady(f, idle, acts, r, left);
      }
    } else {
      GoesToSleep(e, idle, a);
      var acts := SleeperReturns(f, idle, r);
      Split(d, idle, pre, a, acts);
    }
  }

  // -------------------------------------------------------------- conservation

  function Created<T>(acts: seq<Action<T>>): set<T> {
    if acts == [] then {} else (if acts[0].Create? then {acts[0].task} else {}) + Created(acts[1..])
  }

  /** One step frees only doomed, waiting tasks, and never the one that is executing it. */
  lemma StepFrees<T>(s: Sys<T>, idle: T, a: Action<T>, t: T)
    requires SysInv(s, idle) && Enabled(s, idle, a)
    requires Step(Repaired, s, a).Next? && t in Step(Repaired, s, a).value.core.freed && t !in s.core.freed
    ensures Switches(a) && t in Elems(s.core.ready) && s.core.states[t] == Destroy && t != s.core.running
  {
    if Switches(a) {
      BeforeKeeps(s, idle, a);
      var c := Before(s, a).core;
      if a.Tick? {
        WakeEffect(s.core, idle);
        WakePartition(s.core);
      }
      SwitchFrees(c, idle, t);
    }
  }

  lemma BeforeConserves<T>(s: Sys<T>, idle: T, a: Action<T>)
    requires SysInv(s, idle) && Enabled(s, idle, a) && Switches(a)
    ensures Before(s, a).core.freed == s.core.freed && Before(s, a).core.states.Keys == s.core.states.Keys
  {
    if a.Tick? {
      WakeEffect(s.core, idle);
    }
  }

  lemma StepConserves<T>(s: Sys<T>, idle: T, a: Action<T>)
    requires SysInv(s, idle) && Enabled(s, idle, a)
    ensures Step(Repaired, s, a).Next?
    ensures var c, d := s.core, Step(Repaired, s, a).value.core;
      && c.freed <= d.freed
      && d.states.Keys + d.freed == c.states.Keys + c.freed + if a.Create? then {a.task} else {}
  {
    if Switches(a) {
      BeforeKeeps(s, idle, a);
      BeforeConserves(s, idle, a);
      hide Step, Switch, Before, Enabled, Partition, Places;
      SwitchEffect(Before(s, a).core, idle);
    }
  }

  /** Tasks enter by creation only and leave by being freed only, once. */
  lemma {:induction false} TasksConserved<T>(s: Sys<T>, idle: T, acts: seq<Action<T>>)
    requires SysInv(s, idle) && Legal(Repaired, s, idle, acts)
    ensures Run(Repaired, s, acts).Next?
    ensures var c, d := s.core, Run(Repaired, s, acts).value.core;
      && c.freed <= d.freed && d.freed !! d.states.Keys
      && d.states.Keys + d.freed == c.states.Keys + c.freed + Created(acts)
    decreases |acts|
  {
    if acts != [] {
      StepKeeps(s, idle, acts[0]);
      StepConserves(s, idle, acts[0]);
      TasksConserved(Step(Repaired, s, acts[0]).value, idle, acts[1..]);
    }
  }
}

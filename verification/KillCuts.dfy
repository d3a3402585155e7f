/**
  kill looks its target up and then writes its state, with interrupts on
  (kernel/sched.c:381-387).  A tick between the two may free the target, so that the write
  goes to memory that has been given back.
 */
module KillCuts {
  import opened Lists
  import opened DeltaQueue
  import opened SchedCore
  import opened SchedSystem
  import opened TaskLifetimes

  /** The target as the write at line 386 finds it after the actions in between: still there,
      and then the call is one that was not cut, made now; or freed, and the write is to
      memory that is nobody's.  A sleeping or waiting target is always one or the other. */
  lemma LateWrite<T>(s: Sys<T>, idle: T, t: T, acts: seq<Action<T>>)
    requires SysInv(s, idle) && t in s.core.states && t != idle && Legal(Repaired, s, idle, acts)
    ensures var o := Run(Repaired, s, acts);
      && o.Next? && (t in o.value.core.states <==> t !in o.value.core.freed)
      && (t in o.value.core.states ==> SysInv(DoomIn(o.value, t), idle))
  {
    RunKeeps(s, idle, acts);
    TasksConserved(s, idle, acts);
    var e := Run(Repaired, s, acts).value;
    DoomKeeps(e.core, idle, t);
  }

  /** `t` is freed, or doomed and ahead of `r` in the ready queue. */
  ghost predicate Ahead<T>(c: Core<T>, t: T, r: T) {
    t in c.freed ||
    (r != c.running && r in c.states &&
     exists k, m :: 0 <= k < m && At(c, t, k, Destroy) && At(c, r, m, c.states[r]))
  }

  lemma DispatchAhead<T>(p: Core<T>, idle: T, t: T, r: T, k: nat, m: nat)
    requires Parked(p, idle) && r in p.states && k < m && At(p, t, k, Destroy) && At(p, r, m, p.states[r])
    ensures Dispatch(p).Next? && Ahead(Dispatch(p).value, t, r)
  {
    DispatchAt(p, idle, t, k, Destroy);
    DispatchAt(p, idle, r, m, p.states[r]);
    var n, d := Doomed(p.ready, p.states), Dispatch(p).value;
    if n < k {
      assert At(d, t, k - n - 1, Destroy) && At(d, r, m - n - 1, d.states[r]);
      DispatchKeeps(p, idle);
      AtReady(d, r, m - n - 1, d.states[r]);
    }
  }

  lemma SwitchAhead<T>(c: Core<T>, idle: T, t: T, r: T)
    requires Inv(c, idle) && Ahead(c, t, r)
    ensures Switch(Repaired, c).Next? && Ahead(Switch(Repaired, c).value, t, r)
  {
    SwitchEffect(c, idle);
    if t !in c.freed {
      var k, m :| 0 <= k < m && At(c, t, k, Destroy) && At(c, r, m, c.states[r]);
      ParkAt(c, idle, t, k, Destroy);
      ParkAt(c, idle, r, m, c.states[r]);
      DispatchAhead(Park(Repaired, c).value, idle, t, r, k, m);
    }
  }

  lemma StepAhead<T>(s: Sys<T>, idle: T, a: Action<T>, t: T, r: T)
    requires SysInv(s, idle) && Enabled(s, idle, a) && Ahead(s.core, t, r)
    ensures Step(Repaired, s, a).Next? && Ahead(Step(Repaired, s, a).value.core, t, r)
  {
    if Switches(a) {
      BeforeKeeps(s, idle, a);
      BeforeAhead(s, idle, a, t, r);
      SwitchAhead(Before(s, a).core, idle, t, r);
    } else if t !in s.core.freed {
      var c, d := s.core, Step(Repaired, s, a).value.core;
      var k, m :| 0 <= k < m && At(c, t, k, Destroy) && At(c, r, m, c.states[r]);
      AtReady(c, t, k, Destroy);
      AtReady(c, r, m, c.states[r]);
      assert At(d, t, k, Destroy) && At(d, r, m, d.states[r]);
    }
  }

  lemma BeforeAhead<T>(s: Sys<T>, idle: T, a: Action<T>, t: T, r: T)
    requires SysInv(s, idle) && Enabled(s, idle, a) && Ahead(s.core, t, r) && Switches(a)
    ensures Ahead(Before(s, a).core, t, r)
  {
    var c, b := s.core, Before(s, a).core;
    if a.Tick? {
      WakeEffect(c, idle);
    }
    if t !in c.freed {
      var k, m :| 0 <= k < m && At(c, t, k, Destroy) && At(c, r, m, c.states[r]);
      AtReady(c, t, k, Destroy);
      AtReady(c, r, m, c.states[r]);
      if a.Tick? {
        WakeAt(c, idle, t, k, Destroy);
        WakeAt(c, idle, r, m, c.states[r]);
      }
      assert At(b, t, k, Destroy) && At(b, r, m, b.states[r]);
    }
  }

  /** The caller is switched out behind everything in the ready queue. */
  lemma CallerBehind<T>(s: Sys<T>, idle: T, a: Action<T>, t: T, k: nat)
    requires SysInv(s, idle) && Enabled(s, idle, a) && Switches(a)
    requires s.phase[s.core.running] == Code && At(s.core, t, k, Destroy)
    ensures Step(Repaired, s, a).Next? && Ahead(Step(Repaired, s, a).value.core, t, s.core.running)
  {
    var r := s.core.running;
    BeforeKeeps(s, idle, a);
    if a.Tick? {
      WakeEffect(s.core, idle);
      WakeAt(s.core, idle, t, k, Destroy);
    }
    AtReady(s.core, t, k, Destroy);
    var c := Before(s, a).core;
    assert At(c, t, k, Destroy) && c.states[r] != Sleeping && c.running == r;
    hide Before, Step, Wake;
    ParkAt(c, idle, t, k, Destroy);
    ParkEffect(c, idle);
    var p := Park(Repaired, c).value;
    assert At(p, r, |c.ready|, p.states[r]);
    DispatchAhead(p, idle, t, r, k, |c.ready|);
  }

  /** Killing a doomed task again, cut by a tick, always writes to freed memory: whenever the
      caller runs again after a switch, on any run, its target has been freed. */
  lemma {:induction false} SecondKillDangles<T>(s: Sys<T>, idle: T, t: T, r: T, acts: seq<Action<T>>)
    requires SysInv(s, idle) && Legal(Repaired, s, idle, acts) && Ahead(s.core, t, r)
    ensures var o := Run(Repaired, s, acts);
      o.Next? && Ahead(o.value.core, t, r) && (o.value.core.running == r ==> t in o.value.core.freed)
    decreases |acts|
  {
    if acts != [] {
      StepKeeps(s, idle, acts[0]);
      StepAhead(s, idle, acts[0], t, r);
      SecondKillDangles(Step(Repaired, s, acts[0]).value, idle, t, r, acts[1..]);
    }
  }

  /** The same from the moment the target is found: `a` is the first switch after that. */
  lemma CutKillDangles<T>(s: Sys<T>, idle: T, t: T, a: Action<T>, acts: seq<Action<T>>)
    requires SysInv(s, idle) && Enabled(s, idle, Kill(t)) && Enabled(s, idle, a) && Switches(a)
    requires t in Elems(s.core.ready) && s.core.states[t] == Destroy
    requires Step(Repaired, s, a).Next? && Legal(Repaired, Step(Repaired, s, a).value, idle, acts)
    ensures var o := Run(Repaired, s, [a] + acts);
      o.Next? && (o.value.core.running == s.core.running ==> t in o.value.core.freed)
  {
    ElemsIn(s.core.ready, t);
    var k :| 0 <= k < |s.core.ready| && s.core.ready[k] == t;
    CallerBehind(s, idle, a, t, k);
    StepKeeps(s, idle, a);
    SecondKillDangles(Step(Repaired, s, a).value, idle, t, s.core.running, acts);
    Cons(s, idle, a, acts);
  }
}

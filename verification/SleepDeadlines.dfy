/**
  What sleep() promises over whole runs (kernel/sched.c:111-205, 344-359, 402-418): a task
  is asleep for exactly as many ticks as it stored in sleep_ticks, and the call does not
  return before those have passed, wherever the timer cuts into it.  How many ticks it
  stores for the time asked for is the subject of SleepCalls.dfy.
 */
module SleepDeadlines {
  import opened Words
  import opened Lists
  import opened DeltaQueue
  import opened SchedCore
  import opened SchedSystem

  // --------------------------------------------------------- the sleep deadline

  /** Going to sleep leaves every other sleeper's remaining time alone. */
  lemma AsleepRemaining<T>(c: Core<T>, idle: T, t: T)
    requires Inv(c, idle) && t in Tasks(c.sleepers)
    ensures t in Tasks(Asleep(c)) && Remaining(Asleep(c), t) == Remaining(c.sleepers, t)
  {
    if c.states[c.running] == Sleeping {
      InsertRemaining(c.sleepers, c.running, c.ticks[c.running], t);
    }
  }

  lemma StepSleeper<T>(s: Sys<T>, idle: T, a: Action<T>, t: T)
    requires SysInv(s, idle) && Enabled(s, idle, a) && t in Tasks(s.core.sleepers)
    requires !(a.Tick? && Remaining(s.core.sleepers, t) == 1)
    ensures var o := Step(Repaired, s, a);
      o.Next? && t in Tasks(o.value.core.sleepers)
      && Remaining(o.value.core.sleepers, t) == Remaining(s.core.sleepers, t) - if a.Tick? then 1 else 0
  {
    StepKeeps(s, idle, a);
    if Switches(a) {
      BeforeKeeps(s, idle, a);
      var c := Before(s, a).core;
      if a.Tick? {
        TickRefinesRemaining(s.core.sleepers);
      }
      AsleepRemaining(c, idle, t);
      SwitchEffect(c, idle);
    }
  }

  /** `t` is out of the sleep queue and may be given the processor. */
  ghost predicate Awake<T>(c: Core<T>, t: T) {
    t in c.states && (t == c.running || t in Elems(c.ready)) && c.states[t] in {Ready, Running}
  }

  lemma SwitchAwake<T>(c: Core<T>, idle: T, t: T)
    requires Inv(c, idle) && t in Elems(c.ready) && c.states[t] == Ready
    ensures Switch(Repaired, c).Next? && Awake(Switch(Repaired, c).value, t)
  {
    SwitchKeeps(c, idle);
    SwitchEffect(c, idle);
    var d := Switch(Repaired, c).value;
    if c.states[c.running] == Sleeping {
      InsertTasks(c.sleepers, c.running, c.ticks[c.running]);
    }
    if t in d.freed {
      SwitchFrees(c, idle, t);
    }
  }

  lemma StepWakes<T>(s: Sys<T>, idle: T, t: T)
    requires SysInv(s, idle) && t in Tasks(s.core.sleepers) && Remaining(s.core.sleepers, t) == 1
    ensures Step(Repaired, s, Tick).Next? && Awake(Step(Repaired, s, Tick).value.core, t)
  {
    TickRefinesRemaining(s.core.sleepers);
    WakeKeeps(s.core, idle);
    WakePartition(s.core);
    SwitchAwake(Wake(s.core), idle, t);
  }

  /** Until its deadline a sleeper stays asleep, one tick closer with every tick,
      whatever else happens. */
  lemma {:induction false} SleepsUntilDeadline<T>(s: Sys<T>, idle: T, acts: seq<Action<T>>, t: T)
    requires SysInv(s, idle) && Legal(Repaired, s, idle, acts)
    requires t in Tasks(s.core.sleepers) && Ticks(acts) < Remaining(s.core.sleepers, t)
    ensures var o := Run(Repaired, s, acts);
      o.Next? && t in Tasks(o.value.core.sleepers)
      && Remaining(o.value.core.sleepers, t) == Remaining(s.core.sleepers, t) - Ticks(acts)
    decreases |acts|
  {
    if acts != [] {
      StepKeeps(s, idle, acts[0]);
      StepSleeper(s, idle, acts[0], t);
      SleepsUntilDeadline(Step(Repaired, s, acts[0]).value, idle, acts[1..], t);
    }
  }

  lemma {:induction false} RunConcat<T>(mode: Insertion, s: Sys<T>, xs: seq<Action<T>>, ys: seq<Action<T>>)
    requires Run(mode, s, xs).Next?
    ensures Run(mode, s, xs + ys) == Run(mode, Run(mode, s, xs).value, ys)
    decreases |xs|
  {
    if xs == [] {
      assert xs + ys == ys;
    } else {
      assert (xs + ys)[0] == xs[0] && (xs + ys)[1..] == xs[1..] + ys;
      var o := Step(mode, s, xs[0]);
      RunConcat(mode, o.value, xs[1..], ys);
    }
  }

  /** A task that enters switch_task asleep for `n` ticks, by its own call or because a
      tick lands first, is put in the queue for exactly `n` ticks. */
  lemma GoesToSleep<T>(s: Sys<T>, idle: T, a: Action<T>)
    requires SysInv(s, idle) && Enabled(s, idle, a) && Switches(a)
    requires s.core.states[s.core.running] == Sleeping && !a.Exit?
    ensures var o := Step(Repaired, s, a);
      o.Next? && s.core.running in Tasks(o.value.core.sleepers)
      && Remaining(o.value.core.sleepers, s.core.running) == s.core.ticks[s.core.running]
  {
    StepKeeps(s, idle, a);
    BeforeKeeps(s, idle, a);
    if a.Tick? {
      WakeEffect(s.core, idle);
    }
    var c := Before(s, a).core;
    SwitchEffect(c, idle);
    InsertRemaining(c.sleepers, c.running, c.ticks[c.running], c.running);
  }

  /** The deadline over whole runs: asleep through the first n - 1 ticks, able to run
      right after the n-th. */
  lemma SleepDeadline<T>(s: Sys<T>, idle: T, a: Action<T>, acts: seq<Action<T>>)
    requires SysInv(s, idle) && Enabled(s, idle, a) && Switches(a) && !a.Exit?
    requires s.core.states[s.core.running] == Sleeping
    requires Step(Repaired, s, a).Next? && Legal(Repaired, Step(Repaired, s, a).value, idle, acts)
    ensures var t, n, o := s.core.running, s.core.ticks[s.core.running], Run(Repaired, s, [a] + acts);
      && o.Next?
      && (Ticks(acts) < n ==> t in Tasks(o.value.core.sleepers))
      && (Ticks(acts) == n - 1 ==>
            var o' := Run(Repaired, s, [a] + acts + [Tick]);
            o'.Next? && Awake(o'.value.core, t))
  {
    var t, n := s.core.running, s.core.ticks[s.core.running];
    StepKeeps(s, idle, a);
    GoesToSleep(s, idle, a);
    hide Step, Remaining, Inv, Enabled;
    var s1 := Step(Repaired, s, a).value;
    assert ([a] + acts)[1..] == acts;
    RunKeeps(s1, idle, acts);
    if Ticks(acts) < n {
      SleepsUntilDeadline(s1, idle, acts, t);
      if Ticks(acts) == n - 1 {
        var s2 := Run(Repaired, s1, acts).value;
        StepWakes(s2, idle, t);
        RunConcat(Repaired, s, [a] + acts, [Tick]);
        var tick: seq<Action<T>> := [Tick];
        assert tick[1..] == [];
      }
    }
  }

  // ------------------------------------- sleep does not return before the ticks stored

  /** `t` is inside sleep() and at least `m` more ticks must pass before it can return. */
  ghost predicate Owes<T>(s: Sys<T>, t: T, m: int) {
    var c := s.core;
    || m <= 0
    || t in c.freed
    || (t in c.states && t in s.phase && s.phase[t] == WroteTicks && t in c.ticks && c.ticks[t] >= m)
    || (t in Tasks(c.sleepers) && Remaining(c.sleepers, t) >= m)
    || (t == c.running && t in c.states && c.states[t] == Sleeping && t in c.ticks && c.ticks[t] >= m)
  }

  lemma StepOwes<T>(s: Sys<T>, idle: T, a: Action<T>, t: T, m: int)
    requires SysInv(s, idle) && Enabled(s, idle, a) && Owes(s, t, m)
    ensures Step(Repaired, s, a).Next? && Owes(Step(Repaired, s, a).value, t, m - if a.Tick? then 1 else 0)
  {
    StepKeeps(s, idle, a);
    var c := s.core;
    if t in Tasks(c.sleepers) {
      if !(a.Tick? && Remaining(c.sleepers, t) == 1) {
        StepSleeper(s, idle, a, t);
      }
    } else if Switches(a) {
      BeforeKeeps(s, idle, a);
      var b := Before(s, a).core;
      SwitchEffect(b, idle);
      if a.Tick? {
        WakeEffect(c, idle);
      }
      if t == c.running && c.states[t] == Sleeping {
        GoesToSleep(s, idle, a);
      }
    }
  }

  lemma {:induction false} RunOwes<T>(s: Sys<T>, idle: T, acts: seq<Action<T>>, t: T, m: int)
    requires SysInv(s, idle) && Legal(Repaired, s, idle, acts) && Owes(s, t, m)
    ensures Run(Repaired, s, acts).Next? && Owes(Run(Repaired, s, acts).value, t, m - Ticks(acts))
    decreases |acts|
  {
    if acts != [] {
      StepKeeps(s, idle, acts[0]);
      StepOwes(s, idle, acts[0], t, m);
      RunOwes(Step(Repaired, s, acts[0]).value, idle, acts[1..], t, m - if acts[0].Tick? then 1 else 0);
    }
  }

  /** Wherever the timer cuts into sleep(), it has not returned before `n` ticks. */
  lemma NoEarlyReturn<T>(s: Sys<T>, idle: T, n: Word, acts: seq<Action<T>>)
    requires SysInv(s, idle) && Legal(Repaired, s, idle, [SleepBegin(n)] + acts)
    ensures var o := Run(Repaired, s, [SleepBegin(n)] + acts); var r := s.core.running;
      o.Next? && (o.value.core.running == r && r in o.value.phase && o.value.phase[r] == Code ==> Ticks(acts) >= n)
  {
    var r := s.core.running;
    assert ([SleepBegin(n)] + acts)[1..] == acts;
    StepKeeps(s, idle, SleepBegin(n));
    var s1 := Step(Repaired, s, SleepBegin(n)).value;
    RunKeeps(s1, idle, acts);
    RunOwes(s1, idle, acts, r, n);
  }
}

/**
  The scheduler as a transition system: the running task and the timer take turns, and
  sleep() is cut into its two field writes and its switch so that a timer tick may land
  between any two of them (kernel/sched.c:344-418).  Everything proved here is about
  whole runs, that is, about every finite sequence of actions.
 */
module SchedSystem {
  import opened Words
  import opened DeltaQueue
  import opened SchedCore

  const HZ: nat := 1000

  /** The sleep_ticks value computed by sleep, in 32-bit arithmetic. */
  function SleepTicks(seconds: Word): Word {
    (HZ * seconds + 1) % WORD
  }

  /** The sleep_ticks value computed by usleep. */
  function UsleepTicks(millis: Word): Word {
    ((HZ * millis) % WORD) / 1000 + 1
  }

  /** Neither call can ask for zero ticks, however its product wraps. */
  lemma SleepTicksPositive(n: Word)
    ensures SleepTicks(n) > 0 && UsleepTicks(n) > 0
  {
    var k := (HZ * n + 1) / WORD;
    assert SleepTicks(n) == 2 * (500 * n - 0x8000_0000 * k) + 1;
  }

  const LONGEST: nat := 4294967     // the last n for which HZ * n fits 32 bits

  /** What the two calls store: a thousand ticks a second, or one a millisecond, and one more,
      as long as the product fits; otherwise what is left of it in 32 bits. */
  lemma SleepTicksExact(n: Word)
    ensures n <= 4294967 ==> SleepTicks(n) == 1000 * n + 1 && UsleepTicks(n) == n + 1
    ensures exists k: nat :: SleepTicks(n) + k * 0x1_0000_0000 == 1000 * n + 1
    ensures exists k: nat :: 1000 * UsleepTicks(n) - 1000 <= 1000 * n - k * 0x1_0000_0000 < 1000 * UsleepTicks(n)
                          && 0 <= 1000 * n - k * 0x1_0000_0000 < 0x1_0000_0000
  {
    var k: nat := (1000 * n + 1) / WORD;
    assert SleepTicks(n) + k * 0x1_0000_0000 == 1000 * n + 1;
    var j: nat := 1000 * n / WORD;
    assert (HZ * n) % WORD == 1000 * n - j * 0x1_0000_0000;
  }

  /** The time asked for is the time stored exactly for arguments whose product fits. */
  lemma SleepTicksEnoughIff(n: Word)
    ensures SleepTicks(n) >= HZ * n <==> n <= LONGEST
    ensures UsleepTicks(n) >= n <==> n <= LONGEST
  {
    if n <= LONGEST {
      assert SleepTicks(n) == HZ * n + 1;
      assert UsleepTicks(n) == n + 1;
    }
  }

  /** The first arguments that wrap: 49 days become 705 ticks, and 72 minutes one. */
  lemma SleepTicksWrap()
    ensures SleepTicks(4294968) == 705 && UsleepTicks(4294968) == 1
  {
    assert HZ * 4294968 == WORD + 704;
  }

  /** How far a task is inside sleep(); `Code` is anywhere else. */
  datatype Phase = Code | WroteTicks | WroteState

  datatype Sys<T> = Sys(core: Core<T>, phase: map<T, Phase>)

  datatype Action<T> =
    | Tick
    | Yield
    | Exit
    | Create(task: T)
    | Kill(task: T)
    | SleepBegin(ticks: Word)
    | SleepMark
    | SleepSwitch

  predicate Switches<T>(a: Action<T>) {
    a.Tick? || a.Yield? || a.Exit? || a.SleepSwitch?
  }

  ghost function Lift<T>(o: Outcome<Core<T>>, phase: map<T, Phase>): Outcome<Sys<T>> {
    match o
    case Next(c) => Next(Sys(c, phase))
    case Panic => Panic
    case Fault => Fault
  }

  ghost function Step<T>(mode: Insertion, s: Sys<T>, a: Action<T>): Outcome<Sys<T>> {
    var c := s.core;
    match a
    case Tick => Lift(Switch(mode, Wake(c)), s.phase)
    case Yield => Lift(Switch(mode, c), s.phase)
    case Exit => Lift(Switch(mode, SetState(c, Destroy)), s.phase)
    case Create(t) => Next(Sys(Spawn(c, t), s.phase[t := Code]))
    case Kill(t) => Next(s.(core := Doom(c, t)))
    case SleepBegin(n) => Next(Sys(SetTicks(c, n), s.phase[c.running := WroteTicks]))
    case SleepMark => Next(Sys(SetState(c, Sleeping), s.phase[c.running := WroteState]))
    case SleepSwitch => Lift(Switch(mode, c), s.phase[c.running := Code])
  }

  /** What the program may do next.  The timer may always tick; the rest is done by the
      running task.  The idle task never sleeps, exits or is killed; a created task is new. */
  ghost predicate Enabled<T>(s: Sys<T>, idle: T, a: Action<T>) {
    var r := s.core.running;
    r in s.phase &&
    match a
    case Tick => true
    case Yield => s.phase[r] == Code
    case Exit => s.phase[r] == Code && r != idle
    case Create(t) => s.phase[r] == Code && t !in s.core.states && t !in s.core.freed
    case Kill(t) => s.phase[r] == Code && t != idle
    case SleepBegin(n) => s.phase[r] == Code && r != idle && n > 0
    case SleepMark => s.phase[r] == WroteTicks
    case SleepSwitch => s.phase[r] == WroteState
  }

  ghost function Run<T>(mode: Insertion, s: Sys<T>, acts: seq<Action<T>>): Outcome<Sys<T>>
    decreases |acts|
  {
    if acts == [] then Next(s)
    else match Step(mode, s, acts[0])
      case Next(s') => Run(mode, s', acts[1..])
      case o => o
  }

  ghost predicate Legal<T>(mode: Insertion, s: Sys<T>, idle: T, acts: seq<Action<T>>)
    decreases |acts|
  {
    acts == [] ||
    (Enabled(s, idle, acts[0]) &&
     (Step(mode, s, acts[0]).Next? ==> Legal(mode, Step(mode, s, acts[0]).value, idle, acts[1..])))
  }

  function Ticks<T>(acts: seq<Action<T>>): nat {
    if acts == [] then 0 else (if acts[0].Tick? then 1 else 0) + Ticks(acts[1..])
  }

  function SwitchCount<T>(acts: seq<Action<T>>): nat {
    if acts == [] then 0 else (if Switches(acts[0]) then 1 else 0) + SwitchCount(acts[1..])
  }

  // ------------------------------------------------------------ the invariant

  ghost predicate SysInv<T>(s: Sys<T>, idle: T) {
    var c := s.core;
    && Inv(c, idle)
    && c.states.Keys <= s.phase.Keys
    && s.phase[idle] == Code
    && (c.states[c.running] == Sleeping ==> s.phase[c.running] == WroteState)
    && (forall t :: t in c.states && s.phase[t] == WroteTicks ==> t in c.ticks && c.ticks[t] > 0)
  }

  lemma CallKeeps<T>(s: Sys<T>, idle: T, a: Action<T>)
    requires SysInv(s, idle) && Enabled(s, idle, a) && !Switches(a)
    ensures Step(Repaired, s, a).Next? && SysInv(Step(Repaired, s, a).value, idle)
  {
    var c := s.core;
    match a
    case Create(t) => SpawnKeeps(c, idle, t);
    case Kill(t) => DoomKeeps(c, idle, t);
    case SleepBegin(n) => SetTicksKeeps(c, idle, n);
    case SleepMark => SetStateKeeps(c, idle, Sleeping);
  }

  /** The state a switching action hands to switch_task. */
  ghost function Before<T>(s: Sys<T>, a: Action<T>): Sys<T>
    requires Switches(a)
  {
    match a
    case Tick => s.(core := Wake(s.core))
    case Yield => s
    case Exit => s.(core := SetState(s.core, Destroy))
    case SleepSwitch => s.(phase := s.phase[s.core.running := Code])
  }

  lemma StepIsSwitch<T>(mode: Insertion, s: Sys<T>, a: Action<T>)
    requires Switches(a)
    ensures Step(mode, s, a) == Lift(Switch(mode, Before(s, a).core), Before(s, a).phase)
  {
  }

  /** SysInv as it holds on entry to switch_task: sleep() may already count as left. */
  ghost predicate EntryInv<T>(s: Sys<T>, idle: T) {
    var c := s.core;
    && Inv(c, idle)
    && c.states.Keys <= s.phase.Keys
    && s.phase[idle] == Code
    && (c.states[c.running] == Sleeping ==> s.phase[c.running] != WroteTicks)
    && (forall t :: t in c.states && s.phase[t] == WroteTicks ==> t in c.ticks && c.ticks[t] > 0)
  }

  lemma BeforeKeeps<T>(s: Sys<T>, idle: T, a: Action<T>)
    requires SysInv(s, idle) && Enabled(s, idle, a) && Switches(a)
    ensures EntryInv(Before(s, a), idle)
    ensures Step(Repaired, s, a) == Lift(Switch(Repaired, Before(s, a).core), Before(s, a).phase)
  {
    match a
    case Tick =>
      WakeKeeps(s.core, idle);
      WakeEffect(s.core, idle);
    case Exit => SetStateKeeps(s.core, idle, Destroy);
    case _ =>
  }

  lemma SwitchedKeeps<T>(s: Sys<T>, idle: T)
    requires EntryInv(s, idle)
    ensures Switch(Repaired, s.core).Next? && SysInv(Sys(Switch(Repaired, s.core).value, s.phase), idle)
  {
    SwitchKeeps(s.core, idle);
    SwitchEffect(s.core, idle);
    var d := Switch(Repaired, s.core).value;
    forall t | t in d.states && s.phase[t] == WroteTicks ensures t in d.ticks {
      if t in Tasks(d.sleepers) && s.core.states[s.core.running] == Sleeping {
        InsertTasks(s.core.sleepers, s.core.running, s.core.ticks[s.core.running]);
      }
    }
  }

  lemma StepKeeps<T>(s: Sys<T>, idle: T, a: Action<T>)
    requires SysInv(s, idle) && Enabled(s, idle, a)
    ensures Step(Repaired, s, a).Next? && SysInv(Step(Repaired, s, a).value, idle)
  {
    if Switches(a) {
      BeforeKeeps(s, idle, a);
      SwitchedKeeps(Before(s, a), idle);
    } else {
      CallKeeps(s, idle, a);
    }
  }

  /** No legal run panics or faults, and every state it visits is well formed. */
  lemma {:induction false} RunKeeps<T>(s: Sys<T>, idle: T, acts: seq<Action<T>>)
    requires SysInv(s, idle) && Legal(Repaired, s, idle, acts)
    ensures Run(Repaired, s, acts).Next? && SysInv(Run(Repaired, s, acts).value, idle)
    decreases |acts|
  {
    if acts != [] {
      StepKeeps(s, idle, acts[0]);
      RunKeeps(Step(Repaired, s, acts[0]).value, idle, acts[1..]);
    }
  }

  /** The state sched_init leaves: the idle task alone. */
  ghost function Boot<T>(idle: T): Sys<T> {
    Sys(Core(idle, [], [], map[idle := Running], map[idle := 0], {}), map[idle := Code])
  }

  /** Everything reachable from boot is well formed, and no panic or fault is reachable. */
  lemma ReachableSafe<T>(idle: T, acts: seq<Action<T>>)
    requires Legal(Repaired, Boot(idle), idle, acts)
    ensures Run(Repaired, Boot(idle), acts).Next? && SysInv(Run(Repaired, Boot(idle), acts).value, idle)
  {
    RunKeeps(Boot(idle), idle, acts);
  }

  // ----------------------------------------------- the insertion loop as written

  /** Can be told before the step: does it insert where the loop as written is right? */
  ghost predicate StepInDomain<T>(s: Sys<T>, a: Action<T>) {
    Switches(a) ==>
      var c := Before(s, a).core;
      c.running in c.states && c.running in c.ticks && c.states[c.running] == Sleeping ==>
        InDomain(c.sleepers, c.ticks[c.running])
  }

  lemma ParkIgnoresMode<T>(c: Core<T>)
    requires c.running in c.states && c.states[c.running] != Sleeping
    ensures Switch(AsWritten, c) == Switch(Repaired, c)
  {
  }

  /** One step of the scheduler as written equals the repaired step exactly there. */
  lemma AsWrittenStepIff<T>(s: Sys<T>, idle: T, a: Action<T>)
    requires SysInv(s, idle) && Enabled(s, idle, a)
    ensures Step(AsWritten, s, a) == Step(Repaired, s, a) <==> StepInDomain(s, a)
  {
    hide Switch, Wake, InDomain;
    if Switches(a) {
      StepIsSwitch(AsWritten, s, a);
      StepIsSwitch(Repaired, s, a);
      BeforeKeeps(s, idle, a);
      var c := Before(s, a).core;
      if c.states[c.running] == Sleeping {
        AsWrittenSwitchIff(c, idle);
      } else {
        ParkIgnoresMode(c);
      }
    }
  }

  lemma AsWrittenSwitchIff<T>(c: Core<T>, idle: T)
    requires Inv(c, idle) && c.states[c.running] == Sleeping
    ensures Switch(AsWritten, c) == Switch(Repaired, c) <==> InDomain(c.sleepers, c.ticks[c.running])
  {
    var r := c.running;
    var target := c.ticks[r];
    AsWrittenCorrectIffInDomain(c.sleepers, r, target);
    RepairedInserts(c.sleepers, r, target);
    SwitchEffect(c, idle);
    RepairedIsInsert(c.sleepers, r, target);
    var o := Enqueue(AsWritten, c.sleepers, r, target);
    if o.Some? && Switch(AsWritten, c) == Switch(Repaired, c) {
      assert Switch(AsWritten, c).value.sleepers == o.value;
    }
  }

  ghost predicate RunInDomain<T>(s: Sys<T>, acts: seq<Action<T>>)
    decreases |acts|
  {
    acts == [] ||
    (StepInDomain(s, acts[0]) &&
     (Step(Repaired, s, acts[0]).Next? ==> RunInDomain(Step(Repaired, s, acts[0]).value, acts[1..])))
  }

  /** On runs that only insert inside the domain, the scheduler as written is the repaired
      one, so every theorem about the latter is about it. */
  lemma {:induction false} AsWrittenRuns<T>(s: Sys<T>, idle: T, acts: seq<Action<T>>)
    requires SysInv(s, idle) && Legal(Repaired, s, idle, acts) && RunInDomain(s, acts)
    ensures Run(AsWritten, s, acts) == Run(Repaired, s, acts)
    decreases |acts|
  {
    if acts != [] {
      AsWrittenStepIff(s, idle, acts[0]);
      StepKeeps(s, idle, acts[0]);
      AsWrittenRuns(Step(Repaired, s, acts[0]).value, idle, acts[1..]);
    }
  }

  /** Exactly when the scheduler as written faults: the task being put to sleep is due
      before the one at the head of the sleep queue. */
  lemma AsWrittenFaultsIff<T>(s: Sys<T>, idle: T, a: Action<T>)
    requires SysInv(s, idle) && Enabled(s, idle, a) && Switches(a)
    ensures Step(AsWritten, s, a) == Fault <==>
      var c := Before(s, a).core;
      c.states[c.running] == Sleeping && c.sleepers != [] && c.ticks[c.running] < c.sleepers[0].delta
  {
    StepIsSwitch(AsWritten, s, a);
    BeforeKeeps(s, idle, a);
    var c := Before(s, a).core;
    SwitchEffect(c, idle);
    if c.states[c.running] != Sleeping {
      ParkIgnoresMode(c);
    } else {
      var q, target := c.sleepers, c.ticks[c.running];
      AsWrittenSwitchIff(c, idle);
      if !InDomain(q, target) {
        OutsideDomain(q, c.running, target);
        LateSwitch(c, idle);
      } else if q != [] {
        HitsIsGap(q, target, true);
      }
    }
  }

  /** A late insertion loses its deadline but the switch itself goes through. */
  lemma LateSwitch<T>(c: Core<T>, idle: T)
    requires Inv(c, idle) && c.states[c.running] == Sleeping
    ensures Switch(AsWritten, c).Fault? <==> Enqueue(AsWritten, c.sleepers, c.running, c.ticks[c.running]).None?
  {
  }
}

/**
  sleep(seconds) and usleep(millis) as their callers see them (kernel/sched.c:402-418):
  the ticks are the 32-bit product of the argument, and only arguments whose product fits
  are slept for in full.
 */
module SleepCalls {
  import opened Words
  import opened DeltaQueue
  import opened SchedCore
  import opened SchedSystem
  import opened SleepDeadlines
  import opened TaskLifetimes

  /** After storing `n` ticks and the actions that follow, the caller is running and out of
      the call. */
  ghost predicate Returned<T>(s: Sys<T>, n: Word, acts: seq<Action<T>>) {
    var o, r := Run(Repaired, s, [SleepBegin(n)] + acts), s.core.running;
    o.Next? && o.value.core.running == r && r in o.value.phase && o.value.phase[r] == Code
  }

  ghost predicate May<T>(s: Sys<T>, idle: T, n: Word, acts: seq<Action<T>>) {
    Legal(Repaired, s, idle, [SleepBegin(n)] + acts)
  }

  /** From every state there is a run on which the call returns at the n-th tick. */
  lemma EarliestReturn<T>(s: Sys<T>, idle: T, n: Word) returns (acts: seq<Action<T>>)
    requires SysInv(s, idle) && Enabled(s, idle, SleepBegin(n))
    ensures May(s, idle, n, acts) && Returned(s, n, acts) && Ticks(acts) == n
  {
    hide SysInv, Switch;
    var r := s.core.running;
    StepKeeps(s, idle, SleepBegin(n));
    var s1 := Step(Repaired, s, SleepBegin(n)).value;
    StepKeeps(s1, idle, SleepMark);
    var s2 := Step(Repaired, s1, SleepMark).value;
    StepKeeps(s2, idle, SleepSwitch);
    GoesToSleep(s2, idle, SleepSwitch);
    var s3 := Step(Repaired, s2, SleepSwitch).value;
    assert s3.phase[r] == Code;
    hide Step, Enabled;
    var rest := SleeperReturns(s3, idle, r);
    Cons(s2, idle, SleepSwitch, rest);
    Cons(s1, idle, SleepMark, [SleepSwitch] + rest);
    acts := [SleepMark] + ([SleepSwitch] + rest);
    Cons(s, idle, SleepBegin(n), acts);
  }

  /** The ticks stored are exactly the time the call is sure to take. */
  lemma LastsIff<T>(s: Sys<T>, idle: T, n: Word, m: nat)
    requires SysInv(s, idle) && Enabled(s, idle, SleepBegin(n))
    ensures n >= m <==> forall acts :: May(s, idle, n, acts) && Returned(s, n, acts) ==> Ticks(acts) >= m
  {
    if n >= m {
      forall acts | May(s, idle, n, acts) && Returned(s, n, acts) ensures Ticks(acts) >= m {
        NoEarlyReturn(s, idle, n, acts);
      }
    } else {
      var acts := EarliestReturn(s, idle, n);
    }
  }

  /** The running task may call sleep or usleep: it is not the idle task, and not in sleep. */
  ghost predicate MaySleep<T>(s: Sys<T>, idle: T) {
    var r := s.core.running;
    r in s.phase && s.phase[r] == Code && r != idle
  }

  /** Exactly when sleep(seconds) sleeps for the time asked for, on every run. */
  lemma SleepLastsIff<T>(s: Sys<T>, idle: T, seconds: Word)
    requires SysInv(s, idle) && MaySleep(s, idle)
    ensures seconds <= LONGEST <==>
      forall acts :: May(s, idle, SleepTicks(seconds), acts) && Returned(s, SleepTicks(seconds), acts) ==>
        Ticks(acts) >= HZ * seconds
  {
    SleepTicksPositive(seconds);
    SleepTicksEnoughIff(seconds);
    LastsIff(s, idle, SleepTicks(seconds), HZ * seconds);
  }

  /** The same for usleep(millis); at HZ = 1000 a tick is a millisecond. */
  lemma UsleepLastsIff<T>(s: Sys<T>, idle: T, millis: Word)
    requires SysInv(s, idle) && MaySleep(s, idle)
    ensures millis <= LONGEST <==>
      forall acts :: May(s, idle, UsleepTicks(millis), acts) && Returned(s, UsleepTicks(millis), acts) ==>
        Ticks(acts) >= millis
  {
    SleepTicksPositive(millis);
    SleepTicksEnoughIff(millis);
    LastsIff(s, idle, UsleepTicks(millis), millis);
  }

  /** And it need not take longer: from every state sleep(seconds) can be back one tick after
      the time asked for, and so can usleep(millis). */
  lemma SleepIsBack<T>(s: Sys<T>, idle: T, seconds: Word) returns (acts: seq<Action<T>>)
    requires SysInv(s, idle) && MaySleep(s, idle) && seconds <= 4294967
    ensures May(s, idle, SleepTicks(seconds), acts) && Returned(s, SleepTicks(seconds), acts)
    ensures Ticks(acts) == 1000 * seconds + 1
  {
    SleepTicksPositive(seconds);
    SleepTicksExact(seconds);
    acts := EarliestReturn(s, idle, SleepTicks(seconds));
  }

  lemma UsleepIsBack<T>(s: Sys<T>, idle: T, millis: Word) returns (acts: seq<Action<T>>)
    requires SysInv(s, idle) && MaySleep(s, idle) && millis <= 4294967
    ensures May(s, idle, UsleepTicks(millis), acts) && Returned(s, UsleepTicks(millis), acts)
    ensures Ticks(acts) == millis + 1
  {
    SleepTicksPositive(millis);
    SleepTicksExact(millis);
    acts := EarliestReturn(s, idle, UsleepTicks(millis));
  }

  /** A usleep of 72 minutes that is back after one tick. */
  lemma UsleepReturnsAtOnce<T>(s: Sys<T>, idle: T) returns (acts: seq<Action<T>>)
    requires SysInv(s, idle) && MaySleep(s, idle)
    ensures UsleepTicks(4294968) == 1 && May(s, idle, 1, acts) && Returned(s, 1, acts) && Ticks(acts) == 1
  {
    SleepTicksWrap();
    acts := EarliestReturn(s, idle, 1);
  }
}

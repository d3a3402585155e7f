/**
  Scheduler and heap together (kernel/sched.c:208-263, kernel/task.c:74-115): creating a
  task takes two blocks from the heap, and the pick loop of switch_task frees those of the
  tasks it destroys while other code goes on allocating and freeing.  Over every run each
  live task keeps two blocks of its own, one for its structure and one for its stack, and
  no block is lost.  All this is about blocks.  Each call of kmalloc, kmalloc_a, kfree and
  create_kernel_task is one step: that none of them is interrupted is assumed, the source
  does not see to it (HeapCuts.dfy).  That everybody writes only inside his blocks is
  assumed too, and new_task itself does not keep to it (StackTops.dfy).
 */
module KernelMemory {
  import opened Lists
  import opened Results
  import opened DeltaQueue
  import opened SchedCore
  import opened SchedSystem
  import opened Blocks
  import H = HeapRuns
  import opened TaskMemory
  import TaskLifetimes

  /** The block of the task structure, and that of the stack. */
  datatype Holding = Holding(task: Block, stack: Block)

  datatype Kernel<T> = Kernel(sys: Sys<T>, heap: H.State, owner: map<T, Holding>)

  /** A step of the scheduler, or a heap call by some other part of the kernel. */
  datatype Event<T> = Sched(action: Action<T>) | Client(op: H.Op)

  /** The tasks the pick loop frees in this step, in order. */
  ghost function Gone<T>(s: Sys<T>, a: Action<T>): seq<T> {
    if !Switches(a) || !Park(Repaired, Before(s, a).core).Next? then []
    else
      var p := Park(Repaired, Before(s, a).core).value;
      if Elems(p.ready) <= p.states.Keys then p.ready[..Doomed(p.ready, p.states)] else []
  }

  /** free_task for one task, and for several. */
  function FreeOne(h: H.State, b: Holding): H.State {
    H.Step(H.Step(h, H.Release(b.stack)), H.Release(b.task))
  }

  function FreeEach<T(==)>(h: H.State, owner: map<T, Holding>, gone: seq<T>): H.State
    decreases |gone|
  {
    if gone == [] || gone[0] !in owner then h
    else FreeEach(FreeOne(h, owner[gone[0]]), owner, gone[1..])
  }

  /** new_task, given that it succeeds. */
  function AllocOne(h: H.State): H.State {
    H.Take(H.Take(h, TASK_SIZE, false), STACK_SIZE, true)
  }

  function NewHolding(h: H.State): Holding
    requires Possible(h.blocks)
  {
    Holding(Found(h.blocks, Rounded(TASK_SIZE), false), Found(WithTask(h.blocks).1, Rounded(STACK_SIZE), true))
  }

  ghost predicate Owned<T(!new)>(owner: map<T, Holding>, b: Block) {
    exists t :: t in owner && (owner[t].task == b || owner[t].stack == b)
  }

  /** Other code frees only what is not a task's. */
  ghost predicate Allowed<T(!new)>(k: Kernel<T>, idle: T, e: Event<T>) {
    match e
    case Sched(a) => Enabled(k.sys, idle, a)
    case Client(op) => H.Legal(k.heap, op) && (op.Release? ==> !Owned(k.owner, op.block))
  }

  /** Without memory for it, creating a task changes nothing. */
  ghost function After<T(!new)>(k: Kernel<T>, e: Event<T>): Outcome<Kernel<T>> {
    match e
    case Client(op) => Next(k.(heap := H.Step(k.heap, op)))
    case Sched(a) =>
      if a.Create? && !Possible(k.heap.blocks) then Next(k)
      else
        match Step(Repaired, k.sys, a)
        case Panic => Panic
        case Fault => Fault
        case Next(sys) =>
          if a.Create? then Next(Kernel(sys, AllocOne(k.heap), k.owner[a.task := NewHolding(k.heap)]))
          else
            var gone := Gone(k.sys, a);
            Next(Kernel(sys, FreeEach(k.heap, k.owner, gone), k.owner - Elems(gone)))
  }

  ghost function KernelRun<T(!new)>(k: Kernel<T>, es: seq<Event<T>>): Outcome<Kernel<T>>
    decreases |es|
  {
    if es == [] then Next(k)
    else match After(k, es[0])
      case Next(k') => KernelRun(k', es[1..])
      case o => o
  }

  ghost predicate AllowedRun<T(!new)>(k: Kernel<T>, idle: T, es: seq<Event<T>>)
    decreases |es|
  {
    es == [] ||
    (Allowed(k, idle, es[0]) && (After(k, es[0]).Next? ==> AllowedRun(After(k, es[0]).value, idle, es[1..])))
  }

  /** Two live blocks of the right sizes, the stack on a page boundary. */
  ghost predicate Held(live: map<Block, nat>, b: Holding) {
    && b.task in live && live[b.task] == TASK_SIZE
    && b.stack in live && live[b.stack] == STACK_SIZE && (b.stack.addr + HDR) % PAGE == 0
    && b.task != b.stack
  }

  ghost predicate Separate(b: Holding, c: Holding) {
    b.task != c.task && b.stack != c.stack && b.task != c.stack && b.stack != c.task
  }

  /** Every task holds two live blocks, and no block is held twice. */
  ghost predicate Apart<T(!new)>(owner: map<T, Holding>, live: map<Block, nat>) {
    && (forall t :: t in owner ==> Held(live, owner[t]))
    && (forall t, u :: t in owner && u in owner && t != u ==> Separate(owner[t], owner[u]))
  }

  /** The live blocks that belong to no task. */
  ghost function Others<T(!new)>(owner: map<T, Holding>, live: map<Block, nat>): set<Block> {
    set b | b in live && !Owned(owner, b)
  }

  ghost predicate Inv<T(!new)>(k: Kernel<T>, idle: T, base: nat, end: nat) {
    && SysInv(k.sys, idle) && H.Inv(k.heap, base, end)
    && k.owner.Keys == k.sys.core.states.Keys
    && Apart(k.owner, k.heap.live)
  }

  // ---------------------------------------------------------------- the scheduler's side

  /** A step removes exactly the tasks it frees, which are distinct and not the one that
      executes it, and adds the created one. */
  lemma GoneFacts<T>(s: Sys<T>, idle: T, a: Action<T>)
    requires SysInv(s, idle) && Enabled(s, idle, a)
    ensures NoDup(Gone(s, a)) && Elems(Gone(s, a)) <= s.core.states.Keys && s.core.running !in Elems(Gone(s, a))
    ensures Step(Repaired, s, a).Next?
    ensures Step(Repaired, s, a).value.core.states.Keys
         == s.core.states.Keys - Elems(Gone(s, a)) + if a.Create? then {a.task} else {}
  {
    if Switches(a) {
      SwitchingGone(s, idle, a);
    } else {
      CallGone(s, idle, a);
    }
  }

  lemma CallGone<T>(s: Sys<T>, idle: T, a: Action<T>)
    requires SysInv(s, idle) && Enabled(s, idle, a) && !Switches(a)
    ensures Gone(s, a) == [] && Step(Repaired, s, a).Next?
    ensures Step(Repaired, s, a).value.core.states.Keys == s.core.states.Keys + if a.Create? then {a.task} else {}
  {
  }

  lemma SwitchingGone<T>(s: Sys<T>, idle: T, a: Action<T>)
    requires SysInv(s, idle) && Enabled(s, idle, a) && Switches(a)
    ensures NoDup(Gone(s, a)) && Elems(Gone(s, a)) <= s.core.states.Keys && s.core.running !in Elems(Gone(s, a))
    ensures Step(Repaired, s, a).Next?
    ensures Step(Repaired, s, a).value.core.states.Keys == s.core.states.Keys - Elems(Gone(s, a))
  {
    BeforeKeeps(s, idle, a);
    TaskLifetimes.BeforeConserves(s, idle, a);
    assert Before(s, a).core.running == s.core.running;
    hide Step, Before, Park, Switch, SchedCore.Inv;
    SwitchGone(Before(s, a).core, idle);
  }

  lemma SwitchGone<T>(c: Core<T>, idle: T)
    requires SchedCore.Inv(c, idle)
    ensures Park(Repaired, c).Next? && var p := Park(Repaired, c).value;
      && Elems(p.ready) <= p.states.Keys && p.states.Keys == c.states.Keys
      && var gone := p.ready[..Doomed(p.ready, p.states)];
      && NoDup(gone) && Elems(gone) <= c.states.Keys && c.running !in Elems(gone)
      && Switch(Repaired, c).Next? && Switch(Repaired, c).value.states.Keys == c.states.Keys - Elems(gone)
  {
    ParkKeeps(c, idle);
    ParkEffect(c, idle);
    var p := Park(Repaired, c).value;
    var n := Doomed(p.ready, p.states);
    DoomedBefore(p.ready, p.states, idle);
    SplitAt(p.ready, n);
    if c.running in Elems(p.ready[..n]) {
      SwitchFrees(c, idle, c.running);
    }
  }

  // ------------------------------------------------------------------------- ownership

  lemma ApartLess<T(!new)>(owner: map<T, Holding>, live: map<Block, nat>, t: T)
    requires Apart(owner, live) && t in owner
    ensures Held(live, owner[t])
    ensures var live' := live - {owner[t].stack} - {owner[t].task};
      Apart(owner - {t}, live') && Others(owner - {t}, live') == Others(owner, live)
  {
    var live' := live - {owner[t].stack} - {owner[t].task};
    forall u | u in owner - {t} ensures Held(live', owner[u]) {
      assert Separate(owner[u], owner[t]);
    }
    forall b | b in live ensures b in Others(owner - {t}, live') <==> b in Others(owner, live) {
      if Owned(owner, b) {
        var u :| u in owner && (owner[u].task == b || owner[u].stack == b);
        assert u != t ==> u in owner - {t};
      }
    }
  }

  lemma ApartMore<T(!new)>(owner: map<T, Holding>, live: map<Block, nat>, t: T, b: Holding)
    requires Apart(owner, live) && t !in owner
    requires b.task !in live && b.stack !in live && b.task != b.stack && (b.stack.addr + HDR) % PAGE == 0
    ensures var live' := live[b.task := TASK_SIZE][b.stack := STACK_SIZE];
      Apart(owner[t := b], live') && Others(owner[t := b], live') == Others(owner, live)
  {
    var live' := live[b.task := TASK_SIZE][b.stack := STACK_SIZE];
    hide Others, Owned;
    forall u | u in owner ensures Held(live', owner[u]) && Separate(owner[u], b) && Separate(b, owner[u]) {
      assert Held(live, owner[u]);
    }
    OthersMore(owner, live, t, b);
  }

  lemma OthersMore<T(!new)>(owner: map<T, Holding>, live: map<Block, nat>, t: T, b: Holding)
    requires t !in owner && b.task !in live && b.stack !in live
    ensures Others(owner[t := b], live[b.task := TASK_SIZE][b.stack := STACK_SIZE]) == Others(owner, live)
  {
    var live' := live[b.task := TASK_SIZE][b.stack := STACK_SIZE];
    forall c | c in live' ensures c in Others(owner[t := b], live') <==> c in Others(owner, live) {
      if c == b.task || c == b.stack {
        assert t in owner[t := b];
      } else if Owned(owner, c) {
        var u :| u in owner && (owner[u].task == c || owner[u].stack == c);
        assert u in owner[t := b];
      }
    }
  }

  // ---------------------------------------------------------------------- the heap's side

  lemma FreeOneKeeps(h: H.State, base: nat, end: nat, b: Holding)
    requires H.Inv(h, base, end) && Held(h.live, b)
    ensures H.Inv(FreeOne(h, b), base, end) && FreeOne(h, b).live == h.live - {b.stack} - {b.task}
    ensures FreeOne(h, b).blocks == Free(Free(h.blocks, b.stack.addr), b.task.addr)
  {
    hide H.Inv;
    H.ReleaseKeeps(h, base, end, b.stack);
    H.ReleaseKeeps(H.Step(h, H.Release(b.stack)), base, end, b.task);
  }

  lemma {:induction false} FreeEachKeeps<T(!new)>(
    h: H.State, base: nat, end: nat, owner: map<T, Holding>, left: map<T, Holding>, gone: seq<T>)
    requires H.Inv(h, base, end) && Apart(left, h.live)
    requires NoDup(gone) && Elems(gone) <= left.Keys <= owner.Keys && forall t :: t in left ==> left[t] == owner[t]
    ensures var r := FreeEach(h, owner, gone);
      && H.Inv(r, base, end) && Apart(left - Elems(gone), r.live)
      && Others(left - Elems(gone), r.live) == Others(left, h.live)
    decreases |gone|
  {
    hide H.Inv, FreeOne, Apart, Others, Held;
    if gone == [] {
      assert left - Elems(gone) == left;
    } else {
      var t := gone[0];
      assert t in left;
      var h1, rest := FreeOne(h, owner[t]), left - {t};
      ApartLess(left, h.live, t);
      FreeOneKeeps(h, base, end, owner[t]);
      FreeEachKeeps(h1, base, end, owner, rest, gone[1..]);
      assert rest - Elems(gone[1..]) == left - Elems(gone);
    }
  }

  /** new_task: the heap of the model, and two blocks that were not live before. */
  lemma AllocOneKeeps(h: H.State, base: nat, end: nat)
    requires H.Inv(h, base, end) && Possible(h.blocks)
    ensures H.Inv(AllocOne(h), base, end) && AllocOne(h).blocks == WithStack(h.blocks).1
    ensures var b := NewHolding(h);
      && AllocOne(h).live == h.live[b.task := TASK_SIZE][b.stack := STACK_SIZE]
      && b.task !in h.live && b.stack !in h.live && b.task != b.stack && (b.stack.addr + HDR) % PAGE == 0
  {
    H.TakeKeeps(h, base, end, TASK_SIZE, false);
    AllocUsed(h.blocks, base, end, Rounded(TASK_SIZE), false);
    var h1 := H.Take(h, TASK_SIZE, false);
    H.TakeKeeps(h1, base, end, STACK_SIZE, true);
    AllocUsed(h1.blocks, base, end, Rounded(STACK_SIZE), true);
  }

  lemma ClientKeeps<T(!new)>(k: Kernel<T>, idle: T, base: nat, end: nat, op: H.Op)
    requires Inv(k, idle, base, end) && Allowed(k, idle, Client(op))
    ensures H.Inv(H.Step(k.heap, op), base, end) && Apart(k.owner, H.Step(k.heap, op).live)
  {
    H.StepKeeps(k.heap, base, end, op);
    var live := H.Step(k.heap, op).live;
    forall t | t in k.owner ensures Held(live, k.owner[t]) {
      assert op.Release? ==> op.block != k.owner[t].task && op.block != k.owner[t].stack;
      H.LiveStays(k.heap, base, end, op, k.owner[t].task);
      H.LiveStays(k.heap, base, end, op, k.owner[t].stack);
    }
  }

  // --------------------------------------------------------------------------- together

  lemma CreateAdds<T>(s: Sys<T>, idle: T, a: Action<T>)
    requires SysInv(s, idle) && Enabled(s, idle, a) && a.Create?
    ensures Step(Repaired, s, a).Next? && SysInv(Step(Repaired, s, a).value, idle)
    ensures a.task !in s.core.states
    ensures Step(Repaired, s, a).value.core.states.Keys == s.core.states.Keys + {a.task}
  {
    StepKeeps(s, idle, a);
    CallGone(s, idle, a);
  }

  lemma CreateKeeps<T(!new)>(k: Kernel<T>, idle: T, base: nat, end: nat, a: Action<T>)
    requires Inv(k, idle, base, end) && Enabled(k.sys, idle, a) && a.Create? && Possible(k.heap.blocks)
    ensures After(k, Sched(a)).Next? && Inv(After(k, Sched(a)).value, idle, base, end)
    ensures var k' := After(k, Sched(a)).value;
      Others(k'.owner, k'.heap.live) == Others(k.owner, k.heap.live)
  {
    hide SysInv, Step, Gone, Enabled, H.Inv, Possible, AllocOne, NewHolding, Apart, Others;
    CreateAdds(k.sys, idle, a);
    AllocOneKeeps(k.heap, base, end);
    ApartMore(k.owner, k.heap.live, a.task, NewHolding(k.heap));
  }

  lemma OtherKeeps<T(!new)>(k: Kernel<T>, idle: T, base: nat, end: nat, a: Action<T>)
    requires Inv(k, idle, base, end) && Enabled(k.sys, idle, a) && !a.Create?
    ensures After(k, Sched(a)).Next? && Inv(After(k, Sched(a)).value, idle, base, end)
    ensures var k' := After(k, Sched(a)).value;
      Others(k'.owner, k'.heap.live) == Others(k.owner, k.heap.live)
  {
    hide SysInv, Step, Gone, H.Inv, Enabled, Apart, Others;
    StepKeeps(k.sys, idle, a);
    GoneFacts(k.sys, idle, a);
    FreeEachKeeps(k.heap, base, end, k.owner, k.owner, Gone(k.sys, a));
  }

  /** No scheduler step leaks or takes a block: what belongs to no task stays as it is. */
  lemma SchedKeeps<T(!new)>(k: Kernel<T>, idle: T, base: nat, end: nat, a: Action<T>)
    requires Inv(k, idle, base, end) && Allowed(k, idle, Sched(a))
    ensures After(k, Sched(a)).Next? && Inv(After(k, Sched(a)).value, idle, base, end)
    ensures var k' := After(k, Sched(a)).value;
      Others(k'.owner, k'.heap.live) == Others(k.owner, k.heap.live)
  {
    if !a.Create? {
      OtherKeeps(k, idle, base, end, a);
    } else if Possible(k.heap.blocks) {
      CreateKeeps(k, idle, base, end, a);
    }
  }

  lemma AfterKeeps<T(!new)>(k: Kernel<T>, idle: T, base: nat, end: nat, e: Event<T>)
    requires Inv(k, idle, base, end) && Allowed(k, idle, e)
    ensures After(k, e).Next? && Inv(After(k, e).value, idle, base, end)
  {
    match e
    case Client(op) => ClientKeeps(k, idle, base, end, op);
    case Sched(a) => SchedKeeps(k, idle, base, end, a);
  }

  /** Over every run of scheduler steps and heap calls nothing panics or faults, the blocks
      stay well formed, and every live task keeps two of its own. */
  lemma {:induction false} KernelSafe<T(!new)>(k: Kernel<T>, idle: T, base: nat, end: nat, es: seq<Event<T>>)
    requires Inv(k, idle, base, end) && AllowedRun(k, idle, es)
    ensures KernelRun(k, es).Next? && Inv(KernelRun(k, es).value, idle, base, end)
    decreases |es|
  {
    if es != [] {
      AfterKeeps(k, idle, base, end, es[0]);
      KernelSafe(After(k, es[0]).value, idle, base, end, es[1..]);
    }
  }

  /** The kernel that sched_init leaves, if there is memory for the idle task. */
  ghost function Booted<T>(h: H.State, idle: T): Kernel<T>
    requires Possible(h.blocks)
  {
    Kernel(Boot(idle), AllocOne(h), map[idle := NewHolding(h)])
  }

  lemma BootInv<T>(idle: T)
    ensures SysInv(Boot(idle), idle) && Boot(idle).core.states.Keys == {idle}
  {
  }

  lemma NoneApart<T(!new)>(owner: map<T, Holding>, live: map<Block, nat>)
    requires owner == map[]
    ensures Apart(owner, live) && Others(owner, live) == live.Keys
  {
  }

  /** From any heap in use, sched_init establishes the invariant. */
  lemma BootedInv<T(!new)>(h: H.State, idle: T, base: nat, end: nat)
    requires H.Inv(h, base, end) && Possible(h.blocks)
    ensures Inv(Booted(h, idle), idle, base, end)
    ensures Others(Booted(h, idle).owner, Booted(h, idle).heap.live) == h.live.Keys
  {
    hide SysInv, H.Inv, Possible, AllocOne, NewHolding, Apart, Others;
    BootInv(idle);
    AllocOneKeeps(h, base, end);
    var none: map<T, Holding> := map[];
    NoneApart(none, h.live);
    ApartMore(none, h.live, idle, NewHolding(h));
    assert none[idle := NewHolding(h)] == map[idle := NewHolding(h)];
  }

  ghost predicate OnlySched<T(!new)>(es: seq<Event<T>>) {
    es == [] || (es[0].Sched? && OnlySched(es[1..]))
  }

  /** No leak: creating and destroying tasks, however often, leaves live exactly the two
      blocks of every task still there and what was live before. */
  lemma {:induction false} NoLeak<T(!new)>(k: Kernel<T>, idle: T, base: nat, end: nat, es: seq<Event<T>>)
    requires Inv(k, idle, base, end) && AllowedRun(k, idle, es) && OnlySched(es)
    ensures KernelRun(k, es).Next?
    ensures var k' := KernelRun(k, es).value;
      Others(k'.owner, k'.heap.live) == Others(k.owner, k.heap.live)
    decreases |es|
  {
    if es != [] {
      SchedKeeps(k, idle, base, end, es[0].action);
      NoLeak(After(k, es[0]).value, idle, base, end, es[1..]);
    }
  }

  lemma OwnersStayStep<T(!new)>(k: Kernel<T>, idle: T, base: nat, end: nat, e: Event<T>, t: T)
    requires Inv(k, idle, base, end) && Allowed(k, idle, e) && After(k, e).Next?
    requires t in k.owner || t in k.sys.core.freed
    ensures var k' := After(k, e).value;
      && (t in k.sys.core.freed ==> t in k'.sys.core.freed)
      && (t in k.owner && t in k'.owner ==> k'.owner[t] == k.owner[t])
      && (t in k'.owner || t in k'.sys.core.freed)
  {
    if e.Sched? {
      StepKeeps(k.sys, idle, e.action);
      TaskLifetimes.StepConserves(k.sys, idle, e.action);
      GoneFacts(k.sys, idle, e.action);
      hide Step, Gone, SysInv, H.Inv, Apart;
    }
  }

  /** A task keeps the same two blocks as long as it lives; one that is freed stays so. */
  lemma {:induction false} OwnersStay<T(!new)>(k: Kernel<T>, idle: T, base: nat, end: nat, es: seq<Event<T>>, t: T)
    requires Inv(k, idle, base, end) && AllowedRun(k, idle, es) && KernelRun(k, es).Next?
    requires t in k.owner || t in k.sys.core.freed
    ensures var k' := KernelRun(k, es).value;
      && (t in k.sys.core.freed ==> t in k'.sys.core.freed && t !in k'.owner)
      && (t in k.owner && t in k'.owner ==> k'.owner[t] == k.owner[t])
    decreases |es|
  {
    if es != [] {
      AfterKeeps(k, idle, base, end, es[0]);
      OwnersStayStep(k, idle, base, end, es[0], t);
      OwnersStay(After(k, es[0]).value, idle, base, end, es[1..], t);
    }
  }

  /** Whenever a run of the scheduler comes back to the tasks it started from, the heap is
      block by block what it was, whatever was created, killed and freed between. */
  lemma HeapRestored<T(!new)>(k: Kernel<T>, idle: T, base: nat, end: nat, es: seq<Event<T>>)
    requires Inv(k, idle, base, end) && AllowedRun(k, idle, es) && OnlySched(es)
    requires KernelRun(k, es).Next? && KernelRun(k, es).value.owner.Keys == k.owner.Keys
    ensures KernelRun(k, es).value.heap.blocks == k.heap.blocks
  {
    KernelSafe(k, idle, base, end, es);
    NoLeak(k, idle, base, end, es);
    var k' := KernelRun(k, es).value;
    forall t | t in k.owner ensures k'.owner[t] == k.owner[t] {
      OwnersStay(k, idle, base, end, es, t);
    }
    assert k'.owner == k.owner;
    SameLive(k.owner, k.heap.live, k'.heap.live);
    H.UsedDetermines(k.heap.blocks, k'.heap.blocks, base, end);
  }

  lemma SameLive<T(!new)>(owner: map<T, Holding>, live: map<Block, nat>, live': map<Block, nat>)
    requires Apart(owner, live) && Apart(owner, live') && Others(owner, live) == Others(owner, live')
    ensures live.Keys == live'.Keys
  {
    forall b ensures b in live <==> b in live' {
      if Owned(owner, b) {
        var t :| t in owner && (owner[t].task == b || owner[t].stack == b);
        assert Held(live, owner[t]) && Held(live', owner[t]);
      } else {
        assert b in Others(owner, live) <==> b in live;
        assert b in Others(owner, live') <==> b in live';
      }
    }
  }

  /** The task that executes a step has its blocks throughout: neither is freed, and the one
      allocated for its stack overlaps no block of another task.  What it really runs on lies
      behind that block (StackTops.dfy). */
  lemma StackSafe<T(!new)>(k: Kernel<T>, idle: T, base: nat, end: nat, a: Action<T>, u: T)
    requires Inv(k, idle, base, end) && Allowed(k, idle, Sched(a))
    requires u in k.owner && u != k.sys.core.running
    ensures k.sys.core.running in k.owner && After(k, Sched(a)).Next?
    ensures var r, k' := k.sys.core.running, After(k, Sched(a)).value;
      r in k'.owner && k'.owner[r] == k.owner[r] && Held(k'.heap.live, k'.owner[r])
    ensures var s, b := k.owner[k.sys.core.running].stack, k.owner[u];
      Disjoint(s, b.stack) && Disjoint(s, b.task)
  {
    GoneFacts(k.sys, idle, a);
    SchedKeeps(k, idle, base, end, a);
    var r := k.sys.core.running;
    assert Separate(k.owner[r], k.owner[u]);
    hide Gone, Step, FreeEach, AllocOne;
    LiveApart(k.heap, base, end, k.owner[r].stack, k.owner[u].stack);
    LiveApart(k.heap, base, end, k.owner[r].stack, k.owner[u].task);
  }

  /** Header and data of one block before those of the other. */
  predicate Disjoint(b: Block, c: Block) {
    b.addr + b.size <= c.addr || c.addr + c.size <= b.addr
  }

  lemma LiveApart(h: H.State, base: nat, end: nat, b: Block, c: Block)
    requires H.Inv(h, base, end) && b in h.live && c in h.live && b != c
    ensures Disjoint(b, c)
  {
    var i := Position(h.blocks, b);
    var j := Position(h.blocks, c);
    H.BlocksApart(h.blocks, base, end, i, j);
  }

  // ----------------------------------------------------- the aligned search as written

  /** One heap call with the aligned search as written; None if it never ends. */
  function HeapAsWritten(h: H.State, op: H.Op): Option<H.State> {
    if op.MallocAligned? && op.size > 0 then
      match H.AllocAsWritten(h.blocks, Rounded(op.size))
      case None => None
      case Some((p, bs)) => Some(if p == 0 then h else H.State(bs, h.live[BlockAt(bs, p - HDR) := op.size]))
    else Some(H.Step(h, op))
  }

  /** new_task with it: the heap, and the two blocks if both allocations succeed. */
  function NewAsWritten(h: H.State): Option<(H.State, Option<Holding>)> {
    var (p, one) := WithTask(h.blocks);
    if p < HDR then Some((h, None))
    else
      match H.AllocAsWritten(one, Rounded(STACK_SIZE))
      case None => None
      case Some((q, two)) =>
        if q == 0 then Some((H.State(Free(one, p - HDR), h.live), None))
        else
          var b := Holding(BlockAt(one, p - HDR), BlockAt(two, q - HDR));
          Some((H.State(two, h.live[b.task := TASK_SIZE][b.stack := STACK_SIZE]), Some(b)))
  }

  /** An event with it. */
  ghost function AfterAsWritten<T(!new)>(k: Kernel<T>, e: Event<T>): Option<Outcome<Kernel<T>>> {
    match e
    case Client(op) =>
      (match HeapAsWritten(k.heap, op)
       case None => None
       case Some(h) => Some(Next(k.(heap := h))))
    case Sched(a) =>
      if !a.Create? then Some(After(k, e))
      else
        match NewAsWritten(k.heap)
        case None => None
        case Some((h, None)) => Some(Next(k.(heap := h)))
        case Some((h, Some(b))) =>
          match Step(Repaired, k.sys, a)
          case Next(sys) => Some(Next(Kernel(sys, h, k.owner[a.task := b])))
          case Panic => Some(Panic)
          case Fault => Some(Fault)
  }

  /** Can be told before the event: the aligned search it makes, if any, comes to an end. */
  ghost predicate EventEnds<T(!new)>(k: Kernel<T>, e: Event<T>) {
    match e
    case Client(op) => op.MallocAligned? && op.size > 0 ==> H.Ends(k.heap.blocks, Rounded(op.size))
    case Sched(a) =>
      a.Create? && WithTask(k.heap.blocks).0 != 0 ==> H.Ends(WithTask(k.heap.blocks).1, Rounded(STACK_SIZE))
  }

  /** The block behind the pointer is the one the allocator took. */
  lemma PointsTo(bs: Heap, base: nat, end: nat, need: nat, align: bool)
    requires Tiles(bs, base, end) && Alloc(bs, need, align).0 != 0
    ensures var (p, r) := Alloc(bs, need, align);
      p >= HDR && BlockAt(r, p - HDR) == Found(bs, need, align)
  {
    hide Tiles, BlockAt, Used;
    AllocUsed(bs, base, end, need, align);
    AllocKeeps(bs, base, end, need, align);
    BlockAtUsed(Alloc(bs, need, align).1, base, end, Found(bs, need, align));
  }

  lemma HeapAsWrittenIff(h: H.State, base: nat, end: nat, op: H.Op)
    requires H.Inv(h, base, end)
    ensures HeapAsWritten(h, op) ==
      if op.MallocAligned? && op.size > 0 && !H.Ends(h.blocks, Rounded(op.size)) then None else Some(H.Step(h, op))
  {
    if op.MallocAligned? && op.size > 0 {
      var need := Rounded(op.size);
      H.AllocAsWrittenIff(h.blocks, need);
      if Alloc(h.blocks, need, true).0 != 0 {
        PointsTo(h.blocks, base, end, need, true);
      }
    }
  }

  lemma NewAsWrittenIff(h: H.State, base: nat, end: nat)
    requires H.Inv(h, base, end)
    ensures WithTask(h.blocks).0 != 0 && !H.Ends(WithTask(h.blocks).1, Rounded(STACK_SIZE)) ==> NewAsWritten(h).None?
    ensures WithTask(h.blocks).0 == 0 || H.Ends(WithTask(h.blocks).1, Rounded(STACK_SIZE)) ==>
      NewAsWritten(h) ==
        if Possible(h.blocks) then Some((AllocOne(h), Some(NewHolding(h)))) else Some((h, None))
  {
    hide Tiles, Coalesced, Used, Found, Free, BlockAt, H.Ends;
    var (p, one) := WithTask(h.blocks);
    if p != 0 {
      PointsTo(h.blocks, base, end, Rounded(TASK_SIZE), false);
      AllocKeeps(h.blocks, base, end, Rounded(TASK_SIZE), false);
      H.AllocAsWrittenIff(one, Rounded(STACK_SIZE));
      FreeUndoesAlloc(h.blocks, base, end, Rounded(TASK_SIZE), false);
      if WithStack(h.blocks).0 != 0 {
        PointsTo(one, base, end, Rounded(STACK_SIZE), true);
      }
    }
  }

  /** One event of the kernel with the search as written: the same if its search ends. */
  lemma AfterAsWrittenIff<T(!new)>(k: Kernel<T>, idle: T, base: nat, end: nat, e: Event<T>)
    requires Inv(k, idle, base, end) && Allowed(k, idle, e)
    ensures AfterAsWritten(k, e) == if EventEnds(k, e) then Some(After(k, e)) else None
  {
    match e
    case Client(op) => HeapAsWrittenIff(k.heap, base, end, op);
    case Sched(a) =>
      if a.Create? {
        NewAsWrittenIff(k.heap, base, end);
        CreateAdds(k.sys, idle, a);
      }
  }

  ghost function KernelRunAsWritten<T(!new)>(k: Kernel<T>, es: seq<Event<T>>): Option<Outcome<Kernel<T>>>
    decreases |es|
  {
    if es == [] then Some(Next(k))
    else match AfterAsWritten(k, es[0])
      case None => None
      case Some(Next(k')) => KernelRunAsWritten(k', es[1..])
      case o => o
  }

  ghost predicate RunEnds<T(!new)>(k: Kernel<T>, es: seq<Event<T>>)
    decreases |es|
  {
    es == [] || (EventEnds(k, es[0]) && (After(k, es[0]).Next? ==> RunEnds(After(k, es[0]).value, es[1..])))
  }

  /** The kernel with the aligned search as written gets through a run if and only if every
      aligned search on it, for a stack or for other code, ends; then it is the same run. */
  lemma {:induction false} KernelAsWrittenIff<T(!new)>(k: Kernel<T>, idle: T, base: nat, end: nat, es: seq<Event<T>>)
    requires Inv(k, idle, base, end) && AllowedRun(k, idle, es)
    ensures KernelRunAsWritten(k, es) == if RunEnds(k, es) then Some(KernelRun(k, es)) else None
    decreases |es|
  {
    if es != [] {
      hide Inv, Allowed, EventEnds, AfterAsWritten, After;
      AfterAsWrittenIff(k, idle, base, end, es[0]);
      AfterKeeps(k, idle, base, end, es[0]);
      KernelAsWrittenIff(After(k, es[0]).value, idle, base, end, es[1..]);
    }
  }
}

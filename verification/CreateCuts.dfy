/**
  create_kernel_task calls enqueue_ready_task with interrupts on (kernel/sched.c:69-82,
  361-379), so a timer tick may land between its statements.  Here the ready queue is
  modelled down to its links, the call is cut into its test and its two writes, and it is
  said exactly which cuts lose tasks.
 */
module CreateCuts {
  import opened Lists
  import opened Results
  import opened DeltaQueue
  import opened SchedCore
  import opened SchedSystem

  /** The head and tail pointers and the next_task fields; None is the null pointer. */
  datatype Links<T> = Links(head: Option<T>, tail: Option<T>, next: map<T, Option<T>>)

  function Follow<T>(next: map<T, Option<T>>, t: T): Option<T> {
    if t in next then next[t] else None
  }

  /** From `from` on, the links lead through exactly the tasks of `q`, to null. */
  predicate Chain<T(==)>(next: map<T, Option<T>>, from: Option<T>, q: seq<T>)
    decreases |q|
  {
    if q == [] then from == None else from == Some(q[0]) && Chain(next, Follow(next, q[0]), q[1..])
  }

  /** Head and tail thread exactly the tasks of `q`. */
  predicate Threads<T(==)>(l: Links<T>, q: seq<T>) {
    && NoDup(q) && Chain(l.next, l.head, q)
    && l.tail == if q == [] then None else Some(q[|q| - 1])
  }

  // -------------------------------------------------------------- the statements

  /** Line 71. */
  predicate Empty<T(==)>(l: Links<T>) {
    l.head == None && l.tail == None
  }

  /** Line 73 or 79, as the test came out; None is a write through a null pointer. */
  function FirstWrite<T>(l: Links<T>, empty: bool, t: T): Option<Links<T>> {
    if empty then Some(l.(head := Some(t)))
    else match l.tail
      case None => None
      case Some(z) => Some(l.(next := l.next[z := Some(t)]))
  }

  /** Line 74 or 80. */
  function SecondWrite<T>(l: Links<T>, t: T): Links<T> {
    l.(tail := Some(t))
  }

  /** Both writes, with nothing between them. */
  function Append<T>(l: Links<T>, empty: bool, t: T): Option<Links<T>> {
    match FirstWrite(l, empty, t)
    case None => None
    case Some(m) => Some(SecondWrite(m, t))
  }

  /** enqueue_ready_task of a task whose link is null, as get_next_ready_task,
      dequeue_sleep_task and new_task leave it. */
  function Add<T(==)>(l: Links<T>, t: T): Option<Links<T>> {
    Append(l.(next := l.next[t := None]), Empty(l), t)
  }

  /** get_next_ready_task, lines 85-106. */
  function Take<T(==)>(l: Links<T>): Outcome<(T, Links<T>)> {
    match l.head
    case None => Panic
    case Some(t) =>
      var m := if l.head == l.tail then l.(head := None, tail := None) else l.(head := Follow(l.next, t));
      Next((t, m.(next := m.next[t := None])))
  }

  /** What the scheduler does to the ready queue while a call of create_kernel_task waits. */
  datatype Op<T> = Enqueue(task: T) | Pick

  /** The links afterwards, and the tasks picked, in order. */
  function Perform<T(==)>(l: Links<T>, ops: seq<Op<T>>): Outcome<(Links<T>, seq<T>)>
    decreases |ops|
  {
    if ops == [] then Next((l, []))
    else match ops[0]
      case Enqueue(x) =>
        (match Add(l, x)
         case None => Fault
         case Some(m) => Perform(m, ops[1..]))
      case Pick =>
        match Take(l)
        case Next((t, m)) =>
          (match Perform(m, ops[1..])
           case Next((n, picked)) => Next((n, [t] + picked))
           case o => o)
        case Panic => Panic
        case Fault => Fault
  }

  function Picks<T>(ops: seq<Op<T>>): nat {
    if ops == [] then 0 else (if ops[0].Pick? then 1 else 0) + Picks(ops[1..])
  }

  /** Only tasks that are not in the queue are enqueued. */
  predicate Sensible<T(==)>(q: seq<T>, ops: seq<Op<T>>)
    decreases |ops|
  {
    ops == [] ||
    match ops[0]
    case Enqueue(x) => x !in Elems(q) && Sensible(q + [x], ops[1..])
    case Pick => Sensible(if q == [] then [] else q[1..], ops[1..])
  }

  // ------------------------------------------------------------ without interruption

  /** A write to a link outside the chain does not touch it. */
  lemma {:induction false} ChainFrame<T>(next: map<T, Option<T>>, from: Option<T>, q: seq<T>, z: T, to: Option<T>)
    requires Chain(next, from, q) && z !in Elems(q)
    ensures Chain(next[z := to], from, q)
    decreases |q|
  {
    if q != [] {
      ChainFrame(next, Follow(next, q[0]), q[1..], z, to);
    }
  }

  /** The last link of a chain redirected to one more task. */
  lemma {:induction false} ChainLast<T>(next: map<T, Option<T>>, from: Option<T>, q: seq<T>, t: T)
    requires Chain(next, from, q) && q != [] && NoDup(q) && t !in Elems(q) && Follow(next, t) == None
    ensures Chain(next[q[|q| - 1] := Some(t)], from, q + [t])
    decreases |q|
  {
    var z := q[|q| - 1];
    var next' := next[z := Some(t)];
    ElemsIn(q, z);
    assert (q + [t])[0] == q[0] && (q + [t])[1..] == q[1..] + [t];
    if |q| == 1 {
      assert q[1..] + [t] == [t] && [t][1..] == [];
      assert Chain(next', Some(t), [t]);
    } else {
      ElemsIn(q[1..], z);
      ChainLast(next, Follow(next, q[0]), q[1..], t);
    }
  }

  /** Uninterrupted, the call appends the task. */
  lemma AddThreads<T>(l: Links<T>, q: seq<T>, t: T)
    requires Threads(l, q) && t !in Elems(q)
    ensures Add(l, t).Some? && Threads(Add(l, t).value, q + [t])
  {
    Concat(q, [t]);
    ChainFrame(l.next, l.head, q, t, None);
    if q == [] {
      assert q + [t] == [t] && [t][1..] == [];
    } else {
      ChainLast(l.next[t := None], l.head, q, t);
    }
  }

  lemma TakeThreads<T>(l: Links<T>, q: seq<T>)
    requires Threads(l, q)
    ensures q == [] ==> Take(l).Panic?
    ensures q != [] ==> Take(l).Next? && Take(l).value.0 == q[0] && Threads(Take(l).value.1, q[1..])
  {
    if q != [] {
      var rest := q[1..];
      ElemsIn(rest, q[|q| - 1]);
      ChainFrame(l.next, Follow(l.next, q[0]), rest, q[0], None);
    }
  }

  /** The queue after some operations, as a value. */
  function Left<T>(q: seq<T>, ops: seq<Op<T>>): seq<T>
    decreases |ops|
  {
    if ops == [] then q
    else match ops[0]
      case Enqueue(x) => Left(q + [x], ops[1..])
      case Pick => Left(if q == [] then [] else q[1..], ops[1..])
  }

  lemma {:induction false} PerformThreads<T>(l: Links<T>, q: seq<T>, ops: seq<Op<T>>)
    requires Threads(l, q) && Sensible(q, ops) && Perform(l, ops).Next?
    ensures Threads(Perform(l, ops).value.0, Left(q, ops))
    decreases |ops|
  {
    if ops != [] {
      match ops[0]
      case Enqueue(x) =>
        AddThreads(l, q, x);
        PerformThreads(Add(l, x).value, q + [x], ops[1..]);
      case Pick =>
        TakeThreads(l, q);
        PerformThreads(Take(l).value.1, q[1..], ops[1..]);
    }
  }

  lemma {:induction false} NotAmong<T>(q: seq<T>, ops: seq<Op<T>>, t: T)
    requires t !in Elems(q) && Enqueue(t) !in ops
    ensures t !in Elems(Left(q, ops))
    decreases |ops|
  {
    if ops != [] {
      match ops[0]
      case Enqueue(x) =>
        Concat(q, [x]);
        NotAmong(q + [x], ops[1..], t);
      case Pick => NotAmong(if q == [] then [] else q[1..], ops[1..], t);
    }
  }

  // ----------------------------------------------- a tick between test and first write

  /** The call resumes with its old test on the queue it finds: exactly if that queue is
      empty as the first one was, or nonempty as the first one was, the task is appended. */
  lemma StaleTestIff<T>(l: Links<T>, q: seq<T>, empty: bool, t: T)
    requires Threads(l, q) && t !in Elems(q) && Follow(l.next, t) == None
    ensures empty == (q == []) <==> Append(l, empty, t).Some? && Threads(Append(l, empty, t).value, q + [t])
    ensures empty && q != [] ==> Append(l, empty, t).Some? && Threads(Append(l, empty, t).value, [t])
    ensures !empty && q == [] ==> Append(l, empty, t).None?
  {
    if empty {
      assert [t][1..] == [];
      assert Chain(l.next, Some(t), [t]);
      if q != [] {
        assert (q + [t])[0] == q[0];
        ElemsIn(q, q[0]);
      } else {
        assert q + [t] == [t];
      }
    } else if q != [] {
      Concat(q, [t]);
      ChainLast(l.next, l.head, q, t);
    }
  }

  // ----------------------------------------------------- a tick between the two writes

  /** The first task the tick enqueues overwrites the link to `t`: from then on everything
      is as if `t` had never been created. */
  lemma LinkOverwritten<T>(l: Links<T>, q: seq<T>, t: T, x: T, ops: seq<Op<T>>)
    requires Threads(l, q) && q != [] && x !in Elems(q)
    ensures FirstWrite(l, false, t).Some?
    ensures Perform(FirstWrite(l, false, t).value, [Enqueue(x)] + ops) == Perform(l, [Enqueue(x)] + ops)
  {
    var z := q[|q| - 1];
    ElemsIn(q, z);
    var m := FirstWrite(l, false, t).value;
    assert m.next[x := None][z := Some(x)] == l.next[x := None][z := Some(x)];
    assert Add(m, x) == Add(l, x);
  }

  /** On an empty queue it writes through the null tail instead. */
  lemma EmptyFaults<T>(l: Links<T>, t: T, x: T, ops: seq<Op<T>>)
    requires Threads(l, [])
    ensures FirstWrite(l, true, t).Some?
    ensures Perform(FirstWrite(l, true, t).value, [Enqueue(x)] + ops) == Fault
  {
  }

  /** The head leads through `q` to null, and the tail is somewhere else. */
  predicate Torn<T(==)>(l: Links<T>, q: seq<T>) {
    NoDup(q) && Chain(l.next, l.head, q) && l.tail.Some? && l.tail.value !in Elems(q)
  }

  /** Nothing is enqueued that the head still leads to. */
  predicate Apart<T(==)>(q: seq<T>, ops: seq<Op<T>>)
    decreases |ops|
  {
    ops == [] ||
    match ops[0]
    case Enqueue(x) => x !in Elems(q) && Apart(q, ops[1..])
    case Pick => Apart(if q == [] then [] else q[1..], ops[1..])
  }

  /** A torn queue gives out what the head leads to and then panics, whatever is enqueued:
      nothing enqueued is ever picked. */
  lemma {:induction false} TornRuns<T>(l: Links<T>, q: seq<T>, ops: seq<Op<T>>)
    requires Torn(l, q) && Apart(q, ops)
    ensures Picks(ops) > |q| ==> Perform(l, ops).Panic?
    ensures Picks(ops) <= |q| ==> Perform(l, ops).Next? && Perform(l, ops).value.1 == q[..Picks(ops)]
    decreases |ops|
  {
    if ops != [] {
      match ops[0]
      case Enqueue(x) =>
        var z := l.tail.value;
        ChainFrame(l.next, l.head, q, x, None);
        ChainFrame(l.next[x := None], l.head, q, z, Some(x));
        TornRuns(Add(l, x).value, q, ops[1..]);
      case Pick =>
        if q != [] {
          ChainFrame(l.next, Follow(l.next, q[0]), q[1..], q[0], None);
          TornRuns(Take(l).value.1, q[1..], ops[1..]);
          assert Picks(ops) <= |q| ==> q[..Picks(ops)] == [q[0]] + q[1..][..Picks(ops) - 1];
        }
    }
  }

  /** The second write, done after the tick, tears the queue.  `x` is the first task the tick
      enqueues, `ops` is all the scheduler does until the call resumes, `left` what the ready
      queue holds then, and `later` what the scheduler does after that: the created task is
      in no queue and never picked, and the pick after the last of `left` panics. */
  lemma TickBetweenWrites<T>(l: Links<T>, q: seq<T>, t: T, x: T, ops: seq<Op<T>>, later: seq<Op<T>>)
    requires Threads(l, q) && q != [] && t !in Elems(q)
    requires Sensible(q, [Enqueue(x)] + ops) && Enqueue(t) !in [Enqueue(x)] + ops
    requires Perform(l, [Enqueue(x)] + ops).Next? && Apart(Left(q, [Enqueue(x)] + ops), later)
    ensures FirstWrite(l, false, t).Some?
    ensures Perform(FirstWrite(l, false, t).value, [Enqueue(x)] + ops) == Perform(l, [Enqueue(x)] + ops)
    ensures var left, torn := Left(q, [Enqueue(x)] + ops), SecondWrite(Perform(l, [Enqueue(x)] + ops).value.0, t);
      && t !in Elems(left) && Torn(torn, left)
      && (Picks(later) > |left| ==> Perform(torn, later).Panic?)
      && (Picks(later) <= |left| ==> Perform(torn, later).Next? && Perform(torn, later).value.1 == left[..Picks(later)])
  {
    var all := [Enqueue(x)] + ops;
    LinkOverwritten(l, q, t, x, ops);
    PerformThreads(l, q, all);
    NotAmong(q, all, t);
    TornRuns(SecondWrite(Perform(l, all).value.0, t), Left(q, all), later);
  }

  // ------------------------------------------------------------------ what a tick does

  /** A tick that lands in create_kernel_task enqueues at least the caller before it picks:
      the ready queue the pick loop starts from is the old one, the tasks woken, the caller. */
  lemma TickEnqueues<T>(s: Sys<T>, idle: T)
    requires SysInv(s, idle) && s.phase[s.core.running] == Code
    ensures var o, woken := Park(Repaired, Wake(s.core)), Drain(Decrement(s.core.sleepers)).0;
      o.Next? && o.value.ready == s.core.ready + woken + [s.core.running]
  {
    WakeKeeps(s.core, idle);
    WakeEffect(s.core, idle);
    ParkEffect(Wake(s.core), idle);
  }
}

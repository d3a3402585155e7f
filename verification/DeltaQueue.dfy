/**
  The sleep queue of kernel/sched.c as a value: each node stores only how many ticks
  after its predecessor it is due.  `Remaining` gives the meaning of a queue, the number
  of ticks each task still has to sleep, and the operations are judged by what they do
  to that meaning.
 */
module DeltaQueue {
  import opened Words
  import opened Results
  import opened Lists

  datatype Sleeper<T> = Sleeper(task: T, delta: Word)

  type Queue<T> = seq<Sleeper<T>>

  /** Which insertion is meant: the loop exactly as the source has it, or the loop with
      the smallest repair (no lower test on `sum`, and the head pointer kept up to date). */
  datatype Insertion = AsWritten | Repaired

  function Ids<T>(q: Queue<T>): seq<T> {
    if q == [] then [] else [q[0].task] + Ids(q[1..])
  }

  function Tasks<T>(q: Queue<T>): set<T> {
    if q == [] then {} else {q[0].task} + Tasks(q[1..])
  }

  predicate Unique<T(==)>(q: Queue<T>) {
    q == [] || (q[0].task !in Tasks(q[1..]) && Unique(q[1..]))
  }

  /** The order of the tasks other than `y`. */
  function Others<T(==)>(q: Queue<T>, y: T): seq<T> {
    if q == [] then []
    else if q[0].task == y then Others(q[1..], y)
    else [q[0].task] + Others(q[1..], y)
  }

  function Total<T>(q: Queue<T>): nat {
    if q == [] then 0 else q[0].delta + Total(q[1..])
  }

  /** Ticks left for `t`: the sum of all deltas up to and including its own. */
  function Remaining<T(==)>(q: Queue<T>, t: T): nat
    requires t in Tasks(q)
  {
    if q[0].task == t then q[0].delta else q[0].delta + Remaining(q[1..], t)
  }

  // ---------------------------------------------------------------- insertion

  /** enqueue_sleep_task, without the links: `None` is the write through the null `x`. */
  function Enqueue<T>(mode: Insertion, q: Queue<T>, y: T, target: Word): Option<Queue<T>> {
    if q == [] then Some([Sleeper(y, target)]) else Walk(mode, q, y, target, 0, true)
  }

  /** The while loop; `q` is the part of the list from `z` on, `first` says that `x` is null. */
  function Walk<T>(mode: Insertion, q: Queue<T>, y: T, target: Word, sum: Word, first: bool): Option<Queue<T>> {
    if q == [] then Some([Sleeper(y, Sub32(target, sum))])
    else if (mode.Repaired? || sum < target) && Add32(sum, q[0].delta) > target then
      if first && mode.AsWritten? then None
      else Some([Sleeper(y, Sub32(target, sum)),
                 Sleeper(q[0].task, Sub32(q[0].delta, Sub32(target, sum)))] + q[1..])
    else
      Prepend(q[..1], Walk(mode, q[1..], y, target, Add32(sum, q[0].delta), false))
  }

  function Prepend<T>(p: Queue<T>, o: Option<Queue<T>>): Option<Queue<T>> {
    match o
    case None => None
    case Some(r) => Some(p + r)
  }

  /** What an insertion has to achieve, said without reference to any loop. */
  ghost predicate Inserted<T>(q: Queue<T>, y: T, target: nat, r: Queue<T>) {
    && Tasks(r) == Tasks(q) + {y}
    && Others(r, y) == Others(q, y)
    && Remaining(r, y) == target
    && forall t :: t in Tasks(q) && t != y ==> Remaining(r, t) == Remaining(q, t)
  }

  /** The reference insertion: behind every task due no later than the new one. */
  function Insert<T>(q: Queue<T>, y: T, target: Word): (r: Queue<T>)
    ensures |r| == |q| + 1
  {
    if q == [] then [Sleeper(y, target)]
    else if q[0].delta > target then
      [Sleeper(y, target), Sleeper(q[0].task, q[0].delta - target)] + q[1..]
    else [q[0]] + Insert(q[1..], y, target - q[0].delta)
  }

  lemma {:induction false} RepairedWalk<T>(q: Queue<T>, y: T, target: Word, sum: Word, first: bool)
    requires sum <= target && sum + Total(q) < WORD
    ensures Walk(Repaired, q, y, target, sum, first) == Some(Insert(q, y, target - sum))
  {
    if q != [] && sum + q[0].delta <= target {
      RepairedWalk(q[1..], y, target, sum + q[0].delta, false);
      assert q[..1] == [q[0]];
    }
  }

  lemma RepairedIsInsert<T>(q: Queue<T>, y: T, target: Word)
    requires Total(q) < WORD
    ensures Enqueue(Repaired, q, y, target) == Some(Insert(q, y, target))
  {
    if q != [] {
      RepairedWalk(q, y, target, 0, true);
    }
  }

  lemma {:induction false} InsertTasks<T>(q: Queue<T>, y: T, target: Word)
    requires y !in Tasks(q)
    ensures Tasks(Insert(q, y, target)) == Tasks(q) + {y}
    ensures Others(Insert(q, y, target), y) == Others(q, y)
    ensures Unique(q) ==> Unique(Insert(q, y, target))
    ensures Total(Insert(q, y, target)) == if Total(q) >= target then Total(q) else target
  {
    var r := Insert(q, y, target);
    if q == [] {
    } else if q[0].delta > target {
      SplitHead(q, y, target);
    } else {
      InsertTasks(q[1..], y, target - q[0].delta);
      assert r[1..] == Insert(q[1..], y, target - q[0].delta);
    }
  }

  lemma SplitHead<T>(q: Queue<T>, y: T, target: Word)
    requires q != [] && q[0].delta > target
    ensures var r := Insert(q, y, target);
      r[0] == Sleeper(y, target) && r[1..][0] == Sleeper(q[0].task, q[0].delta - target) && r[1..][1..] == q[1..]
  {
  }

  lemma {:induction false} InsertRemaining<T>(q: Queue<T>, y: T, target: Word, t: T)
    requires y !in Tasks(q) && (t == y || t in Tasks(q))
    ensures t in Tasks(Insert(q, y, target))
    ensures Remaining(Insert(q, y, target), t) == if t == y then target else Remaining(q, t)
  {
    var r := Insert(q, y, target);
    if q == [] {
    } else if q[0].delta > target {
      SplitHead(q, y, target);
    } else {
      assert r[1..] == Insert(q[1..], y, target - q[0].delta);
      if t != q[0].task {
        InsertRemaining(q[1..], y, target - q[0].delta, t);
      }
    }
  }

  /** The repaired insertion refines "remaining times, with `y` due at `target`". */
  lemma RepairedInserts<T>(q: Queue<T>, y: T, target: Word)
    requires Total(q) < WORD && y !in Tasks(q)
    ensures Enqueue(Repaired, q, y, target).Some?
    ensures Inserted(q, y, target, Enqueue(Repaired, q, y, target).value)
  {
    RepairedIsInsert(q, y, target);
    InsertTasks(q, y, target);
    InsertRemaining(q, y, target, y);
    forall t | t in Tasks(q) ensures Remaining(Insert(q, y, target), t) == Remaining(q, t) {
      InsertRemaining(q, y, target, t);
    }
  }

  // ---------------------------------------------------- the loop as it is written

  /** Decidable before the call: nothing queued, or due last, or strictly between two
      consecutive due times, the earlier of which belongs to a queued task. */
  ghost predicate InDomain<T>(q: Queue<T>, target: nat) {
    q == [] || target >= Total(q) || (exists k: nat :: k >= 1 && Gap(q, target, k))
  }

  lemma {:induction false} RemainingLast<T>(q: Queue<T>, y: T, d: Word)
    requires y !in Tasks(q)
    ensures y in Tasks(q + [Sleeper(y, d)]) && Remaining(q + [Sleeper(y, d)], y) == Total(q) + d
  {
    var r := q + [Sleeper(y, d)];
    if q != [] {
      RemainingLast(q[1..], y, d);
      assert r[1..] == q[1..] + [Sleeper(y, d)];
    }
  }

  /** Once `sum` has reached the target the loop can only run off the end. */
  lemma {:induction false} WalkPastTarget<T>(q: Queue<T>, y: T, target: Word, sum: Word, first: bool)
    requires target <= sum && sum + Total(q) < WORD
    ensures Walk(AsWritten, q, y, target, sum, first)
         == Some(q + [Sleeper(y, Sub32(target, sum + Total(q)))])
  {
    if q == [] {
      assert q + [Sleeper(y, Sub32(target, sum))] == [Sleeper(y, Sub32(target, sum))];
    } else {
      WalkPastTarget(q[1..], y, target, sum + q[0].delta, false);
      var last := [Sleeper(y, Sub32(target, sum + Total(q)))];
      assert q[..1] + (q[1..] + last) == q + last;
    }
  }

  /** `InDomain` in the loop's own terms: `t` is the distance still to go. */
  predicate Hits<T>(q: Queue<T>, t: nat, first: bool) {
    t >= Total(q) || (if q[0].delta > t then t > 0 && !first else t > q[0].delta && Hits(q[1..], t - q[0].delta, false))
  }

  ghost predicate Gap<T>(q: Queue<T>, t: nat, k: nat) {
    k < |q| && Total(q[..k]) < t < Total(q[..k + 1])
  }

  lemma TakeTotal<T>(q: Queue<T>, k: nat)
    requires 0 < k <= |q|
    ensures Total(q[..k]) == q[0].delta + Total(q[1..][..k - 1])
  {
    assert q[..k][1..] == q[1..][..k - 1];
  }

  lemma GapShift<T>(q: Queue<T>, t: nat, k: nat)
    requires k + 1 < |q|
    ensures Gap(q, t, k + 1) <==> t > q[0].delta && Gap(q[1..], t - q[0].delta, k)
  {
    TakeTotal(q, k + 1);
    TakeTotal(q, k + 2);
  }

  lemma {:induction false} HitsIsGap<T>(q: Queue<T>, t: nat, first: bool)
    ensures Hits(q, t, first) <==>
      t >= Total(q) || exists k: nat :: (first ==> k >= 1) && Gap(q, t, k)
  {
    if t < Total(q) {
      if q[0].delta > t {
        assert Total(q[..1]) == q[0].delta by { TakeTotal(q, 1); }
        forall k: nat | k < |q| && k > 0 ensures !Gap(q, t, k) {
          TakeTotal(q, k);
        }
        assert Hits(q, t, first) <==> t > 0 && !first;
        assert Gap(q, t, 0) <==> t > 0;
      } else {
        assert !Gap(q, t, 0) by { TakeTotal(q, 1); }
        if t > q[0].delta {
          HitsIsGap(q[1..], t - q[0].delta, false);
        }
        if Hits(q, t, first) {
          var k: nat :| Gap(q[1..], t - q[0].delta, k);
          GapShift(q, t, k);
        }
        if k: nat :| Gap(q, t, k) {
          GapShift(q, t, k - 1);
        }
      }
    }
  }

  /** Where the loop as written hits, it agrees with the reference insertion. */
  lemma {:induction false} WalkHits<T>(q: Queue<T>, y: T, target: Word, sum: Word, first: bool)
    requires sum <= target && sum + Total(q) < WORD
    requires Hits(q, target - sum, first)
    ensures Walk(AsWritten, q, y, target, sum, first) == Some(Insert(q, y, target - sum))
  {
    if q != [] && q[0].delta <= target - sum {
      WalkHits(q[1..], y, target, sum + q[0].delta, false);
      assert q[..1] == [q[0]];
    }
  }

  /** Where it misses, it faults or makes the task oversleep by the whole 32-bit range. */
  lemma {:induction false} WalkMisses<T>(q: Queue<T>, y: T, target: Word, sum: Word, first: bool)
    requires sum <= target && sum + Total(q) < WORD && y !in Tasks(q)
    requires !Hits(q, target - sum, first)
    ensures var o, r := Walk(AsWritten, q, y, target, sum, first), q + [Sleeper(y, Sub32(target, sum + Total(q)))];
      && (o.Some? ==> o.value == r)
      && y in Tasks(r) && Remaining(r, y) == target - sum + WORD
  {
    var z, last := q[0].delta, [Sleeper(y, Sub32(target, sum + Total(q)))];
    RemainingLast(q, y, Sub32(target, sum + Total(q)));
    if target - sum == 0 || target - sum >= z {
      assert Walk(AsWritten, q, y, target, sum, first)
          == Prepend(q[..1], Walk(AsWritten, q[1..], y, target, sum + z, false));
      if target - sum > z {
        WalkMisses(q[1..], y, target, sum + z, false);
      } else {
        WalkPastTarget(q[1..], y, target, sum + z, false);
      }
      assert q[..1] + (q[1..] + last) == q + last;
    }
  }

  /** The exact correctness domain of enqueue_sleep_task as written. */
  lemma AsWrittenCorrectIffInDomain<T>(q: Queue<T>, y: T, target: Word)
    requires Total(q) < WORD && y !in Tasks(q)
    ensures InDomain(q, target) <==>
      var o := Enqueue(AsWritten, q, y, target); o.Some? && Inserted(q, y, target, o.value)
    ensures InDomain(q, target) ==>
      Enqueue(AsWritten, q, y, target) == Enqueue(Repaired, q, y, target)
  {
    RepairedInserts(q, y, target);
    RepairedIsInsert(q, y, target);
    if q != [] {
      HitsIsGap(q, target, true);
      if InDomain(q, target) {
        WalkHits(q, y, target, 0, true);
      } else {
        WalkMisses(q, y, target, 0, true);
      }
    } else {
      assert Enqueue(AsWritten, q, y, target) == Enqueue(Repaired, q, y, target);
    }
  }

  /** What goes wrong outside the domain: the null `x` is written through exactly when the
      new task is due before the head; otherwise it is put last, with everybody else as
      before, and oversleeps by 2^32 ticks. */
  lemma OutsideDomain<T>(q: Queue<T>, y: T, target: Word)
    requires Total(q) < WORD && y !in Tasks(q) && !InDomain(q, target)
    ensures Enqueue(AsWritten, q, y, target) == None <==> 0 < target < q[0].delta
    ensures !(0 < target < q[0].delta) ==>
      var o := Enqueue(AsWritten, q, y, target);
      && o.Some? && o.value == q + [Sleeper(y, Sub32(target, Total(q)))]
      && y in Tasks(o.value) && Remaining(o.value, y) == target + WORD
  {
    var o := Enqueue(AsWritten, q, y, target);
    assert !Hits(q, target, true) by { HitsIsGap(q, target, true); }
    if !(0 < target < q[0].delta) {
      WalkSome(q[1..], y, target, q[0].delta);
      assert o == Prepend(q[..1], Walk(AsWritten, q[1..], y, target, q[0].delta, false));
      WalkMisses(q, y, target, 0, true);
    }
  }

  /** Two insertions the loop as written gets wrong: before the head, and on a tie. */
  lemma AsWrittenExamples()
    ensures Enqueue(AsWritten, [Sleeper(1, 5)], 2, 3) == None
    ensures Enqueue(AsWritten, [Sleeper(1, 5), Sleeper(2, 2)], 3, 5)
         == Some([Sleeper(1, 5), Sleeper(2, 2), Sleeper(3, WORD - 2)])
  {
    var q := [Sleeper(1, 5), Sleeper(2, 2)];
    assert Total(q[1..]) == 2 by { assert q[1..][1..] == []; }
    WalkPastTarget(q[1..], 3, 5, 5, false);
    assert Enqueue(AsWritten, q, 3, 5) == Prepend(q[..1], Walk(AsWritten, q[1..], 3, 5, 5, false));
    assert q[..1] + (q[1..] + [Sleeper(3, WORD - 2)]) == q + [Sleeper(3, WORD - 2)];
    assert q + [Sleeper(3, WORD - 2)] == [Sleeper(1, 5), Sleeper(2, 2), Sleeper(3, WORD - 2)];
  }

  lemma {:induction false} WalkSome<T>(q: Queue<T>, y: T, target: Word, sum: Word)
    ensures Walk(AsWritten, q, y, target, sum, false).Some?
  {
    if q != [] {
      WalkSome(q[1..], y, target, Add32(sum, q[0].delta));
    }
  }

  // ------------------------------------------------------------- tick and wake-up

  /** One tick: only the head's delta changes. */
  function Decrement<T>(q: Queue<T>): (r: Queue<T>)
    ensures Ids(r) == Ids(q) && Tasks(r) == Tasks(q) && Unique(r) == Unique(q)
  {
    if q == [] then [] else q[0 := Sleeper(q[0].task, Sub32(q[0].delta, 1))]
  }

  /** Calling dequeue_sleep_task until it returns 0: the woken tasks, and the rest. */
  function Drain<T>(q: Queue<T>): (r: (seq<T>, Queue<T>))
  {
    if q == [] || q[0].delta != 0 then ([], q)
    else var (w, rest) := Drain(q[1..]); ([q[0].task] + w, rest)
  }

  /** A queue between two ticks: nobody is overdue, and no due time leaves the word. */
  ghost predicate Settled<T>(q: Queue<T>) {
    && Unique(q)
    && Total(q) < WORD
    && (q != [] ==> q[0].delta > 0)
  }

  lemma {:induction false} RemainingBounds<T>(q: Queue<T>, t: T)
    requires t in Tasks(q)
    ensures q[0].delta <= Remaining(q, t) <= Total(q)
  {
    if q[0].task != t {
      RemainingBounds(q[1..], t);
    }
  }

  lemma DecrementRemaining<T>(q: Queue<T>, t: T)
    requires t in Tasks(q) && q[0].delta > 0
    ensures t in Tasks(Decrement(q)) && Remaining(Decrement(q), t) == Remaining(q, t) - 1
    ensures Total(Decrement(q)) == Total(q) - 1
  {
    assert Decrement(q)[1..] == q[1..];
  }

  lemma {:induction false} DrainSplits<T>(q: Queue<T>)
    ensures Ids(q) == Drain(q).0 + Ids(Drain(q).1)
    ensures Tasks(q) == Elems(Drain(q).0) + Tasks(Drain(q).1)
    ensures Unique(q) ==> NoDup(Drain(q).0) && Unique(Drain(q).1) && Elems(Drain(q).0) !! Tasks(Drain(q).1)
    ensures Total(Drain(q).1) == Total(q)
    ensures Drain(q).1 != [] ==> Drain(q).1[0].delta > 0
  {
    if q != [] && q[0].delta == 0 {
      DrainSplits(q[1..]);
      var (w, rest) := Drain(q[1..]);
      assert [q[0].task] + (w + Ids(rest)) == ([q[0].task] + w) + Ids(rest);
    }
  }

  lemma {:induction false} DrainRemaining<T>(q: Queue<T>, t: T)
    requires Unique(q) && t in Tasks(q)
    ensures t in Elems(Drain(q).0) <==> Remaining(q, t) == 0
    ensures t in Tasks(Drain(q).1) <==> Remaining(q, t) > 0
    ensures t in Tasks(Drain(q).1) ==> Remaining(Drain(q).1, t) == Remaining(q, t)
  {
    if q[0].delta != 0 {
      RemainingBounds(q, t);
    } else {
      DrainSplits(q[1..]);
      if t != q[0].task {
        DrainRemaining(q[1..], t);
      }
    }
  }

  /** A tick lowers every remaining time by one and wakes exactly the tasks that reach
      zero, in queue order; what is left is settled again. */
  lemma TickRefinesRemaining<T>(q: Queue<T>)
    requires Settled(q)
    ensures var (w, rest) := Drain(Decrement(q));
      && Settled(rest)
      && Ids(q) == w + Ids(rest)
      && NoDup(w) && Elems(w) !! Tasks(rest) && Tasks(q) == Elems(w) + Tasks(rest)
      && (forall t :: t in Elems(w) ==> Remaining(q, t) == 1)
      && (forall t :: t in Tasks(rest) ==> Remaining(rest, t) == Remaining(q, t) - 1)
  {
    var d := Decrement(q);
    DrainSplits(d);
    var (w, rest) := Drain(d);
    forall t | t in Tasks(q)
      ensures t in Elems(w) ==> Remaining(q, t) == 1
      ensures t in Tasks(rest) ==> Remaining(rest, t) == Remaining(q, t) - 1
    {
      DecrementRemaining(q, t);
      DrainRemaining(d, t);
    }
    if q != [] {
      DecrementRemaining(q, q[0].task);
    }
  }

  lemma InsertSettled<T>(q: Queue<T>, y: T, target: Word)
    requires Settled(q) && y !in Tasks(q) && target > 0
    ensures Settled(Insert(q, y, target)) && Tasks(Insert(q, y, target)) == Tasks(q) + {y}
  {
    InsertTasks(q, y, target);
  }
}

/**
  The memory of a task (kernel/task.c:33-41, 74-115): new_task takes the task structure
  and a page-aligned stack from the kernel heap, free_task gives both back.
 */
module TaskMemory {
  import opened Words
  import opened Results
  import opened Blocks
  import opened LargeRequests
  import opened KernelHeap

  const TASK_SIZE: Word := 48        // sizeof(task_t) on i686
  const STACK_SIZE: Word := 0x4000

  /** The heap after kmalloc(sizeof(task_t)). */
  function WithTask(bs: Heap): (nat, Heap) {
    Alloc(bs, Rounded(TASK_SIZE), false)
  }

  /** The heap after kmalloc_a(STACK_SIZE) as well. */
  function WithStack(bs: Heap): (nat, Heap) {
    Alloc(WithTask(bs).1, Rounded(STACK_SIZE), true)
  }

  /** new_task succeeds if both allocations do. */
  predicate Possible(bs: Heap) {
    WithTask(bs).0 != 0 && WithStack(bs).0 != 0
  }

  /** Freeing a task just created restores the heap block by block. */
  lemma TaskRoundTrip(bs: Heap, base: nat, end: nat)
    requires Tiles(bs, base, end) && Coalesced(bs) && Possible(bs)
    ensures WithStack(bs).0 >= HDR && WithTask(bs).0 >= HDR
    ensures Free(Free(WithStack(bs).1, WithStack(bs).0 - HDR), WithTask(bs).0 - HDR) == bs
  {
    AllocKeeps(bs, base, end, Rounded(TASK_SIZE), false);
    FreeUndoesAlloc(WithTask(bs).1, base, end, Rounded(STACK_SIZE), true);
    FreeUndoesAlloc(bs, base, end, Rounded(TASK_SIZE), false);
  }

  /** kmalloc_int for a size that does not wrap is the allocator of Blocks. */
  lemma SmallRequest(heap: KernelHeap, size: Word, align: bool)
    requires heap.Valid() && !Wraps(size)
    ensures Alloc32(heap.blocks, size, align) == Some(Alloc(heap.blocks, Rounded(size), align))
  {
    TilesLow(heap.blocks, heap.base, heap.end);
    SameWithoutWrap(heap.blocks, size, align);
  }

  /** new_task, lines 79-103: both blocks or nothing.  Without `movesOn` the search for the
      stack may never end. */
  method NewTask(heap: KernelHeap, movesOn: bool) returns (t: nat, stack: nat, hung: bool)
    requires heap.Valid() && Coalesced(heap.blocks)
    modifies heap`mem, heap`blocks
    ensures heap.Valid() && Coalesced(heap.blocks)
    ensures hung <==>
      !movesOn && WithTask(old(heap.blocks)).0 != 0 && !Stops(WithTask(old(heap.blocks)).1, STACK_SIZE, true)
    ensures !hung ==> (t != 0 <==> Possible(old(heap.blocks)))
    ensures !hung && t == 0 ==> heap.blocks == old(heap.blocks)
    ensures !hung && t != 0 ==>
      && t == WithTask(old(heap.blocks)).0 && (stack, heap.blocks) == WithStack(old(heap.blocks))
      && stack % PAGE == 0
  {
    hide Threaded, Free, Alloc32, Stops;
    ghost var bs, base, end := heap.blocks, heap.base, heap.end;
    SmallRequest(heap, TASK_SIZE, false);
    PlainStops(bs, TASK_SIZE);
    var status: Status;
    t, status, hung := heap.KmallocInt(TASK_SIZE, false, movesOn);
    stack := 0;
    if t == 0 {
      AllocFailsIff(bs, Rounded(TASK_SIZE), false);
      return;
    }
    AllocKeeps(bs, base, end, Rounded(TASK_SIZE), false);
    AllocUsed(bs, base, end, Rounded(TASK_SIZE), false);
    hide Alloc, Found, Tiles, Coalesced;
    ghost var b := Found(bs, Rounded(TASK_SIZE), false);
    ghost var one := heap.blocks;
    SmallRequest(heap, STACK_SIZE, true);
    stack, status, hung := heap.KmallocInt(STACK_SIZE, true, movesOn);
    if hung {
      return;
    }
    if stack == 0 {
      AllocFailsIff(one, Rounded(STACK_SIZE), true);
      heap.HeaderThere(Position(heap.blocks, b));
      var panicked := heap.Kfree(t, Position(heap.blocks, b));
      FreeUndoesAlloc(bs, base, end, Rounded(TASK_SIZE), false);
      t := 0;
    } else {
      AllocKeeps(one, base, end, Rounded(STACK_SIZE), true);
      AllocUsed(one, base, end, Rounded(STACK_SIZE), true);
    }
  }

  /** The plain search always ends. */
  lemma {:induction false} PlainStops(bs: Heap, size: Word)
    ensures Stops(bs, size, false)
  {
    if bs != [] {
      PlainStops(bs[1..], size);
    }
  }

  /** free_task, lines 111-115: exactly the two blocks of the task are given back. */
  method FreeTask(heap: KernelHeap, t: nat, stack: nat, ghost tb: Block, ghost sb: Block)
    requires heap.Valid() && Coalesced(heap.blocks)
    requires tb in Used(heap.blocks) && sb in Used(heap.blocks) && tb != sb
    requires t == tb.addr + HDR && stack == sb.addr + HDR
    modifies heap`mem, heap`blocks
    ensures heap.Valid() && Coalesced(heap.blocks)
    ensures heap.blocks == Free(Free(old(heap.blocks), stack - HDR), t - HDR)
    ensures Used(heap.blocks) == old(Used(heap.blocks)) - {tb, sb}
  {
    hide Free, Tiles, Coalesced, Used, Threaded, Position;
    FreeBoth(heap.blocks, heap.base, heap.end, tb, sb);
    heap.HeaderThere(Position(heap.blocks, sb));
    var panicked := heap.Kfree(stack, Position(heap.blocks, sb));
    heap.HeaderThere(Position(heap.blocks, tb));
    panicked := heap.Kfree(t, Position(heap.blocks, tb));
  }

  lemma FreeBoth(bs: Heap, base: nat, end: nat, tb: Block, sb: Block)
    requires Tiles(bs, base, end) && Coalesced(bs) && tb in Used(bs) && sb in Used(bs) && tb != sb
    ensures tb.used && sb.used && tb in Used(Free(bs, sb.addr))
    ensures Coalesced(Free(Free(bs, sb.addr), tb.addr))
    ensures Used(Free(Free(bs, sb.addr), tb.addr)) == Used(bs) - {tb, sb}
  {
    hide Free, Tiles, Coalesced, Used;
    TilesFacts(bs, base, end);
    FreeKeeps(bs, base, end, sb.addr);
    FreeUsed(bs, base, end, sb);
    var one := Free(bs, sb.addr);
    FreeKeeps(one, base, end, tb.addr);
    FreeUsed(one, base, end, tb);
  }
}

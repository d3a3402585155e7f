/**
  Where setup_stack writes (kernel/task.c:33-70).  Line 43 adds STACK_SIZE to a pointer to
  4-byte words, so the sixteen words it pushes, and the stack the task then runs on, end
  4 * STACK_SIZE bytes behind the start of the block instead of STACK_SIZE.  They never lie
  in that block; here it is said where they do lie and when that does no harm.
 */
module StackTops {
  import opened SchedSystem
  import opened Blocks
  import H = HeapRuns
  import opened TaskMemory
  import K = KernelMemory

  const WORDS_PUSHED: nat := 16
  const INT: nat := 4               // sizeof(unsigned int)

  /** The bytes from `lo` to `hi`, without `hi`. */
  datatype Span = Span(lo: int, hi: int)

  /** What lines 46-65 write, for a stack that kmalloc_a put at `stack`. */
  function Pushed(stack: nat): Span {
    Span(stack + INT * STACK_SIZE - INT * WORDS_PUSHED, stack + INT * STACK_SIZE)
  }

  /** The same if line 43 counted bytes. */
  function PushedInBytes(stack: nat): Span {
    Span(stack + STACK_SIZE - INT * WORDS_PUSHED, stack + STACK_SIZE)
  }

  /** In the data of the block, clear of its header. */
  predicate InData(b: Block, s: Span) {
    b.addr + HDR <= s.lo && s.hi <= b.addr + b.size
  }

  // ------------------------------------------------------------- never in its own block

  /** On every heap on which the stack can be allocated, the words pushed lie more than
      47 KiB behind the end of the block; counted in bytes they would lie in its data. */
  lemma PushedOutside(bs: Heap, base: nat, end: nat)
    requires Tiles(bs, base, end) && Alloc(bs, Rounded(STACK_SIZE), true).0 != 0
    ensures var b, stack := Found(bs, Rounded(STACK_SIZE), true), Alloc(bs, Rounded(STACK_SIZE), true).0;
      && Pushed(stack) == Span(stack + 0xFFC0, stack + 0x10000)
      && b.addr + b.size + 0xBF00 < Pushed(stack).lo && InData(b, PushedInBytes(stack))
  {
    AllocUsed(bs, base, end, Rounded(STACK_SIZE), true);
    LittleLost(bs, STACK_SIZE, true);
  }

  // --------------------------------------------------------------- when it does no harm

  /** A byte nobody uses: inside the heap, in no header and in no block in use. */
  ghost predicate Spare(bs: Heap, base: nat, end: nat, x: int) {
    && base <= x < end
    && forall i :: 0 <= i < |bs| && bs[i].addr <= x < bs[i].addr + bs[i].size ==> !bs[i].used && bs[i].addr + HDR <= x
  }

  /** Writing there destroys nothing. */
  ghost predicate Harmless(bs: Heap, base: nat, end: nat, s: Span) {
    forall x :: s.lo <= x < s.hi ==> Spare(bs, base, end, x)
  }

  /** Every address in the heap is in one of its blocks. */
  lemma {:induction false} Covered(bs: Heap, base: nat, end: nat, x: int) returns (i: nat)
    requires Tiles(bs, base, end) && base <= x < end
    ensures i < |bs| && bs[i].addr <= x < bs[i].addr + bs[i].size
  {
    if x < base + bs[0].size {
      i := 0;
    } else {
      var j := Covered(bs[1..], base + bs[0].size, end, x);
      i := j + 1;
    }
  }

  /** The exact condition, on any heap and any bytes: they lie in the data of one free block. */
  lemma HarmlessIff(bs: Heap, base: nat, end: nat, s: Span)
    requires Tiles(bs, base, end) && s.lo < s.hi
    ensures Harmless(bs, base, end, s) <==> exists i :: 0 <= i < |bs| && !bs[i].used && InData(bs[i], s)
  {
    if Harmless(bs, base, end, s) {
      assert Spare(bs, base, end, s.lo);
      var i := Covered(bs, base, end, s.lo);
      H.AddressBounds(bs, base, end, i);
      var x := bs[i].addr + bs[i].size;
      if x < s.hi {
        assert Spare(bs, base, end, x);
        var j := Covered(bs, base, end, x);
        H.BlocksApart(bs, base, end, i, j);
      }
      assert InData(bs[i], s);
    } else if i :| 0 <= i < |bs| && !bs[i].used && InData(bs[i], s) {
      H.AddressBounds(bs, base, end, i);
      forall x | s.lo <= x < s.hi ensures Spare(bs, base, end, x) {
        forall j | 0 <= j < |bs| && j != i ensures !(bs[j].addr <= x < bs[j].addr + bs[j].size) {
          H.BlocksApart(bs, base, end, i, j);
        }
      }
    }
  }

  /** In particular a task that lives does harm as soon as any block in use meets its words. */
  lemma HarmfulIfMet(bs: Heap, base: nat, end: nat, s: Span, b: Block)
    requires Tiles(bs, base, end) && b in Used(bs) && s.lo < b.addr + b.size && b.addr < s.hi && s.lo < s.hi
    ensures !Harmless(bs, base, end, s)
  {
    var j := Position(bs, b);
    TilesFacts(bs, base, end);
    var x := if s.lo < b.addr then b.addr else s.lo;
    assert bs[j].addr <= x < bs[j].addr + bs[j].size;
    assert !Spare(bs, base, end, x);
  }

  // ---------------------------------------------------- a run on which it always does harm

  const STRUCT: nat := HDR + TASK_SIZE
  const STRIDE: nat := 0x5000       // from one stack to the next: a gap of a page, and STACK_SIZE

  /** The k-th stack block, and the structures of the first n tasks. */
  function StackAt(base: nat, k: nat): Block {
    Block(base + PAGE - HDR + STRIDE * k, HDR + STACK_SIZE, true)
  }

  function StructAt(base: nat, k: nat): Block {
    Block(base + STRUCT * k, STRUCT, true)
  }

  function Structs(base: nat, n: nat): Heap {
    if n == 0 then [] else Structs(base, n - 1) + [StructAt(base, n - 1)]
  }

  /** The stacks of the first n tasks, with the gaps that alignment leaves between them. */
  function Stacks(base: nat, n: nat): Heap {
    if n == 0 then []
    else if n == 1 then [StackAt(base, 0)]
    else Stacks(base, n - 1) + [Block(base + STRIDE * (n - 1), PAGE - HDR, false), StackAt(base, n - 1)]
  }

  /** Room for n structures in the first page and n stacks behind it. */
  predicate Room(base: nat, size: nat, n: nat) {
    base > 0 && base % PAGE == 0 && n <= 59 && size > STRIDE * n + HDR
  }

  function Gap(base: nat, n: nat): Block
    requires n <= 59
  {
    Block(base + STRUCT * n, PAGE - HDR - STRUCT * n, false)
  }

  function Last(base: nat, size: nat, n: nat): Block
    requires size > STRIDE * n
  {
    Block(base + STRIDE * n, size - STRIDE * n, false)
  }

  /** The heap after n creations on a fresh heap that starts on a page. */
  function Layout(base: nat, size: nat, n: nat): Heap
    requires Room(base, size, n)
  {
    if n == 0 then [Block(base, size, false)]
    else Structs(base, n) + ([Gap(base, n)] + (Stacks(base, n) + [Last(base, size, n)]))
  }

  /** First fit passes over blocks that do not fit. */
  lemma {:induction false} AllocSkips(xs: Heap, ys: Heap, need: nat, align: bool)
    requires forall j :: 0 <= j < |xs| ==> !Fits(xs[j], need, align)
    ensures Alloc(xs + ys, need, align) == (Alloc(ys, need, align).0, xs + Alloc(ys, need, align).1)
    ensures Alloc(ys, need, align).0 != 0 ==> Found(xs + ys, need, align) == Found(ys, need, align)
    decreases |xs|
  {
    hide Fits, Place, Pointer, Taken;
    if xs == [] {
      assert xs + ys == ys && xs + Alloc(ys, need, align).1 == Alloc(ys, need, align).1;
    } else {
      AllocSkips(xs[1..], ys, need, align);
      assert (xs + ys)[0] == xs[0] && (xs + ys)[1..] == xs[1..] + ys;
      assert [xs[0]] + (xs[1..] + Alloc(ys, need, align).1) == xs + Alloc(ys, need, align).1;
    }
  }

  lemma {:induction false} NoneFitsStructs(base: nat, n: nat, need: nat, align: bool)
    ensures forall j :: 0 <= j < |Structs(base, n)| ==> !Fits(Structs(base, n)[j], need, align)
  {
    if n > 0 {
      NoneFitsStructs(base, n - 1, need, align);
    }
  }

  lemma {:induction false} NoneFitsStacks(base: nat, n: nat)
    ensures forall j :: 0 <= j < |Stacks(base, n)| ==> !Fits(Stacks(base, n)[j], Rounded(STACK_SIZE), true)
  {
    if n > 1 {
      NoneFitsStacks(base, n - 1);
    }
  }

  /** The structure of one more task goes to the front of the gap. */
  lemma NextStruct(base: nat, n: nat, rest: Heap)
    requires n < 59
    ensures var bs := Structs(base, n) + ([Gap(base, n)] + rest);
      && WithTask(bs) == (base + STRUCT * n + HDR, Structs(base, n + 1) + ([Gap(base, n + 1)] + rest))
      && Found(bs, Rounded(TASK_SIZE), false) == StructAt(base, n)
  {
    NoneFitsStructs(base, n, Rounded(TASK_SIZE), false);
    AllocSkips(Structs(base, n), [Gap(base, n)] + rest, Rounded(TASK_SIZE), false);
    var g := Gap(base, n);
    assert Place(g, Rounded(TASK_SIZE), false) == [StructAt(base, n), Gap(base, n + 1)];
    assert ([g] + rest)[1..] == rest;
    assert Structs(base, n) + ([StructAt(base, n), Gap(base, n + 1)] + rest)
        == Structs(base, n + 1) + ([Gap(base, n + 1)] + rest);
  }

  lemma PageBoundary(addr: nat)
    requires addr % PAGE == 0
    ensures Boundary(addr) == addr + PAGE
  {
  }

  /** The stack goes into the last block, one page behind its start. */
  lemma LastPlaced(base: nat, size: nat, n: nat)
    requires Room(base, size, n + 1)
    ensures var b := Last(base, size, n);
      && Fits(b, Rounded(STACK_SIZE), true) && Pointer(b, true) == base + PAGE + STRIDE * n
      && Place(b, Rounded(STACK_SIZE), true)
           == [Block(base + STRIDE * n, PAGE - HDR, false), StackAt(base, n), Last(base, size, n + 1)]
  {
    PageBoundary(base + STRIDE * n);
    hide Boundary;
  }

  /** A block at the end of the list that is the first to fit. */
  lemma LastFits(xs: Heap, b: Block, need: nat, align: bool)
    requires (forall j :: 0 <= j < |xs| ==> !Fits(xs[j], need, align)) && Fits(b, need, align) && Pointer(b, align) != 0
    ensures Alloc(xs + [b], need, align) == (Pointer(b, align), xs + Place(b, need, align))
    ensures Found(xs + [b], need, align) == Taken(b, need, align)
  {
    hide Fits, Place, Pointer, Taken;
    AllocSkips(xs, [b], need, align);
    assert [b][1..] == [] && Place(b, need, align) + [] == Place(b, need, align);
  }

  /** Everything in front of the last block is too small for a stack. */
  function Front(base: nat, n: nat): Heap
    requires n < 59
  {
    Structs(base, n + 1) + ([Gap(base, n + 1)] + Stacks(base, n))
  }

  lemma NoneFitsFront(base: nat, n: nat)
    requires n < 59
    ensures forall j :: 0 <= j < |Front(base, n)| ==> !Fits(Front(base, n)[j], Rounded(STACK_SIZE), true)
  {
    var xs, g, ys := Structs(base, n + 1), Gap(base, n + 1), Stacks(base, n);
    NoneFitsStructs(base, n + 1, Rounded(STACK_SIZE), true);
    NoneFitsStacks(base, n);
    assert !Fits(g, Rounded(STACK_SIZE), true);
    hide Fits, Structs, Stacks, Gap;
  }

  lemma FrontAndLast(base: nat, size: nat, n: nat)
    requires Room(base, size, n + 1) && n > 0
    ensures Front(base, n) + [Last(base, size, n)]
         == Structs(base, n + 1) + ([Gap(base, n + 1)] + (Stacks(base, n) + [Last(base, size, n)]))
    ensures Front(base, n) + [Block(base + STRIDE * n, PAGE - HDR, false), StackAt(base, n), Last(base, size, n + 1)]
         == Layout(base, size, n + 1)
  {
    var xs, ys, z := Structs(base, n + 1), Stacks(base, n), Last(base, size, n + 1);
    var two := [Block(base + STRIDE * n, PAGE - HDR, false), StackAt(base, n)];
    assert Stacks(base, n + 1) == ys + two;
    assert xs + ([Gap(base, n + 1)] + ys) + (two + [z]) == xs + ([Gap(base, n + 1)] + (ys + two + [z]));
    assert two + [z] == [two[0], two[1], z];
  }

  lemma NextStack(base: nat, size: nat, n: nat)
    requires Room(base, size, n + 1) && n > 0
    ensures var bs := Front(base, n) + [Last(base, size, n)];
      && Alloc(bs, Rounded(STACK_SIZE), true) == (base + PAGE + STRIDE * n, Layout(base, size, n + 1))
      && Found(bs, Rounded(STACK_SIZE), true) == StackAt(base, n)
  {
    hide Fits, Place, Pointer, Boundary, Front, Layout, Alloc, Found;
    NoneFitsFront(base, n);
    LastPlaced(base, size, n);
    LastFits(Front(base, n), Last(base, size, n), Rounded(STACK_SIZE), true);
    FrontAndLast(base, size, n);
  }

  /** The first creation starts from one block. */
  lemma FirstTask(base: nat, size: nat)
    requires Room(base, size, 1)
    ensures WithTask(Layout(base, size, 0)) == (base + HDR, [StructAt(base, 0), Behind(base, size)])
    ensures Found(Layout(base, size, 0), Rounded(TASK_SIZE), false) == StructAt(base, 0)
    ensures var bs := [StructAt(base, 0), Behind(base, size)];
      && Alloc(bs, Rounded(STACK_SIZE), true) == (base + PAGE, Layout(base, size, 1))
      && Found(bs, Rounded(STACK_SIZE), true) == StackAt(base, 0)
  {
    hide Boundary, Alloc, Found;
    var b, rest := Block(base, size, false), Behind(base, size);
    LastFits([], b, Rounded(TASK_SIZE), false);
    assert [] + [b] == [b] == Layout(base, size, 0);
    assert Place(b, Rounded(TASK_SIZE), false) == [StructAt(base, 0), rest];
    assert [] + Place(b, Rounded(TASK_SIZE), false) == Place(b, Rounded(TASK_SIZE), false);
    BehindPlaced(base, size);
    LastFits([StructAt(base, 0)], rest, Rounded(STACK_SIZE), true);
    assert [StructAt(base, 0)] + [rest] == [StructAt(base, 0), rest];
  }

  /** What the first structure leaves. */
  function Behind(base: nat, size: nat): Block
    requires size > STRUCT
  {
    Block(base + STRUCT, size - STRUCT, false)
  }

  lemma BehindPlaced(base: nat, size: nat)
    requires Room(base, size, 1)
    ensures var b := Behind(base, size);
      && Fits(b, Rounded(STACK_SIZE), true) && Pointer(b, true) == base + PAGE
      && Place(b, Rounded(STACK_SIZE), true) == [Gap(base, 1), StackAt(base, 0), Last(base, size, 1)]
      && [StructAt(base, 0)] + Place(b, Rounded(STACK_SIZE), true) == Layout(base, size, 1)
  {
    assert Boundary(base + STRUCT) == base + PAGE;
    hide Boundary;
    assert Structs(base, 1) == [StructAt(base, 0)] by { assert Structs(base, 0) == []; }
    assert Stacks(base, 1) + [Last(base, size, 1)] == [StackAt(base, 0), Last(base, size, 1)];
  }

  /** One more creation: both blocks, and the layout. */
  lemma NextTask(base: nat, size: nat, n: nat)
    requires Room(base, size, n + 1)
    ensures var bs := Layout(base, size, n);
      && Possible(bs) && WithStack(bs).1 == Layout(base, size, n + 1)
      && Found(bs, Rounded(TASK_SIZE), false) == StructAt(base, n)
      && Found(WithTask(bs).1, Rounded(STACK_SIZE), true) == StackAt(base, n)
  {
    hide Alloc, Found, Layout, Structs, Stacks;
    if n == 0 {
      FirstTask(base, size);
    } else {
      LayoutIs(base, size, n);
      NextStruct(base, n, Stacks(base, n) + [Last(base, size, n)]);
      FrontAndLast(base, size, n);
      NextStack(base, size, n);
    }
  }

  lemma LayoutIs(base: nat, size: nat, n: nat)
    requires Room(base, size, n) && n > 0
    ensures Layout(base, size, n) == Structs(base, n) + ([Gap(base, n)] + (Stacks(base, n) + [Last(base, size, n)]))
  {
  }

  // ---------------------------------------------------------------- on runs of the kernel

  /** create_kernel_task, `m` times from task `n` on, by the idle task, which is task 0. */
  function Creations(n: nat, m: nat): seq<K.Event<nat>>
    decreases m
  {
    if m == 0 then [] else [K.Sched(Create(n))] + Creations(n + 1, m - 1)
  }

  /** After n creations, sched_init's included. */
  ghost predicate Grown(k: K.Kernel<nat>, base: nat, size: nat, n: nat)
    requires Room(base, size, n)
  {
    && K.Inv(k, 0, base, base + size) && k.sys.core.running == 0 && 0 in k.sys.phase && k.sys.phase[0] == Code
    && (forall i: nat :: i in k.sys.core.states ==> i < n) && k.sys.core.freed == {}
    && k.heap.blocks == Layout(base, size, n)
    && forall i: nat :: i < n ==> i in k.owner && k.owner[i] == K.Holding(StructAt(base, i), StackAt(base, i))
  }

  lemma GrownNext(k: K.Kernel<nat>, base: nat, size: nat, n: nat)
    requires Room(base, size, n + 1) && n > 0 && Grown(k, base, size, n)
    ensures K.Allowed(k, 0, K.Sched(Create(n))) && K.After(k, K.Sched(Create(n))).Next?
    ensures Grown(K.After(k, K.Sched(Create(n))).value, base, size, n + 1)
  {
    hide Layout, SysInv, H.Inv, K.Apart;
    NextTask(base, size, n);
    K.AllocOneKeeps(k.heap, base, base + size);
    K.SchedKeeps(k, 0, base, base + size, Create(n));
  }

  lemma {:induction false} CreationsGrow(k: K.Kernel<nat>, base: nat, size: nat, n: nat, m: nat)
    requires n > 0 && Room(base, size, n + m) && Grown(k, base, size, n)
    ensures K.AllowedRun(k, 0, Creations(n, m)) && K.KernelRun(k, Creations(n, m)).Next?
    ensures Grown(K.KernelRun(k, Creations(n, m)).value, base, size, n + m)
    decreases m
  {
    hide Grown, K.After, K.Allowed;
    if m > 0 {
      GrownNext(k, base, size, n);
      var es, rest := Creations(n, m), Creations(n + 1, m - 1);
      assert es[0] == K.Sched(Create(n)) && es[1..] == rest;
      var k' := K.After(k, es[0]).value;
      CreationsGrow(k', base, size, n + 1, m - 1);
      assert K.KernelRun(k, es) == K.KernelRun(k', rest);
    }
  }

  lemma FreshGrown(base: nat, size: nat)
    requires Room(base, size, 1)
    ensures H.Inv(H.Fresh(base, size), base, base + size) && Possible(H.Fresh(base, size).blocks)
    ensures Grown(K.Booted<nat>(H.Fresh(base, size), 0), base, size, 1)
  {
    hide SysInv, K.Apart, Possible, Alloc, Found, Tiles, Coalesced, Used;
    var h := H.Fresh(base, size);
    Unroll(h.blocks);
    assert h.blocks == Layout(base, size, 0);
    NextTask(base, size, 0);
    K.BootedInv<nat>(h, 0, base, base + size);
    K.AllocOneKeeps(h, base, base + size);
    var k := K.Booted<nat>(h, 0);
    assert k.heap.blocks == Layout(base, size, 1);
    assert k.owner[0] == K.Holding(StructAt(base, 0), StackAt(base, 0));
    assert k.sys.core.running == 0 && k.sys.phase[0] == Code && k.sys.core.freed == {};
  }

  lemma ClashOf(e: K.Kernel<nat>, base: nat, size: nat, n: nat, k: nat, u: nat)
    requires Room(base, size, n) && k + 3 == u < n && Grown(e, base, size, n)
    ensures k in e.owner && u in e.owner
    ensures var mine, other := e.owner[k].stack, e.owner[u].stack;
      && K.Disjoint(mine, other) && InData(other, Pushed(mine.addr + HDR))
      && !Harmless(e.heap.blocks, base, base + size, Pushed(mine.addr + HDR))
  {
    hide Layout, SysInv, Harmless;
    var mine, other := e.owner[k].stack, e.owner[u].stack;
    assert other == StackAt(base, u) && mine == StackAt(base, k);
    assert other in e.heap.live;
    HarmfulIfMet(e.heap.blocks, base, base + size, Pushed(mine.addr + HDR), other);
  }

  /** On a fresh heap that starts on a page, create tasks one after the other.  The blocks of
      tasks k and k + 3 are apart, as all are, yet every word pushed for task k lies in the
      stack block of task k + 3: what task k runs on is memory of task k + 3, and freed with
      it. */
  lemma StacksClash(base: nat, size: nat, n: nat, k: nat, u: nat)
    requires Room(base, size, n) && k + 3 == u < n
    ensures Possible(H.Fresh(base, size).blocks)
    ensures K.AllowedRun(K.Booted<nat>(H.Fresh(base, size), 0), 0, Creations(1, n - 1))
    ensures var o := K.KernelRun(K.Booted<nat>(H.Fresh(base, size), 0), Creations(1, n - 1));
      && o.Next? && k in o.value.owner && u in o.value.owner
      && var mine, other := o.value.owner[k].stack, o.value.owner[u].stack;
         K.Disjoint(mine, other) && InData(other, Pushed(mine.addr + HDR))
         && !Harmless(o.value.heap.blocks, base, base + size, Pushed(mine.addr + HDR))
  {
    hide Layout, K.KernelRun, K.AllowedRun, Creations, K.Booted, H.Fresh, Possible, Grown, Harmless;
    FreshGrown(base, size);
    var k0 := K.Booted<nat>(H.Fresh(base, size), 0);
    CreationsGrow(k0, base, size, 1, n - 1);
    ClashOf(K.KernelRun(k0, Creations(1, n - 1)).value, base, size, n, k, u);
  }
}

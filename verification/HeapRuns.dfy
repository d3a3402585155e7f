/**
  The kernel heap over whole runs of kmalloc, kmalloc_a and kfree (kernel/kalloc.c:87-261):
  safety of every live allocation, full defragmentation, and when the aligned search loop
  of the source comes to an end.
 */
module HeapRuns {
  import opened Words
  import opened Lists
  import opened Results
  import opened Blocks
  import L = LargeRequests

  /** A client names an allocation by its block; the pointer it holds is `addr + HDR`. */
  datatype Op = Malloc(size: Word) | MallocAligned(size: Word) | ReleaseNull | Release(block: Block)

  /** The blocks, and for each allocation not yet freed the bytes that were asked for. */
  datatype State = State(blocks: Heap, live: map<Block, nat>)

  function Take(s: State, size: nat, align: bool): State {
    if size == 0 || Alloc(s.blocks, Rounded(size), align).0 == 0 then s
    else
      State(Alloc(s.blocks, Rounded(size), align).1, s.live[Found(s.blocks, Rounded(size), align) := size])
  }

  function Step(s: State, op: Op): State {
    match op
    case Malloc(n) => Take(s, n, false)
    case MallocAligned(n) => Take(s, n, true)
    case ReleaseNull => s
    case Release(b) => State(Free(s.blocks, b.addr), s.live - {b})
  }

  /** Clients free null or what they hold. */
  predicate Legal(s: State, op: Op) {
    op.Release? ==> op.block in s.live
  }

  function Run(s: State, ops: seq<Op>): State
    decreases |ops|
  {
    if ops == [] then s else Run(Step(s, ops[0]), ops[1..])
  }

  predicate LegalRun(s: State, ops: seq<Op>)
    decreases |ops|
  {
    ops == [] || (Legal(s, ops[0]) && LegalRun(Step(s, ops[0]), ops[1..]))
  }

  ghost predicate Inv(s: State, base: nat, end: nat) {
    && Tiles(s.blocks, base, end) && Coalesced(s.blocks)
    && s.live.Keys == Used(s.blocks)
    && (forall b :: b in s.live ==> b.size >= HDR + s.live[b])
  }

  lemma TakeKeeps(s: State, base: nat, end: nat, size: nat, align: bool)
    requires Inv(s, base, end)
    ensures Inv(Take(s, size, align), base, end)
  {
    hide Tiles, Coalesced, Used;
    if size > 0 && Alloc(s.blocks, Rounded(size), align).0 != 0 {
      AllocKeeps(s.blocks, base, end, Rounded(size), align);
      AllocUsed(s.blocks, base, end, Rounded(size), align);
    }
  }

  /** A call that succeeds grants a new block with all the bytes asked for and takes nothing
      from anybody; one that fails, exactly when nothing fits, changes nothing. */
  lemma TakeGrants(s: State, base: nat, end: nat, size: nat, align: bool)
    requires Inv(s, base, end)
    ensures var t := Take(s, size, align);
      var fits := exists j :: 0 <= j < |s.blocks| && Fits(s.blocks[j], Rounded(size), align);
      && (size == 0 || !fits ==> t == s)
      && (size > 0 && fits ==>
            exists b :: b !in s.live && t.live == s.live[b := size] && HDR + size <= b.size <= size + 3 + 2 * HDR
              && (align ==> (b.addr + HDR) % PAGE == 0))
  {
    hide Tiles, Coalesced, Used, Fits;
    AllocFailsIff(s.blocks, Rounded(size), align);
    if size > 0 && Alloc(s.blocks, Rounded(size), align).0 != 0 {
      AllocUsed(s.blocks, base, end, Rounded(size), align);
      LittleLost(s.blocks, size, align);
      assert Take(s, size, align).live == s.live[Found(s.blocks, Rounded(size), align) := size];
    }
  }

  lemma ReleaseKeeps(s: State, base: nat, end: nat, b: Block)
    requires Inv(s, base, end) && b in s.live
    ensures Inv(Step(s, Release(b)), base, end)
  {
    hide Tiles, Coalesced, Used, Free;
    FreeKeeps(s.blocks, base, end, b.addr);
    FreeUsed(s.blocks, base, end, b);
  }

  lemma StepKeeps(s: State, base: nat, end: nat, op: Op)
    requires Inv(s, base, end) && Legal(s, op)
    ensures Inv(Step(s, op), base, end)
  {
    match op
    case Malloc(n) => TakeKeeps(s, base, end, n, false);
    case MallocAligned(n) => TakeKeeps(s, base, end, n, true);
    case ReleaseNull =>
    case Release(b) => ReleaseKeeps(s, base, end, b);
  }

  lemma {:induction false} RunKeeps(s: State, base: nat, end: nat, ops: seq<Op>)
    requires Inv(s, base, end) && LegalRun(s, ops)
    ensures Inv(Run(s, ops), base, end)
    decreases |ops|
  {
    if ops != [] {
      StepKeeps(s, base, end, ops[0]);
      RunKeeps(Step(s, ops[0]), base, end, ops[1..]);
    }
  }

  // -------------------------------------------------------------- from kheap_init on

  function Fresh(base: nat, size: nat): State {
    State([Block(base, size, false)], map[])
  }

  /** From kheap_init on, whatever is allocated and freed, the blocks tile the heap, no two
      free ones touch, and the sizes add up to what the heap was given. */
  lemma HeapSafe(base: nat, size: nat, ops: seq<Op>)
    requires size >= HDR && LegalRun(Fresh(base, size), ops)
    ensures Inv(Run(Fresh(base, size), ops), base, base + size)
    ensures TotalSize(Run(Fresh(base, size), ops).blocks) == size
  {
    Unroll([Block(base, size, false)]);
    RunKeeps(Fresh(base, size), base, base + size, ops);
    TilesFacts(Run(Fresh(base, size), ops).blocks, base, base + size);
  }

  // ---------------------------------------------------------- safety of allocations

  lemma {:induction false} BlocksApart(bs: Heap, base: nat, end: nat, i: nat, j: nat)
    requires Tiles(bs, base, end) && i < |bs| && j < |bs| && i != j
    ensures base <= bs[i].addr && bs[i].addr + bs[i].size <= end && bs[i].size >= HDR
    ensures if i < j then bs[i].addr + bs[i].size <= bs[j].addr else bs[j].addr + bs[j].size <= bs[i].addr
    decreases i + j
  {
    var tail, mid := bs[1..], base + bs[0].size;
    if i > 0 && j > 0 {
      BlocksApart(tail, mid, end, i - 1, j - 1);
    } else {
      AddressBounds(tail, mid, end, i + j - 1);
      assert tail[i + j - 1] == bs[i + j];
    }
  }

  lemma {:induction false} AddressBounds(bs: Heap, base: nat, end: nat, i: nat)
    requires Tiles(bs, base, end) && i < |bs|
    ensures base <= bs[i].addr && bs[i].addr + bs[i].size <= end && bs[i].size >= HDR
    decreases i
  {
    if i > 0 {
      AddressBounds(bs[1..], base + bs[0].size, end, i - 1);
    } else {
      TilesFacts(bs[1..], base + bs[0].size, end);
    }
  }

  /** A live allocation lies inside the heap, behind its own header, with all the bytes
      asked for, and every other block lies wholly before it or wholly behind it. */
  lemma LiveSafe(s: State, base: nat, end: nat, b: Block, i: nat)
    requires Inv(s, base, end) && b in s.live && i < |s.blocks|
    ensures var p, c := b.addr + HDR, s.blocks[i];
      && base + HDR <= p && p + s.live[b] <= end
      && (c == b || p + s.live[b] <= c.addr || c.addr + c.size <= b.addr)
  {
    var k := Position(s.blocks, b);
    AddressBounds(s.blocks, base, end, k);
    if k != i {
      BlocksApart(s.blocks, base, end, k, i);
    }
  }

  /** Two live allocations never overlap. */
  lemma LiveDisjoint(s: State, base: nat, end: nat, b: Block, c: Block)
    requires Inv(s, base, end) && b in s.live && c in s.live && b != c
    ensures b.addr + HDR + s.live[b] <= c.addr || c.addr + HDR + s.live[c] <= b.addr
  {
    var i := Position(s.blocks, c);
    LiveSafe(s, base, end, b, i);
  }

  /** What is live stays where it is until it is freed. */
  lemma LiveStays(s: State, base: nat, end: nat, op: Op, b: Block)
    requires Inv(s, base, end) && Legal(s, op) && b in s.live && op != Release(b)
    ensures b in Step(s, op).live && b in Used(Step(s, op).blocks)
    ensures Step(s, op).live[b] == s.live[b]
  {
    StepKeeps(s, base, end, op);
    hide Tiles, Coalesced, Used;
    if op.Malloc? && op.size > 0 && Alloc(s.blocks, Rounded(op.size), false).0 != 0 {
      AllocUsed(s.blocks, base, end, Rounded(op.size), false);
    } else if op.MallocAligned? && op.size > 0 && Alloc(s.blocks, Rounded(op.size), true).0 != 0 {
      AllocUsed(s.blocks, base, end, Rounded(op.size), true);
    }
  }

  // -------------------------------------------------------------- defragmentation

  /** A block at the start of the heap is the first block. */
  lemma FirstUsed(bs: Heap, base: nat, end: nat, b: Block)
    requires Tiles(bs, base, end) && b in Used(bs)
    ensures bs != [] && base <= b.addr && (b.addr == base ==> bs[0] == b)
    ensures !bs[0].used ==> |bs| > 1 && bs[1].addr <= b.addr
  {
    var i := Position(bs, b);
    AddressBounds(bs, base, end, i);
    if i > 0 {
      AddressBounds(bs[1..], base + bs[0].size, end, i - 1);
    }
  }

  lemma TailUsed(bs: Heap, base: nat, end: nat)
    requires Tiles(bs, base, end) && bs != []
    ensures Used(bs[1..]) == Used(bs) - {bs[0]}
  {
    TilesFacts(bs[1..], base + bs[0].size, end);
  }

  /** Behind a free block comes a used one, or the end. */
  lemma SecondUsed(bs: Heap, base: nat, end: nat)
    requires Tiles(bs, base, end) && Coalesced(bs) && bs != [] && !bs[0].used
    ensures |bs| == 1 ==> base + bs[0].size == end
    ensures |bs| > 1 ==> bs[1] in Used(bs) && bs[1].addr == base + bs[0].size
  {
    if |bs| > 1 {
      assert bs[1..][0] == bs[1] && bs[1] in Used(bs[1..]);
    }
  }

  lemma SameFirst(a: Heap, b: Heap, base: nat, end: nat)
    requires Tiles(a, base, end) && Tiles(b, base, end) && Coalesced(a) && Coalesced(b)
    requires Used(a) == Used(b) && base < end
    ensures a != [] && b != [] && a[0] == b[0]
  {
    if a[0].used {
      FirstUsed(b, base, end, a[0]);
    } else if b[0].used {
      FirstUsed(a, base, end, b[0]);
    } else {
      SecondUsed(a, base, end);
      SecondUsed(b, base, end);
      if |a| > 1 {
        FirstUsed(b, base, end, a[1]);
      }
      if |b| > 1 {
        FirstUsed(a, base, end, b[1]);
      }
    }
  }

  /** There is one fully merged heap for each set of used blocks: how it came about, in what
      order things were allocated and freed, leaves no trace. */
  lemma {:induction false} UsedDetermines(a: Heap, b: Heap, base: nat, end: nat)
    requires Tiles(a, base, end) && Tiles(b, base, end) && Coalesced(a) && Coalesced(b)
    requires Used(a) == Used(b)
    ensures a == b
  {
    TilesFacts(a, base, end);
    TilesFacts(b, base, end);
    if base < end {
      SameFirst(a, b, base, end);
      TailUsed(a, base, end);
      TailUsed(b, base, end);
      UsedDetermines(a[1..], b[1..], base + a[0].size, end);
    } else {
      assert a == [] && b == [];
    }
  }

  lemma OneFreeBlock(bs: Heap, base: nat, end: nat)
    requires Tiles(bs, base, end) && Coalesced(bs) && Used(bs) == {} && base < end
    ensures bs == [Block(base, end - base, false)]
  {
    assert bs[0] !in Used(bs);
    assert bs[1..] == [];
  }

  /** Whatever the order of the frees, once nothing is live the heap is one free block of
      the original size. */
  lemma FullyDefragments(base: nat, size: nat, ops: seq<Op>)
    requires size >= HDR && LegalRun(Fresh(base, size), ops)
    requires Run(Fresh(base, size), ops).live == map[]
    ensures Run(Fresh(base, size), ops) == Fresh(base, size)
  {
    HeapSafe(base, size, ops);
    OneFreeBlock(Run(Fresh(base, size), ops).blocks, base, base + size);
  }

  function ReleaseAll(bs: seq<Block>): seq<Op> {
    if bs == [] then [] else [Release(bs[0])] + ReleaseAll(bs[1..])
  }

  /** In particular, freeing the live allocations of any reachable heap in any order. */
  lemma {:induction false} ReleaseAllEmpties(s: State, base: nat, end: nat, bs: seq<Block>)
    requires Inv(s, base, end) && base < end && NoDup(bs) && Elems(bs) == s.live.Keys
    ensures LegalRun(s, ReleaseAll(bs))
    ensures Run(s, ReleaseAll(bs)) == Fresh(base, end - base)
    decreases |bs|
  {
    hide Tiles, Coalesced, Used, Free;
    if bs == [] {
      OneFreeBlock(s.blocks, base, end);
    } else {
      var t := Step(s, Release(bs[0]));
      ReleaseKeeps(s, base, end, bs[0]);
      assert t.live.Keys == Elems(bs[1..]);
      ReleaseAllEmpties(t, base, end, bs[1..]);
      var ops := ReleaseAll(bs);
      assert ops[0] == Release(bs[0]) && ops[1..] == ReleaseAll(bs[1..]);
    }
  }

  // ------------------------------------------------- the aligned search as written

  /** Line 108 alone: big enough before the boundary is looked at. */
  predicate BigEnough(b: Block, need: nat) {
    Fits(b, need, false)
  }

  /** Where the loop at lines 101-158 stands when align is set: about to look at block
      `i`, or returned. */
  datatype Search = At(i: nat) | Returned(ptr: nat)

  /** One iteration as the source has it: the `continue` at line 121 does not advance. */
  function Iterate(bs: Heap, need: nat, st: Search): Search {
    match st
    case Returned(_) => st
    case At(i) =>
      if i >= |bs| then Returned(0)
      else if !BigEnough(bs[i], need) then At(i + 1)
      else if Fits(bs[i], need, true) then Returned(Pointer(bs[i], true))
      else At(i)
  }

  function After(bs: Heap, need: nat, n: nat): Search {
    if n == 0 then At(0) else Iterate(bs, need, After(bs, need, n - 1))
  }

  /** `k` is the first block that is big enough, or the end of the list. */
  ghost predicate FirstBig(bs: Heap, need: nat, k: nat) {
    && k <= |bs| && (forall j :: 0 <= j < k ==> !BigEnough(bs[j], need))
    && (k < |bs| ==> BigEnough(bs[k], need))
  }

  /** The first block that is big enough, if any, also has room behind its page boundary. */
  ghost predicate Ends(bs: Heap, need: nat) {
    forall k: nat :: FirstBig(bs, need, k) && k < |bs| ==> Fits(bs[k], need, true)
  }

  lemma {:induction false} Arrives(bs: Heap, need: nat, k: nat, n: nat)
    requires FirstBig(bs, need, k) && n <= k
    ensures After(bs, need, n) == At(n)
  {
    if n > 0 {
      Arrives(bs, need, k, n - 1);
    }
  }

  lemma {:induction false} Sticks(bs: Heap, need: nat, k: nat, n: nat)
    requires FirstBig(bs, need, k) && k < |bs| && !Fits(bs[k], need, true)
    ensures After(bs, need, n) == At(if n < k then n else k)
  {
    if n <= k {
      Arrives(bs, need, k, n);
    } else {
      Sticks(bs, need, k, n - 1);
    }
  }

  lemma {:induction false} FirstBigExists(bs: Heap, need: nat, from: nat) returns (k: nat)
    requires from <= |bs| && forall j :: 0 <= j < from ==> !BigEnough(bs[j], need)
    ensures FirstBig(bs, need, k)
    decreases |bs| - from
  {
    if from < |bs| && !BigEnough(bs[from], need) {
      k := FirstBigExists(bs, need, from + 1);
    } else {
      k := from;
    }
  }

  /** The exact condition: the loop as written comes to an end if and only if the first
      block that is big enough also has room behind its page boundary (or there is none),
      and then it returns what the search that moves on returns. */
  lemma AlignedSearchEndsIff(bs: Heap, need: nat)
    ensures (exists n: nat :: After(bs, need, n).Returned?) <==> Ends(bs, need)
    ensures forall n: nat :: After(bs, need, n).Returned? ==> After(bs, need, n).ptr == Alloc(bs, need, true).0
  {
    var k := FirstBigExists(bs, need, 0);
    if k < |bs| && !Fits(bs[k], need, true) {
      forall n: nat ensures !After(bs, need, n).Returned? {
        Sticks(bs, need, k, n);
      }
      assert !Ends(bs, need);
    } else {
      Arrives(bs, need, k, k);
      var f := AllocFirstFit(bs, need, true);
      assert f == k;
      assert After(bs, need, k + 1) == Returned(Alloc(bs, need, true).0);
      assert After(bs, need, k + 1).Returned?;
      forall n: nat | After(bs, need, n).Returned? ensures After(bs, need, n) == After(bs, need, k + 1) {
        if n <= k {
          Arrives(bs, need, k, n);
        } else {
          Stays(bs, need, k + 1, n);
        }
      }
      forall k': nat | FirstBig(bs, need, k') && k' < |bs| ensures Fits(bs[k'], need, true) {
        assert k' == k;
      }
      assert Ends(bs, need);
    }
  }

  /** Three calls on a fresh heap that leave a free block which is big enough for 100 bytes
      but ends before the next page boundary, with plenty of room further on. */
  function ThreeCalls(): seq<Op> {
    [Malloc(180), Malloc(80), Release(Block(0xC0200000, 200, true))]
  }

  lemma ThreeCallsLead()
    ensures var s := Fresh(0xC0200000, 0x100000 + 300);
      && LegalRun(s, ThreeCalls())
      && Run(s, ThreeCalls()).blocks
           == [Block(0xC0200000, 200, false), Block(0xC02000C8, 100, true), Block(0xC020012C, 0x100000, false)]
  {
    var one, two := Block(0xC0200000, 200, true), Block(0xC02000C8, 100, true);
    var rest, last := Block(0xC02000C8, 0x100000 + 100, false), Block(0xC020012C, 0x100000, false);
    var s, ops := Fresh(0xC0200000, 0x100000 + 300), ThreeCalls();
    var s1 := State([one, rest], map[one := 180]);
    assert Step(s, ops[0]) == s1;
    assert s1.blocks[1..] == [rest] && Place(rest, 80, false) == [two, last] && [rest][1..] == [];
    assert Alloc([rest], 80, false).1 == [two, last] && Found([rest], 80, false) == two;
    var s2 := State([one, two, last], map[one := 180, two := 80]);
    assert [one] + [two, last] == s2.blocks;
    assert Step(s1, ops[1]) == s2;
    var bs := [one.(used := false), two, last];
    assert s2.blocks[1..] == [two, last] && [one.(used := false)] + [two, last] == bs;
    var s3 := Step(s2, ops[2]);
    assert s3.blocks == bs;
    assert ops[1..] == [ops[1], ops[2]] && ops[1..][1..] == [ops[2]] && ops[1..][1..][1..] == [];
    assert Run(s1, ops[1..]) == Run(s2, ops[1..][1..]) == s3;
  }

  /** After them the loop as written never ends, although the request can be met. */
  lemma AlignedSearchHangs(n: nat)
    ensures var s := Fresh(0xC0200000, 0x100000 + 300);
      && LegalRun(s, ThreeCalls())
      && After(Run(s, ThreeCalls()).blocks, 100, n) == At(0)
      && Alloc(Run(s, ThreeCalls()).blocks, 100, true).0 == 0xC0201000
  {
    hide ThreeCalls, Run, LegalRun, Fresh;
    ThreeCallsLead();
    var bs := [Block(0xC0200000, 200, false), Block(0xC02000C8, 100, true), Block(0xC020012C, 0x100000, false)];
    Sticks(bs, 100, 0, n);
    var k := AllocFirstFit(bs, 100, true);
    assert !Fits(bs[0], 100, true) && !Fits(bs[1], 100, true) && Fits(bs[2], 100, true);
  }

  lemma {:induction false} Stays(bs: Heap, need: nat, m: nat, n: nat)
    requires m <= n && After(bs, need, m).Returned?
    ensures After(bs, need, n) == After(bs, need, m)
  {
    if m < n {
      Stays(bs, need, m, n - 1);
    }
  }

  // ------------------------------------------------ whole runs of the search as written

  /** kmalloc_a as written, along the list; None if the loop never ends. */
  function AllocAsWritten(bs: Heap, need: nat): Option<(nat, Heap)> {
    if bs == [] then Some((0, []))
    else if !BigEnough(bs[0], need) then
      match AllocAsWritten(bs[1..], need)
      case None => None
      case Some((p, r)) => Some((p, [bs[0]] + r))
    else if Fits(bs[0], need, true) then Some((Pointer(bs[0], true), Place(bs[0], need, true) + bs[1..]))
    else None
  }

  lemma {:induction false} AllocAsWrittenIff(bs: Heap, need: nat)
    ensures AllocAsWritten(bs, need) == if Ends(bs, need) then Some(Alloc(bs, need, true)) else None
  {
    if bs != [] {
      if BigEnough(bs[0], need) {
        assert FirstBig(bs, need, 0);
      } else {
        AllocAsWrittenIff(bs[1..], need);
        EndsTail(bs, need);
      }
    }
  }

  lemma EndsTail(bs: Heap, need: nat)
    requires bs != [] && !BigEnough(bs[0], need)
    ensures Ends(bs, need) <==> Ends(bs[1..], need)
  {
    var k := FirstBigExists(bs, need, 0);
    assert FirstBig(bs[1..], need, k - 1);
    forall j: nat | FirstBig(bs, need, j) ensures j == k {
    }
    forall j: nat | FirstBig(bs[1..], need, j) ensures j == k - 1 {
      assert forall i :: 0 <= i < |bs[1..]| ==> bs[1..][i] == bs[i + 1];
    }
  }

  /** The blocks after one call, with the search as written. */
  function StepAsWritten(bs: Heap, op: Op): Option<Heap> {
    match op
    case Malloc(n) => Some(if n == 0 then bs else Alloc(bs, Rounded(n), false).1)
    case MallocAligned(n) =>
      (if n == 0 then Some(bs)
       else match AllocAsWritten(bs, Rounded(n))
         case None => None
         case Some((_, r)) => Some(r))
    case ReleaseNull => Some(bs)
    case Release(b) => Some(Free(bs, b.addr))
  }

  function RunAsWritten(bs: Heap, ops: seq<Op>): Option<Heap>
    decreases |ops|
  {
    if ops == [] then Some(bs)
    else match StepAsWritten(bs, ops[0])
      case None => None
      case Some(r) => RunAsWritten(r, ops[1..])
  }

  /** Every aligned request of the run finds a heap on which the search ends. */
  ghost predicate RunEnds(s: State, ops: seq<Op>)
    decreases |ops|
  {
    ops == [] ||
    ((ops[0].MallocAligned? && ops[0].size > 0 ==> Ends(s.blocks, Rounded(ops[0].size))) &&
     RunEnds(Step(s, ops[0]), ops[1..]))
  }

  lemma StepAsWrittenIff(s: State, op: Op)
    ensures StepAsWritten(s.blocks, op) ==
      if op.MallocAligned? && op.size > 0 && !Ends(s.blocks, Rounded(op.size)) then None else Some(Step(s, op).blocks)
  {
    match op
    case Malloc(n) => AllocFailsIff(s.blocks, Rounded(n), false);
    case MallocAligned(n) =>
      AllocAsWrittenIff(s.blocks, Rounded(n));
      AllocFailsIff(s.blocks, Rounded(n), true);
    case _ =>
  }

  /** The heap with the search as written gets through a run exactly if each of its aligned
      searches ends, and is then block by block the heap of the theorems above. */
  lemma {:induction false} AsWrittenRunsIff(s: State, ops: seq<Op>)
    ensures RunAsWritten(s.blocks, ops) == if RunEnds(s, ops) then Some(Run(s, ops).blocks) else None
    decreases |ops|
  {
    if ops != [] {
      StepAsWrittenIff(s, ops[0]);
      AsWrittenRunsIff(Step(s, ops[0]), ops[1..]);
    }
  }

  // -------------------------------------------------------- whole runs in 32-bit arithmetic

  /** The condition of LargeRequests on the search is the one above where sums do not wrap. */
  lemma {:induction false} StopsIsEnds(bs: Heap, size: Word)
    requires L.Low(bs) && !L.Wraps(size)
    ensures L.Stops(bs, size, true) <==> Ends(bs, Rounded(size))
  {
    AllocAsWrittenIff(bs, Rounded(size));
    if bs != [] {
      L.SameTest(bs[0], size, true);
      L.SameTest(bs[0], size, false);
      StopsIsEnds(bs[1..], size);
      AllocAsWrittenIff(bs[1..], Rounded(size));
      hide Ends;
    }
  }

  /** The blocks after one call, with all sums in 32 bits; None is the null write. */
  function Step32(bs: Heap, op: Op): Option<Heap> {
    match op
    case ReleaseNull => Some(bs)
    case Release(b) => Some(Free(bs, b.addr))
    case _ =>
      (if op.size == 0 then Some(bs)
       else match L.Alloc32(bs, op.size, op.MallocAligned?)
         case None => None
         case Some((_, r)) => Some(r))
  }

  function Run32(bs: Heap, ops: seq<Op>): Option<Heap>
    decreases |ops|
  {
    if ops == [] then Some(bs)
    else match Step32(bs, ops[0])
      case None => None
      case Some(r) => Run32(r, ops[1..])
  }

  /** Can be told before the call: it asks for nothing that wraps, or nothing passes anyway. */
  ghost predicate PlainOp(bs: Heap, op: Op) {
    (op.Malloc? || op.MallocAligned?) && op.size > 0 ==> L.Plain(bs, op.size, op.MallocAligned?)
  }

  /** One call in 32 bits does to the blocks what the model says if and only if it is plain. */
  lemma Step32Iff(s: State, op: Op)
    requires L.Low(s.blocks)
    ensures Step32(s.blocks, op) == Some(Step(s, op).blocks) <==> PlainOp(s.blocks, op)
  {
    if (op.Malloc? || op.MallocAligned?) && op.size > 0 {
      L.Alloc32Iff(s.blocks, op.size, op.MallocAligned?);
      AllocFailsIff(s.blocks, Rounded(op.size), op.MallocAligned?);
    }
  }

  ghost predicate PlainRun(s: State, ops: seq<Op>)
    decreases |ops|
  {
    ops == [] || (PlainOp(s.blocks, ops[0]) && PlainRun(Step(s, ops[0]), ops[1..]))
  }

  /** Runs of plain calls are the same in 32 bits. */
  lemma {:induction false} Runs32(s: State, base: nat, end: nat, ops: seq<Op>)
    requires Inv(s, base, end) && end + PAGE + 2 * HDR <= WORD && LegalRun(s, ops) && PlainRun(s, ops)
    ensures Run32(s.blocks, ops) == Some(Run(s, ops).blocks)
    decreases |ops|
  {
    if ops != [] {
      L.TilesLow(s.blocks, base, end);
      Step32Iff(s, ops[0]);
      StepKeeps(s, base, end, ops[0]);
      Runs32(Step(s, ops[0]), base, end, ops[1..]);
    }
  }
}

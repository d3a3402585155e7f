/**
  kernel/kalloc.c in its own form: headers at addresses in memory, linked by `prev` and
  `next`, split and merged in place.  Memory is a map from addresses to headers; a null
  pointer is 0.  The ghost list says which blocks the links thread together, and each
  method is proved to do to it what the function of Blocks does.
 */
module KernelHeap {
  import opened Words
  import opened Results
  import opened Blocks
  import opened LargeRequests

  const MAGIC: Word := 0xDEADBEEF

  datatype Header = Header(magic: Word, size: nat, inUse: bool, prev: nat, next: nat)

  ghost function HeaderOf(bs: Heap, i: nat): Header
    requires i < |bs|
  {
    Header(MAGIC, bs[i].size, bs[i].used,
           if i == 0 then 0 else bs[i - 1].addr, if i + 1 < |bs| then bs[i + 1].addr else 0)
  }

  ghost predicate HeaderAt(bs: Heap, mem: map<nat, Header>, i: nat)
    requires i < |bs|
  {
    bs[i].addr in mem && mem[bs[i].addr] == HeaderOf(bs, i)
  }

  /** Memory holds the headers of exactly this doubly linked list. */
  ghost predicate Threaded(bs: Heap, mem: map<nat, Header>) {
    forall i :: 0 <= i < |bs| ==> HeaderAt(bs, mem, i)
  }

  class KernelHeap {
    var kheap: nat
    var mem: map<nat, Header>
    ghost var blocks: Heap
    ghost var base: nat
    ghost var end: nat

    /** The heap is initialised, and page alignment near its end stays inside the address space. */
    ghost predicate Valid()
      reads this
    {
      && kheap == base && 0 < base < end && end + PAGE + 2 * HDR <= WORD
      && Tiles(blocks, base, end) && Threaded(blocks, mem)
    }

    constructor ()
      ensures kheap == 0
    {
      kheap, mem := 0, map[];
    }

    /** Lines 164-172. */
    method Init(start: nat, size: nat)
      requires start > 0 && size >= HDR && start + size + PAGE + 2 * HDR <= WORD
      modifies this
      ensures Valid() && blocks == [Block(start, size, false)] && base == start && end == start + size
    {
      kheap := start;
      mem := mem[start := Header(MAGIC, size, false, 0, 0)];
      blocks, base, end := [Block(start, size, false)], start, start + size;
      Unroll(blocks);
    }

    /** Lines 43-67; 0 if the cut point is not inside the data of the block. */
    method SplitBlock(h: nat, dist: nat, ghost i: nat) returns (n: nat)
      requires Valid() && i < |blocks| && h == blocks[i].addr
      modifies `mem, `blocks
      ensures Valid()
      ensures n == 0 <==> dist + HDR > old(blocks)[i].size || dist < HDR
      ensures n == 0 ==> blocks == old(blocks)
      ensures n != 0 ==>
        && n == h + dist
        && var b := old(blocks)[i];
           blocks == old(blocks)[..i] + [Block(h, dist, b.used), Block(h + dist, b.size - dist, b.used)]
             + old(blocks)[i + 1..]
    {
      ghost var bs, m := blocks, mem;
      Increasing(bs, base, end);
      assert HeaderAt(bs, mem, i);
      var b := mem[h];
      if dist + HDR > b.size || dist < HDR {
        return 0;
      }
      n := h + dist;
      mem := mem[n := Header(MAGIC, b.size - dist, b.inUse, h, b.next)];
      mem := mem[h := b.(size := dist, next := n)];
      if b.next != 0 {
        assert HeaderAt(bs, m, i + 1);
        mem := mem[b.next := mem[b.next].(prev := n)];
      }
      blocks := bs[..i] + [Block(h, dist, b.inUse), Block(n, b.size - dist, b.inUse)] + bs[i + 1..];
      SplitTiles(bs, base, end, i, dist);
      assert mem == SplitMemory(m, h, dist);
      CutThreaded(bs, base, end, m, i, dist, blocks);
    }

    /** The write to the allocated field. */
    method SetInUse(h: nat, v: bool, ghost i: nat)
      requires Valid() && i < |blocks| && h == blocks[i].addr
      modifies `mem, `blocks
      ensures Valid() && blocks == old(blocks)[i := old(blocks)[i].(used := v)]
    {
      assert HeaderAt(blocks, mem, i);
      ghost var bs, m := blocks, mem;
      mem := mem[h := mem[h].(inUse := v)];
      blocks := blocks[i := blocks[i].(used := v)];
      FlagThreaded(bs, base, end, m, i, v, mem);
    }

    /** Lines 229-232 (and 238-241, for the block before): merge `h` with the block after it. */
    method MergeWithNext(h: nat, ghost i: nat)
      requires Valid() && i + 1 < |blocks| && h == blocks[i].addr
      modifies `mem, `blocks
      ensures Valid() && blocks == MergeAt(old(blocks), i)
    {
      ghost var bs, m := blocks, mem;
      assert HeaderAt(bs, m, i) && HeaderAt(bs, m, i + 1);
      hide Tiles, MergeAt;
      Increasing(bs, base, end);
      var n := mem[mem[h].next];
      mem := mem[h := mem[h].(size := mem[h].size + n.size)];
      if n.next != 0 {
        assert HeaderAt(bs, m, i + 2);
        mem := mem[n.next := mem[n.next].(prev := h)];
      }
      mem := mem[h := mem[h].(next := n.next)];
      blocks := MergeAt(bs, i);
      assert mem == MergeMemory(m, h);
      MergeThreaded(bs, base, end, m, i);
    }

    /** Lines 138-153: use the block at `h`, cutting off the rest if it can hold a header. */
    method PlacePlain(h: nat, size: Word, need: Word, ghost i: nat) returns (ptr: nat)
      requires Valid() && i < |blocks| && h == blocks[i].addr && need == Need(size)
      modifies `mem, `blocks
      ensures Valid() && ptr == Pointer(old(blocks)[i], false)
      ensures blocks == old(blocks)[..i] + PlacePlain32(old(blocks)[i], size) + old(blocks)[i + 1..]
    {
      assert HeaderAt(blocks, mem, i);
      hide Tiles, HeaderAt;
      ghost var bs := blocks;
      if mem[h].size >= Add32(need, 2 * HDR) {
        var n := SplitBlock(h, Add32(HDR, need), i);
      }
      SetInUse(h, true, i);
      if |blocks| == |bs| {
        assert blocks == bs[..i] + [bs[i].(used := true)] + bs[i + 1..];
      }
      return h + HDR;
    }

    /** Lines 123-134: cut off the piece before the boundary `a`, and the rest behind; a null
        pointer returned by split_block is written through. */
    method PlaceAligned(h: nat, a: nat, size: Word, need: Word, ghost i: nat) returns (ptr: nat, status: Status)
      requires Valid() && i < |blocks| && h == blocks[i].addr && !blocks[i].used
      requires need == Need(size) && a == Boundary(h)
      modifies `mem, `blocks
      ensures ptr == Pointer(old(blocks)[i], true) && status != Panicked
      ensures status == Faulted <==> PlaceAligned32(old(blocks)[i], size).None?
      ensures status == Ok ==>
        && Valid() && PlaceAligned32(old(blocks)[i], size).Some?
        && blocks == old(blocks)[..i] + PlaceAligned32(old(blocks)[i], size).value + old(blocks)[i + 1..]
    {
      assert HeaderAt(blocks, mem, i);
      BoundaryFacts(h);
      hide Tiles, HeaderAt, Boundary, Need;
      ptr, status := a, Faulted;
      ghost var bs := blocks;
      var n := SplitBlock(h, a - h - HDR, i);
      if n == 0 {
        return;
      }
      SetInUse(n, true, i + 1);
      assert HeaderAt(blocks, mem, i + 1);
      SizeAt(blocks, mem, i + 1);
      if mem[n].size > Add32(need, 2 * HDR) {
        var k := SplitBlock(n, Add32(HDR, need), i + 1);
        if k == 0 {
          return;
        }
        SetInUse(k, false, i + 2);
      }
      status := Ok;
    }

    /** Lines 87-162.  With `movesOn` the search goes on behind a block whose boundary leaves
        too little room, as the comments say; without, it stays there for ever (`hung`). */
    method KmallocInt(size: Word, align: bool, movesOn: bool) returns (ptr: nat, status: Status, hung: bool)
      requires kheap != 0 ==> Valid()
      modifies `mem, `blocks
      ensures hung <==> size != 0 && kheap != 0 && !movesOn && !Stops(old(blocks), size, align)
      ensures status == Panicked <==> size != 0 && kheap == 0
      ensures size == 0 || kheap == 0 || hung ==> ptr == 0 && mem == old(mem) && blocks == old(blocks)
      ensures !hung ==>
        (status == Faulted <==> size != 0 && kheap != 0 && Alloc32(old(blocks), size, align).None?)
      ensures size != 0 && kheap != 0 && !hung && status == Ok ==>
        Valid() && Alloc32(old(blocks), size, align) == Some((ptr, blocks))
    {
      ptr, status, hung := 0, Ok, false;
      if size == 0 {
        return;
      }
      var need := Add32(size, size % 4);
      if kheap == 0 {
        status := Panicked;
        return;
      }
      hide Tiles, PlacePlain32, PlaceAligned32, Pointer, Boundary, Alloc32, Passes, Stuck, Stops;
      var h := kheap;
      ghost var i := 0;
      Starts(blocks, base, end);
      while h != 0
        invariant Valid() && blocks == old(blocks) && mem == old(mem) && ptr == 0 && status == Ok && !hung
        invariant i <= |blocks| && h == if i < |blocks| then blocks[i].addr else 0
        invariant h == 0 <==> i == |blocks|
        invariant forall j :: 0 <= j < i ==> !Passes(blocks[j], size, align)
        invariant !movesOn ==> forall j :: 0 <= j < i ==> !Stuck(blocks[j], size, align)
        decreases |blocks| - i
      {
        assert HeaderAt(blocks, mem, i);
        var b := mem[h];
        if b.magic != MAGIC {
          status := Panicked;
        }
        var passes, stuck := PassesTests(h, size, need, align, i);
        if !movesOn {
          StopsAt(blocks, size, align, i);
        }
        if stuck && !movesOn {
          hung := true;
          return;
        }
        if passes {
          Alloc32At(blocks, size, align, i);
          if align {
            ptr, status := PlaceAligned(h, Boundary(h), size, need, i);
          } else {
            ptr := PlacePlain(h, size, need, i);
          }
          return;
        }
        NextIsNull(blocks, base, end, i);
        h, i := b.next, i + 1;
      }
      Alloc32At(blocks, size, align, i);
      if !movesOn {
        StopsAt(blocks, size, align, i);
      }
    }

    /** The tests of lines 108-120 on the block at `h`. */
    method PassesTests(h: nat, size: Word, need: Word, align: bool, ghost i: nat) returns (ok: bool, stuck: bool)
      requires Valid() && i < |blocks| && h == blocks[i].addr && need == Need(size)
      ensures ok == Passes(blocks[i], size, align) && stuck == Stuck(blocks[i], size, align)
    {
      assert HeaderAt(blocks, mem, i);
      var b := mem[h];
      ok, stuck := !b.inUse && b.size >= Add32(need, HDR), false;
      if ok && align {
        NoWrap(blocks, base, end, i);
        var a := Boundary(h);
        ok := !(a - h < HDR || Add32(a, need) > h + b.size);
        stuck := !ok;
      }
    }

    lemma HeaderThere(i: nat)
      requires Valid() && i < |blocks|
      ensures blocks[i].addr in mem && mem[blocks[i].addr].magic == MAGIC
    {
      assert HeaderAt(blocks, mem, i);
    }

    /** Lines 214-243; `i` is the position of the block being freed.  A pointer behind a header
        with a wrong magic number makes it panic and changes nothing. */
    method Kfree(ptr: nat, ghost i: nat) returns (panicked: bool)
      requires ptr != 0 ==> Valid() && ptr >= HDR && ptr - HDR in mem
      requires ptr != 0 && mem[ptr - HDR].magic == MAGIC ==>
        i < |blocks| && blocks[i].used && ptr == blocks[i].addr + HDR
      modifies `mem, `blocks
      ensures panicked <==> ptr != 0 && old(mem)[ptr - HDR].magic != MAGIC
      ensures ptr == 0 || panicked ==> mem == old(mem) && blocks == old(blocks)
      ensures ptr != 0 && !panicked ==> Valid() && blocks == Free(old(blocks), ptr - HDR)
    {
      panicked := false;
      if ptr == 0 {
        return;
      }
      var h := ptr - HDR;
      if mem[h].magic != MAGIC {
        panicked := true;
        return;
      }
      ghost var bs := blocks;
      FreeIsFreeAt(bs, base, end, i);
      assert HeaderAt(blocks, mem, i);
      hide Tiles, Free;
      SetInUse(h, false, i);
      Linkage(blocks, base, end, mem, i);
      if mem[h].next != 0 && !mem[mem[h].next].inUse {
        MergeWithNext(h, i);
      }
      Linkage(blocks, base, end, mem, i);
      if mem[h].prev != 0 && !mem[mem[h].prev].inUse {
        MergeWithNext(mem[h].prev, i - 1);
      }
    }

    /** Lines 174-192, on any memory whose `next` links lead through the headers at `at`: it
        panics if and only if one of them has a wrong magic number or a wrong back link. */
    method SanityCheck(ghost at: seq<nat>) returns (panicked: bool)
      requires NextLinks(at, mem) && kheap == if at == [] then 0 else at[0]
      ensures panicked <==> exists i :: 0 <= i < |at| && Corrupt(at, mem, i)
    {
      panicked := false;
      var h, temp := kheap, 0;
      ghost var i := 0;
      while h != 0
        invariant 0 <= i <= |at| && h == (if i < |at| then at[i] else 0) && temp == if i == 0 then 0 else at[i - 1]
        invariant i < |at| ==> h != 0
        invariant !panicked && forall k :: 0 <= k < i ==> !Corrupt(at, mem, k)
        decreases |at| - i
      {
        if mem[h].magic != MAGIC || temp != mem[h].prev {
          assert Corrupt(at, mem, i);
          panicked := true;
          return;
        }
        temp, h, i := h, mem[h].next, i + 1;
      }
    }

    /** So it never panics on a heap. */
    lemma HeapIsSane() returns (at: seq<nat>)
      requires Valid()
      ensures NextLinks(at, mem) && at != [] && kheap == at[0] && |at| == |blocks|
      ensures forall i :: 0 <= i < |at| ==> !Corrupt(at, mem, i)
    {
      at := Addresses(blocks);
      Starts(blocks, base, end);
      Increasing(blocks, base, end);
      forall i | 0 <= i < |at| ensures at[i] != 0 && at[i] in mem && mem[at[i]] == HeaderOf(blocks, i) {
        assert HeaderAt(blocks, mem, i);
      }
    }

    /** The totals of lines 196-207. */
    method Totals() returns (free: nat, inUse: nat)
      requires Valid()
      ensures free == SizeOf(blocks, false) && inUse == SizeOf(blocks, true)
      ensures free + inUse == end - base
    {
      free, inUse := 0, 0;
      var h := kheap;
      ghost var i := 0;
      Starts(blocks, base, end);
      while h != 0
        invariant i <= |blocks| && h == if i < |blocks| then blocks[i].addr else 0
        invariant h == 0 <==> i == |blocks|
        invariant free + SizeOf(blocks[i..], false) == SizeOf(blocks, false)
        invariant inUse + SizeOf(blocks[i..], true) == SizeOf(blocks, true)
        decreases |blocks| - i
      {
        assert HeaderAt(blocks, mem, i);
        if mem[h].inUse {
          inUse := inUse + mem[h].size;
        } else {
          free := free + mem[h].size;
        }
        NextIsNull(blocks, base, end, i);
        assert blocks[i..][0] == blocks[i] && blocks[i..][1..] == blocks[i + 1..];
        h, i := mem[h].next, i + 1;
      }
      assert blocks[i..] == [];
      SizesAddUp(blocks);
      TilesFacts(blocks, base, end);
    }
  }

  /** The bytes, headers included, of the blocks that are used, or of those that are not. */
  ghost function SizeOf(bs: Heap, used: bool): nat {
    if bs == [] then 0 else (if bs[0].used == used then bs[0].size else 0) + SizeOf(bs[1..], used)
  }

  lemma {:induction false} SizesAddUp(bs: Heap)
    ensures SizeOf(bs, false) + SizeOf(bs, true) == TotalSize(bs)
  {
    if bs != [] {
      SizesAddUp(bs[1..]);
    }
  }

  /** The headers at these addresses exist and are linked forwards, the last to null. */
  ghost predicate NextLinks(at: seq<nat>, mem: map<nat, Header>) {
    forall i :: 0 <= i < |at| ==>
      at[i] != 0 && at[i] in mem && mem[at[i]].next == if i + 1 < |at| then at[i + 1] else 0
  }

  function Addresses(bs: Heap): (at: seq<nat>)
    ensures |at| == |bs| && forall i :: 0 <= i < |at| ==> at[i] == bs[i].addr
  {
    seq(|bs|, i requires 0 <= i < |bs| => bs[i].addr)
  }

  /** The header at position `i` is not what the allocator left there. */
  ghost predicate Corrupt(at: seq<nat>, mem: map<nat, Header>, i: nat)
    requires i < |at| && at[i] in mem
  {
    mem[at[i]].magic != MAGIC || mem[at[i]].prev != if i == 0 then 0 else at[i - 1]
  }

  lemma {:induction false} SizeOfConcat(a: Heap, b: Heap, used: bool)
    ensures SizeOf(a + b, used) == SizeOf(a, used) + SizeOf(b, used)
  {
    if a == [] {
      assert a + b == b;
    } else {
      SizeOfConcat(a[1..], b, used);
      assert (a + b)[1..] == a[1..] + b;
    }
  }

  /** An allocation moves exactly the block it takes from the free total to the used one. */
  lemma {:induction false} AllocMoves(bs: Heap, base: nat, end: nat, need: nat, align: bool)
    requires Tiles(bs, base, end) && Alloc(bs, need, align).0 != 0
    ensures SizeOf(Alloc(bs, need, align).1, true) == SizeOf(bs, true) + Found(bs, need, align).size
    ensures SizeOf(Alloc(bs, need, align).1, false) == SizeOf(bs, false) - Found(bs, need, align).size
  {
    hide Fits, Place, Pointer, Taken;
    if Fits(bs[0], need, align) {
      var p := Place(bs[0], need, align);
      PlaceMoves(bs[0], need, align);
      SizeOfConcat(p, bs[1..], true);
      SizeOfConcat(p, bs[1..], false);
    } else {
      AllocMoves(bs[1..], base + bs[0].size, end, need, align);
      var r := Alloc(bs[1..], need, align).1;
      assert ([bs[0]] + r)[1..] == r;
    }
  }

  lemma PlaceMoves(b: Block, need: nat, align: bool)
    requires Fits(b, need, align)
    ensures !b.used && SizeOf(Place(b, need, align), true) == Taken(b, need, align).size
    ensures SizeOf(Place(b, need, align), false) == b.size - Taken(b, need, align).size
  {
    BoundaryFacts(b.addr);
    hide Boundary;
    var r := Place(b, need, align);
    SizeOfShort(r);
    if |r| == 3 {
      SizeOfShort(r[1..]);
    }
  }

  lemma SizeOfShort(bs: Heap)
    requires bs != []
    ensures forall u :: SizeOf(bs, u) == (if bs[0].used == u then bs[0].size else 0) + SizeOf(bs[1..], u)
    ensures |bs| == 1 ==> forall u :: SizeOf(bs[1..], u) == 0
    ensures |bs| == 2 ==> forall u :: SizeOf(bs[1..], u) == if bs[1].used == u then bs[1].size else 0
  {
    if |bs| == 2 {
      assert bs[1..] == [bs[1]] && bs[1..][1..] == [];
    }
  }

  /** What a walk along the list sees. */
  lemma Starts(bs: Heap, base: nat, end: nat)
    requires Tiles(bs, base, end) && base < end
    ensures bs != [] && bs[0].addr == base && bs[0..] == bs
  {
  }

  /** The boundary of line 114 stays inside 32 bits. */
  lemma NoWrap(bs: Heap, base: nat, end: nat, i: nat)
    requires Tiles(bs, base, end) && i < |bs|
    ensures bs[i].addr + 2 * HDR <= Boundary(bs[i].addr) < end + PAGE + 2 * HDR
  {
    TilesAt(bs, base, end, i);
    BoundaryFacts(bs[i].addr);
  }

  lemma NextIsNull(bs: Heap, base: nat, end: nat, i: nat)
    requires Tiles(bs, base, end) && base > 0 && i < |bs|
    ensures i + 1 < |bs| ==> bs[i + 1].addr != 0
  {
    Increasing(bs, base, end);
  }

  lemma Linkage(bs: Heap, base: nat, end: nat, m: map<nat, Header>, i: nat)
    requires Tiles(bs, base, end) && base > 0 && Threaded(bs, m) && i < |bs|
    ensures bs[i].addr in m && var b := m[bs[i].addr];
      && (b.next == 0 <==> i + 1 == |bs|) && (b.prev == 0 <==> i == 0)
      && (i + 1 < |bs| ==> b.next == bs[i + 1].addr && b.next in m && m[b.next].inUse == bs[i + 1].used)
      && (i > 0 ==> b.prev == bs[i - 1].addr && b.prev in m && m[b.prev].inUse == bs[i - 1].used)
  {
    Increasing(bs, base, end);
    assert HeaderAt(bs, m, i);
    assert i + 1 < |bs| ==> HeaderAt(bs, m, i + 1);
    assert i > 0 ==> HeaderAt(bs, m, i - 1);
  }

  lemma SizeAt(bs: Heap, m: map<nat, Header>, i: nat)
    requires i < |bs| && HeaderAt(bs, m, i)
    ensures bs[i].addr in m && m[bs[i].addr].size == bs[i].size
  {
  }

  // ------------------------------------------------------------------ the links

  lemma FlagTiles(bs: Heap, base: nat, end: nat, i: nat, v: bool)
    requires Tiles(bs, base, end) && i < |bs|
    ensures Tiles(bs[i := bs[i].(used := v)], base, end)
  {
    var b := bs[i].(used := v);
    TilesAt(bs, base, end, i);
    Unroll([b]);
    TilesReplace(bs, base, end, i, i + 1, [b]);
    assert bs[i := b] == bs[..i] + [b] + bs[i + 1..];
  }

  lemma FlagHeader(bs: Heap, m: map<nat, Header>, i: nat, v: bool, m': map<nat, Header>, k: nat)
    requires Sound(bs, m) && i < |bs| && k < |bs| && HeaderAt(bs, m, i)
    requires m' == m[bs[i].addr := m[bs[i].addr].(inUse := v)]
    ensures HeaderAt(bs[i := bs[i].(used := v)], m', k)
  {
    assert HeaderAt(bs, m, k);
  }

  lemma FlagThreaded(bs: Heap, base: nat, end: nat, m: map<nat, Header>, i: nat, v: bool, m': map<nat, Header>)
    requires Tiles(bs, base, end) && base > 0 && Threaded(bs, m) && i < |bs| && HeaderAt(bs, m, i)
    requires m' == m[bs[i].addr := m[bs[i].addr].(inUse := v)]
    ensures Tiles(bs[i := bs[i].(used := v)], base, end) && Threaded(bs[i := bs[i].(used := v)], m')
  {
    FlagTiles(bs, base, end, i, v);
    Increasing(bs, base, end);
    hide Tiles, HeaderAt;
    var r := bs[i := bs[i].(used := v)];
    forall k | 0 <= k < |r| ensures HeaderAt(r, m', k) {
      FlagHeader(bs, m, i, v, m', k);
    }
  }

  /** The writes of a merge. */
  function MergeMemory(m: map<nat, Header>, h: nat): map<nat, Header>
    requires h in m && m[h].next in m
  {
    var b, n := m[h], m[m[h].next];
    var m1 := m[h := b.(size := b.size + n.size)];
    var m2 := if n.next in m1 && n.next != 0 then m1[n.next := m1[n.next].(prev := h)] else m1;
    m2[h := m2[h].(next := n.next)]
  }

  /** `r` is `bs` with the blocks at `i` and `i + 1` made one. */
  ghost predicate Joined(bs: Heap, i: nat, r: Heap) {
    && i + 1 < |bs| && |r| == |bs| - 1
    && (forall k {:trigger r[k]} :: 0 <= k < i ==> r[k] == bs[k])
    && r[i] == bs[i].(size := bs[i].size + bs[i + 1].size)
    && (forall k {:trigger r[k]} :: i < k < |r| ==> r[k] == bs[k + 1])
  }

  lemma JoinBefore(bs: Heap, m: map<nat, Header>, i: nat, r: Heap, k: nat)
    requires Sound(bs, m) && Joined(bs, i, r) && k < i && HeaderAt(bs, m, i) && HeaderAt(bs, m, i + 1)
    ensures HeaderAt(r, MergeMemory(m, bs[i].addr), k)
  {
    assert HeaderAt(bs, m, k);
    assert i + 2 < |bs| ==> HeaderAt(bs, m, i + 2);
    assert r[k] == bs[k] && (k > 0 ==> r[k - 1] == bs[k - 1]) && r[k + 1].addr == bs[k + 1].addr;
  }

  lemma JoinHere(bs: Heap, m: map<nat, Header>, i: nat, r: Heap)
    requires Sound(bs, m) && Joined(bs, i, r) && HeaderAt(bs, m, i) && HeaderAt(bs, m, i + 1)
    ensures HeaderAt(r, MergeMemory(m, bs[i].addr), i)
  {
    assert i > 0 ==> r[i - 1] == bs[i - 1];
    assert i + 1 < |r| ==> r[i + 1] == bs[i + 2];
    assert i + 2 < |bs| ==> HeaderAt(bs, m, i + 2);
  }

  lemma JoinBehind(bs: Heap, m: map<nat, Header>, i: nat, r: Heap, k: nat)
    requires Sound(bs, m) && Joined(bs, i, r) && i < k < |r| && HeaderAt(bs, m, i) && HeaderAt(bs, m, i + 1)
    ensures HeaderAt(r, MergeMemory(m, bs[i].addr), k)
  {
    assert HeaderAt(bs, m, k + 1) && HeaderAt(bs, m, i + 2);
    assert r[k] == bs[k + 1];
    assert k + 1 < |r| ==> r[k + 1] == bs[k + 2];
    assert k > i + 1 ==> r[k - 1] == bs[k];
  }

  lemma MergeThreaded(bs: Heap, base: nat, end: nat, m: map<nat, Header>, i: nat)
    requires Tiles(bs, base, end) && base > 0 && Threaded(bs, m) && i + 1 < |bs|
    requires HeaderAt(bs, m, i) && HeaderAt(bs, m, i + 1)
    ensures Tiles(MergeAt(bs, i), base, end) && Threaded(MergeAt(bs, i), MergeMemory(m, bs[i].addr))
  {
    var r := MergeAt(bs, i);
    Adjacent(bs, base, end, i);
    Increasing(bs, base, end);
    var b := bs[i].(size := bs[i].size + bs[i + 1].size);
    Unroll([b]);
    TilesReplace(bs, base, end, i, i + 2, [b]);
    assert Joined(bs, i, r);
    hide Joined, MergeMemory, Tiles, MergeAt;
    JoinHere(bs, m, i, r);
    forall k | 0 <= k < |r| ensures HeaderAt(r, MergeMemory(m, bs[i].addr), k) {
      if k < i {
        JoinBefore(bs, m, i, r, k);
      } else if k > i {
        JoinBehind(bs, m, i, r, k);
      }
    }
  }

  /** The writes of split_block, lines 51-64. */
  function SplitMemory(m: map<nat, Header>, h: nat, dist: nat): map<nat, Header>
    requires h in m
  {
    var n, b := h + dist, m[h];
    var m1 := m[n := Header(MAGIC, if b.size >= dist then b.size - dist else 0, b.inUse, h, b.next)];
    var m2 := m1[h := b.(size := dist, next := n)];
    if b.next in m2 && b.next != 0 then m2[b.next := m2[b.next].(prev := n)] else m2
  }

  /** `r` is `bs` with the block at `i` cut in two. */
  ghost predicate Cut(bs: Heap, i: nat, dist: nat, r: Heap) {
    && i < |bs| && |r| == |bs| + 1 && HDR <= dist && dist + HDR <= bs[i].size
    && (forall k {:trigger r[k]} :: 0 <= k < i ==> r[k] == bs[k])
    && r[i] == Block(bs[i].addr, dist, bs[i].used)
    && r[i + 1] == Block(bs[i].addr + dist, bs[i].size - dist, bs[i].used)
    && (forall k {:trigger r[k]} :: i + 1 < k < |r| ==> r[k] == bs[k - 1])
  }

  /** Addresses that are apart, and a memory that holds the list. */
  ghost predicate Sound(bs: Heap, m: map<nat, Header>) {
    && Threaded(bs, m)
    && (forall i :: 0 <= i < |bs| ==> bs[i].addr > 0)
    && (forall i, j :: 0 <= i < j < |bs| ==> bs[i].addr < bs[j].addr)
  }

  lemma CutBefore(bs: Heap, m: map<nat, Header>, i: nat, dist: nat, r: Heap, k: nat)
    requires Sound(bs, m) && Cut(bs, i, dist, r) && k < i && HeaderAt(bs, m, i)
    requires i + 1 < |bs| ==> bs[i].addr + dist < bs[i + 1].addr
    ensures HeaderAt(r, SplitMemory(m, bs[i].addr, dist), k)
  {
    assert HeaderAt(bs, m, k);
    assert r[k] == bs[k] && (k > 0 ==> r[k - 1] == bs[k - 1]) && r[k + 1].addr == bs[k + 1].addr;
  }

  lemma CutHere(bs: Heap, m: map<nat, Header>, i: nat, dist: nat, r: Heap)
    requires Sound(bs, m) && Cut(bs, i, dist, r) && HeaderAt(bs, m, i)
    requires i + 1 < |bs| ==> bs[i].addr + dist < bs[i + 1].addr
    ensures HeaderAt(r, SplitMemory(m, bs[i].addr, dist), i)
    ensures HeaderAt(r, SplitMemory(m, bs[i].addr, dist), i + 1)
  {
    assert i > 0 ==> r[i - 1] == bs[i - 1];
    assert i + 2 < |r| ==> r[i + 2] == bs[i + 1];
  }

  lemma CutBehind(bs: Heap, m: map<nat, Header>, i: nat, dist: nat, r: Heap, j: nat)
    requires Sound(bs, m) && Cut(bs, i, dist, r) && i < j < |bs| && HeaderAt(bs, m, i)
    requires bs[i].addr + dist < bs[i + 1].addr
    ensures HeaderAt(r, SplitMemory(m, bs[i].addr, dist), j + 1)
  {
    assert HeaderAt(bs, m, j) && HeaderAt(bs, m, i + 1);
    assert r[j + 1] == bs[j];
    assert j + 2 < |r| ==> r[j + 2] == bs[j + 1];
    assert j > i + 1 ==> r[j] == bs[j - 1];
  }

  lemma CutList(bs: Heap, i: nat, dist: nat, r: Heap)
    requires i < |bs| && HDR <= dist && dist + HDR <= bs[i].size
    requires r == bs[..i]
      + [Block(bs[i].addr, dist, bs[i].used), Block(bs[i].addr + dist, bs[i].size - dist, bs[i].used)] + bs[i + 1..]
    ensures Cut(bs, i, dist, r)
  {
  }

  lemma CutThreaded(bs: Heap, base: nat, end: nat, m: map<nat, Header>, i: nat, dist: nat, r: Heap)
    requires Tiles(bs, base, end) && base > 0 && Threaded(bs, m) && i < |bs| && HDR <= dist && dist + HDR <= bs[i].size
    requires r == bs[..i]
      + [Block(bs[i].addr, dist, bs[i].used), Block(bs[i].addr + dist, bs[i].size - dist, bs[i].used)] + bs[i + 1..]
    requires HeaderAt(bs, m, i)
    ensures Threaded(r, SplitMemory(m, bs[i].addr, dist))
  {
    assert bs[i].addr in m;
    hide HeaderAt, SplitMemory;
    Increasing(bs, base, end);
    if i + 1 < |bs| {
      Adjacent(bs, base, end, i);
    }
    hide Tiles;
    CutList(bs, i, dist, r);
    hide Cut;
    CutHere(bs, m, i, dist, r);
    forall k | 0 <= k < |r| ensures HeaderAt(r, SplitMemory(m, bs[i].addr, dist), k) {
      if k < i {
        CutBefore(bs, m, i, dist, r, k);
      } else if k > i + 1 {
        CutBehind(bs, m, i, dist, r, k - 1);
      }
    }
  }

  lemma SplitTiles(bs: Heap, base: nat, end: nat, i: nat, dist: nat)
    requires Tiles(bs, base, end) && i < |bs| && HDR <= dist && dist + HDR <= bs[i].size
    ensures var b := bs[i];
      Tiles(bs[..i] + [Block(b.addr, dist, b.used), Block(b.addr + dist, b.size - dist, b.used)] + bs[i + 1..],
            base, end)
  {
    var mid := [Block(bs[i].addr, dist, bs[i].used), Block(bs[i].addr + dist, bs[i].size - dist, bs[i].used)];
    Unroll(mid);
    TilesReplace(bs, base, end, i, i + 1, mid);
  }
}

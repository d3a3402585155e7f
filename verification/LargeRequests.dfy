/**
  kmalloc and kmalloc_a in 32-bit arithmetic (kernel/kalloc.c:87-162): for which requests
  do the sums wrap, and what is handed out then.  The class in KernelHeap.dfy computes
  `Alloc32`; for all other requests that is the allocator of Blocks.
 */
module LargeRequests {
  import opened Words
  import opened Results
  import opened Blocks

  /** Line 96: the request rounded, as the machine computes it. */
  function Need(size: Word): Word {
    Add32(size, size % 4)
  }

  /** Line 108: with a header. */
  function Wanted(size: Word): Word {
    Add32(Need(size), HDR)
  }

  /** One of the two sums leaves 32 bits: the request is within 22 bytes of 4 GiB. */
  predicate Wraps(size: Word) {
    Rounded(size) + HDR >= WORD
  }

  /** An address plus a size, in 32 bits. */
  function Sum32(addr: nat, n: Word): int {
    if addr + n < WORD then addr + n else addr + n - WORD
  }

  /** The tests of lines 108 and 120. */
  predicate Passes(b: Block, size: Word, align: bool) {
    && !b.used && b.size >= Wanted(size)
    && (align ==> Sum32(Boundary(b.addr), Need(size)) <= b.addr + b.size)
  }

  /** split_block on a value; it refuses cuts outside the data of the block. */
  function Halves(b: Block, dist: int): Option<(Block, Block)> {
    if dist + HDR > b.size || dist < HDR then None
    else Some((Block(b.addr, dist, b.used), Block(b.addr + dist, b.size - dist, b.used)))
  }

  /** Lines 138-153: a split that is refused leaves the block whole. */
  function PlacePlain32(b: Block, size: Word): Heap {
    if b.size < Add32(Need(size), 2 * HDR) then [b.(used := true)]
    else
      match Halves(b, Wanted(size))
      case None => [b.(used := true)]
      case Some((x, y)) => [x.(used := true), y]
  }

  /** Lines 123-134: a split that is refused is written through (None). */
  function PlaceAligned32(b: Block, size: Word): Option<Heap> {
    match Halves(b, Boundary(b.addr) - b.addr - HDR)
    case None => None
    case Some((front, x)) =>
      if x.size > Add32(Need(size), 2 * HDR) then
        match Halves(x.(used := true), Wanted(size))
        case None => None
        case Some((y, z)) => Some([front, y, z.(used := false)])
      else Some([front, x.(used := true)])
  }

  function Place32(b: Block, size: Word, align: bool): Option<Heap> {
    if align then PlaceAligned32(b, size) else Some(PlacePlain32(b, size))
  }

  /** kmalloc_int on the list of blocks; None is a write through a null pointer. */
  function Alloc32(bs: Heap, size: Word, align: bool): Option<(nat, Heap)> {
    if bs == [] then Some((0, []))
    else if Passes(bs[0], size, align) then
      match Place32(bs[0], size, align)
      case None => None
      case Some(p) => Some((Pointer(bs[0], align), p + bs[1..]))
    else
      match Alloc32(bs[1..], size, align)
      case None => None
      case Some((p, r)) => Some((p, [bs[0]] + r))
  }

  /** Blocks that end far enough below 4 GiB for page boundaries not to wrap. */
  ghost predicate Low(bs: Heap) {
    forall i :: 0 <= i < |bs| ==> LowBlock(bs[i])
  }

  predicate LowBlock(b: Block) {
    HDR <= b.size && b.addr + b.size + PAGE + 2 * HDR <= WORD
  }

  lemma {:induction false} TilesLow(bs: Heap, base: nat, end: nat)
    requires Tiles(bs, base, end) && end + PAGE + 2 * HDR <= WORD
    ensures Low(bs)
  {
    if bs != [] {
      TilesFacts(bs[1..], base + bs[0].size, end);
      TilesLow(bs[1..], base + bs[0].size, end);
      forall i | 0 <= i < |bs| ensures LowBlock(bs[i]) {
        assert i > 0 ==> bs[i] == bs[1..][i - 1];
      }
    }
  }

  // ------------------------------------------------------------ requests that do not wrap

  lemma SameTest(b: Block, size: Word, align: bool)
    requires LowBlock(b) && !Wraps(size)
    ensures Passes(b, size, align) <==> Fits(b, Rounded(size), align)
  {
    BoundaryFacts(b.addr);
  }

  lemma SamePlacePlain(b: Block, size: Word)
    requires LowBlock(b) && !Wraps(size) && Fits(b, Rounded(size), false)
    ensures PlacePlain32(b, size) == Place(b, Rounded(size), false)
  {
  }

  /** What PlaceAligned32 computes, with the boundary `a` and the sums given. */
  lemma HalvesOf(b: Block, size: Word, a: nat, need: nat)
    requires a == Boundary(b.addr) && b.addr + 2 * HDR <= a && a + need <= b.addr + b.size && !b.used
    requires Wanted(size) == HDR + need && Add32(Need(size), 2 * HDR) == need + 2 * HDR
    ensures var m, front := b.addr + b.size - (a - HDR), Block(b.addr, a - HDR - b.addr, false);
      PlaceAligned32(b, size) == Some(
        if m > need + 2 * HDR
        then [front, Block(a - HDR, HDR + need, true), Block(a + need, m - HDR - need, false)]
        else [front, Block(a - HDR, m, true)])
  {
    hide Boundary, Need, Wanted;
  }

  lemma SameSums(b: Block, size: Word)
    requires LowBlock(b) && !Wraps(size) && b.size >= Rounded(size) + HDR
    ensures Wanted(size) == HDR + Rounded(size) && Add32(Need(size), 2 * HDR) == Rounded(size) + 2 * HDR
  {
  }

  lemma SamePlaceAligned(b: Block, size: Word)
    requires LowBlock(b) && !Wraps(size) && Fits(b, Rounded(size), true)
    ensures PlaceAligned32(b, size) == Some(Place(b, Rounded(size), true))
  {
    hide PlaceAligned32, Boundary, Wanted, Need, Rounded;
    BoundaryFacts(b.addr);
    SameSums(b, size);
    var a, need := Boundary(b.addr), Rounded(size);
    HalvesOf(b, size, a, need);
    assert PlaceAligned32(b, size).value == Place(b, need, true);
  }

  lemma SamePlace(b: Block, size: Word, align: bool)
    requires LowBlock(b) && !Wraps(size) && Fits(b, Rounded(size), align)
    ensures Place32(b, size, align) == Some(Place(b, Rounded(size), align))
  {
    if align {
      SamePlaceAligned(b, size);
    } else {
      SamePlacePlain(b, size);
    }
  }

  /** Without wrapping, the 32-bit allocator is the one of Blocks. */
  lemma {:induction false} SameWithoutWrap(bs: Heap, size: Word, align: bool)
    requires Low(bs) && !Wraps(size)
    ensures Alloc32(bs, size, align) == Some(Alloc(bs, Rounded(size), align))
  {
    if bs != [] {
      hide Fits, Passes, Place, Place32;
      SameTest(bs[0], size, align);
      if Passes(bs[0], size, align) {
        SamePlace(bs[0], size, align);
      } else {
        SameWithoutWrap(bs[1..], size, align);
      }
    }
  }

  // --------------------------------------------------------------------- first fit

  /** The walk stops at the first block that passes. */
  lemma {:induction false} Alloc32At(bs: Heap, size: Word, align: bool, i: nat)
    requires i <= |bs| && forall j :: 0 <= j < i ==> !Passes(bs[j], size, align)
    ensures i == |bs| ==> Alloc32(bs, size, align) == Some((0, bs))
    ensures i < |bs| && Passes(bs[i], size, align) ==>
      Alloc32(bs, size, align) ==
        match Place32(bs[i], size, align)
        case None => None
        case Some(p) => Some((Pointer(bs[i], align), bs[..i] + p + bs[i + 1..]))
    decreases i
  {
    hide Passes, Place32, Pointer;
    if i > 0 {
      assert bs == [bs[0]] + bs[1..];
      Alloc32At(bs[1..], size, align, i - 1);
      if i < |bs| && Place32(bs[i], size, align).Some? {
        PushFront(bs, i, Place32(bs[i], size, align).value);
      }
    } else if bs != [] && Place32(bs[0], size, align).Some? {
      var p := Place32(bs[0], size, align).value;
      assert bs[..0] + p + bs[1..] == p + bs[1..];
    }
  }

  // ------------------------------------------------------ the search that does not move on

  /** Passed by line 108 and refused by line 120, whose `continue` stays on the block. */
  predicate Stuck(b: Block, size: Word, align: bool) {
    align && !b.used && b.size >= Wanted(size) && !Passes(b, size, align)
  }

  /** The search as written comes to an end: no block is stuck before one passes. */
  predicate Stops(bs: Heap, size: Word, align: bool) {
    bs == [] || Passes(bs[0], size, align) || (!Stuck(bs[0], size, align) && Stops(bs[1..], size, align))
  }

  lemma {:induction false} StopsAt(bs: Heap, size: Word, align: bool, i: nat)
    requires i <= |bs| && forall j :: 0 <= j < i ==> !Passes(bs[j], size, align) && !Stuck(bs[j], size, align)
    ensures i == |bs| ==> Stops(bs, size, align)
    ensures i < |bs| && Passes(bs[i], size, align) ==> Stops(bs, size, align)
    ensures i < |bs| && Stuck(bs[i], size, align) ==> !Stops(bs, size, align)
    decreases i
  {
    if i > 0 {
      StopsAt(bs[1..], size, align, i - 1);
    }
  }

  // --------------------------------------------------------------- requests that wrap

  /** What the caller gets: null, a fault, or some number of bytes. */
  datatype Answer = Null | Fault | Bytes(count: int)

  function AnswerOf(b: Block, size: Word, align: bool): Answer {
    match Place32(b, size, align)
    case None => Fault
    case Some(p) => Bytes((if align then p[1].size else p[0].size) - HDR)
  }

  function Asked(bs: Heap, size: Word, align: bool): Answer {
    if bs == [] then Null
    else if Passes(bs[0], size, align) then AnswerOf(bs[0], size, align)
    else Asked(bs[1..], size, align)
  }

  /** Null, or as many bytes as were asked for. */
  predicate Honest(a: Answer, size: nat) {
    a.Null? || (a.Bytes? && a.count >= size)
  }

  /** `Asked` in terms of the allocator: the pointer, and the block it points into. */
  lemma {:induction false} AskedIsAlloc(bs: Heap, size: Word, align: bool)
    requires Low(bs)
    ensures var o, a := Alloc32(bs, size, align), Asked(bs, size, align);
      && (a.Fault? <==> o.None?) && (o.Some? ==> (a.Null? <==> o.value.0 == 0))
      && (a.Bytes? ==> exists b :: b in o.value.1 && b.used && b.addr + HDR == o.value.0 && b.size == HDR + a.count)
  {
    if bs != [] {
      hide Passes;
      if Passes(bs[0], size, align) {
        BoundaryFacts(bs[0].addr);
        if p :| Place32(bs[0], size, align) == Some(p) {
          var b := if align then p[1] else p[0];
          assert b in p + bs[1..];
        }
      } else {
        hide Place32;
        AskedIsAlloc(bs[1..], size, align);
        if Alloc32(bs[1..], size, align).Some? && Asked(bs[1..], size, align).Bytes? {
          var r := Alloc32(bs[1..], size, align).value;
          var b :| b in r.1 && b.used && b.addr + HDR == r.0 && b.size == HDR + Asked(bs[1..], size, align).count;
          assert b in [bs[0]] + r.1;
        }
      }
    }
  }

  lemma BlockHonestIff(b: Block, size: Word, align: bool)
    requires LowBlock(b) && Passes(b, size, align)
    ensures Honest(AnswerOf(b, size, align), size) <==> !Wraps(size)
  {
    BoundaryFacts(b.addr);
    if !Wraps(size) {
      SameTest(b, size, align);
      SamePlace(b, size, align);
      PlaceFacts(b, Rounded(size), align);
    }
  }

  /** The exact condition on a request, aligned or not: null or enough memory is the answer
      if and only if the size does not wrap, or no free block passes the wrapped tests. */
  lemma {:induction false} HonestIff(bs: Heap, size: Word, align: bool)
    requires Low(bs)
    ensures Honest(Asked(bs, size, align), size) <==>
      !Wraps(size) || forall i :: 0 <= i < |bs| ==> !Passes(bs[i], size, align)
  {
    if bs != [] {
      hide Passes, AnswerOf, Wraps;
      if Passes(bs[0], size, align) {
        BlockHonestIff(bs[0], size, align);
      } else {
        HonestIff(bs[1..], size, align);
        forall i | 1 <= i < |bs| ensures bs[i] == bs[1..][i - 1] {
        }
      }
    }
  }

  /** The exact condition for the fault: only aligned requests whose size plus header wraps
      although the size itself does not, on a block whose boundary lies behind its end or
      leaves more than the wrapped size behind it. */
  lemma BlockFaultsIff(b: Block, size: Word, align: bool)
    requires LowBlock(b) && Passes(b, size, align)
    ensures AnswerOf(b, size, align).Fault? <==>
      && align && Wraps(size) && Rounded(size) < WORD
      && var room := b.addr + b.size - Boundary(b.addr);
         room < 0 || room + WORD > Rounded(size) + HDR
  {
    BoundaryFacts(b.addr);
    if align && !Wraps(size) {
      SameTest(b, size, align);
      SamePlace(b, size, align);
    }
  }

  /** What a wrapped request is given if it does not fault: nothing or two bytes if the rounding
      itself wraps and the rest can be cut off, and otherwise all the room there is. */
  lemma WrappedGets(b: Block, size: Word, align: bool)
    requires LowBlock(b) && Passes(b, size, align) && Wraps(size)
    ensures var a, room := AnswerOf(b, size, align), b.addr + b.size - Pointer(b, align);
      && (a.Bytes? && Rounded(size) < WORD ==> a.count == room)
      && (Rounded(size) >= WORD ==>
            && a.Bytes? && Rounded(size) - WORD in {0, 2}
            && a.count == if (if align then room > Rounded(size) - WORD + HDR else room >= Rounded(size) - WORD + HDR)
                          then Rounded(size) - WORD else room)
  {
    BoundaryFacts(b.addr);
    assert Rounded(size) >= WORD ==> Need(size) == Rounded(size) - WORD;
    hide Boundary;
  }

  /** kmalloc for all but two bytes of the address space is given no bytes at all, */
  lemma AlmostEverything(base: nat, size: nat)
    requires 0x100 <= size < 0x400000
    ensures Asked([Block(base, size, false)], 0xFFFF_FFFE, false) == Bytes(0)
  {
  }

  /** and kmalloc_a for all but twelve writes through a null pointer. */
  lemma AlmostEverythingAligned(base: nat, size: nat)
    requires base % PAGE == 0 && 2 * PAGE <= size < 0x400000 && base + size + 2 * PAGE <= WORD
    ensures Alloc32([Block(base, size, false)], 0xFFFF_FFF4, true) == None
  {
    BoundaryFacts(base);
    var b := Block(base, size, false);
    assert Passes(b, 0xFFFF_FFF4, true);
    BlockFaultsIff(b, 0xFFFF_FFF4, true);
  }

  // ------------------------------------------------------------ against the model's answer

  /** Can be told before the call: the sums do not wrap, or nothing passes anyway. */
  ghost predicate Plain(bs: Heap, size: Word, align: bool) {
    !Wraps(size) || forall i :: 0 <= i < |bs| ==> !Passes(bs[i], size, align)
  }

  lemma PlaceChanges(b: Block, size: Word, align: bool)
    requires !b.used && Place32(b, size, align).Some?
    ensures |Place32(b, size, align).value| > 1 || Place32(b, size, align).value == [b.(used := true)]
  {
  }

  lemma FirstPassing(bs: Heap, size: Word, align: bool, from: nat) returns (k: nat)
    requires from <= |bs| && forall j :: 0 <= j < from ==> !Passes(bs[j], size, align)
    ensures from <= k <= |bs| && forall j :: 0 <= j < k ==> !Passes(bs[j], size, align)
    ensures k < |bs| ==> Passes(bs[k], size, align)
    decreases |bs| - from
  {
    if from < |bs| && !Passes(bs[from], size, align) {
      k := FirstPassing(bs, size, align, from + 1);
    } else {
      k := from;
    }
  }

  /** The exact condition under which the 32-bit allocator does what Blocks says. */
  lemma Alloc32Iff(bs: Heap, size: Word, align: bool)
    requires Low(bs)
    ensures Alloc32(bs, size, align) == Some(Alloc(bs, Rounded(size), align)) <==> Plain(bs, size, align)
    ensures !Plain(bs, size, align) ==>
      && Alloc(bs, Rounded(size), align).1 == bs
      && (Alloc32(bs, size, align).None? || Alloc32(bs, size, align).value.1 != bs)
  {
    if !Wraps(size) {
      SameWithoutWrap(bs, size, align);
    } else {
      NothingThatBig(bs, size, align);
      hide Passes, Place32, Alloc32, Alloc, Wraps, Fits;
      AllocFailsIff(bs, Rounded(size), align);
      var k := FirstPassing(bs, size, align, 0);
      Alloc32At(bs, size, align, k);
      if k < |bs| && Place32(bs[k], size, align).Some? {
        var p := Place32(bs[k], size, align).value;
        PassesFree(bs[k], size, align);
        PlaceChanges(bs[k], size, align);
        var r := bs[..k] + p + bs[k + 1..];
        assert |p| == 1 ==> r[k] == p[0];
      }
    }
  }

  lemma PassesFree(b: Block, size: Word, align: bool)
    requires Passes(b, size, align)
    ensures !b.used
  {
  }

  lemma NothingThatBig(bs: Heap, size: Word, align: bool)
    requires Low(bs) && Wraps(size)
    ensures forall j :: 0 <= j < |bs| ==> !Fits(bs[j], Rounded(size), align)
  {
    forall j | 0 <= j < |bs| ensures !Fits(bs[j], Rounded(size), align) {
      assert LowBlock(bs[j]);
    }
  }
}

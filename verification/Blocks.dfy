/**
  The kernel heap of kernel/kalloc.c as a value: the list of blocks, in list order.  The
  class in KernelHeap.dfy threads these blocks together in memory; everything about what
  allocation and release mean is proved here.
 */
module Blocks {

  const HDR: nat := 20     // sizeof(header_t) on i686
  const PAGE: nat := 4096

  /** A header at `addr` and its data, `size` bytes together. */
  datatype Block = Block(addr: nat, size: nat, used: bool)

  type Heap = seq<Block>

  /** In address order, without gaps or overlaps, the blocks fill `base` to `end`. */
  predicate Tiles(bs: Heap, base: nat, end: nat) {
    if bs == [] then base == end
    else bs[0].addr == base && bs[0].size >= HDR && Tiles(bs[1..], base + bs[0].size, end)
  }

  /** No two neighbours are both free. */
  predicate Coalesced(bs: Heap) {
    |bs| < 2 || ((bs[0].used || bs[1].used) && Coalesced(bs[1..]))
  }

  function Used(bs: Heap): set<Block> {
    if bs == [] then {} else (if bs[0].used then {bs[0]} else {}) + Used(bs[1..])
  }

  /** The position of a used block. */
  ghost function Position(bs: Heap, b: Block): (i: nat)
    requires b in Used(bs)
    ensures i < |bs| && bs[i] == b
  {
    if bs[0] == b then 0 else 1 + Position(bs[1..], b)
  }

  /** The block whose header is at `a`, if there is one. */
  function BlockAt(bs: Heap, a: int): Block {
    if bs == [] then Block(0, 0, false) else if bs[0].addr == a then bs[0] else BlockAt(bs[1..], a)
  }

  function TotalSize(bs: Heap): nat {
    if bs == [] then 0 else bs[0].size + TotalSize(bs[1..])
  }

  // ---------------------------------------------------------------- allocation

  /** The size the allocator works with: at least the request, not a multiple of 4. */
  function Rounded(size: nat): nat {
    size + size % 4
  }

  /** The first page boundary that leaves room for two headers. */
  function Boundary(addr: nat): nat {
    (addr + 2 * HDR + PAGE - 1) / PAGE * PAGE
  }

  predicate Fits(b: Block, need: nat, align: bool) {
    && !b.used && b.size >= need + HDR
    && (align ==> Boundary(b.addr) + need <= b.addr + b.size)
  }

  /** The address handed out when `b` is the block that is used. */
  function Pointer(b: Block, align: bool): nat {
    if align then Boundary(b.addr) else b.addr + HDR
  }

  /** What becomes of a block that fits: a piece before the boundary, the allocation, and
      the rest if it can hold a header. */
  function Place(b: Block, need: nat, align: bool): (r: Heap)
    requires Fits(b, need, align)
  {
    if align then
      var a := Boundary(b.addr);
      var m := b.addr + b.size - (a - HDR);
      [Block(b.addr, a - HDR - b.addr, false)] +
      (if m > need + 2 * HDR
       then [Block(a - HDR, HDR + need, true), Block(a + need, m - HDR - need, false)]
       else [Block(a - HDR, m, true)])
    else if b.size < need + 2 * HDR then [b.(used := true)]
    else [Block(b.addr, HDR + need, true), Block(b.addr + HDR + need, b.size - HDR - need, false)]
  }

  /** First fit along the list; the pointer is 0 if nothing fits. */
  function Alloc(bs: Heap, need: nat, align: bool): (nat, Heap) {
    if bs == [] then (0, [])
    else if Fits(bs[0], need, align) then (Pointer(bs[0], align), Place(bs[0], need, align) + bs[1..])
    else var (p, r) := Alloc(bs[1..], need, align); (p, [bs[0]] + r)
  }

  lemma BoundaryFacts(addr: nat)
    ensures Boundary(addr) % PAGE == 0
    ensures addr + 2 * HDR <= Boundary(addr) < addr + 2 * HDR + PAGE
  {
    var x := addr + 2 * HDR + PAGE - 1;
    assert x == x / PAGE * PAGE + x % PAGE;
  }

  // ------------------------------------------------------------------- release

  /** Merge the first block with the second if that is free. */
  function MergeNext(bs: Heap): (r: Heap)
    requires bs != []
    ensures r != []
  {
    if |bs| > 1 && !bs[1].used then [bs[0].(size := bs[0].size + bs[1].size)] + bs[2..] else bs
  }

  /** kfree of the block whose header is at `h`. */
  function Free(bs: Heap, h: nat): Heap {
    if bs == [] then []
    else if bs[0].addr == h then MergeNext([bs[0].(used := false)] + bs[1..])
    else if |bs| > 1 && bs[1].addr == h && !bs[0].used then
      var m := MergeNext([bs[1].(used := false)] + bs[2..]);
      [bs[0].(size := bs[0].size + m[0].size)] + m[1..]
    else [bs[0]] + Free(bs[1..], h)
  }

  // ------------------------------------------------------------ what allocation keeps

  /** The block that carries the allocation. */
  function Taken(b: Block, need: nat, align: bool): Block
    requires Fits(b, need, align)
  {
    var r := Place(b, need, align);
    if align then r[1] else r[0]
  }

  lemma PlaceFacts(b: Block, need: nat, align: bool)
    requires Fits(b, need, align) && b.size >= HDR
    ensures Tiles(Place(b, need, align), b.addr, b.addr + b.size)
    ensures Coalesced(Place(b, need, align))
    ensures Used(Place(b, need, align)) == {Taken(b, need, align)}
    ensures Taken(b, need, align).addr + HDR == Pointer(b, align)
    ensures Taken(b, need, align).size >= HDR + need && Taken(b, need, align).used
    ensures align ==> Pointer(b, align) % PAGE == 0
  {
    BoundaryFacts(b.addr);
    var r := Place(b, need, align);
    Unroll(r);
    if |r| > 1 {
      Unroll(r[1..]);
    }
  }

  /** The list definitions, unrolled over a short list. */
  lemma Unroll(bs: Heap)
    requires bs != []
    ensures |bs| == 1 ==> forall base: nat, end: nat :: Tiles(bs, base, end) <==>
      bs[0].addr == base && bs[0].size >= HDR && base + bs[0].size == end
    ensures |bs| == 1 ==> Coalesced(bs) && Used(bs) == if bs[0].used then {bs[0]} else {}
    ensures |bs| == 2 ==> Coalesced(bs) == (bs[0].used || bs[1].used)
    ensures |bs| == 2 ==> Used(bs) == (if bs[0].used then {bs[0]} else {}) + (if bs[1].used then {bs[1]} else {})
    ensures |bs| == 2 ==> forall base: nat, end: nat :: Tiles(bs, base, end) <==>
      && bs[0].addr == base && bs[0].size >= HDR
      && bs[1].addr == base + bs[0].size && bs[1].size >= HDR && bs[1].addr + bs[1].size == end
  {
    if |bs| == 1 {
      assert bs[1..] == [];
    } else if |bs| == 2 {
      assert bs[1..] == [bs[1]] && bs[1..][1..] == [];
      assert Used(bs[1..]) == if bs[1].used then {bs[1]} else {};
    }
  }

  lemma {:induction false} TilesConcat(a: Heap, b: Heap, base: nat, mid: nat, end: nat)
    requires Tiles(a, base, mid) && Tiles(b, mid, end)
    ensures Tiles(a + b, base, end)
  {
    if a == [] {
      assert a + b == b;
    } else {
      TilesConcat(a[1..], b, base + a[0].size, mid, end);
      assert (a + b)[1..] == a[1..] + b;
    }
  }

  lemma {:induction false} UsedConcat(a: Heap, b: Heap)
    ensures Used(a + b) == Used(a) + Used(b)
  {
    if a == [] {
      assert a + b == b;
    } else {
      UsedConcat(a[1..], b);
      assert (a + b)[1..] == a[1..] + b;
    }
  }

  lemma {:induction false} CoalescedConcat(a: Heap, b: Heap)
    requires Coalesced(a) && Coalesced(b)
    requires a != [] && b != [] ==> a[|a| - 1].used || b[0].used
    ensures Coalesced(a + b)
  {
    if a == [] {
      assert a + b == b;
    } else {
      assert (a + b)[1..] == a[1..] + b;
      if |a| > 1 {
        assert (a + b)[1] == a[1];
      }
      CoalescedConcat(a[1..], b);
    }
  }

  lemma {:induction false} TilesFacts(bs: Heap, base: nat, end: nat)
    requires Tiles(bs, base, end)
    ensures base + TotalSize(bs) == end
    ensures forall b :: b in Used(bs) ==> b.used && base <= b.addr && b.addr + b.size <= end && b.size >= HDR
  {
    if bs != [] {
      TilesFacts(bs[1..], base + bs[0].size, end);
    }
  }

  lemma {:induction false} BlockAtUsed(bs: Heap, base: nat, end: nat, b: Block)
    requires Tiles(bs, base, end) && b in Used(bs)
    ensures BlockAt(bs, b.addr) == b
  {
    TilesFacts(bs[1..], base + bs[0].size, end);
    if bs[0] != b {
      BlockAtUsed(bs[1..], base + bs[0].size, end, b);
    }
  }

  /** A list with its block at `k` replaced, built from the front. */
  lemma PushFront(bs: Heap, k: nat, p: Heap)
    requires 0 < k < |bs|
    ensures [bs[0]] + (bs[1..][..k - 1] + p + bs[1..][k..]) == bs[..k] + p + bs[k + 1..]
  {
    assert [bs[0]] + bs[1..][..k - 1] == bs[..k];
    assert bs[1..][k..] == bs[k + 1..];
    assert [bs[0]] + (bs[1..][..k - 1] + p + bs[1..][k..]) == ([bs[0]] + bs[1..][..k - 1]) + p + bs[1..][k..];
  }

  /** Exactly the first block that fits is used, and nothing else changes. */
  lemma {:induction false} AllocFirstFit(bs: Heap, need: nat, align: bool) returns (k: nat)
    ensures k <= |bs| && (forall j :: 0 <= j < k ==> !Fits(bs[j], need, align))
    ensures k == |bs| ==> Alloc(bs, need, align) == (0, bs)
    ensures k < |bs| ==>
      && Fits(bs[k], need, align)
      && Alloc(bs, need, align) == (Pointer(bs[k], align), bs[..k] + Place(bs[k], need, align) + bs[k + 1..])
  {
    hide Boundary, Place, Pointer;
    if bs == [] {
      k := 0;
    } else if Fits(bs[0], need, align) {
      k := 0;
      assert bs[..0] + Place(bs[0], need, align) + bs[1..] == Place(bs[0], need, align) + bs[1..];
    } else {
      var k' := AllocFirstFit(bs[1..], need, align);
      k := k' + 1;
      assert bs == [bs[0]] + bs[1..];
      if k < |bs| {
        PushFront(bs, k, Place(bs[k], need, align));
      }
    }
  }

  /** The allocator gives up exactly when no free block can hold the request. */
  lemma AllocFailsIff(bs: Heap, need: nat, align: bool)
    ensures Alloc(bs, need, align).0 == 0 <==> forall j :: 0 <= j < |bs| ==> !Fits(bs[j], need, align)
    ensures Alloc(bs, need, align).0 == 0 ==> Alloc(bs, need, align).1 == bs
  {
    var k := AllocFirstFit(bs, need, align);
    if k < |bs| {
      BoundaryFacts(bs[k].addr);
    }
  }

  lemma {:induction false} AllocKeeps(bs: Heap, base: nat, end: nat, need: nat, align: bool)
    requires Tiles(bs, base, end)
    ensures Tiles(Alloc(bs, need, align).1, base, end)
    ensures Coalesced(bs) ==> Coalesced(Alloc(bs, need, align).1)
    ensures var r := Alloc(bs, need, align).1; (r == [] <==> bs == []) && (r != [] && !r[0].used ==> !bs[0].used)
  {
    if bs == [] {
    } else if Fits(bs[0], need, align) {
      var p := Place(bs[0], need, align);
      PlaceFacts(bs[0], need, align);
      TilesConcat(p, bs[1..], base, base + bs[0].size, end);
      if Coalesced(bs) {
        CoalescedConcat(p, bs[1..]);
      }
    } else {
      AllocKeeps(bs[1..], base + bs[0].size, end, need, align);
      var r := Alloc(bs[1..], need, align).1;
      assert ([bs[0]] + r)[1..] == r;
    }
  }

  /** The block an allocation that succeeds ends up in. */
  function Found(bs: Heap, need: nat, align: bool): Block
    requires Alloc(bs, need, align).0 != 0
  {
    if Fits(bs[0], need, align) then Taken(bs[0], need, align) else Found(bs[1..], need, align)
  }

  /** Rounding adds one byte to sizes of the form 4k + 1, two to 4k + 2, three to 4k + 3; the
      result is a multiple of 4 exactly for even sizes. */
  lemma RoundedExact(size: nat)
    ensures size <= Rounded(size) <= size + 3
    ensures Rounded(size + 4) == Rounded(size) + 4
    ensures Rounded(0) == 0 && Rounded(1) == 2 && Rounded(2) == 4 && Rounded(3) == 6
    ensures Rounded(size) % 4 == 0 <==> size % 2 == 0
  {
  }

  /** The request can be put at `p`: `need` bytes in the data of the block, and for an aligned
      request on a page boundary that leaves room for two headers in front. */
  predicate CanHold(b: Block, need: nat, align: bool, p: nat) {
    && p + need <= b.addr + b.size
    && if align then p % PAGE == 0 && p >= b.addr + 2 * HDR else p >= b.addr + HDR
  }

  /** A block is passed over only if it is in use or has no place for the request; it is put
      at the first place there is. */
  lemma FitsIff(b: Block, need: nat, align: bool)
    ensures Fits(b, need, align) <==> !b.used && exists p: nat :: CanHold(b, need, align, p)
    ensures Fits(b, need, align) ==>
      && CanHold(b, need, align, Pointer(b, align))
      && forall p: nat :: CanHold(b, need, align, p) ==> Pointer(b, align) <= p
  {
    BoundaryFacts(b.addr);
    forall p: nat | CanHold(b, need, align, p) ensures Pointer(b, align) <= p {
      if align {
        PageAfter(Boundary(b.addr), p, b.addr + 2 * HDR);
      }
    }
    if Fits(b, need, align) {
      assert CanHold(b, need, align, Pointer(b, align));
    }
  }

  /** The first page boundary from `x` on comes before any other. */
  lemma PageAfter(a: nat, p: nat, x: nat)
    requires a % PAGE == 0 && p % PAGE == 0 && x <= p && a < x + PAGE
    ensures a <= p
  {
  }

  /** The block taken is no bigger than it must be: a rest that can hold a header and data is
      cut off, and a smaller rest goes with the block. */
  lemma {:induction false} FoundExact(bs: Heap, need: nat, align: bool) returns (k: nat)
    requires Alloc(bs, need, align).0 != 0
    ensures k < |bs| && Fits(bs[k], need, align) && forall j :: 0 <= j < k ==> !Fits(bs[j], need, align)
    ensures var b, room := Found(bs, need, align), bs[k].addr + bs[k].size - Pointer(bs[k], align);
      && b.addr + HDR == Pointer(bs[k], align)
      && (if align then b.size <= need + 2 * HDR else b.size < need + 2 * HDR)
      && (b.size == HDR + need || b.size == HDR + room)
      && (b.size == HDR + need <==> room == need || (if align then room > need + HDR else room >= need + HDR))
  {
    hide Boundary;
    BoundaryFacts(bs[0].addr);
    if Fits(bs[0], need, align) {
      k := 0;
    } else {
      var k' := FoundExact(bs[1..], need, align);
      k := k' + 1;
    }
  }

  /** In the request itself: besides its header a block has at most 23 bytes too many. */
  lemma LittleLost(bs: Heap, size: nat, align: bool)
    requires Alloc(bs, Rounded(size), align).0 != 0
    ensures Found(bs, Rounded(size), align).size <= size + 3 + 2 * HDR
  {
    RoundedExact(size);
    var k := FoundExact(bs, Rounded(size), align);
  }

  /** Allocation adds one used block, big enough and at the address returned, and keeps all others. */
  lemma {:induction false} AllocUsed(bs: Heap, base: nat, end: nat, need: nat, align: bool)
    requires Tiles(bs, base, end) && Alloc(bs, need, align).0 != 0
    ensures var b := Found(bs, need, align);
      && Used(Alloc(bs, need, align).1) == Used(bs) + {b} && b !in Used(bs)
      && b.used && b.addr + HDR == Alloc(bs, need, align).0 && b.size >= HDR + need
      && base <= b.addr && b.addr + b.size <= end
    ensures align ==> Alloc(bs, need, align).0 % PAGE == 0
  {
    hide Boundary, Place, Pointer, Taken;
    var b := Found(bs, need, align);
    if Fits(bs[0], need, align) {
      var p := Place(bs[0], need, align);
      PlaceFacts(bs[0], need, align);
      assert b in Used(p);
      UsedConcat(p, bs[1..]);
      TilesFacts(p, base, base + bs[0].size);
      TilesFacts(bs[1..], base + bs[0].size, end);
      assert Used(bs) == Used(bs[1..]);
    } else {
      AllocUsed(bs[1..], base + bs[0].size, end, need, align);
      TilesFacts(bs, base, end);
      var r := Alloc(bs[1..], need, align).1;
      assert ([bs[0]] + r)[1..] == r;
    }
  }

  // --------------------------------------------------------------- what release keeps

  /** Freeing and merging at the head of a list. */
  lemma MergeFacts(b: Block, rest: Heap, end: nat)
    requires b.size >= HDR && Tiles(rest, b.addr + b.size, end)
    ensures var m := MergeNext([b.(used := false)] + rest);
      && Tiles(m, b.addr, end) && m[0].addr == b.addr && !m[0].used
      && Used(m) == Used(rest) && Used(m[1..]) == Used(rest) && Tiles(m[1..], b.addr + m[0].size, end)
      && (Coalesced(rest) ==> Coalesced(m) && (|m| > 1 ==> m[1].used))
  {
    var bs := [b.(used := false)] + rest;
    assert bs[1..] == rest;
    if rest != [] && !rest[0].used {
      var m := MergeNext(bs);
      assert bs[2..] == rest[1..] && m[1..] == rest[1..];
    }
  }

  lemma CoalescedTail(bs: Heap)
    requires bs != [] && Coalesced(bs)
    ensures Coalesced(bs[1..])
  {
  }

  lemma {:induction false} FreeKeeps(bs: Heap, base: nat, end: nat, h: nat)
    requires Tiles(bs, base, end)
    ensures Tiles(Free(bs, h), base, end)
    ensures Coalesced(bs) ==> Coalesced(Free(bs, h))
    ensures bs != [] && bs[0].addr != h ==> Free(bs, h) != [] && Free(bs, h)[0].used == bs[0].used
  {
    if bs == [] {
    } else if bs[0].addr == h {
      MergeFacts(bs[0], bs[1..], end);
    } else if |bs| > 1 && bs[1].addr == h && !bs[0].used {
      assert bs[1..][0] == bs[1] && bs[1..][1..] == bs[2..];
      MergeFacts(bs[1], bs[2..], end);
      var m := MergeNext([bs[1].(used := false)] + bs[2..]);
      var r := [bs[0].(size := bs[0].size + m[0].size)] + m[1..];
      assert r[1..] == m[1..];
      if Coalesced(bs) {
        CoalescedTail(bs);
        CoalescedTail(bs[1..]);
        CoalescedTail(m);
        assert |r| > 1 ==> r[1] == m[1];
      }
    } else {
      FreeKeeps(bs[1..], base + bs[0].size, end, h);
      var r := Free(bs[1..], h);
      assert ([bs[0]] + r)[1..] == r;
      if |bs| > 1 {
        assert bs[1..][0] == bs[1];
      }
    }
  }

  /** Release takes exactly the block at `h` out of the used ones. */
  lemma {:induction false} FreeUsed(bs: Heap, base: nat, end: nat, b: Block)
    requires Tiles(bs, base, end) && b in Used(bs)
    ensures Used(Free(bs, b.addr)) == Used(bs) - {b}
  {
    hide MergeNext;
    var h, rest := b.addr, bs[1..];
    TilesFacts(rest, base + bs[0].size, end);
    assert bs == [bs[0]] + rest;
    if bs[0].addr == h {
      assert b == bs[0] && b !in Used(rest);
      FreeFirst(b, rest);
      MergeFacts(b, rest, end);
    } else if rest != [] && rest[0].addr == h && !bs[0].used {
      var tail := rest[1..];
      assert rest == [rest[0]] + tail;
      TilesFacts(tail, base + bs[0].size + rest[0].size, end);
      assert b == rest[0] && Used(bs) == {b} + Used(tail) && b !in Used(tail);
      MergeFacts(b, tail, end);
      FreeSecond(bs[0], b, tail);
      var m := MergeNext([b.(used := false)] + tail);
      var r := [bs[0].(size := bs[0].size + m[0].size)] + m[1..];
      assert r[1..] == m[1..];
    } else {
      FreeUsed(rest, base + bs[0].size, end, b);
      var r := Free(rest, h);
      assert ([bs[0]] + r)[1..] == r;
      assert rest != [] ==> bs[1] == rest[0];
      assert Free(bs, h) == [bs[0]] + r;
    }
  }

  // ------------------------------------------------------- release undoes allocation

  lemma MergeFirst(b: Block, tail: Heap, x: Block, rest: Heap)
    requires tail == [x] + rest && !x.used
    ensures MergeNext([b] + tail) == [b.(size := b.size + x.size)] + rest
  {
    var bs := [b] + tail;
    assert bs[1] == x && bs[2..] == rest;
  }

  lemma MergeNone(b: Block, rest: Heap)
    requires rest != [] ==> rest[0].used
    ensures MergeNext([b] + rest) == [b] + rest
  {
    assert rest != [] ==> ([b] + rest)[1] == rest[0];
  }

  lemma FreeFirst(b: Block, tail: Heap)
    ensures Free([b] + tail, b.addr) == MergeNext([b.(used := false)] + tail)
  {
    assert ([b] + tail)[1..] == tail;
  }

  lemma FreeSecond(front: Block, b: Block, tail: Heap)
    requires !front.used && front.addr != b.addr
    ensures var m := MergeNext([b.(used := false)] + tail);
      Free([front] + ([b] + tail), b.addr) == [front.(size := front.size + m[0].size)] + m[1..]
  {
    var bs := [front] + ([b] + tail);
    assert bs[1] == b && bs[2..] == tail;
  }

  lemma FreePlacedPlain(b: Block, rest: Heap, need: nat)
    requires Fits(b, need, false) && (rest != [] ==> rest[0].used)
    ensures Free(Place(b, need, false) + rest, b.addr) == [b] + rest
  {
    hide Free, MergeNext;
    var p := Place(b, need, false);
    var tail := p[1..] + rest;
    assert p + rest == [p[0]] + tail;
    FreeFirst(p[0], tail);
    if |p| == 2 {
      assert tail == [p[1]] + rest;
      MergeFirst(p[0].(used := false), tail, p[1], rest);
    } else {
      assert tail == rest;
      MergeNone(b, rest);
    }
  }

  lemma FreePlacedAligned(b: Block, rest: Heap, need: nat)
    requires Fits(b, need, true) && (rest != [] ==> rest[0].used)
    ensures Free(Place(b, need, true) + rest, Boundary(b.addr) - HDR) == [b] + rest
  {
    BoundaryFacts(b.addr);
    hide Boundary, Free, MergeNext;
    var p := Place(b, need, true);
    var tail := p[2..] + rest;
    assert p + rest == [p[0]] + ([p[1]] + tail);
    FreeSecond(p[0], p[1], tail);
    if |p| == 3 {
      assert tail == [p[2]] + rest;
      MergeFirst(p[1].(used := false), tail, p[2], rest);
    } else {
      assert tail == rest;
      MergeNone(p[1].(used := false), rest);
    }
    var m := MergeNext([p[1].(used := false)] + tail);
    assert m[1..] == rest;
  }

  /** Only a free block can be given out, so the block at the pointer was free. */
  lemma AllocAtHead(bs: Heap, base: nat, end: nat, need: nat, align: bool)
    requires Tiles(bs, base, end) && Alloc(bs, need, align).0 != 0
    ensures Alloc(bs, need, align).0 >= base + HDR
    ensures Alloc(bs, need, align).0 == base + HDR ==> !bs[0].used
  {
    hide Boundary, Place;
    if !Fits(bs[0], need, align) {
      AllocUsed(bs[1..], base + bs[0].size, end, need, align);
    } else {
      PlaceFacts(bs[0], need, align);
      TilesFacts(Place(bs[0], need, align), base, base + bs[0].size);
      assert Taken(bs[0], need, align) in Used(Place(bs[0], need, align));
    }
  }

  /** Freeing what was just allocated restores the block list exactly. */
  lemma {:induction false} FreeUndoesAlloc(bs: Heap, base: nat, end: nat, need: nat, align: bool)
    requires Tiles(bs, base, end) && Coalesced(bs) && Alloc(bs, need, align).0 != 0
    ensures Alloc(bs, need, align).0 >= HDR
    ensures Free(Alloc(bs, need, align).1, Alloc(bs, need, align).0 - HDR) == bs
  {
    hide Boundary, Place;
    AllocAtHead(bs, base, end, need, align);
    if Fits(bs[0], need, align) {
      if align {
        FreePlacedAligned(bs[0], bs[1..], need);
      } else {
        FreePlacedPlain(bs[0], bs[1..], need);
      }
      assert bs == [bs[0]] + bs[1..];
    } else {
      var rest := bs[1..];
      AllocAtHead(rest, base + bs[0].size, end, need, align);
      FreeUndoesAlloc(rest, base + bs[0].size, end, need, align);
      AllocKeeps(rest, base + bs[0].size, end, need, align);
      var (p, r) := Alloc(rest, need, align);
      var all := [bs[0]] + r;
      assert all[1..] == r && all[1] == r[0];
      assert rest[0] == bs[1];
      assert Free(all, p - HDR) == [bs[0]] + Free(r, p - HDR);
    }
  }

  // ------------------------------------------------------------- by position in the list

  lemma {:induction false} TilesAt(bs: Heap, base: nat, end: nat, i: nat)
    requires Tiles(bs, base, end) && i < |bs|
    ensures Tiles(bs[..i], base, bs[i].addr) && Tiles(bs[i + 1..], bs[i].addr + bs[i].size, end)
    ensures base <= bs[i].addr && bs[i].size >= HDR && bs[i].addr + bs[i].size <= end
  {
    TilesFacts(bs[1..], base + bs[0].size, end);
    if i > 0 {
      TilesAt(bs[1..], base + bs[0].size, end, i - 1);
      assert bs[..i][1..] == bs[1..][..i - 1] && bs[1..][i..] == bs[i + 1..];
    }
  }

  /** Replace the blocks from `i` to `j` by others that tile the same stretch. */
  lemma TilesReplace(bs: Heap, base: nat, end: nat, i: nat, j: nat, mid: Heap)
    requires Tiles(bs, base, end) && i < j <= |bs|
    requires Tiles(mid, bs[i].addr, bs[j - 1].addr + bs[j - 1].size)
    ensures Tiles(bs[..i] + mid + bs[j..], base, end)
  {
    TilesAt(bs, base, end, i);
    TilesAt(bs, base, end, j - 1);
    TilesConcat(bs[..i], mid, base, bs[i].addr, bs[j - 1].addr + bs[j - 1].size);
    TilesConcat(bs[..i] + mid, bs[j..], base, bs[j - 1].addr + bs[j - 1].size, end);
  }

  /** Addresses increase along the list. */
  lemma {:induction false} Increasing(bs: Heap, base: nat, end: nat)
    requires Tiles(bs, base, end)
    ensures forall i :: 0 <= i < |bs| ==> base <= bs[i].addr && bs[i].size >= HDR && bs[i].addr + bs[i].size <= end
    ensures forall i, j :: 0 <= i < j < |bs| ==> bs[i].addr + HDR <= bs[j].addr
  {
    if bs != [] {
      Increasing(bs[1..], base + bs[0].size, end);
      TilesFacts(bs, base, end);
      forall i | 0 < i < |bs| ensures bs[i] == bs[1..][i - 1] {}
    }
  }

  /** Merge the block at `i` with the one after it. */
  function MergeAt(bs: Heap, i: nat): Heap
    requires i + 1 < |bs|
  {
    bs[..i] + [bs[i].(size := bs[i].size + bs[i + 1].size)] + bs[i + 2..]
  }

  lemma MergeShift(x: Block, bs: Heap, i: nat)
    requires i + 1 < |bs|
    ensures MergeAt([x] + bs, i + 1) == [x] + MergeAt(bs, i)
  {
    var ys := [x] + bs;
    assert ys[..i + 1] == [x] + bs[..i] && ys[i + 3..] == bs[i + 2..] && ys[i + 1] == bs[i] && ys[i + 2] == bs[i + 1];
  }

  /** The second half of kfree: merge backwards from position `i` if that is free. */
  function MergeBack(bs: Heap, i: nat): Heap
    requires i < |bs|
  {
    if i > 0 && !bs[i - 1].used then MergeAt(bs, i - 1) else bs
  }

  /** The first half: mark free, and merge forwards. */
  function ClearAndMerge(bs: Heap, i: nat): (r: Heap)
    requires i < |bs|
    ensures i < |r|
  {
    var c := bs[i := bs[i].(used := false)];
    if i + 1 < |c| && !c[i + 1].used then MergeAt(c, i) else c
  }

  /** kfree of the block at position `i`. */
  function FreeAt(bs: Heap, i: nat): Heap
    requires i < |bs|
  {
    MergeBack(ClearAndMerge(bs, i), i)
  }

  lemma ClearShift(x: Block, bs: Heap, i: nat)
    requires i < |bs|
    ensures ClearAndMerge([x] + bs, i + 1) == [x] + ClearAndMerge(bs, i)
  {
    var c := bs[i := bs[i].(used := false)];
    var ys := [x] + bs;
    assert ys[i + 1] == bs[i] && ys[i + 1 := ys[i + 1].(used := false)] == [x] + c;
    if i + 1 < |c| {
      assert ([x] + c)[i + 2] == c[i + 1];
      if !c[i + 1].used {
        MergeShift(x, c, i);
      }
    }
  }

  lemma ClearAtHead(b: Block, rest: Heap)
    ensures ClearAndMerge([b] + rest, 0) == MergeNext([b.(used := false)] + rest)
  {
    var c := [b.(used := false)] + rest;
    assert ([b] + rest)[0 := b.(used := false)] == c;
    if |c| > 1 && !c[1].used {
      assert c[..0] + [c[0].(size := c[0].size + c[1].size)] + c[2..]
          == [c[0].(size := c[0].size + c[1].size)] + c[2..];
    }
  }

  lemma FreeAtHead(x: Block, rest: Heap)
    ensures Free([x] + rest, x.addr) == FreeAt([x] + rest, 0)
  {
    hide MergeNext, ClearAndMerge;
    FreeFirst(x, rest);
    ClearAtHead(x, rest);
  }

  lemma FreeAtSecond(x: Block, b: Block, tail: Heap)
    requires !x.used && x.addr != b.addr
    ensures Free([x] + ([b] + tail), b.addr) == FreeAt([x] + ([b] + tail), 1)
  {
    hide MergeNext, ClearAndMerge;
    FreeSecond(x, b, tail);
    ClearShift(x, [b] + tail, 0);
    ClearAtHead(b, tail);
    var m := MergeNext([b.(used := false)] + tail);
    var d := [x] + m;
    assert d[1] == m[0] && d[2..] == m[1..];
    assert d[..0] + [x.(size := x.size + m[0].size)] + d[2..] == [x.(size := x.size + m[0].size)] + m[1..];
  }

  lemma FreeAtLater(x: Block, rest: Heap, j: nat)
    requires j < |rest| && (j == 0 ==> x.used)
    ensures FreeAt([x] + rest, j + 1) == [x] + FreeAt(rest, j)
  {
    hide ClearAndMerge;
    ClearShift(x, rest, j);
    var d := ClearAndMerge(rest, j);
    assert ([x] + d)[j] == if j == 0 then x else d[j - 1];
    if j > 0 && !d[j - 1].used {
      MergeShift(x, d, j - 1);
    }
  }

  lemma {:induction false} FreeIsFreeAt(bs: Heap, base: nat, end: nat, i: nat)
    requires Tiles(bs, base, end) && i < |bs|
    ensures Free(bs, bs[i].addr) == FreeAt(bs, i)
    decreases i
  {
    hide FreeAt;
    Increasing(bs, base, end);
    var x, rest := bs[0], bs[1..];
    assert bs == [x] + rest;
    if i == 0 {
      FreeAtHead(x, rest);
    } else if i == 1 && !x.used {
      assert rest == [rest[0]] + rest[1..];
      FreeAtSecond(x, rest[0], rest[1..]);
    } else {
      FreeIsFreeAt(rest, base + x.size, end, i - 1);
      FreeAtLater(x, rest, i - 1);
      assert rest[i - 1] == bs[i];
      assert Free(bs, bs[i].addr) == [x] + Free(rest, bs[i].addr);
    }
  }

  lemma Adjacent(bs: Heap, base: nat, end: nat, i: nat)
    requires Tiles(bs, base, end) && i + 1 < |bs|
    ensures bs[i + 1].addr == bs[i].addr + bs[i].size
  {
    TilesAt(bs, base, end, i);
    assert bs[i + 1..][0] == bs[i + 1];
  }
}

/**
  kmalloc and kfree run with interrupts on (kernel/kalloc.c:87-243), and the tick that lands
  in one of them may run other code that allocates, or a pick loop that calls free_task.
  Here three of their steps are cut in two: what was found before the tick, and the writes
  made after it on the list as it then is.
 */
module HeapCuts {
  import opened Blocks

  // ------------------------------------ kmalloc between its test and its mark (108, 138-150)

  /** Lines 138-150 on the block at the pointer `h` found before, whatever it has become. */
  function PlaceAnyway(b: Block, need: nat): Heap {
    if b.size < need + 2 * HDR then [b.(used := true)]
    else [Block(b.addr, HDR + need, true), Block(b.addr + HDR + need, b.size - HDR - need, b.used)]
  }

  /** On a block that is still free and fits, that is what the uncut call does. */
  lemma AnywayIsPlace(b: Block, need: nat)
    requires Fits(b, need, false)
    ensures PlaceAnyway(b, need) == Place(b, need, false)
  {
  }

  /** The list after the writes; if no block starts at `h` any more they do not show in it. */
  function Resume(bs: Heap, h: nat, need: nat): Heap {
    if bs == [] then []
    else if bs[0].addr == h then PlaceAnyway(bs[0], need) + bs[1..]
    else [bs[0]] + Resume(bs[1..], h, need)
  }

  ghost predicate StartsAt(bs: Heap, h: nat) {
    exists i :: 0 <= i < |bs| && bs[i].addr == h
  }

  /** What the caller of kmalloc is promised: one more block in use, big enough, at the
      pointer, and all others as they were. */
  ghost predicate Granted(before: Heap, after: Heap, h: nat, need: nat) {
    exists b :: b !in Used(before) && Used(after) == Used(before) + {b} && b.addr == h && b.size >= HDR + need
  }

  lemma PlaceAnywayUsed(b: Block, need: nat)
    ensures b.size < need + 2 * HDR ==> Used(PlaceAnyway(b, need)) == {b.(used := true)}
    ensures b.size >= need + 2 * HDR && !b.used ==> Used(PlaceAnyway(b, need)) == {Block(b.addr, HDR + need, true)}
    ensures b.size >= need + 2 * HDR && b.used ==>
      Used(PlaceAnyway(b, need))
        == {Block(b.addr, HDR + need, true), Block(b.addr + HDR + need, b.size - HDR - need, true)}
  {
    Unroll(PlaceAnyway(b, need));
  }

  /** The writes replace the block at `h`, if there is one, and nothing else. */
  lemma {:induction false} ResumeUsed(bs: Heap, base: nat, end: nat, h: nat, need: nat)
    requires Tiles(bs, base, end)
    ensures !StartsAt(bs, h) ==> Resume(bs, h, need) == bs
    ensures StartsAt(bs, h) ==>
      var b := BlockAt(bs, h);
      && b.addr == h && (b.used <==> b in Used(bs))
      && Used(Resume(bs, h, need)) == Used(bs) - {b} + Used(PlaceAnyway(b, need))
  {
    hide PlaceAnyway;
    if bs != [] {
      TilesFacts(bs[1..], base + bs[0].size, end);
      if bs[0].addr == h {
        UsedConcat(PlaceAnyway(bs[0], need), bs[1..]);
        assert StartsAt(bs, h);
      } else {
        ResumeUsed(bs[1..], base + bs[0].size, end, h, need);
        StartsLater(bs, h);
        var r := Resume(bs[1..], h, need);
        assert ([bs[0]] + r)[1..] == r;
        if StartsAt(bs[1..], h) {
          AboveBase(bs[1..], base + bs[0].size, end, h);
          PlaceAnywayUsed(BlockAt(bs[1..], h), need);
        }
      }
    }
  }

  lemma StartsLater(bs: Heap, h: nat)
    requires bs != [] && bs[0].addr != h
    ensures StartsAt(bs, h) <==> StartsAt(bs[1..], h)
  {
    assert forall i :: 0 <= i < |bs[1..]| ==> bs[1..][i] == bs[i + 1];
  }

  lemma AboveBase(bs: Heap, base: nat, end: nat, h: nat)
    requires Tiles(bs, base, end) && StartsAt(bs, h)
    ensures h >= base
  {
    Increasing(bs, base, end);
  }

  /** The exact condition: the resumed call keeps its promise if and only if a free block
      that is big enough still starts at the pointer. */
  lemma LateMarkIff(bs: Heap, base: nat, end: nat, h: nat, need: nat)
    requires Tiles(bs, base, end)
    ensures Granted(bs, Resume(bs, h, need), h, need) <==> StartsAt(bs, h) && Fits(BlockAt(bs, h), need, false)
  {
    ResumeUsed(bs, base, end, h, need);
    hide Resume, Used;
    if StartsAt(bs, h) {
      var b := BlockAt(bs, h);
      PlaceAnywayUsed(b, need);
      OnlyAt(bs, base, end, b);
      if Fits(b, need, false) {
        var x := if b.size < need + 2 * HDR then b.(used := true) else Block(b.addr, HDR + need, true);
        assert Used(Resume(bs, h, need)) == Used(bs) + {x};
      }
    }
  }

  lemma OnlyAt(bs: Heap, base: nat, end: nat, b: Block)
    requires Tiles(bs, base, end) && StartsAt(bs, b.addr) && b == BlockAt(bs, b.addr)
    ensures forall c :: c in Used(bs) && c.addr == b.addr ==> c == b
  {
    forall c | c in Used(bs) && c.addr == b.addr ensures c == b {
      BlockAtUsed(bs, base, end, c);
    }
  }

  /** In particular two calls for the same size, one cut by the other, get the same memory. */
  lemma GivenTwice(bs: Heap, base: nat, end: nat, need: nat)
    requires Tiles(bs, base, end) && Alloc(bs, need, false).0 != 0
    ensures var (p, r) := Alloc(bs, need, false);
      && p >= HDR && Found(bs, need, false) in Used(r) && Found(bs, need, false).addr == p - HDR
      && !Granted(r, Resume(r, p - HDR, need), p - HDR, need)
  {
    hide Granted, Resume, Used;
    AllocUsed(bs, base, end, need, false);
    AllocKeeps(bs, base, end, need, false);
    var (p, r) := Alloc(bs, need, false);
    BlockAtUsed(r, base, end, Found(bs, need, false));
    LateMarkIff(r, base, end, p - HDR, need);
  }

  // --------------------------------------- kfree between its test and its merge (227-242)

  lemma TwoParts(bs: Heap, i: nat)
    requires i + 1 < |bs|
    ensures bs == bs[..i] + ([bs[i], bs[i + 1]] + bs[i + 2..])
    ensures MergeAt(bs, i) == bs[..i] + ([bs[i].(size := bs[i].size + bs[i + 1].size)] + bs[i + 2..])
  {
    assert bs[i..] == [bs[i]] + bs[i + 1..] && bs[i + 1..] == [bs[i + 1]] + bs[i + 2..];
    assert [bs[i]] + ([bs[i + 1]] + bs[i + 2..]) == [bs[i], bs[i + 1]] + bs[i + 2..];
    assert bs == bs[..i] + bs[i..];
  }

  /** A merge made on the two blocks as they are after the tick changes nothing that is in
      use if and only if both are still free. */
  lemma LateMergeIff(bs: Heap, base: nat, end: nat, i: nat)
    requires Tiles(bs, base, end) && i + 1 < |bs|
    ensures Used(MergeAt(bs, i)) == Used(bs) <==> !bs[i].used && !bs[i + 1].used
  {
    var xs, m, ys := bs[..i], bs[i].(size := bs[i].size + bs[i + 1].size), bs[i + 2..];
    var two := [bs[i], bs[i + 1]];
    TwoParts(bs, i);
    UsedConcat(xs, two + ys);
    UsedConcat(two, ys);
    UsedConcat(xs, [m] + ys);
    UsedConcat([m], ys);
    Unroll(two);
    Unroll([m]);
    Increasing(bs, base, end);
    hide Tiles, MergeAt;
    forall j | j == i || j == i + 1 ensures bs[j] !in Used(xs) && bs[j] !in Used(ys) {
      NotElsewhere(bs, base, end, j, xs, i);
      NotElsewhere(bs, base, end, j, ys, i);
    }
  }

  lemma NotElsewhere(bs: Heap, base: nat, end: nat, j: nat, part: Heap, i: nat)
    requires Tiles(bs, base, end) && i + 1 < |bs| && (j == i || j == i + 1)
    requires part == bs[..i] || part == bs[i + 2..]
    ensures bs[j] !in Used(part)
  {
    if bs[j] in Used(part) {
      var k := Position(part, bs[j]);
      Increasing(bs, base, end);
    }
  }

  // ------------------------------------------- split_block between its size and its links

  /** After line 57: the block is short, and its remainder not yet in the list. */
  function Shrunk(bs: Heap, i: nat, dist: nat): Heap
    requires i < |bs|
  {
    bs[i := bs[i].(size := dist)]
  }

  /** Lines 60-64: the remainder goes behind the block at `h`, if that is still in the list. */
  function InsertAfter(bs: Heap, h: nat, n: Block): Heap {
    if bs == [] then []
    else if bs[0].addr == h then [bs[0], n] + bs[1..]
    else [bs[0]] + InsertAfter(bs[1..], h, n)
  }

  /** A free block is being split, and in the middle of it block `j` is freed. */
  function SplitAroundFree(bs: Heap, i: nat, dist: nat, j: nat): Heap
    requires i < |bs| && j < |bs| && dist <= bs[i].size
  {
    InsertAfter(FreeAt(Shrunk(bs, i, dist), j), bs[i].addr, Block(bs[i].addr + dist, bs[i].size - dist, false))
  }

  ghost predicate NoneAt(bs: Heap, h: nat) {
    forall k :: 0 <= k < |bs| ==> bs[k].addr != h
  }

  lemma {:induction false} InsertAfterSkips(xs: Heap, b: Block, ys: Heap, n: Block)
    requires NoneAt(xs, b.addr)
    ensures InsertAfter(xs + ([b] + ys), b.addr, n) == xs + ([b, n] + ys)
    decreases |xs|
  {
    var all := xs + ([b] + ys);
    if xs == [] {
      assert all == [b] + ys && all[1..] == ys;
    } else {
      InsertAfterSkips(xs[1..], b, ys, n);
      assert all[1..] == xs[1..] + ([b] + ys);
      assert [xs[0]] + (xs[1..] + ([b, n] + ys)) == xs + ([b, n] + ys);
    }
  }

  lemma {:induction false} InsertNowhere(bs: Heap, h: nat, n: Block)
    requires NoneAt(bs, h)
    ensures InsertAfter(bs, h, n) == bs
  {
    if bs != [] {
      InsertNowhere(bs[1..], h, n);
    }
  }

  /** Freeing far enough behind, or far enough in front, leaves the rest of the list alone. */
  lemma {:induction false} FreeBehind(xs: Heap, ys: Heap, j: nat)
    requires 0 < j < |ys|
    ensures FreeAt(xs + ys, |xs| + j) == xs + FreeAt(ys, j)
    decreases |xs|
  {
    hide FreeAt;
    if xs == [] {
      assert xs + ys == ys && xs + FreeAt(ys, j) == FreeAt(ys, j);
    } else {
      var rest := xs[1..] + ys;
      assert xs + ys == [xs[0]] + rest;
      FreeBehind(xs[1..], ys, j);
      FreeAtLater(xs[0], rest, |xs| - 1 + j);
      assert [xs[0]] + (xs[1..] + FreeAt(ys, j)) == xs + FreeAt(ys, j);
    }
  }

  lemma MergeInFront(xs: Heap, ys: Heap, j: nat)
    requires j + 1 < |xs|
    ensures MergeAt(xs + ys, j) == MergeAt(xs, j) + ys
  {
    var m := xs[j].(size := xs[j].size + xs[j + 1].size);
    assert (xs + ys)[..j] == xs[..j] && (xs + ys)[j + 2..] == xs[j + 2..] + ys;
    assert xs[..j] + [m] + (xs[j + 2..] + ys) == xs[..j] + [m] + xs[j + 2..] + ys;
  }

  lemma ClearInFront(xs: Heap, ys: Heap, j: nat)
    requires j + 1 < |xs|
    ensures ClearAndMerge(xs + ys, j) == ClearAndMerge(xs, j) + ys
  {
    var c := xs[j := xs[j].(used := false)];
    assert (xs + ys)[j := xs[j].(used := false)] == c + ys;
    MergeInFront(c, ys, j);
  }

  lemma FreeInFront(xs: Heap, ys: Heap, j: nat)
    requires j + 1 < |xs|
    ensures FreeAt(xs + ys, j) == FreeAt(xs, j) + ys
  {
    ClearInFront(xs, ys, j);
    hide ClearAndMerge;
    var d := ClearAndMerge(xs, j);
    if j > 0 {
      assert (d + ys)[j - 1] == d[j - 1];
      MergeInFront(d, ys, j - 1);
    }
  }

  lemma FreeAtTiles(bs: Heap, base: nat, end: nat, j: nat)
    requires Tiles(bs, base, end) && j < |bs|
    ensures Tiles(FreeAt(bs, j), base, end)
  {
    FreeIsFreeAt(bs, base, end, j);
    FreeKeeps(bs, base, end, bs[j].addr);
  }

  /** The two halves between what comes before and what comes behind. */
  lemma HalvesTile(xs: Heap, b: Block, n: Block, ys: Heap, base: nat, end: nat)
    requires Tiles(xs, base, b.addr) && b.size >= HDR && n.size >= HDR && n.addr == b.addr + b.size
    requires Tiles(ys, n.addr + n.size, end)
    ensures Tiles(xs + ([b, n] + ys), base, end)
  {
    Unroll([b, n]);
    TilesConcat([b, n], ys, b.addr, n.addr + n.size, end);
    TilesConcat(xs, [b, n] + ys, base, b.addr, end);
  }

  /** The list with the block at `i` shortened, in its parts. */
  lemma ShrunkParts(bs: Heap, i: nat, dist: nat)
    requires i < |bs|
    ensures Shrunk(bs, i, dist) == bs[..i] + ([bs[i].(size := dist)] + bs[i + 1..])
    ensures Shrunk(bs, i, dist) == (bs[..i] + [bs[i].(size := dist)]) + bs[i + 1..]
  {
  }

  lemma NoneInFront(bs: Heap, base: nat, end: nat, h: nat)
    requires Tiles(bs, base, end) && end <= h
    ensures NoneAt(bs, h)
  {
    Increasing(bs, base, end);
  }

  /** A block further back is freed: no harm. */
  lemma FarBehind(bs: Heap, base: nat, end: nat, i: nat, dist: nat, j: nat)
    requires Tiles(bs, base, end) && i + 1 < j < |bs| && HDR <= dist && dist + HDR <= bs[i].size
    ensures Tiles(SplitAroundFree(bs, i, dist, j), base, end)
  {
    hide Tiles, FreeAt, InsertAfter, Shrunk, NoneAt;
    var xs, ys, b := bs[..i], bs[i + 1..], bs[i].(size := dist);
    var n := Block(bs[i].addr + dist, bs[i].size - dist, false);
    TilesAt(bs, base, end, i);
    NoneInFront(xs, base, b.addr, b.addr);
    ShrunkParts(bs, i, dist);
    FreeBehind(xs + [b], ys, j - i - 1);
    FreeAtTiles(ys, bs[i].addr + bs[i].size, end, j - i - 1);
    var zs := FreeAt(ys, j - i - 1);
    assert (xs + [b]) + zs == xs + ([b] + zs);
    InsertAfterSkips(xs, b, zs, n);
    HalvesTile(xs, b, n, zs, base, end);
  }

  /** A block further in front is freed: no harm. */
  lemma FarInFront(bs: Heap, base: nat, end: nat, i: nat, dist: nat, j: nat)
    requires Tiles(bs, base, end) && j + 1 < i < |bs| && HDR <= dist && dist + HDR <= bs[i].size
    ensures Tiles(SplitAroundFree(bs, i, dist, j), base, end)
  {
    hide Tiles, FreeAt, InsertAfter, Shrunk, NoneAt;
    var xs, ys, b := bs[..i], bs[i + 1..], bs[i].(size := dist);
    var n := Block(bs[i].addr + dist, bs[i].size - dist, false);
    TilesAt(bs, base, end, i);
    ShrunkParts(bs, i, dist);
    FreeInFront(xs, [b] + ys, j);
    FreeAtTiles(xs, base, b.addr, j);
    NoneInFront(FreeAt(xs, j), base, b.addr, b.addr);
    InsertAfterSkips(FreeAt(xs, j), b, ys, n);
    HalvesTile(FreeAt(xs, j), b, n, ys, base, end);
  }

  /** The block behind is freed: it is merged into the short block, which then overlaps the
      remainder. */
  lemma RightBehind(bs: Heap, base: nat, end: nat, i: nat, dist: nat)
    requires Tiles(bs, base, end) && i + 1 < |bs| && !bs[i].used && HDR <= dist && dist + HDR <= bs[i].size
    ensures !Tiles(SplitAroundFree(bs, i, dist, i + 1), base, end)
  {
    hide FreeAt, Shrunk, InsertAfter;
    var xs, h := bs[..i], bs[i].addr;
    var n := Block(h + dist, bs[i].size - dist, false);
    Increasing(bs, base, end);
    var b, rest := MergedBack(bs, i, dist);
    InsertAfterSkips(xs, b, rest, n);
    var r := xs + ([b, n] + rest);
    assert r[i] == b && r[i + 1] == n;
    if Tiles(r, base, end) {
      Adjacent(r, base, end, i);
    }
  }

  lemma MergedBack(bs: Heap, i: nat, dist: nat) returns (b: Block, rest: Heap)
    requires i + 1 < |bs| && !bs[i].used
    ensures FreeAt(Shrunk(bs, i, dist), i + 1) == bs[..i] + ([b] + rest)
    ensures b.addr == bs[i].addr && b.size >= dist + bs[i + 1].size
  {
    hide ClearAndMerge, MergeAt;
    var s := Shrunk(bs, i, dist);
    var d := ClearAndMerge(s, i + 1);
    ClearKeepsFront(s, i + 1);
    assert d[i] == d[..i + 1][i] == s[i];
    assert d[..i] == d[..i + 1][..i] == bs[..i];
    TwoParts(d, i);
    b, rest := d[i].(size := d[i].size + d[i + 1].size), d[i + 2..];
  }

  lemma ClearKeepsFront(bs: Heap, j: nat)
    requires j < |bs|
    ensures ClearAndMerge(bs, j)[..j] == bs[..j] && ClearAndMerge(bs, j)[j].size >= bs[j].size
  {
  }

  lemma MergeTotal(bs: Heap, i: nat)
    requires i + 1 < |bs|
    ensures TotalSize(MergeAt(bs, i)) == TotalSize(bs)
  {
    hide TotalSize, MergeAt;
    var m, two, ys := bs[i].(size := bs[i].size + bs[i + 1].size), [bs[i], bs[i + 1]], bs[i + 2..];
    TwoParts(bs, i);
    TotalConcat(bs[..i], two + ys);
    TotalConcat(bs[..i], [m] + ys);
    TotalConcat(two, ys);
    TotalConcat([m], ys);
    TotalShort(bs[i], bs[i + 1], m);
  }

  lemma TotalShort(a: Block, b: Block, m: Block)
    ensures TotalSize([a, b]) == a.size + b.size && TotalSize([m]) == m.size
  {
    assert [a, b][1..] == [b] && [b][1..] == [] && [m][1..] == [];
    assert TotalSize([b]) == b.size;
  }

  lemma {:induction false} TotalConcat(a: Heap, b: Heap)
    ensures TotalSize(a + b) == TotalSize(a) + TotalSize(b)
  {
    if a == [] {
      assert a + b == b;
    } else {
      TotalConcat(a[1..], b);
      assert (a + b)[1..] == a[1..] + b;
    }
  }

  lemma SetTotal(bs: Heap, i: nat, b: Block)
    requires i < |bs|
    ensures TotalSize(bs[i := b]) == TotalSize(bs) - bs[i].size + b.size
  {
    assert bs == bs[..i] + ([bs[i]] + bs[i + 1..]) && bs[i := b] == bs[..i] + ([b] + bs[i + 1..]);
    TotalConcat(bs[..i], [bs[i]] + bs[i + 1..]);
    TotalConcat(bs[..i], [b] + bs[i + 1..]);
    assert ([bs[i]] + bs[i + 1..])[1..] == bs[i + 1..] && ([b] + bs[i + 1..])[1..] == bs[i + 1..];
  }

  lemma FreeTotal(bs: Heap, j: nat)
    requires j < |bs|
    ensures TotalSize(FreeAt(bs, j)) == TotalSize(bs)
  {
    var c := bs[j := bs[j].(used := false)];
    SetTotal(bs, j, bs[j].(used := false));
    if j + 1 < |c| {
      MergeTotal(c, j);
    }
    var d := ClearAndMerge(bs, j);
    if j > 0 {
      MergeTotal(d, j - 1);
    }
  }

  /** The block in front is freed: it swallows the short block, and the remainder is lost. */
  lemma RightInFront(bs: Heap, base: nat, end: nat, i: nat, dist: nat)
    requires Tiles(bs, base, end) && 0 < i < |bs| && !bs[i].used && HDR <= dist && dist + HDR <= bs[i].size
    ensures !Tiles(SplitAroundFree(bs, i, dist, i - 1), base, end)
  {
    var s, h := Shrunk(bs, i, dist), bs[i].addr;
    var n := Block(h + dist, bs[i].size - dist, false);
    var f := FreeAt(s, i - 1);
    Increasing(bs, base, end);
    TilesFacts(bs, base, end);
    SetTotal(bs, i, bs[i].(size := dist));
    FreeTotal(s, i - 1);
    Swallowed(bs, i, dist);
    InsertNowhere(f, h, n);
    if Tiles(f, base, end) {
      TilesFacts(f, base, end);
    }
  }

  lemma Swallowed(bs: Heap, i: nat, dist: nat)
    requires 0 < i < |bs| && !bs[i].used
    requires forall k :: 0 <= k < |bs| && k != i ==> bs[k].addr != bs[i].addr
    ensures NoneAt(FreeAt(Shrunk(bs, i, dist), i - 1), bs[i].addr)
  {
    var s := Shrunk(bs, i, dist);
    var d := ClearAndMerge(s, i - 1);
    assert forall k :: 0 <= k < |d| ==> d[k].addr != bs[i].addr;
  }

  /** The exact condition for a split cut by the release of a block in use: the list is still
      a heap if and only if that block is not a neighbour of the one being split. */
  lemma SplitCutIff(bs: Heap, base: nat, end: nat, i: nat, dist: nat, j: nat)
    requires Tiles(bs, base, end) && i < |bs| && j < |bs| && !bs[i].used && bs[j].used
    requires HDR <= dist && dist + HDR <= bs[i].size
    ensures Tiles(SplitAroundFree(bs, i, dist, j), base, end) <==> j != i - 1 && j != i + 1
  {
    hide Tiles, SplitAroundFree;
    if j == i + 1 {
      RightBehind(bs, base, end, i, dist);
    } else if j == i - 1 {
      RightInFront(bs, base, end, i, dist);
    } else if j > i {
      FarBehind(bs, base, end, i, dist, j);
    } else {
      FarInFront(bs, base, end, i, dist, j);
    }
  }
}

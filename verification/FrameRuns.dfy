/**
  The physical frame allocator of arch/i386/frame.c as a value: which bits of the bitmap
  are clear, and the three counters.  The class in FrameAllocator.dfy computes these
  functions on the bitmap itself; here they are followed over whole runs.
 */
module FrameRuns {
  import opened Words

  const FRAME_SIZE: nat := 4096
  const MAX_FRAMES: nat := 0x10_0000             // frames in 4 GiB
  const BITS: nat := MAX_FRAMES / 4 * 32         // bits in the bitmap: eight times as many

  /** `clear` holds the frames whose bit is 0, that is, the free ones. */
  datatype Frames = Frames(clear: set<nat>, total: Word, free: Word, used: Word)

  /** Frame 0 and everything past 4 GiB stay marked used. */
  ghost predicate Safe(f: Frames) {
    0 !in f.clear && forall b :: b in f.clear ==> b < MAX_FRAMES
  }

  /** total = free + used in 32-bit arithmetic. */
  predicate Balanced(f: Frames) {
    f.total == Add32(f.free, f.used)
  }

  /** How far the free counter is from the number of clear bits, in 32-bit arithmetic. */
  function Drift(f: Frames): Word {
    (f.free - |f.clear|) % WORD
  }

  ghost predicate IsLeast(b: nat, s: set<nat>) {
    b in s && forall c :: c in s ==> b <= c
  }

  // -------------------------------------------------------------- one operation

  function Taken(f: Frames, b: nat): Frames {
    Frames(f.clear - {b}, f.total, Sub32(f.free, 1), Add32(f.used, 1))
  }

  /** alloc_frame, lines 121-148; the address is computed in 32 bits. */
  ghost predicate Allocates(f: Frames, addr: nat, g: Frames) {
    if f.clear == {} then addr == 0 && g == f
    else exists b: nat :: IsLeast(b, f.clear) && addr == b * FRAME_SIZE % WORD && g == Taken(f, b)
  }

  /** free_frame, lines 150-160. */
  function Freed(f: Frames, addr: Word): Frames {
    var b := addr / FRAME_SIZE;
    if b != 0 && b !in f.clear
    then Frames(f.clear + {b}, f.total, Add32(f.free, 1), Sub32(f.used, 1)) else f
  }

  /** The body of free_region's loop for frame `i`, lines 59-65. */
  function Opened(f: Frames, i: nat): Frames {
    if i != 0 && i !in f.clear
    then Frames(f.clear + {i}, Add32(f.total, 1), Add32(f.free, 1), f.used) else f
  }

  /** free_region from frame `lo` to `hi`. */
  function OpenedAll(f: Frames, lo: nat, hi: nat): Frames
    decreases hi + 1 - lo
  {
    if lo > hi then f else OpenedAll(Opened(f, lo), lo + 1, hi)
  }

  /** The frame at which a region loop ends, computed in 32 bits (lines 57 and 73). */
  function LastFrame(addr: Word, size: Word): nat {
    Sub32(Add32(addr, size), 1) / FRAME_SIZE
  }

  /** The loops run over exactly the frames that share a byte with the region, if it is not
      empty and ends below 4 GiB. */
  lemma RegionFrames(addr: Word, size: Word, b: nat)
    requires size > 0 && addr + size <= WORD
    ensures addr / FRAME_SIZE <= b <= LastFrame(addr, size) <==>
      b * FRAME_SIZE < addr + size && addr < (b + 1) * FRAME_SIZE
  {
    assert LastFrame(addr, size) == (addr + size - 1) / FRAME_SIZE;
  }

  /** The body of reserve_region's loop as written, lines 75-81: it only counts. */
  function Reserved(f: Frames, i: nat): Frames {
    if i !in f.clear then Frames(f.clear, Sub32(f.total, 1), Sub32(f.free, 1), f.used) else f
  }

  function ReservedAll(f: Frames, lo: nat, hi: nat): Frames
    decreases hi + 1 - lo
  {
    if lo > hi then f else ReservedAll(Reserved(f, lo), lo + 1, hi)
  }

  // ---------------------------------------------------------------- what is kept

  /** free_region clears exactly its frames, except frame 0, and keeps the counters right. */
  lemma {:induction false} OpenedAllKeeps(f: Frames, lo: nat, hi: nat)
    requires Safe(f) && Balanced(f) && hi < MAX_FRAMES
    ensures var g := OpenedAll(f, lo, hi);
      && Safe(g) && Balanced(g) && Drift(g) == Drift(f) && g.used == f.used
      && forall b :: b in g.clear <==> b in f.clear || (b != 0 && lo <= b <= hi)
    decreases hi + 1 - lo
  {
    if lo <= hi {
      OpenedKeeps(f, lo);
      OpenedAllKeeps(Opened(f, lo), lo + 1, hi);
    }
  }

  lemma OpenedKeeps(f: Frames, i: nat)
    requires Balanced(f)
    ensures Balanced(Opened(f, i)) && Drift(Opened(f, i)) == Drift(f)
  {
    Shift(f.free, |f.clear|, 1, Add32(f.free, 1));
  }

  /** Moving both sides by one leaves their difference alone. */
  lemma Shift(a: nat, n: nat, d: int, a': nat)
    requires a' == a + d || a' == a + d - WORD || a' == a + d + WORD
    ensures (a' - (n + d)) % WORD == (a - n) % WORD
  {
    assert a' - (n + d) == (a - n) + (a' - a - d);
  }

  /** How many frames from `lo` to `hi` are marked used. */
  function Marked(clear: set<nat>, lo: nat, hi: nat): nat
    decreases hi + 1 - lo
  {
    if lo > hi then 0 else (if lo in clear then 0 else 1) + Marked(clear, lo + 1, hi)
  }

  /** reserve_region as written never sets a bit, and each frame that was marked already
      makes the free counter drift. */
  lemma {:induction false} ReservedAllKeeps(f: Frames, lo: nat, hi: nat)
    ensures var g := ReservedAll(f, lo, hi);
      && (Balanced(f) ==> Balanced(g)) && g.clear == f.clear && g.used == f.used
      && Drift(g) == (Drift(f) - Marked(f.clear, lo, hi)) % WORD
    decreases hi + 1 - lo
  {
    var was := f.free - |f.clear|;
    if lo <= hi {
      var g := Reserved(f, lo);
      ReservedAllKeeps(g, lo + 1, hi);
      ModMinus(was, g.free - |f.clear|, if lo in f.clear then 0 else 1, Marked(f.clear, lo + 1, hi));
    } else {
      ModMinus(was, was, 0, 0);
    }
  }

  lemma ModMinus(x: int, y: int, d: int, n: int)
    requires y == x - d || y == x - d + WORD
    ensures (y % WORD - n) % WORD == (x % WORD - (d + n)) % WORD
  {
  }

  // ----------------------------------------------- the region calls and their intent

  /** The loop body of reserve_region as its comment has it: frames not yet used are. */
  function Claimed(f: Frames, i: nat): Frames {
    if i in f.clear then Frames(f.clear - {i}, Sub32(f.total, 1), Sub32(f.free, 1), f.used) else f
  }

  function ClaimedAll(f: Frames, lo: nat, hi: nat): Frames
    decreases hi + 1 - lo
  {
    if lo > hi then f else ClaimedAll(Claimed(f, lo), lo + 1, hi)
  }

  lemma {:induction false} ClaimedAllClears(f: Frames, lo: nat, hi: nat)
    ensures forall b :: b in ClaimedAll(f, lo, hi).clear <==> b in f.clear && !(lo <= b <= hi)
    ensures (forall b :: lo <= b <= hi ==> b !in f.clear) ==> ClaimedAll(f, lo, hi) == f
    decreases hi + 1 - lo
  {
    if lo <= hi {
      ClaimedAllClears(Claimed(f, lo), lo + 1, hi);
    }
  }

  lemma {:induction false} AllMarked(clear: set<nat>, lo: nat, hi: nat)
    requires forall b :: lo <= b <= hi ==> b !in clear
    ensures Marked(clear, lo, hi) == if lo > hi then 0 else hi - lo + 1
    decreases hi + 1 - lo
  {
    if lo <= hi {
      AllMarked(clear, lo + 1, hi);
    }
  }

  /** Exactly when reserve_region does what it says: never, unless the region is empty. */
  lemma ReserveWorksIff(f: Frames, lo: nat, hi: nat)
    requires hi < MAX_FRAMES
    ensures ReservedAll(f, lo, hi) == ClaimedAll(f, lo, hi) <==> lo > hi
  {
    ReservedAllKeeps(f, lo, hi);
    ClaimedAllClears(f, lo, hi);
    if lo <= hi && ReservedAll(f, lo, hi) == ClaimedAll(f, lo, hi) {
      assert forall b :: lo <= b <= hi ==> b !in f.clear by {
        assert ReservedAll(f, lo, hi).clear == f.clear;
      }
      AllMarked(f.clear, lo, hi);
    }
  }

  const KERNEL_FIRST: nat := 0x100     // the frames of KERNEL_PMA and KERNEL_SIZE
  const KERNEL_LAST: nat := 0x3FF

  /** The frames handed out before the kernel's: those that are free and lie below. */
  function Lower(f: Frames): set<nat> {
    set b | b in f.clear && b < KERNEL_FIRST
  }

  /** The one call in the source (line 112) that should reserve memory: once the memory map
      has opened the kernel's own, it changes nothing. */
  lemma KernelNotReserved(f: Frames)
    requires forall b :: KERNEL_FIRST <= b <= KERNEL_LAST ==> b in f.clear
    ensures KERNEL_FIRST == 0x100000 / FRAME_SIZE && KERNEL_LAST == LastFrame(0x100000, 0x300000)
    ensures ReservedAll(f, KERNEL_FIRST, KERNEL_LAST) == f
  {
    ReservedNothing(f, KERNEL_FIRST, KERNEL_LAST);
  }

  /** So the kernel's first frame is handed out: by the call of alloc_frame that follows as
      many calls as there are free frames below it. */
  lemma {:induction false} KernelHandedOut(fs: seq<Frames>, addrs: seq<nat>)
    requires |fs| == |addrs| + 1 && forall i :: 0 <= i < |addrs| ==> Allocates(fs[i], addrs[i], fs[i + 1])
    requires forall b :: KERNEL_FIRST <= b <= KERNEL_LAST ==> b in fs[0].clear
    requires |addrs| == |Lower(fs[0])| + 1
    ensures addrs[|Lower(fs[0])|] == 0x100000
    decreases |addrs|
  {
    var f, g, n := fs[0], fs[1], |Lower(fs[0])|;
    assert KERNEL_FIRST in f.clear;
    assert Allocates(f, addrs[0], g);
    var b: nat :| IsLeast(b, f.clear) && addrs[0] == b * FRAME_SIZE % WORD && g == Taken(f, b);
    if n == 0 {
      assert b in Lower(f) || b >= KERNEL_FIRST;
    } else {
      var c :| c in Lower(f);
      assert b in Lower(f) && Lower(g) == Lower(f) - {b};
      var fs', addrs' := fs[1..], addrs[1..];
      forall i | 0 <= i < |addrs'| ensures Allocates(fs'[i], addrs'[i], fs'[i + 1]) {
        assert Allocates(fs[i + 1], addrs[i + 1], fs[i + 2]);
      }
      KernelHandedOut(fs', addrs');
    }
  }

  /** For instance right away, after free_region over the kernel's own region. */
  lemma KernelOpened(f: Frames, lo: nat, hi: nat)
    requires f == Frames({}, 0, 0, 0) && lo == 0x100000 / FRAME_SIZE && hi == LastFrame(0x100000, 0x300000)
    ensures var g := OpenedAll(f, lo, hi);
      ReservedAll(g, lo, hi) == g && Allocates(g, 0x100000, Taken(g, lo))
  {
    OpenedAllKeeps(f, lo, hi);
    KernelNotReserved(OpenedAll(f, lo, hi));
    KernelNext(OpenedAll(f, lo, hi));
  }

  lemma KernelNext(f: Frames)
    requires KERNEL_FIRST in f.clear && forall b :: b in f.clear ==> b >= KERNEL_FIRST
    ensures Allocates(f, 0x100000, Taken(f, KERNEL_FIRST))
  {
    assert IsLeast(KERNEL_FIRST, f.clear);
    assert 0x100000 == KERNEL_FIRST * FRAME_SIZE % WORD;
  }

  lemma {:induction false} ReservedNothing(f: Frames, lo: nat, hi: nat)
    requires forall b :: lo <= b <= hi ==> b in f.clear
    ensures ReservedAll(f, lo, hi) == f
    decreases hi + 1 - lo
  {
    if lo <= hi {
      ReservedNothing(f, lo + 1, hi);
    }
  }

  lemma {:induction false} OpenedTwice(f: Frames, lo: nat, mid: nat, hi: nat)
    requires lo <= mid + 1 && mid <= hi
    ensures OpenedAll(f, lo, hi) == OpenedAll(OpenedAll(f, lo, mid), mid + 1, hi)
    decreases hi + 1 - lo
  {
    if lo <= mid {
      OpenedTwice(Opened(f, lo), lo + 1, mid, hi);
    }
  }

  lemma {:induction false} OpenedNothing(f: Frames, lo: nat, hi: nat)
    requires forall b :: lo <= b <= hi && b != 0 ==> b in f.clear
    ensures OpenedAll(f, lo, hi) == f
    decreases hi + 1 - lo
  {
    if lo <= hi {
      OpenedNothing(f, lo + 1, hi);
    }
  }

  /** Two ends give the same result exactly if what lies between them is free already. */
  lemma SameEndIff(f: Frames, lo: nat, hi: nat, end: nat)
    requires Safe(f) && Balanced(f) && lo <= hi < MAX_FRAMES && end < MAX_FRAMES
    ensures OpenedAll(f, lo, end) == OpenedAll(f, lo, hi) <==>
      forall b :: b != 0 && lo <= b && (end < b <= hi || hi < b <= end) ==> b in f.clear
  {
    OpenedAllKeeps(f, lo, hi);
    OpenedAllKeeps(f, lo, end);
    if forall b :: b != 0 && lo <= b && (end < b <= hi || hi < b <= end) ==> b in f.clear {
      if end > hi {
        OpenedTwice(f, lo, hi, end);
        OpenedNothing(OpenedAll(f, lo, hi), hi + 1, end);
      } else if lo <= end + 1 {
        OpenedTwice(f, lo, end, hi);
        OpenedNothing(OpenedAll(f, lo, end), end + 1, hi);
      } else {
        OpenedNothing(f, lo, hi);
      }
    }
  }

  /** Line 104 passes the last byte of a memory map entry as its size.  For a page-aligned
      entry the frames opened are as many too many as there are frames below it, or none
      at all if that end leaves 32 bits; */
  lemma MapEntryOpens(f: Frames, addr: Word, len: nat)
    requires Safe(f) && Balanced(f) && addr % FRAME_SIZE == 0 && len % FRAME_SIZE == 0
    requires len > 0 && addr + len <= WORD
    ensures var a, n := addr / FRAME_SIZE, len / FRAME_SIZE;
      OpenedAll(f, a, LastFrame(addr, addr + len - 1))
        == if 2 * addr + len <= WORD then OpenedAll(f, a, a + (n + a) - 1) else f
  {
    var a, n := addr / FRAME_SIZE, len / FRAME_SIZE;
    assert addr == a * FRAME_SIZE && len == n * FRAME_SIZE;
    if 2 * addr + len > WORD {
      assert LastFrame(addr, addr + len - 1) < a;
    }
  }

  /** so on the bitmap of line 93 the call is right if and only if the two ends lie in the
      same frame, which for a page-aligned entry means that it starts at 0. */
  lemma MapEntryWorksIff(f: Frames, addr: Word, len: nat)
    requires f == Frames({}, 0, 0, 0) && len > 0 && addr + len <= WORD
    ensures var a, hi, end := addr / FRAME_SIZE, (addr + len - 1) / FRAME_SIZE, LastFrame(addr, addr + len - 1);
      && (OpenedAll(f, a, end) == OpenedAll(f, a, hi) <==> end == hi)
      && (addr % FRAME_SIZE == 0 && len % FRAME_SIZE == 0 ==> (end == hi <==> addr == 0))
  {
    var a, hi, end := addr / FRAME_SIZE, (addr + len - 1) / FRAME_SIZE, LastFrame(addr, addr + len - 1);
    SameEndIff(f, a, hi, end);
    if end != hi {
      assert hi !in f.clear && end !in f.clear;
    }
  }

  /** What alloc_frame returns is a frame address below 4 GiB, the lowest free one; it
      returns 0 only when nothing is free. */
  lemma AllocateKeeps(f: Frames, addr: nat, g: Frames)
    requires Safe(f) && Balanced(f) && Allocates(f, addr, g)
    ensures Safe(g) && Balanced(g) && Drift(g) == Drift(f)
    ensures addr == 0 <==> f.clear == {}
    ensures addr < WORD && addr % FRAME_SIZE == 0
    ensures addr != 0 ==> IsLeast(addr / FRAME_SIZE, f.clear) && g.clear == f.clear - {addr / FRAME_SIZE}
    ensures g.total == f.total && (addr != 0 ==> g.used == Add32(f.used, 1)) && (addr == 0 ==> g == f)
  {
    if f.clear != {} {
      var b: nat :| IsLeast(b, f.clear) && addr == b * FRAME_SIZE % WORD && g == Taken(f, b);
      assert b * FRAME_SIZE < WORD;
      assert addr / FRAME_SIZE == b;
      Shift(f.free, |f.clear|, -1, Sub32(f.free, 1));
    }
  }

  lemma FreeKeeps(f: Frames, addr: Word)
    requires Safe(f) && Balanced(f)
    ensures Safe(Freed(f, addr)) && Balanced(Freed(f, addr)) && Drift(Freed(f, addr)) == Drift(f)
    ensures FreedExactly(f, addr, Freed(f, addr))
  {
    FreedIs(f, addr);
    hide FreedExactly;
    Shift(f.free, |f.clear|, 1, Add32(f.free, 1));
    assert addr / FRAME_SIZE < MAX_FRAMES;
  }

  /** The frame is free afterwards, the total as before, and one fewer used if it was used. */
  predicate FreedExactly(f: Frames, addr: Word, g: Frames) {
    var b := addr / FRAME_SIZE;
    && g.total == f.total && g.clear == f.clear + (if b == 0 then {} else {b})
    && (b != 0 && b !in f.clear ==> Add32(g.used, 1) == f.used) && (b == 0 || b in f.clear ==> g == f)
  }

  lemma FreedIs(f: Frames, addr: Word)
    ensures FreedExactly(f, addr, Freed(f, addr))
  {
  }

  /** Giving a frame back right away undoes handing it out, bits and counters. */
  lemma FreeUndoesAllocate(f: Frames, addr: Word, g: Frames)
    requires Safe(f) && Balanced(f) && Allocates(f, addr, g) && addr != 0
    ensures Freed(g, addr) == f
  {
    AllocateKeeps(f, addr, g);
    var b: nat :| IsLeast(b, f.clear) && addr == b * FRAME_SIZE % WORD && g == Taken(f, b);
    assert addr / FRAME_SIZE == b;
    assert f.clear - {b} + {b} == f.clear;
  }

  // -------------------------------------------------------------- what frame_init leaves

  /** A call of free_region or reserve_region, with its arguments. */
  datatype Region = Open(addr: Word, size: Word) | Reserve(addr: Word, size: Word)

  function Called(f: Frames, r: Region): Frames {
    match r
    case Open(a, n) => OpenedAll(f, a / FRAME_SIZE, LastFrame(a, n))
    case Reserve(a, n) => ReservedAll(f, a / FRAME_SIZE, LastFrame(a, n))
  }

  function CalledAll(f: Frames, rs: seq<Region>): Frames
    decreases |rs|
  {
    if rs == [] then f else CalledAll(Called(f, rs[0]), rs[1..])
  }

  /** Frames made free so far, other than frame 0. */
  ghost predicate Opens(rs: seq<Region>, b: nat) {
    b != 0 && exists i ::
      0 <= i < |rs| && rs[i].Open? && rs[i].addr / FRAME_SIZE <= b <= LastFrame(rs[i].addr, rs[i].size)
  }

  /** Whatever the memory map says, frame_init leaves a state from which all runs are safe,
      and free are exactly the frames some free_region named. */
  lemma {:induction false} RegionsKeep(f: Frames, rs: seq<Region>)
    requires Safe(f) && Balanced(f)
    ensures var g := CalledAll(f, rs);
      && Safe(g) && Balanced(g) && g.used == f.used
      && forall b :: b in g.clear <==> b in f.clear || Opens(rs, b)
    decreases |rs|
  {
    if rs != [] {
      var r := rs[0];
      var g := Called(f, r);
      OpenedAllKeeps(f, r.addr / FRAME_SIZE, LastFrame(r.addr, r.size));
      ReservedAllKeeps(f, r.addr / FRAME_SIZE, LastFrame(r.addr, r.size));
      RegionsKeep(g, rs[1..]);
      forall b: nat ensures Opens(rs, b) <==> Opens([r], b) || Opens(rs[1..], b) {
        OpensCons(rs, b);
      }
    }
  }

  lemma OpensCons(rs: seq<Region>, b: nat)
    requires rs != []
    ensures Opens(rs, b) <==> Opens([rs[0]], b) || Opens(rs[1..], b)
    ensures Opens([rs[0]], b) <==>
      rs[0].Open? && b != 0 && rs[0].addr / FRAME_SIZE <= b <= LastFrame(rs[0].addr, rs[0].size)
  {
    assert [rs[0]][0] == rs[0];
    assert forall i :: 0 <= i < |rs[1..]| ==> rs[1..][i] == rs[i + 1];
  }

  lemma InitSafe(rs: seq<Region>)
    ensures Inv(State(CalledAll(Frames({}, 0, 0, 0), rs), {})) && CalledAll(Frames({}, 0, 0, 0), rs).used == 0
    ensures forall b :: b in CalledAll(Frames({}, 0, 0, 0), rs).clear <==> Opens(rs, b)
  {
    RegionsKeep(Frames({}, 0, 0, 0), rs);
  }

  // --------------------------------------------------------------------- runs

  /** What a client sees: a frame handed out, or one given back. */
  datatype Event = Alloc(addr: nat) | Free(back: Word)

  /** `live` are the addresses handed out and not given back. */
  datatype State = State(frames: Frames, live: set<nat>)

  /** Clients give back only what they hold (include/i386/frame.h:42). */
  ghost predicate Step(s: State, e: Event, t: State) {
    match e
    case Alloc(addr) =>
      Allocates(s.frames, addr, t.frames) && t.live == if addr == 0 then s.live else s.live + {addr}
    case Free(addr) =>
      addr in s.live && t.frames == Freed(s.frames, addr) && t.live == s.live - {addr}
  }

  ghost predicate Inv(s: State) {
    && Safe(s.frames) && Balanced(s.frames)
    && forall a :: a in s.live ==> 0 < a < WORD && a % FRAME_SIZE == 0 && a / FRAME_SIZE !in s.frames.clear
  }

  /** How far the used counter is from the number of frames held by clients. */
  function UsedDrift(s: State): Word {
    (s.frames.used - |s.live|) % WORD
  }

  /** A run: states and the events between them. */
  ghost predicate IsRun(states: seq<State>, events: seq<Event>) {
    |states| == |events| + 1 && forall i :: 0 <= i < |events| ==> Step(states[i], events[i], states[i + 1])
  }

  lemma AllocKeeps(s: State, addr: nat, t: State)
    requires Inv(s) && Step(s, Alloc(addr), t)
    ensures Inv(t) && Drift(t.frames) == Drift(s.frames)
    ensures t.frames.total == s.frames.total && UsedDrift(t) == UsedDrift(s)
    ensures addr != 0 ==> addr !in s.live
  {
    AllocateKeeps(s.frames, addr, t.frames);
    hide Drift, Balanced, Allocates;
    if addr != 0 {
      assert addr !in s.live;
      Shift(s.frames.used, |s.live|, 1, t.frames.used);
    }
    forall a | a in t.live ensures 0 < a < WORD && a % FRAME_SIZE == 0 && a / FRAME_SIZE !in t.frames.clear {
      if a != addr {
        assert a in s.live;
      }
    }
  }

  lemma FreeStepKeeps(s: State, addr: Word, t: State)
    requires Inv(s) && Step(s, Free(addr), t)
    ensures Inv(t) && Drift(t.frames) == Drift(s.frames)
    ensures t.frames.total == s.frames.total && UsedDrift(t) == UsedDrift(s)
    ensures addr / FRAME_SIZE in t.frames.clear
  {
    hide Drift, Balanced;
    FreeKeeps(s.frames, addr);
    Shift(s.frames.used, |s.live|, -1, t.frames.used);
    forall a | a in t.live ensures a / FRAME_SIZE !in t.frames.clear {
      SameFrame(a, addr);
    }
  }

  /** Frame addresses with the same frame number are the same. */
  lemma SameFrame(a: nat, b: nat)
    requires a % FRAME_SIZE == 0 && b % FRAME_SIZE == 0
    ensures a / FRAME_SIZE == b / FRAME_SIZE <==> a == b
  {
    assert a == a / FRAME_SIZE * FRAME_SIZE && b == b / FRAME_SIZE * FRAME_SIZE;
  }

  lemma StepKeeps(s: State, e: Event, t: State)
    requires Inv(s) && Step(s, e, t)
    ensures Inv(t) && Drift(t.frames) == Drift(s.frames)
    ensures t.frames.total == s.frames.total && UsedDrift(t) == UsedDrift(s)
    ensures e.Alloc? && e.addr != 0 ==> e.addr !in s.live
    ensures e.Free? ==> e.back / FRAME_SIZE in t.frames.clear
  {
    match e
    case Alloc(addr) => AllocKeeps(s, addr, t);
    case Free(addr) => FreeStepKeeps(s, addr, t);
  }

  /** Over every run: no frame is handed out while it is live, the counters balance, the total
      stays, the free counter keeps its distance from the number of clear bits, and the used
      counter its distance from the number of live frames. */
  lemma {:induction false} FramesSafe(states: seq<State>, events: seq<Event>, k: nat)
    requires IsRun(states, events) && k <= |events| && Inv(states[0])
    ensures Inv(states[k]) && Drift(states[k].frames) == Drift(states[0].frames)
    ensures states[k].frames.total == states[0].frames.total && UsedDrift(states[k]) == UsedDrift(states[0])
    ensures forall i :: 0 <= i < k && events[i].Alloc? && events[i].addr != 0 ==> events[i].addr !in states[i].live
  {
    if k > 0 {
      FramesSafe(states, events, k - 1);
      StepKeeps(states[k - 1], events[k - 1], states[k]);
    }
  }
}

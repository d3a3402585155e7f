/**
  Address translation of arch/i386/paging.c (32-bit paging with 4 MiB pages, section 4.3 of
  volume 3A of the Intel SDM), and what it means for buffers from the kernel heap.
 */
module Paging {
  import opened Results
  import opened Blocks
  import HeapRuns

  const PRESENT: bv32 := 0x1
  const WRITABLE: bv32 := 0x2
  const LARGE: bv32 := 0x80            // PDE_4MB

  /** The bits under PDE_FRAME and PTE_FRAME, and the attribute bits below them. */
  function FrameBits(x: bv32): bv32 {
    x & 0xFFFFF000
  }

  function LowBits(x: bv32): bv32 {
    x & 0x00000FFF
  }

  /** The directory and table indices of an address, lines 41 and 58. */
  function DirBits(v: bv32): bv32 {
    (v >> 22) & 0x3FF
  }

  function TableBits(v: bv32): bv32 {
    (v >> 12) & 0x3FF
  }

  function DirIndex(v: bv32): (i: nat)
    ensures i < 1024
  {
    DirBits(v) as nat
  }

  function TableIndex(v: bv32): (i: nat)
    ensures i < 1024
  {
    TableBits(v) as nat
  }

  // --------------------------------------------------------------------- entries

  function SetAttrib(e: bv32, attrib: bv32): bv32 {
    e | attrib
  }

  function GetAttrib(e: bv32, attrib: bv32): bv32 {
    e & attrib
  }

  function SetFrame(e: bv32, addr: bv32): bv32 {
    LowBits(e) | FrameBits(addr)
  }

  function GetFrame(e: bv32): bv32 {
    FrameBits(e)
  }

  /** A frame that is set can be read back. */
  lemma FrameReadsBack(e: bv32, addr: bv32)
    ensures GetFrame(SetFrame(e, addr)) == FrameBits(addr)
  {
  }

  /** Setting the frame leaves the attributes alone. */
  lemma FrameKeepsAttribs(e: bv32, addr: bv32, a: bv32)
    ensures GetAttrib(SetFrame(e, addr), LowBits(a)) == GetAttrib(e, LowBits(a))
  {
  }

  class PageTable {
    const entries: array<bv32>

    constructor ()
      ensures entries.Length == 1024 && fresh(entries)
    {
      entries := new bv32[1024](_ => 0);
    }
  }

  class PageDirectory {
    const entries: array<bv32>
    var tables: seq<PageTable?>

    ghost predicate Valid()
      reads this
    {
      && entries.Length == 1024 && |tables| == 1024
      && forall i :: 0 <= i < 1024 ==> tables[i] != null ==> tables[i].entries.Length == 1024
    }

    constructor ()
      ensures Valid() && fresh(entries)
      ensures forall i :: 0 <= i < 1024 ==> entries[i] == 0 && tables[i] == null
    {
      entries := new bv32[1024](_ => 0);
      tables := seq(1024, _ => null);
    }

    /** virt_to_phys, lines 97-115; `None` is the access through a missing table. */
    function VirtToPhys(v: bv32): Option<bv32>
      requires Valid()
      reads this, entries, set i | 0 <= i < |tables| && tables[i] != null :: tables[i].entries
    {
      var pde := entries[DirIndex(v)];
      if GetAttrib(pde, PRESENT) == 0 then Some(0)
      else if GetAttrib(pde, LARGE) != 0 then Some(GetFrame(pde) | (v & 0x003FFFFF))
      else if tables[DirIndex(v)] == null then None
      else
        var pte := tables[DirIndex(v)].entries[TableIndex(v)];
        if GetAttrib(pte, PRESENT) == 0 then Some(0) else Some(GetFrame(pte) | LowBits(v))
    }

    /** paging_init, lines 77-89: one 4 MiB page, physical 0, at KERNEL_VMA. */
    method Init()
      requires Valid()
      modifies this, entries
      ensures Valid()
      ensures forall v :: VirtToPhys(v) == Some(if InKernelPage(v) then v - 0xC0000000 else 0)
      ensures forall i :: 0 <= i < 1024 ==> tables[i] == null && entries[i] == if i == 768 then 0x83 else 0
    {
      forall i | 0 <= i < 1024 {
        entries[i] := 0;
      }
      tables := seq(1024, _ => null);
      var k := DirIndex(0xC0000000);
      entries[k] := SetAttrib(entries[k], PRESENT);
      entries[k] := SetAttrib(entries[k], WRITABLE);
      entries[k] := SetAttrib(entries[k], LARGE);
      entries[k] := SetFrame(entries[k], 0);
      KernelEntry();
      assert entries[k] == 0x83 && forall i :: 0 <= i < 1024 && i != k ==> entries[i] == 0;
      forall v ensures VirtToPhys(v) == Some(if InKernelPage(v) then v - 0xC0000000 else 0) {
        KernelIndex(v);
      }
    }
  }

  lemma KernelEntry()
    ensures DirIndex(0xC0000000) == 768
  {
  }

  /** Directory index, table index and offset make up an address: 10, 10 and 12 bits. */
  lemma IndicesMakeAddress(v: bv32)
    ensures (DirBits(v) << 22) | (TableBits(v) << 12) | LowBits(v) == v
  {
  }

  /** An address in a page of 4 KiB goes to the frame of its entry, at the same offset. */
  lemma SmallPageTranslation(pd: PageDirectory, v: bv32)
    requires pd.Valid() && pd.tables[DirIndex(v)] != null
    requires GetAttrib(pd.entries[DirIndex(v)], PRESENT) != 0 && GetAttrib(pd.entries[DirIndex(v)], LARGE) == 0
    ensures pd.VirtToPhys(v).Some?
    ensures var e, p := pd.tables[DirIndex(v)].entries[TableIndex(v)], pd.VirtToPhys(v).value;
      if GetAttrib(e, PRESENT) == 0 then p == 0 else p & 0xFFFFF000 == e & 0xFFFFF000 && p & 0xFFF == v & 0xFFF
  {
    hide GetFrame, LowBits, DirIndex, TableIndex, GetAttrib;
    SmallPage(pd.tables[DirIndex(v)].entries[TableIndex(v)], v);
  }

  /** One in a page of 4 MiB goes to the frame of the directory's entry, if that is aligned
      as it must be. */
  lemma LargePageTranslation(pd: PageDirectory, v: bv32)
    requires pd.Valid() && pd.entries[DirIndex(v)] & 0x003FF000 == 0
    requires GetAttrib(pd.entries[DirIndex(v)], PRESENT) != 0 && GetAttrib(pd.entries[DirIndex(v)], LARGE) != 0
    ensures pd.VirtToPhys(v).Some?
    ensures var e, p := pd.entries[DirIndex(v)], pd.VirtToPhys(v).value;
      p & 0xFFC00000 == e & 0xFFC00000 && p & 0x003FFFFF == v & 0x003FFFFF
  {
    hide GetFrame, DirIndex, GetAttrib;
    LargePage(pd.entries[DirIndex(v)], v);
  }

  /** A missing page is 0, and a missing table a fault. */
  lemma MissingTranslation(pd: PageDirectory, v: bv32)
    requires pd.Valid()
    ensures GetAttrib(pd.entries[DirIndex(v)], PRESENT) == 0 ==> pd.VirtToPhys(v) == Some(0)
    ensures pd.VirtToPhys(v) == None <==>
      && GetAttrib(pd.entries[DirIndex(v)], PRESENT) != 0 && GetAttrib(pd.entries[DirIndex(v)], LARGE) == 0
      && pd.tables[DirIndex(v)] == null
  {
    hide DirIndex, TableIndex, GetAttrib, GetFrame, LowBits;
  }

  lemma SmallPage(e: bv32, v: bv32)
    ensures (GetFrame(e) | LowBits(v)) & 0xFFFFF000 == e & 0xFFFFF000
    ensures (GetFrame(e) | LowBits(v)) & 0xFFF == v & 0xFFF
  {
  }

  lemma LargePage(e: bv32, v: bv32)
    requires e & 0x003FF000 == 0
    ensures (GetFrame(e) | (v & 0x003FFFFF)) & 0xFFC00000 == e & 0xFFC00000
    ensures (GetFrame(e) | (v & 0x003FFFFF)) & 0x003FFFFF == v & 0x003FFFFF
  {
  }

  predicate InKernelPage(v: bv32) {
    0xC0000000 <= v < 0xC0400000
  }

  lemma KernelIndex(v: bv32)
    ensures InKernelPage(v) <==> DirIndex(v) == DirIndex(0xC0000000)
    ensures InKernelPage(v) ==> v & 0x003FFFFF == v - 0xC0000000
  {
  }

  // ------------------------------------------------------- buffers from the heap

  const KERNEL_PMA: nat := 0x00100000
  const KERNEL_SIZE: nat := 0x00300000
  const HEAP_END: nat := 0xC0000000 + KERNEL_PMA + KERNEL_SIZE   // arch/i386/mm.c:47

  /** Every byte of every live allocation is translated to its address less KERNEL_VMA, so
      each buffer is contiguous in physical memory. */
  lemma BufferContiguous(s: HeapRuns.State, kernelEnd: nat, b: Block, k: nat, v: bv32, pd: PageDirectory)
    requires 0xC0000000 < kernelEnd && HeapRuns.Inv(s, kernelEnd, HEAP_END)
    requires b in s.live && k < s.live[b] && v as nat == b.addr + HDR + k
    requires pd.Valid() && forall w :: pd.VirtToPhys(w) == Some(if InKernelPage(w) then w - 0xC0000000 else 0)
    ensures pd.VirtToPhys(v).Some? && pd.VirtToPhys(v).value as nat == b.addr + HDR + k - 0xC0000000
  {
    var i := Position(s.blocks, b);
    HeapRuns.LiveSafe(s, kernelEnd, HEAP_END, b, i);
    KernelAddress(v);
  }

  lemma KernelAddress(v: bv32)
    requires 0xC0000000 <= v as nat < 0xC0400000
    ensures InKernelPage(v) && (v - 0xC0000000) as nat == v as nat - 0xC0000000
  {
    AboveKernel(v);
  }

  lemma AboveKernel(v: bv32)
    requires 0xC0000000 <= v as nat < 0xC0400000
    ensures 0xC0000000 <= v < 0xC0400000
  {
  }
}

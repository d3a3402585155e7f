/** arch/i386/frame.c in its own form: a bitmap of 32-bit words and three counters. */
module FrameAllocator {
  import opened Words
  import opened FrameRuns

  const WORDS: nat := MAX_FRAMES / 4
  const FULL: bv32 := 0xFFFFFFFF

  function Bit(j: nat): bv32
    requires j < 32
  {
    1 << j
  }

  /** Bit `j` of `w` is 1. */
  predicate Has(w: bv32, j: nat)
    requires j < 32
  {
    w & Bit(j) != 0
  }

  lemma BitsApart(i: nat, j: nat)
    requires i < 32 && j < 32 && i != j
    ensures Bit(i) & Bit(j) == 0
  {
  }

  lemma OrApart(w: bv32, x: bv32, y: bv32)
    requires x & y == 0
    ensures (w | x) & y == w & y
  {
  }

  lemma AndApart(w: bv32, x: bv32, y: bv32)
    requires x & y == 0
    ensures (w & !x) & y == w & y
  {
  }

  lemma SetMasked(w: bv32, i: nat, j: nat)
    requires i < 32 && j < 32 && i != j
    ensures (w | Bit(i)) & Bit(j) == w & Bit(j)
  {
    hide Bit;
    BitsApart(i, j);
    OrApart(w, Bit(i), Bit(j));
  }

  lemma ClearMasked(w: bv32, i: nat, j: nat)
    requires i < 32 && j < 32 && i != j
    ensures (w & !Bit(i)) & Bit(j) == w & Bit(j)
  {
    hide Bit;
    BitsApart(i, j);
    AndApart(w, Bit(i), Bit(j));
  }

  lemma SetSame(w: bv32, i: nat)
    requires i < 32
    ensures Has(w | Bit(i), i)
  {
  }

  lemma ClearSame(w: bv32, i: nat)
    requires i < 32
    ensures !Has(w & !Bit(i), i)
  {
  }

  /** Setting a bit of a word sets that bit and no other. */
  lemma SetOne(w: bv32, i: nat, j: nat)
    requires i < 32 && j < 32
    ensures Has(w | Bit(i), j) <==> i == j || Has(w, j)
  {
    hide Bit;
    if i == j {
      SetSame(w, i);
    } else {
      SetMasked(w, i, j);
    }
  }

  /** Clearing a bit of a word clears that bit and no other. */
  lemma ClearOne(w: bv32, i: nat, j: nat)
    requires i < 32 && j < 32
    ensures Has(w & !Bit(i), j) <==> i != j && Has(w, j)
  {
    hide Bit;
    if i == j {
      ClearSame(w, i);
    } else {
      ClearMasked(w, i, j);
    }
  }

  lemma FullHasAll(j: nat)
    requires j < 32
    ensures Has(FULL, j)
  {
  }

  class FrameAllocator {
    const bitmap: array<bv32>
    var total: Word
    var free: Word
    var used: Word

    ghost predicate Valid()
      reads this
    {
      bitmap.Length == WORDS
    }

    /** get_bit, lines 48-51. */
    function GetBit(b: nat): bool
      requires Valid() && b < BITS
      reads this, bitmap
    {
      Has(bitmap[b / 32], b % 32)
    }

    ghost function Abs(): Frames
      requires Valid()
      reads this, bitmap
    {
      Frames((set b | 0 <= b < BITS && !GetBit(b)), total, free, used)
    }

    /** Every frame marked used, lines 91-93. */
    constructor ()
      ensures Valid() && Abs() == Frames({}, 0, 0, 0) && fresh(bitmap)
    {
      bitmap := new bv32[WORDS](_ => FULL);
      total, free, used := 0, 0, 0;
      new;
      forall b | 0 <= b < BITS ensures GetBit(b) {
        FullHasAll(b % 32);
      }
    }

    /** Lines 38-41. */
    method SetBit(b: nat)
      requires Valid() && b < BITS
      modifies bitmap
      ensures Abs() == old(Abs()).(clear := old(Abs()).clear - {b})
    {
      hide Has, Bit;
      bitmap[b / 32] := bitmap[b / 32] | Bit(b % 32);
      forall c | 0 <= c < BITS ensures GetBit(c) <==> c == b || old(GetBit(c)) {
        if c / 32 == b / 32 {
          SetOne(old(bitmap[b / 32]), b % 32, c % 32);
        }
      }
    }

    /** Lines 43-46. */
    method ClrBit(b: nat)
      requires Valid() && b < BITS
      modifies bitmap
      ensures Abs() == old(Abs()).(clear := old(Abs()).clear + {b})
    {
      hide Has, Bit;
      bitmap[b / 32] := bitmap[b / 32] & !Bit(b % 32);
      forall c | 0 <= c < BITS ensures GetBit(c) <==> c != b && old(GetBit(c)) {
        if c / 32 == b / 32 {
          ClearOne(old(bitmap[b / 32]), b % 32, c % 32);
        }
      }
    }

    /** Lines 53-67.  The last frame is computed in 32-bit arithmetic. */
    method FreeRegion(addr: Word, size: Word)
      requires Valid()
      modifies this, bitmap
      ensures Valid() && Abs() == OpenedAll(old(Abs()), addr / FRAME_SIZE, LastFrame(addr, size))
    {
      hide Has;
      var i, hi := addr / FRAME_SIZE, Sub32(Add32(addr, size), 1) / FRAME_SIZE;
      while i <= hi
        invariant OpenedAll(old(Abs()), addr / FRAME_SIZE, hi) == OpenedAll(Abs(), i, hi)
        decreases hi + 1 - i
      {
        ghost var f := Abs();
        if i != 0 && GetBit(i) {
          ClrBit(i);
          free := Add32(free, 1);
          total := Add32(total, 1);
        }
        assert Abs() == Opened(f, i);
        i := i + 1;
      }
    }

    /** Lines 69-83 as written. */
    method ReserveRegion(addr: Word, size: Word)
      requires Valid()
      modifies this, bitmap
      ensures Valid() && Abs() == ReservedAll(old(Abs()), addr / FRAME_SIZE, LastFrame(addr, size))
    {
      hide Has;
      var i, hi := addr / FRAME_SIZE, Sub32(Add32(addr, size), 1) / FRAME_SIZE;
      while i <= hi
        invariant ReservedAll(old(Abs()), addr / FRAME_SIZE, hi) == ReservedAll(Abs(), i, hi)
        decreases hi + 1 - i
      {
        ghost var f := Abs();
        if GetBit(i) {
          SetBit(i);
          free := Sub32(free, 1);
          total := Sub32(total, 1);
        }
        assert f.clear - {i} == f.clear || i in f.clear;
        assert Abs() == Reserved(f, i);
        i := i + 1;
      }
    }

    /** The inner loop of lines 132-144: the first clear bit of word `i`, or 32. */
    method ScanWord(i: nat) returns (j: nat)
      requires Valid() && i < WORDS
      ensures j <= 32 && (forall c :: i * 32 <= c < i * 32 + j ==> GetBit(c))
      ensures j < 32 ==> !GetBit(i * 32 + j)
    {
      hide Has;
      j := 0;
      while j < 32 && GetBit(i * 32 + j)
        invariant j <= 32 && forall c :: i * 32 <= c < i * 32 + j ==> GetBit(c)
      {
        j := j + 1;
      }
    }

    /** The search of lines 127-135: the lowest clear bit, or BITS. */
    method FindClear() returns (b: nat)
      requires Valid()
      ensures b <= BITS && (forall c :: 0 <= c < b ==> GetBit(c))
      ensures b < BITS ==> !GetBit(b)
    {
      hide Has;
      var i := 0;
      while i < WORDS
        invariant i <= WORDS && forall c :: 0 <= c < i * 32 ==> GetBit(c)
      {
        if bitmap[i] != FULL {
          var j := ScanWord(i);
          if j < 32 {
            return i * 32 + j;
          }
        } else {
          forall c | i * 32 <= c < i * 32 + 32 ensures GetBit(c) {
            FullHasAll(c % 32);
          }
        }
        i := i + 1;
      }
      return BITS;
    }

    /** Lines 121-148. */
    method AllocFrame() returns (addr: Word)
      requires Valid()
      modifies this, bitmap
      ensures Valid() && Allocates(old(Abs()), addr, Abs())
    {
      hide Has;
      var b := FindClear();
      ghost var f := Abs();
      if b == BITS {
        assert f.clear == {};
        return 0;
      }
      assert b in f.clear && IsLeast(b, f.clear);
      SetBit(b);
      used := Add32(used, 1);
      free := Sub32(free, 1);
      assert Abs() == Taken(f, b);
      return b * FRAME_SIZE % WORD;
    }

    /** Lines 150-160. */
    method FreeFrame(addr: Word)
      requires Valid()
      modifies this, bitmap
      ensures Valid() && Abs() == Freed(old(Abs()), addr)
    {
      hide Has;
      var b := addr / FRAME_SIZE;
      if b != 0 && GetBit(b) {
        ClrBit(b);
        used := Sub32(used, 1);
        free := Add32(free, 1);
      }
    }
  }
}

/** The physical page allocator: one bit per 4 KB block in 32-bit words, and a count of the used ones. */
module PhysMem {
  import opened Bits

  const BLOCK_SIZE: nat := 4096
  const MAX_BLOCKS: nat := 0x8000_0000   // block numbers are of type int32_t
  const COUNTS: nat := 0x1_0000_0000_0000_0000

  /** The mark of a block: set when it is used. */
  predicate Bit(m: seq<Word>, b: nat)
    requires b < 32 * |m|
  {
    Has(m[b / 32], b % 32)
  }

  function WithBit(m: seq<Word>, b: nat, v: bool): (m': seq<Word>)
    requires b < 32 * |m|
    ensures |m'| == |m|
  {
    m[b / 32 := Put(m[b / 32], b % 32, v)]
  }

  lemma WithBitAt(m: seq<Word>, b: nat, v: bool, c: nat)
    requires b < 32 * |m| && c < 32 * |m|
    ensures Bit(WithBit(m, b, v), c) == if c == b then v else Bit(m, c)
  {
    hide Has, Put;
    PutHas(m[b / 32], b % 32, v, c % 32);
    assert b / 32 == c / 32 && b % 32 == c % 32 ==> b == c;
  }

  /** Block `b` is used when bit `b % 32` of word `b / 32` is set, bits counted from the lowest. */
  lemma BlockMark(m: seq<Word>, b: nat)
    requires b < 32 * |m|
    ensures Bit(m, b) <==> m[b / 32] & ((1 as Word) << ((b % 32) as bv6)) != 0
  {
    var i := b % 32;
    hide Mask, Meets;
    MarkIs(m[b / 32], i);
  }

  lemma MarkIs(w: Word, i: nat)
    requires i < 32
    ensures Has(w, i) <==> w & ((1 as Word) << (i as bv6)) != 0
  {
    assert Mask(i) == (1 as Word) << (i as bv6);
    hide Mask;
  }

  /** How many blocks in [lo, hi) are used. */
  function Used(m: seq<Word>, lo: nat, hi: nat): (n: nat)
    requires lo <= hi <= 32 * |m|
    ensures n <= hi - lo
    decreases hi - lo
  {
    if lo == hi then 0 else Used(m, lo, hi - 1) + if Bit(m, hi - 1) then 1 else 0
  }

  lemma {:induction false} UsedSame(m: seq<Word>, m': seq<Word>, lo: nat, hi: nat)
    requires |m| == |m'| && lo <= hi <= 32 * |m|
    requires forall b :: lo <= b < hi ==> Bit(m', b) == Bit(m, b)
    ensures Used(m', lo, hi) == Used(m, lo, hi)
    decreases hi
  {
    if lo < hi {
      UsedSame(m, m', lo, hi - 1);
    }
  }

  /** Writing one bit moves the count by what the bit changed. */
  lemma {:induction false} UsedWithBit(m: seq<Word>, lo: nat, hi: nat, b: nat, v: bool)
    requires lo <= b < hi <= 32 * |m|
    ensures Used(WithBit(m, b, v), lo, hi) == Used(m, lo, hi) + (if v then 1 else 0) - (if Bit(m, b) then 1 else 0)
    decreases hi
  {
    forall c | lo <= c < hi ensures Bit(WithBit(m, b, v), c) == if c == b then v else Bit(m, c) {
      WithBitAt(m, b, v, c);
    }
    if b < hi - 1 {
      UsedWithBit(m, lo, hi - 1, b, v);
    } else {
      UsedSame(m, WithBit(m, b, v), lo, b);
    }
  }

  /** All of `n` blocks from `b` are free. */
  predicate Free(m: seq<Word>, b: nat, n: nat)
    requires b + n <= 32 * |m|
  {
    forall c :: b <= c < b + n ==> !Bit(m, c)
  }

  predicate Held(m: seq<Word>, b: nat, n: nat)
    requires b + n <= 32 * |m|
  {
    forall c :: b <= c < b + n ==> Bit(m, c)
  }

  /** The bitmap with every bit in [b, b + n) written. */
  ghost predicate Written(m: seq<Word>, m': seq<Word>, b: nat, n: nat, v: bool) {
    && |m'| == |m| && b + n <= 32 * |m|
    && forall c :: 0 <= c < 32 * |m| ==> Bit(m', c) == if b <= c < b + n then v else Bit(m, c)
  }

  lemma WrittenStep(m: seq<Word>, m': seq<Word>, b: nat, n: nat, v: bool)
    requires Written(m, m', b, n, v) && b + n < 32 * |m|
    ensures Written(m, WithBit(m', b + n, v), b, n + 1, v)
  {
    var m2 := WithBit(m', b + n, v);
    hide WithBit, Bit;
    forall c | 0 <= c < 32 * |m| ensures Bit(m2, c) == if b <= c < b + n + 1 then v else Bit(m, c) {
      WithBitAt(m', b + n, v, c);
      assert Bit(m', c) == if b <= c < b + n then v else Bit(m, c);
    }
  }

  /** Writing a run changes the count by the number of its blocks that were not like that before. */
  lemma {:induction false} UsedWritten(m: seq<Word>, m': seq<Word>, hi: nat, b: nat, n: nat, v: bool)
    requires Written(m, m', b, n, v) && b + n <= hi <= 32 * |m|
    ensures Used(m', 0, hi) == Used(m, 0, hi) - Used(m, b, b + n) + if v then n else 0
    decreases hi
  {
    if hi == b + n {
      UsedSplit(m, b, hi);
      UsedSplit(m', b, hi);
      UsedSame(m, m', 0, b);
      UsedAll(m', b, hi, v);
    } else {
      UsedWritten(m, m', hi - 1, b, n, v);
    }
  }

  lemma {:induction false} UsedSplit(m: seq<Word>, mid: nat, hi: nat)
    requires mid <= hi <= 32 * |m|
    ensures Used(m, 0, hi) == Used(m, 0, mid) + Used(m, mid, hi)
    decreases hi
  {
    if mid < hi {
      UsedSplit(m, mid, hi - 1);
    }
  }

  lemma {:induction false} UsedAll(m: seq<Word>, lo: nat, hi: nat, v: bool)
    requires lo <= hi <= 32 * |m| && forall c :: lo <= c < hi ==> Bit(m, c) == v
    ensures Used(m, lo, hi) == if v then hi - lo else 0
    decreases hi
  {
    if lo < hi {
      UsedAll(m, lo, hi - 1, v);
    }
  }

  lemma {:induction false} UsedNone(m: seq<Word>, lo: nat, hi: nat)
    requires lo <= hi <= 32 * |m|
    ensures Used(m, lo, hi) == hi - lo <==> forall c :: lo <= c < hi ==> Bit(m, c)
    ensures Used(m, lo, hi) == 0 <==> forall c :: lo <= c < hi ==> !Bit(m, c)
    decreases hi
  {
    if lo < hi {
      UsedNone(m, lo, hi - 1);
    }
  }

  lemma WrittenNothing(m: seq<Word>, b: nat, v: bool)
    requires b <= 32 * |m|
    ensures Written(m, m, b, 0, v)
  {
  }

  lemma WrittenSize(m: seq<Word>, m': seq<Word>, b: nat, n: nat, v: bool)
    requires Written(m, m', b, n, v)
    ensures |m'| == |m|
  {
  }

  lemma WrittenAt(m: seq<Word>, m': seq<Word>, b: nat, n: nat, v: bool, c: nat)
    requires Written(m, m', b, n, v) && c < 32 * |m|
    ensures |m'| == |m| && Bit(m', c) == if b <= c < b + n then v else Bit(m, c)
  {
  }

  /** A run of free managed blocks, marked used, keeps the bits around and raises the count by its length. */
  lemma AllocatedCount(m: seq<Word>, m': seq<Word>, hi: nat, b: nat, n: nat)
    requires Written(m, m', b, n, true) && 0 < b && b + n <= hi < 32 * |m| && Free(m, b, n)
    ensures |m'| == |m| && Used(m', 0, hi) == Used(m, 0, hi) + n
    ensures Bit(m', hi) == Bit(m, hi) && Bit(m', 0) == Bit(m, 0)
  {
    hide Used;
    UsedWritten(m, m', hi, b, n, true);
    UsedNone(m, b, b + n);
  }

  /** A run of held blocks, marked free, lowers the count by its length. */
  lemma FreedCount(m: seq<Word>, m': seq<Word>, hi: nat, b: nat, n: nat)
    requires Written(m, m', b, n, false) && b + n <= hi < 32 * |m| && Held(m, b, n)
    ensures |m'| == |m| && Used(m', 0, hi) == Used(m, 0, hi) - n
    ensures Bit(m', hi) == Bit(m, hi) && (b > 0 || n == 0 ==> Bit(m', 0) == Bit(m, 0))
    ensures b == 0 && n > 0 ==> !Bit(m', 0)
  {
    hide Used;
    UsedWritten(m, m', hi, b, n, false);
    UsedNone(m, b, b + n);
  }

  /** A run of managed blocks with block 0 used, marked free whatever they were, takes those that were used
      off the count. */
  lemma GivenCount(m: seq<Word>, m': seq<Word>, hi: nat, b: nat, n: nat)
    requires Written(m, m', b, n, false) && b + n <= hi < 32 * |m| && Bit(m, 0) && 0 < hi
    ensures |m'| == |m| && Used(m, b, b + n) <= n && Used(m', 0, hi) == Used(m, 0, hi) - Used(m, b, b + n)
    ensures Used(m, b, b + n) == n <==> Held(m, b, n)
    ensures Bit(m', hi) == Bit(m, hi) && (Bit(m', 0) <==> b > 0 || n == 0)
  {
    hide Used;
    UsedWritten(m, m', hi, b, n, false);
    UsedNone(m, b, b + n);
  }

  /** Taking `n` off a count modulo 2^64 is taking `k` off it only if they are the same. */
  lemma Wraps(used: nat, n: nat, k: nat)
    requires k <= used <= MAX_BLOCKS && k <= n <= MAX_BLOCKS
    ensures (used - n) % COUNTS == used - k <==> n == k
    ensures (used - n) % COUNTS == used - k + 1 ==> n == k - 1
  {
    if used < n {
      assert (used - n) % COUNTS == used - n + COUNTS;
    }
  }

  /** Marking block 0 used again adds one exactly when it had been freed. */
  lemma ReservedCount(m: seq<Word>, hi: nat)
    requires 0 < hi < 32 * |m|
    ensures var m' := WithBit(m, 0, true);
            && Used(m', 0, hi) == Used(m, 0, hi) + (if Bit(m, 0) then 0 else 1)
            && Bit(m', 0) && forall c :: 0 < c < 32 * |m| ==> Bit(m', c) == Bit(m, c)
  {
    hide WithBit, Used;
    UsedWithBit(m, 0, hi, 0, true);
    forall c | 0 <= c < 32 * |m| ensures Bit(WithBit(m, 0, true), c) == (c == 0 || Bit(m, c)) {
      WithBitAt(m, 0, true, c);
    }
  }

  /** A run of blocks, marked used whatever they were, adds those that were free. */
  lemma TakenCount(m: seq<Word>, m': seq<Word>, hi: nat, b: nat, n: nat)
    requires Written(m, m', b, n, true) && b + n <= hi < 32 * |m|
    ensures |m'| == |m| && (Used(m', 0, hi) == Used(m, 0, hi) + n <==> Free(m, b, n))
    ensures Bit(m', hi) == Bit(m, hi) && (Bit(m, 0) ==> Bit(m', 0))
  {
    hide Used;
    UsedWritten(m, m', hi, b, n, true);
    UsedNone(m, b, b + n);
  }

  class Allocator {
    var memory: seq<Word>   // the bitmap and the word behind it
    var maxBlocks: nat
    var used: nat

    /** The bitmap covers whole words, and the bit behind it, which a run scan may look at, is set. */
    ghost predicate Shaped()
      reads this
    {
      && maxBlocks % 32 == 0 && maxBlocks <= MAX_BLOCKS && |memory| == maxBlocks / 32 + 1
      && Bit(memory, maxBlocks)
    }

    /** Block 0 is never handed out, and the counter counts. */
    ghost predicate Valid()
      reads this
    {
      && Shaped() && maxBlocks > 0 && Bit(memory, 0)
      && used == Used(memory, 0, maxBlocks)
    }

    /** `n` free blocks from `b`, all of them managed. */
    ghost predicate Run(b: nat, n: nat)
      requires Shaped()
      reads this
    {
      b + n <= maxBlocks && Free(memory, b, n)
    }

    ghost predicate Lowest(b: nat, n: nat)
      requires Shaped()
      reads this
    {
      Run(b, n) && forall c: nat :: c < b ==> !Run(c, n)
    }

    ghost predicate Fits(n: nat)
      requires Shaped()
      reads this
    {
      exists b: nat :: Run(b, n)
    }

    /** initialize_memory_manager: everything is used. */
    constructor (size: nat, behind: Word)
      requires (size / BLOCK_SIZE) % 32 == 0 && BLOCK_SIZE <= size && size / BLOCK_SIZE <= MAX_BLOCKS && Has(behind, 0)
      ensures Valid() && maxBlocks == size / BLOCK_SIZE && used == maxBlocks
      ensures forall b :: 0 <= b < maxBlocks ==> Bit(memory, b)
    {
      maxBlocks, used := size / BLOCK_SIZE, size / BLOCK_SIZE;
      memory := seq(size / BLOCK_SIZE / 32, _ => ALL) + [behind];
      new;
      hide Has;
      forall b | 0 <= b < maxBlocks ensures Bit(memory, b) {
        AllHas(b % 32);
      }
      UsedAll(memory, 0, maxBlocks, true);
    }

    /** A single block is there to be had as long as the counter says so. */
    lemma OneFits()
      requires Valid()
      ensures Fits(1) <==> used < maxBlocks
    {
      UsedNone(memory, 0, maxBlocks);
      if used < maxBlocks {
        var c :| 0 <= c < maxBlocks && !Bit(memory, c);
        assert Run(c, 1);
      } else {
        assert forall b: nat :: Run(b, 1) ==> Bit(memory, b);
      }
    }

    method SetBlock(b: nat)
      requires b < 32 * |memory|
      modifies `memory
      ensures memory == WithBit(old(memory), b, true)
    {
      memory := memory[b / 32 := memory[b / 32] | Mask(b % 32)];
    }

    method UnsetBlock(b: nat)
      requires b < 32 * |memory|
      modifies `memory
      ensures memory == WithBit(old(memory), b, false)
    {
      memory := memory[b / 32 := memory[b / 32] & !Mask(b % 32)];
    }

    /** The test of the scans. */
    method Marked(b: nat) returns (r: bool)
      requires b < 32 * |memory|
      ensures r <==> Bit(memory, b)
    {
      hide Mask;
      r := memory[b / 32] & Mask(b % 32) != 0;
    }

    /** The lowest run of `n` free blocks, or -1 exactly when there is none. */
    method FindFirstFreeBlocks(n: nat) returns (r: int)
      requires Shaped()
      ensures r == -1 || r >= 0
      ensures r >= 0 ==> n > 0 && Lowest(r, n)
      ensures r == -1 <==> n == 0 || !Fits(n)
    {
      hide Has;
      if n == 0 {
        return -1;
      }
      var i := 0;
      while i < maxBlocks / 32
        invariant 0 <= i <= maxBlocks / 32
        invariant forall b: nat :: b < 32 * i ==> !Run(b, n)
      {
        if memory[i] != ALL {
          var j := 0;
          while j < 32
            invariant 0 <= j <= 32
            invariant forall b: nat :: b < 32 * i + j ==> !Run(b, n)
          {
            var marked := Marked(32 * i + j);
            if !marked {
              var count := CountFree(32 * i + j, n);
              if count == n {
                return 32 * i + j;
              }
            }
            j := j + 1;
          }
        } else {
          forall b: nat | b < 32 * i + 32 ensures !Run(b, n) {
            if b >= 32 * i {
              AllHas(b % 32);
              assert Bit(memory, b);
            }
          }
        }
        i := i + 1;
      }
      forall b: nat ensures !Run(b, n) {
      }
      r := -1;
    }

    /** The scan of one run: how far it is free, up to `n`. */
    method CountFree(b: nat, n: nat) returns (count: nat)
      requires Shaped() && b < maxBlocks
      ensures count <= n && (count == n <==> Run(b, n))
    {
      hide Bit;
      count := 0;
      while count < n
        invariant count <= n && b + count <= maxBlocks && Free(memory, b, count)
      {
        var marked := Marked(b + count);
        if marked {
          break;
        }
        count := count + 1;
      }
    }

    /** allocate_blocks: the lowest run, marked used; refused when no more than `n` blocks are free or
        no run is long enough. The result is an address, 0 for refusal. */
    method Allocate(n: nat) returns (address: nat)
      requires Valid()
      modifies `memory, `used
      ensures Valid()
      ensures address != 0 <==> n > 0 && maxBlocks - old(used) > n && old(Fits(n))
      ensures address == 0 ==> memory == old(memory) && used == old(used)
      ensures address != 0 ==>
                && address % BLOCK_SIZE == 0 && old(Lowest(address / BLOCK_SIZE, n))
                && Written(old(memory), memory, address / BLOCK_SIZE, n, true) && used == old(used) + n
    {
      if maxBlocks - used <= n {
        return 0;
      }
      var start := FindFirstFreeBlocks(n);
      if start == -1 {
        return 0;
      }
      assert !Bit(memory, start);
      assert 0 < start && start + n <= maxBlocks < 32 * |memory| && Free(memory, start, n);
      hide Used, Written, Bit, Lowest, Fits, Free;
      Take(start, n);
      address := start * BLOCK_SIZE;
      assert address / BLOCK_SIZE == start;
    }

    /** A run of free blocks is marked used and counted. */
    method Take(start: nat, n: nat)
      requires Valid() && 0 < start && start + n <= maxBlocks < 32 * |memory| && Free(memory, start, n)
      modifies `memory, `used
      ensures Valid() && Written(old(memory), memory, start, n, true) && used == old(used) + n
    {
      hide Used, Written, Bit, Free;
      ghost var was := memory;
      MarkUsed(start, n);
      AllocatedCount(was, memory, maxBlocks, start, n);
      used := used + n;
    }

    method MarkUsed(start: nat, n: nat)
      requires start + n <= 32 * |memory|
      modifies `memory
      ensures Written(old(memory), memory, start, n, true)
    {
      hide Written, Bit, WithBit;
      ghost var was := memory;
      WrittenNothing(memory, start, true);
      var i := 0;
      while i < n
        invariant i <= n && Written(was, memory, start, i, true) && |memory| == |was|
      {
        WrittenStep(was, memory, start, i, true);
        SetBlock(start + i);
        WrittenSize(was, memory, start, i + 1, true);
        i := i + 1;
      }
    }

    /** free_blocks, for blocks that are held: exactly undoes their allocation. */
    method FreeBlocks(address: nat, n: nat)
      requires Valid() && address / BLOCK_SIZE > 0 && address / BLOCK_SIZE + n <= maxBlocks
      requires Held(memory, address / BLOCK_SIZE, n)
      modifies `memory, `used
      ensures Valid() && Written(old(memory), memory, address / BLOCK_SIZE, n, false) && used == old(used) - n
    {
      hide Used, Written, Bit, WithBit, Held;
      var start := address / BLOCK_SIZE;
      ghost var was := memory;
      WrittenNothing(memory, start, false);
      var i := 0;
      while i < n
        invariant i <= n && Written(was, memory, start, i, false) && |memory| == |was| && used == old(used)
      {
        WrittenStep(was, memory, start, i, false);
        UnsetBlock(start + i);
        WrittenSize(was, memory, start, i + 1, false);
        i := i + 1;
      }
      FreedCount(was, memory, maxBlocks, start, n);
      used := used - n;
    }

    /** initialize_memory_region: the counter goes down by the region's size, modulo 2^64, whatever the
        region was. It is right afterwards exactly when the region was all used and leaves out block 0,
        which is marked used again without being counted. */
    method InitializeRegion(base: nat, size: nat)
      requires Valid() && base / BLOCK_SIZE + size / BLOCK_SIZE <= maxBlocks
      modifies `memory, `used
      ensures Shaped() && Bit(memory, 0)
      ensures used == (old(used) - size / BLOCK_SIZE) % COUNTS
      ensures forall b :: 0 < b < maxBlocks ==>
                (Bit(memory, b) <==>
                  Bit(old(memory), b) && !(base / BLOCK_SIZE <= b < base / BLOCK_SIZE + size / BLOCK_SIZE))
      ensures Valid() <==>
                && Held(old(memory), base / BLOCK_SIZE, size / BLOCK_SIZE)
                && (base / BLOCK_SIZE > 0 || size / BLOCK_SIZE == 0)
    {
      hide Used, Written, Bit, WithBit, Held;
      var align, n := base / BLOCK_SIZE, size / BLOCK_SIZE;
      ghost var was := memory;
      Give(align, n);
      ghost var mid := memory;
      GivenCount(was, mid, maxBlocks, align, n);
      ReservedCount(mid, maxBlocks);
      SetBlock(0);
      forall b | 0 < b < maxBlocks ensures Bit(memory, b) == (Bit(was, b) && !(align <= b < align + n)) {
        WrittenAt(was, mid, align, n, false, b);
      }
      Wraps(old(used), n, Used(was, align, align + n));
    }

    /** The loop of initialize_memory_region. */
    method Give(align: nat, n: nat)
      requires used < COUNTS && align + n <= 32 * |memory|
      modifies `memory, `used
      ensures Written(old(memory), memory, align, n, false) && |memory| == |old(memory)|
      ensures used == (old(used) - n) % COUNTS
    {
      hide Written, Bit, WithBit;
      ghost var was := memory;
      WrittenNothing(memory, align, false);
      var i := 0;
      while i < n
        invariant i <= n && Written(was, memory, align, i, false) && |memory| == |was|
        invariant used == (old(used) - i) % COUNTS
      {
        WrittenStep(was, memory, align, i, false);
        UnsetBlock(align + i);
        WrittenSize(was, memory, align, i + 1, false);
        used := (used - 1) % COUNTS;
        i := i + 1;
      }
    }

    /** deinitialize_memory_region: the counter stays right exactly when the whole region was free. */
    method DeinitializeRegion(base: nat, size: nat)
      requires Valid() && base / BLOCK_SIZE + size / BLOCK_SIZE <= maxBlocks
      modifies `memory, `used
      ensures Shaped() && Written(old(memory), memory, base / BLOCK_SIZE, size / BLOCK_SIZE, true)
      ensures Valid() <==> Free(old(memory), base / BLOCK_SIZE, size / BLOCK_SIZE)
    {
      hide Used, Written, Bit, WithBit, Free;
      var align, n := base / BLOCK_SIZE, size / BLOCK_SIZE;
      ghost var was := memory;
      WrittenNothing(memory, align, true);
      var i := 0;
      while i < n
        invariant i <= n && Written(was, memory, align, i, true) && |memory| == |was| && used == old(used) + i
      {
        WrittenStep(was, memory, align, i, true);
        SetBlock(align + i);
        WrittenSize(was, memory, align, i + 1, true);
        used := used + 1;
        i := i + 1;
      }
      TakenCount(was, memory, maxBlocks, align, n);
    }
  }

  /** Allocating a run and freeing it again restores every bit. */
  lemma AllocateThenFree(m: seq<Word>, m1: seq<Word>, m2: seq<Word>, b: nat, n: nat)
    requires b + n <= 32 * |m| && Free(m, b, n) && Written(m, m1, b, n, true) && Written(m1, m2, b, n, false)
    ensures m2 == m
  {
    hide Has;
    forall i | 0 <= i < |m| ensures m2[i] == m[i] {
      forall j | 0 <= j < 32 ensures Has(m2[i], j) == Has(m[i], j) {
        assert Bit(m2, 32 * i + j) == Bit(m, 32 * i + j);
        assert (32 * i + j) / 32 == i && (32 * i + j) % 32 == j;
      }
      SameWord(m2[i], m[i]);
    }
  }
}

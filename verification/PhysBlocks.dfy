/** The allocator's promises in terms of the words in memory: which bit is whose, how many are set, which run is
    the lowest free one. */
module PhysBlocks {
  import opened Bits
  import opened PhysMem

  /** Bit `b % 32` of word `b / 32`, counted from the lowest, is set. */
  predicate Taken(m: seq<Word>, b: nat)
    requires b < 32 * |m|
  {
    m[b / 32] & ((1 as Word) << ((b % 32) as bv6)) != 0
  }

  ghost function TakenBelow(m: seq<Word>, hi: nat): set<nat>
    requires hi <= 32 * |m|
  {
    set b: nat | b < hi && Taken(m, b)
  }

  /** The counter counts the bits that are set. */
  lemma {:induction false} UsedIs(m: seq<Word>, hi: nat)
    requires hi <= 32 * |m|
    ensures Used(m, 0, hi) == |TakenBelow(m, hi)|
  {
    hide Bit, Taken;
    if hi > 0 {
      UsedIs(m, hi - 1);
      TakenIs(m, hi - 1);
      var below := TakenBelow(m, hi - 1);
      assert TakenBelow(m, hi) == if Taken(m, hi - 1) then below + {hi - 1} else below;
    } else {
      assert TakenBelow(m, 0) == {};
    }
  }

  lemma TakenIs(m: seq<Word>, b: nat)
    requires b < 32 * |m|
    ensures Bit(m, b) <==> Taken(m, b)
  {
    BlockMark(m, b);
    hide Bit;
  }

  /** `n` blocks from `b` are inside the managed ones and none of them is taken. */
  predicate FreeRun(m: seq<Word>, blocks: nat, b: nat, n: nat)
    requires blocks <= 32 * |m|
  {
    b + n <= blocks && forall c :: b <= c < b + n ==> !Taken(m, c)
  }

  /** What Allocate hands out: a free run in front of which no other one of that length starts. */
  lemma LowestIs(a: Allocator, b: nat, n: nat)
    requires a.Shaped()
    ensures a.Lowest(b, n)
       <==> FreeRun(a.memory, a.maxBlocks, b, n) && forall d: nat :: d < b ==> !FreeRun(a.memory, a.maxBlocks, d, n)
    ensures a.Fits(n) <==> exists d: nat :: FreeRun(a.memory, a.maxBlocks, d, n)
  {
    hide Bit, Taken;
    forall d: nat ensures FreeRun(a.memory, a.maxBlocks, d, n) <==> a.Run(d, n) {
      if d + n <= a.maxBlocks {
        forall c | d <= c < d + n ensures Bit(a.memory, c) <==> Taken(a.memory, c) { TakenIs(a.memory, c); }
      }
    }
  }

  /** Writing a run sets or clears exactly its bits. */
  lemma WrittenIs(m: seq<Word>, m': seq<Word>, b: nat, n: nat, v: bool)
    requires |m'| == |m| && b + n <= 32 * |m|
    ensures Written(m, m', b, n, v)
       <==> forall c :: 0 <= c < 32 * |m| ==> Taken(m', c) == if b <= c < b + n then v else Taken(m, c)
  {
    hide Bit, Taken;
    forall c | 0 <= c < 32 * |m| ensures (Bit(m, c) <==> Taken(m, c)) && (Bit(m', c) <==> Taken(m', c)) {
      TakenIs(m, c);
      TakenIs(m', c);
    }
  }

  /** A block is 4096 bytes. */
  lemma AddressIs(a: Allocator, address: nat, n: nat)
    requires a.Shaped() && address % BLOCK_SIZE == 0 && n > 0 && a.Lowest(address / BLOCK_SIZE, n)
    ensures exists b: nat :: address == 4096 * b && FreeRun(a.memory, a.maxBlocks, b, n)
  {
    hide Bit, Taken;
    LowestIs(a, address / BLOCK_SIZE, n);
    assert address == 4096 * (address / BLOCK_SIZE);
  }
}

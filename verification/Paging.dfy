/**
 The four-level page tables, built in pages from the physical allocator, proved equal to a flat map
 from virtual pages to entries.
 */
module Paging {
  import opened PageTree
  import Mmu
  import Bits
  import PhysMem

  const MMIO_VIRT_BASE: nat := 0xFFFF_FFFF_9000_0000
  const WORD: nat := 0x1_0000_0000_0000_0000
  const LOW: nat := 0x8000_0000_0000           // end of the lower half of the address space
  const IDENTITY_SIZE: nat := 0x100_0000
  const KERNEL_PHYS: nat := 0x10_0000
  const KERNEL_VIRT: nat := 0xFFFF_FFFF_8010_0000
  const KERNEL_SIZE: nat := 0x40_0000
  const WRITABLE: nat := 3       // present and writable
  const UNCACHED: nat := 19      // present, writable and not cached

  /** Every table page is one the allocator counts as held, and not page 0. */
  ghost predicate Reserved(memory: seq<Bits.Word>, t: Tables) {
    forall p :: p in t ==> 0 < t[p] < 32 * |memory| && PhysMem.Bit(memory, t[p])
  }

  lemma ReservedNew(memory: seq<Bits.Word>, memory': seq<Bits.Word>, t: Tables, q: seq<nat>, page: nat)
    requires Reserved(memory, t) && PhysMem.Written(memory, memory', page, 1, true) && page != 0
    ensures Reserved(memory', t[q := page])
  {
  }

  lemma NotTable(memory: seq<Bits.Word>, t: Tables, page: nat)
    requires Reserved(memory, t) && page < 32 * |memory| && !PhysMem.Bit(memory, page)
    ensures forall p :: p in t ==> t[p] != page
  {
  }

  lemma TreeChild(mem: seq<Table>, t: Tables, p: seq<nat>, i: nat)
    requires Tree(mem, t) && p in t && |p| < 3 && i < 512
    ensures t[p] < |mem| && Linked(mem, t, p, i) && SameLeaves(mem, t, mem, t)
  {
  }

  lemma NotPresent(mem: seq<Table>, t: Tables, p: seq<nat>, i: nat)
    requires Tree(mem, t) && p in t && |p| < 3 && i < 512 && p + [i] !in t
    ensures t[p] < |mem| && !Present(mem[t[p]][i])
  {
    assert Linked(mem, t, p, i);
  }

  ghost predicate IsTable(t: Tables, page: nat) {
    exists p :: p in t && t[p] == page
  }

  /** Tables were added in pages that were free; pages held before are still held, and those that were
      not tables are as they were. */
  ghost predicate Grew(memory: seq<Bits.Word>, mem: seq<Table>, t: Tables,
                       memory': seq<Bits.Word>, mem': seq<Table>, t': Tables) {
    && |mem'| == |mem| && |memory'| == |memory|
    && forall b :: 0 <= b < 32 * |memory| && PhysMem.Bit(memory, b) ==>
         && PhysMem.Bit(memory', b) && (IsTable(t', b) ==> IsTable(t, b))
         && (!IsTable(t, b) && b < |mem| ==> mem'[b] == mem[b])
  }

  lemma GrewTrans(memory: seq<Bits.Word>, mem: seq<Table>, t: Tables, memory1: seq<Bits.Word>, mem1: seq<Table>,
                  t1: Tables,
                  memory2: seq<Bits.Word>, mem2: seq<Table>, t2: Tables)
    requires Grew(memory, mem, t, memory1, mem1, t1) && Grew(memory1, mem1, t1, memory2, mem2, t2)
    ensures Grew(memory, mem, t, memory2, mem2, t2)
  {
  }

  lemma GrewNew(memory: seq<Bits.Word>, mem: seq<Table>, t: Tables, memory': seq<Bits.Word>, mem': seq<Table>,
                q: seq<nat>, page: nat, p: seq<nat>)
    requires PhysMem.Written(memory, memory', page, 1, true) && page < |mem| && !PhysMem.Bit(memory, page)
    requires p in t && t[p] < |mem| && |mem'| == |mem| && q !in t
    requires forall b :: 0 <= b < |mem| && b != page && b != t[p] ==> mem'[b] == mem[b]
    ensures Grew(memory, mem, t, memory', mem', t[q := page])
  {
    var t' := t[q := page];
    forall b | 0 <= b < 32 * |memory| && PhysMem.Bit(memory, b)
      ensures PhysMem.Bit(memory', b) && (IsTable(t', b) ==> IsTable(t, b))
      ensures !IsTable(t, b) && b < |mem| ==> mem'[b] == mem[b]
    {
      if IsTable(t', b) {
        var r :| r in t' && t'[r] == b;
        assert r != q && t[r] == b;
      }
      assert b == t[p] ==> IsTable(t, b);
    }
  }

  /** Translations are the same, and the tables grew. */
  ghost predicate Extended(memory: seq<Bits.Word>, mem: seq<Table>, t: Tables,
                           memory': seq<Bits.Word>, mem': seq<Table>, t': Tables) {
    SameLeaves(mem, t, mem', t') && Grew(memory, mem, t, memory', mem', t')
  }

  lemma ExtendedTrans(memory: seq<Bits.Word>, mem: seq<Table>, t: Tables,
                      memory1: seq<Bits.Word>, mem1: seq<Table>, t1: Tables,
                      memory2: seq<Bits.Word>, mem2: seq<Table>, t2: Tables)
    requires Extended(memory, mem, t, memory1, mem1, t1) && Extended(memory1, mem1, t1, memory2, mem2, t2)
    ensures Extended(memory, mem, t, memory2, mem2, t2)
  {
    hide SameLeaves, Grew;
    SameLeavesTrans(mem, t, mem1, t1, mem2, t2);
    GrewTrans(memory, mem, t, memory1, mem1, t1, memory2, mem2, t2);
  }

  /** The prefixes whose tables a path goes through, the root's aside. */
  function Tops(path: seq<nat>): set<seq<nat>>
    requires |path| == 4
  {
    {path[..1], path[..2], path[..3]}
  }

  /** How many tables are missing on a path. */
  ghost function Missing(t: Tables, path: seq<nat>): nat
    requires |path| == 4
  {
    |Tops(path) - t.Keys|
  }

  /** `n` pages can be had from `free` blocks, the last of which is never given out. */
  predicate Had(free: int, n: nat) {
    n == 0 || free > n
  }

  lemma HadNone(free: int)
    ensures Had(free, 0)
  {
  }

  lemma HadStep(free: int, a: nat, m: nat, all: nat)
    requires Had(free, a) && a + m <= all
    ensures Had(free - a, m) <==> Had(free, a + m)
    ensures Had(free, all) ==> Had(free, a + m)
  {
  }

  function One(b: bool): nat {
    if b then 1 else 0
  }

  lemma MissingIs(t: Tables, v: seq<nat>)
    requires |v| == 4
    ensures Missing(t, v) == One(v[..1] !in t) + One(v[..2] !in t) + One(v[..3] !in t)
  {
    Prefixes(v);
    Three(v[..1], v[..2], v[..3], t.Keys);
  }

  lemma Three(a: seq<nat>, b: seq<nat>, c: seq<nat>, k: set<seq<nat>>)
    requires a != b && b != c && a != c
    ensures |{a, b, c} - k| == One(a !in k) + One(b !in k) + One(c !in k)
  {
    Counted(k, a, {});
    Counted(k, b, {a});
    Counted(k, c, {a, b});
    assert {a} + {b} == {a, b} && {a, b} + {c} == {a, b, c};
    assert {} + {a} == {a};
  }

  lemma Counted(k: set<seq<nat>>, p: seq<nat>, s: set<seq<nat>>)
    requires p !in s
    ensures |(s + {p}) - k| == |s - k| + One(p !in k)
  {
    if p in k {
      assert (s + {p}) - k == s - k;
    } else {
      assert (s + {p}) - k == (s - k) + {p};
    }
  }

  /** The prefixes of all paths of `n` pages from `virt` on. */
  function Wanted(virt: nat, n: nat): set<seq<nat>> {
    if n == 0 then {} else Wanted(virt, n - 1) + Tops(Path(virt + (n - 1) * PAGE_SIZE))
  }

  /** How many tables are missing on those paths together, shared ones counted once. */
  ghost function Lacking(t: Tables, virt: nat, n: nat): nat {
    |Wanted(virt, n) - t.Keys|
  }

  lemma LackingStep(t: Tables, t': Tables, virt: nat, n: nat)
    requires t'.Keys == t.Keys + Wanted(virt, n)
    ensures Lacking(t, virt, n + 1) == Lacking(t, virt, n) + Missing(t', Path(virt + n * PAGE_SIZE))
    ensures t'.Keys + Tops(Path(virt + n * PAGE_SIZE)) == t.Keys + Wanted(virt, n + 1)
  {
    hide Tops, Path;
    var a, b := Wanted(virt, n), Tops(Path(virt + n * PAGE_SIZE));
    assert Wanted(virt, n + 1) == a + b;
    hide Wanted;
    BeyondBoth(a, b, t.Keys);
  }

  lemma LackingMore(t: Tables, virt: nat, n: nat)
    ensures Lacking(t, virt, n) <= Lacking(t, virt, n + 1)
  {
    hide Tops, Path;
    var a, b := Wanted(virt, n), Tops(Path(virt + n * PAGE_SIZE));
    assert Wanted(virt, n + 1) == a + b;
    hide Wanted;
    BeyondBoth(a, b, t.Keys);
  }

  lemma {:induction false} LackingGrows(t: Tables, virt: nat, i: nat, n: nat)
    requires i <= n
    ensures Lacking(t, virt, i) <= Lacking(t, virt, n)
  {
    hide *;
    if i < n {
      LackingGrows(t, virt, i, n - 1);
      LackingMore(t, virt, n - 1);
    }
  }

  lemma BeyondBoth(a: set<seq<nat>>, b: set<seq<nat>>, k: set<seq<nat>>)
    ensures |(a + b) - k| == |a - k| + |b - (k + a)|
    ensures (k + a) + b == k + (a + b)
  {
    assert (a + b) - k == (a - k) + (b - (k + a));
  }

  lemma SameEntries(mem: seq<Table>, t: Tables, mem': seq<Table>, t': Tables)
    requires SameLeaves(mem, t, mem', t')
    ensures Tree(mem, t) && Tree(mem', t')
    ensures forall v :: Leaf(mem', t', Path(v)) == Leaf(mem, t, Path(v))
  {
    forall v ensures Leaf(mem', t', Path(v)) == Leaf(mem, t, Path(v)) {
      assert IsPath(Path(v));
    }
  }

  /** Writing an entry of a table that is new, or was one before, touches no page held for others. */
  lemma StoreGrew(memory: seq<Bits.Word>, mem: seq<Table>, t: Tables, memory': seq<Bits.Word>, mem': seq<Table>,
                  t': Tables,
                  p: seq<nat>, page: nat, i: nat, e: nat)
    requires Grew(memory, mem, t, memory', mem', t') && p in t' && t'[p] == page && page < |mem'| && i < 512
    ensures Grew(memory, mem, t, memory', mem'[page := mem'[page][i := e]], t')
  {
    assert IsTable(t', page);
  }

  lemma GrewSame(memory: seq<Bits.Word>, mem: seq<Table>, t: Tables)
    ensures Grew(memory, mem, t, memory, mem, t)
  {
  }

  /** Addresses below a window, in its part of the address space, are not in it. */
  lemma OffsetBelow(base: nat, v: nat, pages: nat)
    requires WORD - PAGES * PAGE_SIZE <= v < base && base % PAGE_SIZE == 0 && base + pages * PAGE_SIZE <= WORD
    ensures Offset(base, v) >= pages
  {
    var b, w, top := base / PAGE_SIZE, v / PAGE_SIZE, WORD / PAGE_SIZE - PAGES;
    assert top <= w < b && b + pages <= top + PAGES;
    assert top % PAGES == 0;
    assert w % PAGES == w - top;
    if b < top + PAGES {
      assert b % PAGES == b - top;
      assert Offset(base, v) == w - b + PAGES;
    } else {
      assert b % PAGES == 0;
    }
  }

  lemma OffsetLow(base: nat, v: nat, pages: nat)
    requires v < PAGES / 2 * PAGE_SIZE && MMIO_VIRT_BASE <= base && base % PAGE_SIZE == 0
    requires base + pages * PAGE_SIZE <= WORD
    ensures Offset(base, v) >= pages
  {
    var b, w, top := base / PAGE_SIZE, v / PAGE_SIZE, WORD / PAGE_SIZE - PAGES;
    assert w < PAGES / 2 && w % PAGES == w;
    assert top + PAGES / 2 <= b && b + pages <= top + PAGES;
    assert top % PAGES == 0;
    if b < top + PAGES {
      assert b % PAGES == b - top;
      assert Offset(base, v) == w + PAGES - (b - top);
    } else {
      assert pages == 0;
    }
  }

  /** The lower half of the address space and what lies between its upper half and a window. */
  predicate BelowWindow(v: nat, base: nat) {
    v < PAGES / 2 * PAGE_SIZE || WORD - PAGES * PAGE_SIZE <= v < base
  }

  lemma OutOfWindow(base: nat, v: nat, pages: nat)
    requires BelowWindow(v, base) && MMIO_VIRT_BASE <= base && base % PAGE_SIZE == 0 && base + pages * PAGE_SIZE <= WORD
    ensures Offset(base, v) >= pages
  {
    hide Offset;
    if v < PAGES / 2 * PAGE_SIZE { OffsetLow(base, v, pages); } else { OffsetBelow(base, v, pages); }
  }

  /** Cutting an address to 64 bits leaves the bits that matter for its page and its frame. */
  lemma Wrapped(x: nat)
    ensures VirtualPage(x % WORD) == VirtualPage(x) && x % WORD % PAGE_SIZE == x % PAGE_SIZE
    ensures PageOf(x % WORD) == PageOf(x)
  {
    var q, r := x / WORD, x % WORD;
    assert x == q * WORD + r;
    assert x / PAGE_SIZE == q * (WORD / PAGE_SIZE) + r / PAGE_SIZE;
    ModPages(q * 0x1_0000, r / PAGE_SIZE);
    ModFrames(q * 0x1000, r / PAGE_SIZE);
  }

  lemma ModPages(q: nat, r: nat)
    ensures (q * PAGES + r) % PAGES == r % PAGES
  {
  }

  lemma ModFrames(q: nat, r: nat)
    ensures (q * FRAMES + r) % FRAMES == r % FRAMES
  {
  }

  lemma WrappedPath(x: nat)
    ensures Path(x % WORD) == Path(x)
  {
    Wrapped(x);
    SamePath(x % WORD, x);
  }

  lemma WrappedLeaf(x: nat, flags: nat)
    ensures LeafEntry(x % WORD, flags) == LeafEntry(x, flags)
  {
    Wrapped(x);
    hide VirtualPage, PageOf;
  }

  /** A byte of the window: its page is in the window, and the frame it gets holds the byte asked for. */
  lemma WindowByte(aligned: nat, base: nat, offset: nat, k: nat, pages: nat)
    requires aligned % PAGE_SIZE == 0 && base % PAGE_SIZE == 0 && offset < PAGE_SIZE
    requires (k + offset) / PAGE_SIZE < pages <= PAGES
    ensures Offset(base, (base + offset + k) % WORD) == (k + offset) / PAGE_SIZE < pages
    ensures PageOf(aligned + (k + offset) / PAGE_SIZE * PAGE_SIZE) * PAGE_SIZE + (base + offset + k) % WORD % PAGE_SIZE
         == (aligned + offset + k) % NX_BASE
  {
    var n := (k + offset) / PAGE_SIZE;
    Wrapped(base + offset + k);
    assert (base + offset + k) / PAGE_SIZE == (base + n * PAGE_SIZE) / PAGE_SIZE;
    OffsetIs(base, (base + offset + k) % WORD, n);
    WindowFrame(aligned, base, offset, k);
  }

  lemma WindowFrame(aligned: nat, base: nat, offset: nat, k: nat)
    requires aligned % PAGE_SIZE == 0 && base % PAGE_SIZE == 0 && offset < PAGE_SIZE
    ensures PageOf(aligned + (k + offset) / PAGE_SIZE * PAGE_SIZE) * PAGE_SIZE + (base + offset + k) % PAGE_SIZE
         == (aligned + offset + k) % NX_BASE
  {
    var n := (k + offset) / PAGE_SIZE;
    var frame := aligned / PAGE_SIZE + n;
    var x := aligned + offset + k;
    assert x == frame * PAGE_SIZE + (k + offset) % PAGE_SIZE;
    assert (aligned + n * PAGE_SIZE) / PAGE_SIZE == frame;
    assert (base + offset + k) % PAGE_SIZE == (k + offset) % PAGE_SIZE;
    FrameMod(frame, (k + offset) % PAGE_SIZE);
  }

  /** Windows one behind the other share no page as long as they fit the translated addresses together. */
  lemma WindowsApart(base: nat, pages: nat, more: nat, v: nat)
    requires base % PAGE_SIZE == 0 && pages + more <= PAGES && Offset(base, v) < pages
    ensures Offset((base + pages * PAGE_SIZE) % WORD, v) >= more
  {
    Wrapped(base + pages * PAGE_SIZE);
    var b, w := VirtualPage(base), VirtualPage(v);
    assert (base + pages * PAGE_SIZE) / PAGE_SIZE == base / PAGE_SIZE + pages;
    if pages < PAGES { ModShift(base / PAGE_SIZE, pages); }
  }

  lemma FrameMod(frame: nat, o: nat)
    requires o < PAGE_SIZE
    ensures (frame * PAGE_SIZE + o) % NX_BASE == frame % FRAMES * PAGE_SIZE + o
  {
    var q := frame / FRAMES;
    assert frame * PAGE_SIZE + o == q * NX_BASE + (frame % FRAMES * PAGE_SIZE + o);
  }

  /** In the lower half, being in a range is being between its ends. */
  lemma OffsetInLow(base: nat, v: nat, pages: nat)
    requires v < LOW && base % PAGE_SIZE == 0 && base + pages * PAGE_SIZE <= LOW
    ensures Offset(base, v) < pages <==> base <= v < base + pages * PAGE_SIZE
  {
    var b, w := base / PAGE_SIZE, v / PAGE_SIZE;
    assert w < PAGES / 2 && b <= PAGES / 2 && b + pages <= PAGES / 2;
    assert w % PAGES == w && b % PAGES == b;
    assert Offset(base, v) == if w >= b then w - b else w + PAGES - b;
  }

  lemma KernelApart(v: nat)
    requires v < LOW
    ensures Offset(KERNEL_VIRT, v) >= KERNEL_SIZE / PAGE_SIZE
  {
    var w := v / PAGE_SIZE;
    assert w < PAGES / 2 && w % PAGES == w;
    assert VirtualPage(KERNEL_VIRT) == KERNEL_VIRT / PAGE_SIZE % PAGES;
  }

  function Mul(a: nat, b: nat): nat {
    a * b
  }

  /** How many pages `size` bytes at `phys_` touch. */
  function PagesFor(phys_: nat, size: nat): nat {
    (size + phys_ % PAGE_SIZE + PAGE_SIZE - 1) / PAGE_SIZE
  }

  /** How many pages vmm_init maps for the framebuffer. */
  function FbPages(fbAddr: nat, size: nat): nat {
    if fbAddr == 0 then 0 else (size + PAGE_SIZE - 1) / PAGE_SIZE + 1
  }

  function FirstPage(fbAddr: nat): nat {
    fbAddr / PAGE_SIZE * PAGE_SIZE
  }

  /** The entry of every address after vmm_init. */
  function BootEntry(v: nat, fbAddr: nat, fbPages: nat): nat {
    if Offset(KERNEL_VIRT, v) < KERNEL_SIZE / PAGE_SIZE then
      LeafEntry(KERNEL_PHYS + Offset(KERNEL_VIRT, v) * PAGE_SIZE, WRITABLE)
    else if Offset(FirstPage(fbAddr), v) < fbPages then
      LeafEntry(FirstPage(fbAddr) + Offset(FirstPage(fbAddr), v) * PAGE_SIZE, UNCACHED)
    else if Offset(0, v) < IDENTITY_SIZE / PAGE_SIZE then
      LeafEntry(Offset(0, v) * PAGE_SIZE, WRITABLE)
    else
      0
  }

  /** What an access meets behind an entry made of an address and flags. */
  function Granted(phys_: nat, flags: nat, v: nat): Mmu.Access {
    Mmu.Memory(phys_ / 0x1000 % 0x100_0000_0000 * 0x1000 + v % 0x1000, flags / 0x2 % 2 == 1, false,
               flags / 0x10 % 2 == 0, flags / 0x8000_0000_0000_0000 % 2 == 0)
  }

  lemma LeafGrants(phys_: nat, flags: nat, v: nat)
    ensures Mmu.Seen(LeafEntry(phys_, flags), v) == Granted(phys_, flags, v)
  {
    var e := LeafEntry(phys_, flags);
    Mmu.LeafBits(phys_, flags);
    hide LeafEntry;
    FlagBits(e, flags);
  }

  lemma FlagBits(e: nat, flags: nat)
    requires e % 0x1000 == if flags % 2 == 1 then flags % 0x1000 else flags % 0x1000 + 1
    requires e / 0x10_0000_0000_0000 == flags / 0x10_0000_0000_0000
    ensures e % 2 == 1 && e / 0x2 % 2 == flags / 0x2 % 2 && e / 0x10 % 2 == flags / 0x10 % 2
    ensures e / 0x8000_0000_0000_0000 % 2 == flags / 0x8000_0000_0000_0000 % 2
  {
    SplitBits(e);
    SplitBits(flags);
    LowBits(e % 0x1000, flags % 0x1000);
  }

  lemma LowBits(a: nat, b: nat)
    requires a == if b % 2 == 1 then b else b + 1
    ensures a % 2 == 1 && a / 0x2 == b / 0x2 && a / 0x10 == b / 0x10
  {
  }

  lemma SplitBits(e: nat)
    ensures e % 2 == e % 0x1000 % 2 && e / 0x2 % 2 == e % 0x1000 / 0x2 % 2 && e / 0x10 % 2 == e % 0x1000 / 0x10 % 2
    ensures e / 0x8000_0000_0000_0000 % 2 == e / 0x10_0000_0000_0000 / 0x800 % 2
  {
    assert e == e / 0x1000 * 0x1000 + e % 0x1000;
    assert e / 0x2 == e / 0x1000 * 0x800 + e % 0x1000 / 0x2;
    assert e / 0x10 == e / 0x1000 * 0x100 + e % 0x1000 / 0x10;
  }

  /** Kernel memory at the physical address `p`, cut to the bits an entry can name: writable, no user access. */
  function KernelMemory(p: nat, cached: bool): Mmu.Access {
    Mmu.Memory(p % 0x10_0000_0000_0000, true, false, cached, true)
  }

  /** The byte `k` of a window, in the page that range gives it. */
  lemma WindowOpens(aligned: nat, base: nat, offset: nat, k: nat, pages: nat, flags: nat)
    requires aligned % PAGE_SIZE == 0 && base % PAGE_SIZE == 0 && offset < PAGE_SIZE
    requires (k + offset) / PAGE_SIZE < pages <= PAGES && (flags == WRITABLE || flags == UNCACHED)
    ensures var v := (base + offset + k) % WORD;
            && Offset(base, v) < pages
            && Mmu.Seen(LeafEntry(aligned + Offset(base, v) * PAGE_SIZE, flags), v)
               == KernelMemory(aligned + offset + k, flags == WRITABLE)
  {
    hide Offset, LeafEntry, Mmu.Seen;
    WindowByte(aligned, base, offset, k, pages);
    LeafGrants(aligned + (k + offset) / PAGE_SIZE * PAGE_SIZE, flags, (base + offset + k) % WORD);
  }

  /** In a range of pages, what is above its first address by some bytes opens what is as far above. */
  lemma RangeOpens(phys_: nat, virt: nat, pages: nat, v: nat, flags: nat)
    requires phys_ % PAGE_SIZE == 0 && virt % PAGE_SIZE == 0 && pages <= PAGES && virt <= v < virt + pages * PAGE_SIZE
    requires v < WORD && (flags == WRITABLE || flags == UNCACHED)
    ensures Offset(virt, v) < pages
    ensures Mmu.Seen(LeafEntry(phys_ + Offset(virt, v) * PAGE_SIZE, flags), v)
         == KernelMemory(phys_ + (v - virt), flags == WRITABLE)
  {
    hide Offset, LeafEntry, Mmu.Seen, KernelMemory;
    WindowOpens(phys_, virt, 0, v - virt, pages, flags);
  }

  /** After vmm_init the kernel's addresses open the memory it was loaded to, wherever the framebuffer is. */
  lemma BootKernel(k: nat, fbAddr: nat, fbPages: nat)
    requires k < KERNEL_SIZE
    ensures var v := (KERNEL_VIRT + k) % WORD;
            Mmu.Seen(BootEntry(v, fbAddr, fbPages), v) == KernelMemory(KERNEL_PHYS + k, true)
  {
    hide Offset, LeafEntry, Mmu.Seen, KernelMemory;
    RangeOpens(KERNEL_PHYS, KERNEL_VIRT, KERNEL_SIZE / PAGE_SIZE, KERNEL_VIRT + k, WRITABLE);
  }

  /** The pages of the framebuffer open themselves, uncached, but for those the kernel's pages stand in for. */
  lemma BootScreen(v: nat, fbAddr: nat, fbPages: nat)
    requires FirstPage(fbAddr) <= v < FirstPage(fbAddr) + fbPages * PAGE_SIZE && v < WORD && fbPages <= PAGES
    ensures Mmu.Seen(BootEntry(v, fbAddr, fbPages), v) == KernelMemory(v, false)
            || Offset(KERNEL_VIRT, v) < KERNEL_SIZE / PAGE_SIZE
  {
    hide Offset, LeafEntry, Mmu.Seen, KernelMemory;
    RangeOpens(FirstPage(fbAddr), FirstPage(fbAddr), fbPages, v, UNCACHED);
  }

  /** Low memory opens itself, but for the pages a framebuffer takes. */
  lemma BootLow(v: nat, fbAddr: nat, fbPages: nat)
    requires v < IDENTITY_SIZE && Offset(FirstPage(fbAddr), v) >= fbPages
    ensures Mmu.Seen(BootEntry(v, fbAddr, fbPages), v) == KernelMemory(v, true)
  {
    hide Offset, LeafEntry, Mmu.Seen, KernelMemory;
    KernelApart(v);
    RangeOpens(0, 0, IDENTITY_SIZE / PAGE_SIZE, v, WRITABLE);
  }

  /** The framebuffer's pages, one more than it needs. */
  predicate OnScreen(v: nat, fbAddr: nat, size: nat) {
    fbAddr != 0 && fbAddr / 0x1000 <= v / 0x1000 < fbAddr / 0x1000 + (size + 0xFFF) / 0x1000 + 1
  }

  /** With the framebuffer in the lower half, both open themselves. */
  lemma BootSelf(v: nat, fbAddr: nat, size: nat)
    requires fbAddr + size + 2 * PAGE_SIZE <= LOW
    requires v < IDENTITY_SIZE || OnScreen(v, fbAddr, size)
    ensures Mmu.Seen(BootEntry(v, fbAddr, FbPages(fbAddr, size)), v) == KernelMemory(v, !OnScreen(v, fbAddr, size))
  {
    var start, pages := FirstPage(fbAddr), FbPages(fbAddr, size);
    assert start + pages * PAGE_SIZE <= LOW;
    assert OnScreen(v, fbAddr, size) <==> start <= v < start + pages * PAGE_SIZE;
    hide FirstPage, FbPages, BootEntry, Offset, Mmu.Seen, KernelMemory, OnScreen;
    OffsetInLow(start, v, pages);
    KernelApart(v);
    if start <= v < start + pages * PAGE_SIZE {
      BootScreen(v, fbAddr, pages);
    } else {
      BootLow(v, fbAddr, pages);
    }
  }

  /** The prefixes of all paths vmm_init needs. */
  function BootTops(fbAddr: nat, fbPages: nat): set<seq<nat>> {
    Wanted(0, IDENTITY_SIZE / PAGE_SIZE) + Wanted(FirstPage(fbAddr), fbPages)
        + Wanted(KERNEL_VIRT, KERNEL_SIZE / PAGE_SIZE)
  }

  lemma LackingNone(t: Tables, virt: nat)
    ensures Lacking(t, virt, 0) == 0 && t.Keys + Wanted(virt, 0) == t.Keys
  {
  }

  lemma BootSums(a: set<seq<nat>>, b: set<seq<nat>>, c: set<seq<nat>>)
    ensures |(a + b + c) - {[]}| == |a - {[]}| + |b - ({[]} + a)| + |c - (({[]} + a) + b)|
  {
    BeyondBoth(a, b, {[]});
    BeyondBoth(a + b, c, {[]});
  }

  /** Asking for three numbers of pages in turn succeeds when asking for their sum does. */
  lemma BootRoom(free: int, a: nat, b: nat, c: nat)
    ensures Had(free, a) && Had(free - a, b) && Had(free - a - b, c) <==> Had(free, a + b + c)
  {
  }

  class Space {
    const phys: PhysMem.Allocator
    var mem: seq<Table>           // physical memory, page by page
    var current: nat              // page of current_pml4, 0 before there is one
    var mmioNext: nat             // mmio_virt_next
    ghost var tables: Tables      // which pages are tables, by path prefix

    ghost predicate Backed()
      reads `mem, `tables, phys
    {
      phys.Valid() && |mem| == phys.maxBlocks && |mem| <= FRAMES
    }

    /** The tables are a tree in pages that the allocator counts as held. */
    ghost predicate Valid()
      reads `mem, `tables, phys
    {
      && Backed() && Tree(mem, tables)
      && Reserved(phys.memory, tables)
    }

    constructor (phys: PhysMem.Allocator, mem: seq<Table>)
      requires phys.Valid() && |mem| == phys.maxBlocks && |mem| <= FRAMES
      ensures this.phys == phys && this.mem == mem && Backed() && current == 0 && mmioNext == MMIO_VIRT_BASE
    {
      this.phys, this.mem, current, mmioNext, tables := phys, mem, 0, MMIO_VIRT_BASE, map[];
    }

    ghost predicate Root(pml4: nat)
      reads `tables
    {
      [] in tables && tables[[]] == pml4
    }

    /** The entry that translates `virt`; 0 when there is none. */
    ghost function Entry(virt: nat): nat
      requires Valid()
      reads `mem, `tables, phys
    {
      Leaf(mem, tables, Path(virt))
    }

    /** A zeroed page, or 0 when the allocator refuses. */
    method AllocTable() returns (page: nat)
      requires Backed()
      modifies this`mem, phys
      ensures Backed()
      ensures page == 0 <==> old(phys.maxBlocks - phys.used) <= 1
      ensures page == 0 ==> mem == old(mem) && phys.memory == old(phys.memory) && phys.used == old(phys.used)
      ensures page != 0 ==>
                && phys.used == old(phys.used) + 1
                && page < |old(mem)| && mem == old(mem)[page := EMPTY]
                && !PhysMem.Bit(old(phys.memory), page)
                && PhysMem.Written(old(phys.memory), phys.memory, page, 1, true)
    {
      phys.OneFits();
      var address := phys.Allocate(1);
      page := address / PAGE_SIZE;
      if page != 0 {
        mem := mem[page := EMPTY];
      }
    }

    /** A new table hung under the missing entry `i` of the table at `page`. */
    method Make(page: nat, i: nat, ghost p: seq<nat>) returns (child: nat)
      requires Valid() && p in tables && tables[p] == page && |p| < 3 && i < 512 && p + [i] !in tables
      modifies this`mem, this`tables, phys
      ensures Valid() && SameLeaves(old(mem), old(tables), mem, tables)
      ensures Grew(old(phys.memory), old(mem), old(tables), phys.memory, mem, tables)
      ensures child == 0 <==> old(phys.maxBlocks - phys.used) <= 1
      ensures child == 0 ==> mem == old(mem) && tables == old(tables) && phys.used == old(phys.used)
      ensures child != 0 ==> tables == old(tables)[p + [i] := child] && phys.used == old(phys.used) + 1
    {
      hide Tree, Linked, SameLeaves, Reserved, PhysMem.Written, PhysMem.Allocator.Valid;
      TreeChild(mem, tables, p, i);
      ghost var memory := phys.memory;
      child := AllocTable();
      if child != 0 {
        NotTable(memory, tables, child);
        NotPresent(old(mem), tables, p, i);
        Grow(old(mem), tables, p, i, child);
        mem := mem[page := mem[page][i := LinkEntry(child)]];
        ReservedNew(memory, phys.memory, tables, p + [i], child);
        GrewNew(memory, old(mem), tables, phys.memory, mem, p + [i], child, p);
        tables := tables[p + [i] := child];
      }
    }

    /** One level of get_pte: the table below entry `i` of the table at `page`, made if it is missing
        and wanted; 0 when there is none. */
    method Next(page: nat, i: nat, create: bool, ghost v: seq<nat>, ghost k: nat) returns (child: nat)
      requires Valid() && k < 3 && k < |v| && v[..k] in tables && tables[v[..k]] == page && i == v[k] < 512
      modifies this`mem, this`tables, phys
      ensures Valid() && Extended(old(phys.memory), old(mem), old(tables), phys.memory, mem, tables)
      ensures child == 0 <==> v[..k + 1] !in old(tables) && (!create || old(phys.maxBlocks - phys.used) <= 1)
      ensures child != 0 ==> tables == old(tables)[v[..k + 1] := child]
      ensures child == 0 ==> mem == old(mem) && tables == old(tables)
      ensures phys.maxBlocks == old(phys.maxBlocks)
      ensures phys.used == old(phys.used) + if child == 0 then 0 else One(v[..k + 1] !in old(tables))
      ensures !create ==> mem == old(mem) && tables == old(tables) && phys.memory == old(phys.memory)
    {
      hide Tree, SameLeaves, Leaf, PhysMem.Allocator.Valid;
      assert v[..k] + [i] == v[..k + 1];
      TreeChild(mem, tables, v[..k], i);
      if !Present(mem[page][i]) {
        if !create {
          return 0;
        }
        child := Make(page, i, v[..k]);
      } else {
        child := PageOf(mem[page][i]);
        assert tables == tables[v[..k + 1] := child];
      }
    }

    /** get_pte: the last-level table on the path of `virt`, or 0. Missing tables are made if wanted and
        there is room for all of them, with one block to spare. */
    method GetPte(pml4: nat, virt: nat, create: bool) returns (page: nat)
      requires Valid() && Root(pml4)
      modifies this`mem, this`tables, phys
      ensures Valid() && Root(pml4) && Extended(old(phys.memory), old(mem), old(tables), phys.memory, mem, tables)
      ensures page != 0 ==> Path(virt)[..3] in tables && tables[Path(virt)[..3]] == page < |mem|
      ensures page == 0 ==> Path(virt)[..3] !in tables
      ensures !create ==> mem == old(mem) && tables == old(tables) && phys.memory == old(phys.memory)
      ensures create ==> (page != 0 <==> Had(old(phys.maxBlocks - phys.used), old(Missing(tables, Path(virt)))))
      ensures phys.maxBlocks == old(phys.maxBlocks)
      ensures page != 0 ==> tables.Keys == old(tables.Keys) + Tops(Path(virt))
      ensures page != 0 ==> phys.used == old(phys.used) + old(Missing(tables, Path(virt)))
    {
      hide Extended, Tree, Leaf, Reserved, PhysMem.Allocator.Valid, Path, Missing;
      ghost var v := Path(virt);
      ghost var s0 := (phys.memory, mem, tables);
      Prefixes(v);
      Closed(mem, tables, v);
      MissingIs(tables, v);
      var pdpt := Next(pml4, Path(virt)[0], create, v, 0);
      if pdpt == 0 { return 0; }
      ghost var s1 := (phys.memory, mem, tables);
      var pd := Next(pdpt, Path(virt)[1], create, v, 1);
      ghost var s2 := (phys.memory, mem, tables);
      ExtendedTrans(s0.0, s0.1, s0.2, s1.0, s1.1, s1.2, s2.0, s2.1, s2.2);
      if pd == 0 { return 0; }
      page := Next(pd, Path(virt)[2], create, v, 2);
      ExtendedTrans(s0.0, s0.1, s0.2, s2.0, s2.1, s2.2, phys.memory, mem, tables);
      Closed(mem, tables, v);
    }

    /** An entry of a last-level table is written. */
    method Put(pte: nat, virt: nat, e: nat)
      requires Valid() && Path(virt)[..3] in tables && tables[Path(virt)[..3]] == pte < |mem|
      modifies this`mem
      ensures Valid() && |mem| == |old(mem)| && mem == old(mem)[pte := old(mem)[pte][Path(virt)[3] := e]]
      ensures forall v :: Entry(v) == if VirtualPage(v) == VirtualPage(virt) then e else old(Entry(v))
    {
      hide Tree, Leaf, PhysMem.Allocator.Valid, Path, VirtualPage, Reserved;
      Store(mem, tables, Path(virt), e);
      mem := mem[pte := mem[pte][Path(virt)[3] := e]];
      forall v ensures Entry(v) == if VirtualPage(v) == VirtualPage(virt) then e else old(Entry(v)) {
        SamePath(v, virt);
        assert IsPath(Path(v));
      }
    }

    /** vmm_map: every address of the page of `virt` gets the entry, no other address changes; on failure
        none does. It succeeds exactly when the tables missing on the path can be had, and makes just those. */
    method Map(pml4: nat, phys_: nat, virt: nat, flags: nat) returns (ok: bool)
      requires Valid() && Root(pml4)
      modifies this`mem, this`tables, phys
      ensures Valid() && Root(pml4) && phys.maxBlocks == old(phys.maxBlocks)
      ensures Grew(old(phys.memory), old(mem), old(tables), phys.memory, mem, tables)
      ensures ok <==> Had(old(phys.maxBlocks - phys.used), old(Missing(tables, Path(virt))))
      ensures ok ==> tables.Keys == old(tables.Keys) + Tops(Path(virt))
      ensures ok ==> phys.used == old(phys.used) + old(Missing(tables, Path(virt)))
      ensures forall v :: Entry(v) == if ok && VirtualPage(v) == VirtualPage(virt)
                                        then LeafEntry(phys_, flags) else old(Entry(v))
      ensures forall v: nat :: Mmu.Walk(mem, pml4, v)
                == if ok && v / 0x1000 % 0x10_0000_0000 == virt / 0x1000 % 0x10_0000_0000 then Granted(phys_, flags, v)
                   else old(Mmu.Walk(mem, pml4, v))
    {
      ok := MapEntry(pml4, phys_, virt, flags);
      forall v: nat ensures Mmu.Walk(mem, pml4, v)
                == if ok && VirtualPage(v) == VirtualPage(virt) then Granted(phys_, flags, v)
                   else old(Mmu.Walk(mem, pml4, v))
      {
        LeafGrants(phys_, flags, v);
        hide *;
        WalkEntry(pml4, v);
        Mmu.WalkIs(old(mem), old(tables), v);
      }
    }

    method MapEntry(pml4: nat, phys_: nat, virt: nat, flags: nat) returns (ok: bool)
      requires Valid() && Root(pml4)
      modifies this`mem, this`tables, phys
      ensures Valid() && Root(pml4) && phys.maxBlocks == old(phys.maxBlocks)
      ensures Grew(old(phys.memory), old(mem), old(tables), phys.memory, mem, tables)
      ensures ok <==> Had(old(phys.maxBlocks - phys.used), old(Missing(tables, Path(virt))))
      ensures ok ==> tables.Keys == old(tables.Keys) + Tops(Path(virt))
      ensures ok ==> phys.used == old(phys.used) + old(Missing(tables, Path(virt)))
      ensures forall v :: Entry(v) == if ok && VirtualPage(v) == VirtualPage(virt)
                                        then LeafEntry(phys_, flags) else old(Entry(v))
    {
      hide Tree, Leaf, Grew, PhysMem.Allocator.Valid, Path, VirtualPage, LeafEntry, Reserved, SameLeaves, Missing;
      hide Had, Tops;
      var pte := GetPte(pml4, virt, true);
      SameEntries(old(mem), old(tables), mem, tables);
      if pte == 0 { return false; }
      StoreGrew(old(phys.memory), old(mem), old(tables), phys.memory, mem, tables, Path(virt)[..3], pte,
                Path(virt)[3], LeafEntry(phys_, flags));
      Put(pte, virt, LeafEntry(phys_, flags));
      ok := true;
    }

    /** vmm_unmap: the page of `virt` translates to nothing, every other address as before. */
    method Unmap(pml4: nat, virt: nat)
      requires Valid() && Root(pml4)
      modifies this`mem, this`tables, phys
      ensures Valid() && Root(pml4) && tables == old(tables) && phys.memory == old(phys.memory) && |mem| == |old(mem)|
      ensures forall v :: Entry(v) == if VirtualPage(v) == VirtualPage(virt) then 0 else old(Entry(v))
      ensures forall v: nat :: Mmu.Walk(mem, pml4, v)
                == if v / 0x1000 % 0x10_0000_0000 == virt / 0x1000 % 0x10_0000_0000 then Mmu.Fault
                   else old(Mmu.Walk(mem, pml4, v))
      ensures forall b :: 0 <= b < |mem| && !IsTable(tables, b) ==> mem[b] == old(mem[b])
    {
      UnmapEntry(pml4, virt);
      forall v: nat ensures Mmu.Walk(mem, pml4, v)
                == if VirtualPage(v) == VirtualPage(virt) then Mmu.Fault else old(Mmu.Walk(mem, pml4, v))
      {
        assert Mmu.Seen(0, v) == Mmu.Fault;
        hide *;
        WalkEntry(pml4, v);
        Mmu.WalkIs(old(mem), old(tables), v);
      }
    }

    method UnmapEntry(pml4: nat, virt: nat)
      requires Valid() && Root(pml4)
      modifies this`mem, this`tables, phys
      ensures Valid() && Root(pml4) && tables == old(tables) && phys.memory == old(phys.memory) && |mem| == |old(mem)|
      ensures forall v :: Entry(v) == if VirtualPage(v) == VirtualPage(virt) then 0 else old(Entry(v))
      ensures forall b :: 0 <= b < |mem| && !IsTable(tables, b) ==> mem[b] == old(mem[b])
    {
      hide Tree, Leaf, Grew, PhysMem.Allocator.Valid, Path, VirtualPage, Reserved, SameLeaves;
      var pte := GetPte(pml4, virt, false);
      if pte != 0 {
        assert IsTable(tables, pte);
        Put(pte, virt, 0);
      } else {
        forall v ensures Entry(v) == if VirtualPage(v) == VirtualPage(virt) then 0 else old(Entry(v)) {
          SamePath(v, virt);
          NoLeaf(mem, tables, Path(virt));
        }
      }
    }

    /** vmm_get_phys: the page's address, or 0 both when `virt` is not mapped and when it is mapped to page 0. */
    method GetPhys(pml4: nat, virt: nat) returns (r: nat)
      requires Valid() && Root(pml4)
      modifies this`mem, this`tables, phys
      ensures Valid() && Root(pml4) && mem == old(mem) && tables == old(tables) && phys.memory == old(phys.memory)
      ensures r == if Present(Entry(virt)) then PageOf(Entry(virt)) * PAGE_SIZE else 0
      ensures r == match Mmu.Walk(mem, pml4, virt)
                   case Memory(address, _, _, _, _) => address - virt % 0x1000
                   case _ => 0
    {
      WalkEntry(pml4, virt);
      hide Mmu.Walk;
      hide Tree, Grew, PhysMem.Allocator.Valid, Path, SameLeaves;
      var pte := GetPte(pml4, virt, false);
      if pte == 0 || !Present(mem[pte][Path(virt)[3]]) {
        return 0;
      }
      r := PageOf(mem[pte][Path(virt)[3]]) * PAGE_SIZE;
    }

    /** One round of that loop, with the addresses cut to 64 bits. */
    method MapPage(pml4: nat, phys_: nat, virt: nat, i: nat, flags: nat) returns (ok: bool)
      requires Valid() && Root(pml4) && i < PAGES
      modifies this`mem, this`tables, phys
      ensures Valid() && Root(pml4) && phys.maxBlocks == old(phys.maxBlocks)
      ensures Grew(old(phys.memory), old(mem), old(tables), phys.memory, mem, tables)
      ensures ok <==> Had(old(phys.maxBlocks - phys.used), old(Missing(tables, Path(virt + i * PAGE_SIZE))))
      ensures ok ==> tables.Keys == old(tables.Keys) + Tops(Path(virt + i * PAGE_SIZE))
      ensures ok ==> phys.used == old(phys.used) + old(Missing(tables, Path(virt + i * PAGE_SIZE)))
      ensures forall v :: Entry(v) == if ok && Offset(virt, v) == i
                                        then LeafEntry(phys_ + i * PAGE_SIZE, flags) else old(Entry(v))
    {
      hide Tree, Leaf, Grew, PhysMem.Allocator.Valid, Path, VirtualPage, LeafEntry, Reserved, Offset, Missing, Tops;
      hide Had;
      var to := virt + i * PAGE_SIZE;
      WrappedPath(to);
      Wrapped(to);
      WrappedLeaf(phys_ + i * PAGE_SIZE, flags);
      forall v ensures VirtualPage(v) == VirtualPage(to) <==> Offset(virt, v) == i {
        OffsetIs(virt, v, i);
      }
      ok := Map(pml4, (phys_ + i * PAGE_SIZE) % WORD, (virt + i * PAGE_SIZE) % WORD, flags);
    }

    /** The loop of mmio_map and vmm_init: `pages` pages from `virt` on get those from `phys_` on. Pages
        outside keep their entries, whether the loop finishes or not. It finishes exactly when the tables
        missing on the paths of the range can be had. */
    method MapRange(pml4: nat, phys_: nat, virt: nat, pages: nat, flags: nat) returns (ok: bool)
      requires Valid() && Root(pml4) && pages <= PAGES
      modifies this`mem, this`tables, phys
      ensures Valid() && Root(pml4) && phys.maxBlocks == old(phys.maxBlocks)
      ensures Grew(old(phys.memory), old(mem), old(tables), phys.memory, mem, tables)
      ensures ok <==> Had(old(phys.maxBlocks - phys.used), old(Lacking(tables, virt, pages)))
      ensures ok ==> tables.Keys == old(tables.Keys) + Wanted(virt, pages)
      ensures ok ==> phys.used == old(phys.used) + old(Lacking(tables, virt, pages))
      ensures forall v :: Offset(virt, v) >= pages ==> Entry(v) == old(Entry(v))
      ensures ok ==> forall v :: Offset(virt, v) < pages ==>
                       Entry(v) == LeafEntry(phys_ + Offset(virt, v) * PAGE_SIZE, flags)
    {
      hide Tree, Leaf, Grew, PhysMem.Allocator.Valid, Path, VirtualPage, LeafEntry, Reserved, Offset, Missing, Tops;
      hide Wanted, Lacking, Had;
      GrewSame(phys.memory, mem, tables);
      LackingNone(tables, virt);
      ghost var free := phys.maxBlocks - phys.used;
      HadNone(free);
      var i := 0;
      while i < pages
        invariant i <= pages && Valid() && Root(pml4) && phys.maxBlocks == old(phys.maxBlocks)
        invariant Grew(old(phys.memory), old(mem), old(tables), phys.memory, mem, tables)
        invariant tables.Keys == old(tables.Keys) + Wanted(virt, i)
        invariant phys.used == old(phys.used) + old(Lacking(tables, virt, i))
        invariant Had(free, old(Lacking(tables, virt, i)))
        invariant forall v :: Entry(v) == if Offset(virt, v) < i
                                            then LeafEntry(phys_ + Offset(virt, v) * PAGE_SIZE, flags)
                                            else old(Entry(v))
      {
        ghost var s := (phys.memory, mem, tables);
        LackingStep(old(tables), tables, virt, i);
        LackingGrows(old(tables), virt, i + 1, pages);
        HadStep(free, old(Lacking(tables, virt, i)), Missing(tables, Path(virt + i * PAGE_SIZE)),
                old(Lacking(tables, virt, pages)));
        ok := MapPage(pml4, phys_, virt, i, flags);
        GrewTrans(old(phys.memory), old(mem), old(tables), s.0, s.1, s.2, phys.memory, mem, tables);
        if !ok { return; }
        i := i + 1;
      }
      ok := true;
    }

    /** The processor's access to byte `k` of a window at `r`, around the 64 bits of an address, meets the
        kernel memory at `p + k`. */
    ghost predicate Opens(r: nat, k: nat, p: nat, cached: bool)
      reads `mem, `current
    {
      Mmu.Walk(mem, current, (r + k) % WORD) == KernelMemory(p + k, cached)
    }

    /** The processor's accesses to `v` meet what they met before. */
    twostate predicate Kept(v: nat)
      reads `mem, `current
    {
      Mmu.Walk(mem, current, v) == old(Mmu.Walk(mem, current, v))
    }

    /** What the processor meets at an address is what its entry says. */
    lemma WalkEntry(pml4: nat, v: nat)
      requires Valid() && Root(pml4)
      ensures Mmu.Walk(mem, pml4, v) == Mmu.Seen(Entry(v), v)
    {
      Mmu.WalkIs(mem, tables, v);
    }

    twostate lemma WalkKept(v: nat)
      requires old(Valid()) && Valid() && old(Root(current)) && Root(current) && Entry(v) == old(Entry(v))
      ensures Kept(v)
    {
      Mmu.WalkIs(mem, tables, v);
      Mmu.WalkIs(old(mem), old(tables), v);
    }

    /** mmio_map: a window of virtual addresses for `size` bytes at `phys_`, behind the windows before it.
        It is had exactly when the tables missing for it can be; every address outside keeps its translation. */
    method MmioMap(phys_: nat, size: nat) returns (r: nat)
      requires current != 0 ==> Valid() && Root(current)
      requires mmioNext < WORD && mmioNext % PAGE_SIZE == 0
      requires phys_ % PAGE_SIZE + size <= PAGES * PAGE_SIZE
      modifies this`mem, this`tables, this`mmioNext, phys
      ensures current == 0 ==> r == 0 && mem == old(mem) && mmioNext == old(mmioNext) && phys.memory == old(phys.memory)
      ensures current != 0 ==> Valid() && Root(current)
      ensures current != 0 ==> mmioNext == (old(mmioNext) + PagesFor(phys_, size) * PAGE_SIZE) % WORD
      ensures current != 0 ==>
                var had := Had(old(phys.maxBlocks - phys.used), old(Lacking(tables, mmioNext, PagesFor(phys_, size))));
                && r == (if had then old(mmioNext) + phys_ % PAGE_SIZE else 0)
                && (had ==> forall k: nat :: k < size ==> Opens(r, k, phys_, false))
      ensures current != 0 ==> forall v :: Offset(old(mmioNext), v) >= PagesFor(phys_, size) ==> Kept(v)
      ensures MMIO_VIRT_BASE <= old(mmioNext) && old(mmioNext) + PagesFor(phys_, size) * PAGE_SIZE <= WORD ==>
                current != 0 ==> forall v :: BelowWindow(v, old(mmioNext)) ==> Kept(v)
    {
      hide *;
      if current == 0 {
        return 0;
      }
      r := Window(phys_, size);
    }

    method Window(phys_: nat, size: nat) returns (r: nat)
      requires current != 0 && Valid() && Root(current)
      requires mmioNext < WORD && mmioNext % PAGE_SIZE == 0
      requires phys_ % PAGE_SIZE + size <= PAGES * PAGE_SIZE
      modifies this`mem, this`tables, this`mmioNext, phys
      ensures Valid() && Root(current)
      ensures mmioNext == (old(mmioNext) + PagesFor(phys_, size) * PAGE_SIZE) % WORD
      ensures var had := Had(old(phys.maxBlocks - phys.used), old(Lacking(tables, mmioNext, PagesFor(phys_, size))));
              && r == (if had then old(mmioNext) + phys_ % PAGE_SIZE else 0)
              && (had ==> forall k: nat :: k < size ==> Opens(r, k, phys_, false))
      ensures forall v :: Offset(old(mmioNext), v) >= PagesFor(phys_, size) ==> Kept(v)
      ensures MMIO_VIRT_BASE <= old(mmioNext) && old(mmioNext) + PagesFor(phys_, size) * PAGE_SIZE <= WORD ==>
                forall v :: BelowWindow(v, old(mmioNext)) ==> Kept(v)
    {
      hide Tree, Leaf, Grew, PhysMem.Allocator.Valid, Path, VirtualPage, LeafEntry, Reserved, Offset, PageOf;
      hide BelowWindow, Lacking, Wanted, Had, Opens, Kept;
      var aligned := phys_ / PAGE_SIZE * PAGE_SIZE;
      var offset := phys_ - aligned;
      var pages := (size + offset + PAGE_SIZE - 1) / PAGE_SIZE;
      var base := mmioNext;
      mmioNext := (mmioNext + pages * PAGE_SIZE) % WORD;
      var ok := MapRange(current, aligned, base, pages, UNCACHED);
      forall v | Offset(base, v) >= pages ensures Kept(v) {
        WalkKept(v);
      }
      if MMIO_VIRT_BASE <= base && base + pages * PAGE_SIZE <= WORD {
        forall v | BelowWindow(v, base) ensures Kept(v) {
          OutOfWindow(base, v, pages);
        }
      }
      if !ok { return 0; }
      r := base + offset;
      forall k: nat | k < size ensures Opens(r, k, phys_, false) {
        WindowByteOpens(aligned, base, offset, k, pages);
      }
    }

    /** Every byte of a range that MapRange has just mapped is where it should be. */
    lemma WindowByteOpens(aligned: nat, base: nat, offset: nat, k: nat, pages: nat)
      requires Valid() && Root(current) && aligned % PAGE_SIZE == 0 && base % PAGE_SIZE == 0 && offset < PAGE_SIZE
      requires (k + offset) / PAGE_SIZE < pages <= PAGES
      requires forall w :: Offset(base, w) < pages ==>
              Entry(w) == LeafEntry(aligned + Offset(base, w) * PAGE_SIZE, UNCACHED)
      ensures Opens(base + offset, k, aligned + offset, false)
    {
      hide Valid, Entry, LeafEntry, PageOf, Offset, KernelMemory, Mmu.Seen, Mmu.Walk;
      WindowOpens(aligned, base, offset, k, pages, UNCACHED);
      WalkEntry(current, (base + offset + k) % WORD);
    }

    /** A page table that maps nothing. */
    method NewSpace() returns (pml4: nat)
      requires Backed()
      modifies this`mem, this`tables, phys
      ensures Backed() && phys.maxBlocks == old(phys.maxBlocks)
      ensures pml4 == 0 <==> old(phys.maxBlocks - phys.used) <= 1
      ensures pml4 != 0 ==> Valid() && Root(pml4) && (forall v :: Entry(v) == 0)
                            && tables.Keys == {[]} && phys.used == old(phys.used) + 1
    {
      hide Tree, Leaf, PhysMem.Allocator.Valid, Path;
      pml4 := AllocTable();
      if pml4 != 0 {
        OneTable(mem, pml4);
        tables := map[[] := pml4];
        forall v ensures Entry(v) == 0 {
          assert IsPath(Path(v));
        }
      }
    }

    /** vmm_init: low memory and the framebuffer are mapped to themselves, then the kernel's addresses to the
        kernel, and nothing else is mapped. It succeeds exactly when the tables for all of it can be had. */
    method Init(fbAddr: nat, fbHeight: nat, fbPitch: nat) returns (ok: bool)
      requires Backed() && FbPages(fbAddr, Mul(fbHeight, fbPitch)) <= PAGES
      modifies this, phys
      ensures mmioNext == old(mmioNext)
      ensures var tops := BootTops(fbAddr, FbPages(fbAddr, Mul(fbHeight, fbPitch)));
              ok <==> old(phys.maxBlocks - phys.used) > 1 && Had(old(phys.maxBlocks - phys.used) - 1, |tops - {[]}|)
      ensures !ok ==> current == old(current)
      ensures ok ==> current != 0 && Valid() && Root(current)
      ensures ok ==> forall v :: Entry(v) == BootEntry(v, fbAddr, FbPages(fbAddr, Mul(fbHeight, fbPitch)))
      ensures ok ==> forall v: nat :: BootEntry(v, fbAddr, FbPages(fbAddr, Mul(fbHeight, fbPitch))) == 0 ==>
                       Mmu.Walk(mem, current, v) == Mmu.Fault
      ensures ok ==> forall k: nat :: k < 0x40_0000 ==> Opens(0xFFFF_FFFF_8010_0000, k, 0x10_0000, true)
      ensures ok && fbAddr + Mul(fbHeight, fbPitch) + 0x2000 <= 0x8000_0000_0000 ==> forall v: nat ::
                v < 0x100_0000 || OnScreen(v, fbAddr, Mul(fbHeight, fbPitch)) ==>
                  Mmu.Walk(mem, current, v) == KernelMemory(v, !OnScreen(v, fbAddr, Mul(fbHeight, fbPitch)))
    {
      hide Mul, Mmu.Walk, Mmu.Seen, KernelMemory, OnScreen;
      hide Tree, Leaf, Grew, PhysMem.Allocator.Valid, Path, BootEntry, Reserved, BootTops, Had, FbPages;
      var pml4 := NewSpace();
      if pml4 == 0 { return false; }
      ok := Fill(pml4, fbAddr, Mul(fbHeight, fbPitch));
      if !ok { return; }
      current := pml4;
      forall v: nat ensures Mmu.Walk(mem, current, v) == Mmu.Seen(Entry(v), v) {
        WalkEntry(current, v);
      }
      assert forall v :: Mmu.Seen(0, v) == Mmu.Fault by { NothingSeen(); }
      forall k: nat | k < KERNEL_SIZE ensures Opens(KERNEL_VIRT, k, KERNEL_PHYS, true) {
        BootKernel(k, fbAddr, FbPages(fbAddr, Mul(fbHeight, fbPitch)));
      }
      if fbAddr + Mul(fbHeight, fbPitch) + 2 * PAGE_SIZE <= LOW {
        forall v: nat | v < IDENTITY_SIZE || OnScreen(v, fbAddr, Mul(fbHeight, fbPitch))
          ensures Mmu.Walk(mem, current, v) == KernelMemory(v, !OnScreen(v, fbAddr, Mul(fbHeight, fbPitch)))
        {
          BootSelf(v, fbAddr, Mul(fbHeight, fbPitch));
        }
      }
    }

    lemma NothingSeen()
      ensures forall v :: Mmu.Seen(0, v) == Mmu.Fault
    {
    }

    /** The three loops of vmm_init. */
    method Fill(pml4: nat, fbAddr: nat, size: nat) returns (ok: bool)
      requires Valid() && Root(pml4) && FbPages(fbAddr, size) <= PAGES
      requires tables.Keys == {[]} && forall v :: Entry(v) == 0
      modifies this`mem, this`tables, phys
      ensures ok <==> Had(old(phys.maxBlocks - phys.used), |BootTops(fbAddr, FbPages(fbAddr, size)) - {[]}|)
      ensures ok ==> Valid() && Root(pml4) && forall v :: Entry(v) == BootEntry(v, fbAddr, FbPages(fbAddr, size))
    {
      hide Tree, Leaf, Grew, PhysMem.Allocator.Valid, Path, VirtualPage, LeafEntry, Reserved, Offset, Wanted, Had;
      hide FbPages;
      ghost var low, high := IDENTITY_SIZE / PAGE_SIZE, KERNEL_SIZE / PAGE_SIZE;
      ghost var fb := FbPages(fbAddr, size);
      ghost var a, b, c := Wanted(0, low), Wanted(FirstPage(fbAddr), fb), Wanted(KERNEL_VIRT, high);
      BootSums(a, b, c);
      BootRoom(phys.maxBlocks - phys.used, |a - {[]}|, |b - ({[]} + a)|, |c - (({[]} + a) + b)|);
      ok := MapRange(pml4, 0, 0, IDENTITY_SIZE / PAGE_SIZE, WRITABLE);
      if !ok { return; }
      ok := MapScreen(pml4, fbAddr, size);
      if !ok { return; }
      ok := MapRange(pml4, KERNEL_PHYS, KERNEL_VIRT, KERNEL_SIZE / PAGE_SIZE, WRITABLE);
    }

    /** The framebuffer's part of vmm_init. */
    method MapScreen(pml4: nat, fbAddr: nat, size: nat) returns (ok: bool)
      requires Valid() && Root(pml4) && FbPages(fbAddr, size) <= PAGES
      modifies this`mem, this`tables, phys
      ensures Valid() && Root(pml4) && phys.maxBlocks == old(phys.maxBlocks)
      ensures var n := FbPages(fbAddr, size);
              && (ok <==> Had(old(phys.maxBlocks - phys.used), old(Lacking(tables, FirstPage(fbAddr), n))))
              && (ok ==> tables.Keys == old(tables.Keys) + Wanted(FirstPage(fbAddr), n))
              && (ok ==> phys.used == old(phys.used) + old(Lacking(tables, FirstPage(fbAddr), n)))
              && (ok ==> forall v :: Entry(v) == if Offset(FirstPage(fbAddr), v) < n
                           then LeafEntry(FirstPage(fbAddr) + Offset(FirstPage(fbAddr), v) * PAGE_SIZE, UNCACHED)
                           else old(Entry(v)))
    {
      hide Tree, Leaf, Grew, PhysMem.Allocator.Valid, Path, VirtualPage, LeafEntry, Reserved, Offset, Wanted, Lacking;
      if fbAddr == 0 {
        LackingNone(tables, FirstPage(fbAddr));
        return true;
      }
      var start := fbAddr / PAGE_SIZE * PAGE_SIZE;
      var pages := (size + PAGE_SIZE - 1) / PAGE_SIZE + 1;
      ok := MapRange(pml4, start, start, pages, UNCACHED);
    }
  }
}

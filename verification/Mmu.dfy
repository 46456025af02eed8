/**
 Address translation as the processor does it, from the bits of raw table entries (section 4.5 of the
 Intel SDM, Volume 3A), and the proof that the tables the kernel builds mean what their flat map says.
 */
module Mmu {
  import opened PageTree

  /** What an access to an address meets. */
  datatype Access = Fault | LargePage | Memory(address: nat, writable: bool, user: bool, cached: bool, executable: bool)

  function RawEntry(mem: seq<Table>, page: nat, i: nat): nat
    requires i < 512
  {
    if page < |mem| then mem[page][i] else 0
  }

  predicate BitSet(e: nat, k: nat)
    requires k == 0x1 || k == 0x2 || k == 0x4 || k == 0x10 || k == 0x80 || k == 0x8000_0000_0000_0000
  {
    e / k % 2 == 1
  }

  /** Bits 12 to 51 of an entry. */
  function Frame(e: nat): nat {
    e / 0x1000 % 0x100_0000_0000
  }

  /** Four tables, indexed by bits 39 to 47, 30 to 38, 21 to 29 and 12 to 20 of the address. An access may do
      what all four entries allow; bit 4 of the last one turns the cache off. */
  function Walk(mem: seq<Table>, pml4: nat, virt: nat): Access {
    var e4 := RawEntry(mem, pml4, virt / 0x80_0000_0000 % 512);
    if !BitSet(e4, 0x1) then Fault
    else
      var e3 := RawEntry(mem, Frame(e4), virt / 0x4000_0000 % 512);
      if !BitSet(e3, 0x1) then Fault
      else if BitSet(e3, 0x80) then LargePage
      else
        var e2 := RawEntry(mem, Frame(e3), virt / 0x20_0000 % 512);
        if !BitSet(e2, 0x1) then Fault
        else if BitSet(e2, 0x80) then LargePage
        else
          var e1 := RawEntry(mem, Frame(e2), virt / 0x1000 % 512);
          if !BitSet(e1, 0x1) then Fault
          else
            Memory(
              Frame(e1) * 0x1000 + virt % 0x1000,
              BitSet(e4, 0x2) && BitSet(e3, 0x2) && BitSet(e2, 0x2) && BitSet(e1, 0x2),
              BitSet(e4, 0x4) && BitSet(e3, 0x4) && BitSet(e2, 0x4) && BitSet(e1, 0x4),
              !BitSet(e1, 0x10),
              !(BitSet(e4, 0x8000_0000_0000_0000) || BitSet(e3, 0x8000_0000_0000_0000)
                || BitSet(e2, 0x8000_0000_0000_0000) || BitSet(e1, 0x8000_0000_0000_0000)))
  }

  /** An access through tables of the kernel, from the last entry alone: the links above it allow all but
      user access. */
  function Seen(e: nat, virt: nat): Access {
    if !BitSet(e, 0x1) then Fault
    else Memory(Frame(e) * 0x1000 + virt % 0x1000, BitSet(e, 0x2), false, !BitSet(e, 0x10),
                !BitSet(e, 0x8000_0000_0000_0000))
  }

  lemma LinkBits(page: nat)
    requires page < FRAMES
    ensures var e := LinkEntry(page);
            && BitSet(e, 0x1) && BitSet(e, 0x2) && !BitSet(e, 0x4) && !BitSet(e, 0x80)
            && !BitSet(e, 0x8000_0000_0000_0000) && Frame(e) == page
  {
    assert (page * 0x1000 + 3) / 0x80 == page * 0x20;
    assert (page * 0x1000 + 3) / 0x4 == page * 0x400;
    assert (page * 0x1000 + 3) / 0x2 == page * 0x800 + 1;
  }

  /** The low 12 bits of a last entry are those of the flags with the lowest one set, the bits from 52 up are
      those of the flags, and the bits between are those of the address. */
  lemma LeafBits(phys: nat, flags: nat)
    ensures var e := LeafEntry(phys, flags);
            && e % 0x1000 == (if flags % 2 == 1 then flags % 0x1000 else flags % 0x1000 + 1)
            && e / 0x10_0000_0000_0000 == flags / 0x10_0000_0000_0000
            && e / 0x1000 % 0x100_0000_0000 == phys / 0x1000 % 0x100_0000_0000
  {
    var hi, lo := flags / NX_BASE, flags % PAGE_SIZE / 2 * 2 + 1;
    LeafParts(hi, PageOf(phys), lo);
    assert flags % 0x1000 % 2 == flags % 2;
  }

  lemma LeafParts(hi: nat, page: nat, lo: nat)
    requires page < 0x100_0000_0000 && lo < 0x1000
    ensures var e := hi * 0x10_0000_0000_0000 + page * 0x1000 + lo;
            e % 0x1000 == lo && e / 0x10_0000_0000_0000 == hi && e / 0x1000 % 0x100_0000_0000 == page
  {
    var e := hi * 0x10_0000_0000_0000 + page * 0x1000 + lo;
    assert e == (hi * 0x100_0000_0000 + page) * 0x1000 + lo;
    assert e / 0x1000 == hi * 0x100_0000_0000 + page;
  }

  // ----- the walk over a tree of tables -----

  lemma Level(mem: seq<Table>, t: Tables, p: seq<nat>, i: nat)
    requires Tree(mem, t) && p in t && |p| < 3 && i < 512
    ensures var e := RawEntry(mem, t[p], i);
            && (BitSet(e, 0x1) <==> p + [i] in t)
            && (p + [i] in t ==> t[p + [i]] < FRAMES && e == LinkEntry(t[p + [i]]))
  {
    assert Linked(mem, t, p, i);
  }

  lemma LastLevel(mem: seq<Table>, t: Tables, v: seq<nat>)
    requires Tree(mem, t) && |v| == 4 && v[3] < 512 && v[..3] in t
    ensures RawEntry(mem, t[v[..3]], v[3]) == Leaf(mem, t, v)
  {
  }

  /** The processor sees at every address what the flat map from addresses to entries says. */
  lemma WalkIs(mem: seq<Table>, t: Tables, virt: nat)
    requires Tree(mem, t) && [] in t
    ensures Walk(mem, t[[]], virt) == Seen(Leaf(mem, t, Path(virt)), virt)
  {
    var v := Path(virt);
    assert v == [virt / 0x80_0000_0000 % 512, virt / 0x4000_0000 % 512, virt / 0x20_0000 % 512, virt / 0x1000 % 512];
    Prefixes(v);
    Closed(mem, t, v);
    Levels(mem, t, v);
    hide Tree, Linked, BitSet, Frame, RawEntry, LinkEntry, Path;
    BitsOfNone();
    if v[..3] in t {
      LastLevel(mem, t, v);
    } else {
      NoLeaf(mem, t, v);
    }
  }

  /** The tables on a path. */
  lemma Levels(mem: seq<Table>, t: Tables, v: seq<nat>)
    requires Tree(mem, t) && |v| == 4 && (forall i :: 0 <= i < 4 ==> v[i] < 512) && [] in t
    ensures LinksTo(RawEntry(mem, t[[]], v[0]), t, v[..1])
    ensures v[..1] in t ==> LinksTo(RawEntry(mem, t[v[..1]], v[1]), t, v[..2])
    ensures v[..2] in t ==> LinksTo(RawEntry(mem, t[v[..2]], v[2]), t, v[..3])
  {
    assert [] + [v[0]] == v[..1] && v[..1] + [v[1]] == v[..2] && v[..2] + [v[2]] == v[..3];
    OneLevel(mem, t, [], v[0]);
    if v[..1] in t { OneLevel(mem, t, v[..1], v[1]); }
    if v[..2] in t { OneLevel(mem, t, v[..2], v[2]); }
  }

  ghost predicate LinksTo(e: nat, t: Tables, q: seq<nat>) {
    && (BitSet(e, 0x1) <==> q in t)
    && (q in t ==> BitSet(e, 0x2) && !BitSet(e, 0x4) && !BitSet(e, 0x80) && !BitSet(e, 0x8000_0000_0000_0000)
                   && Frame(e) == t[q])
  }

  lemma OneLevel(mem: seq<Table>, t: Tables, p: seq<nat>, i: nat)
    requires Tree(mem, t) && p in t && |p| < 3 && i < 512
    ensures LinksTo(RawEntry(mem, t[p], i), t, p + [i])
  {
    Level(mem, t, p, i);
    hide Tree, BitSet, Frame, RawEntry, LinkEntry;
    if p + [i] in t { LinkBits(t[p + [i]]); }
  }

  lemma BitsOfNone()
    ensures !BitSet(0, 0x1)
  {
  }
}

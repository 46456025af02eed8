/** Four levels of page tables as a tree of pages, and the flat map from addresses to entries it is. */
module PageTree {

  const PAGE_SIZE: nat := 4096
  const FRAMES: nat := 0x100_0000_0000        // page numbers an entry can name
  const NX_BASE: nat := 0x10_0000_0000_0000   // the flag bits above the address
  const PAGES: nat := 0x10_0000_0000          // pages of the translated 48 bits

  type Table = t: seq<nat> | |t| == 512 witness seq(512, _ => 0)

  const EMPTY: Table := seq(512, _ => 0)

  // ----- entries -----

  predicate Present(e: nat) {
    e % 2 == 1
  }

  /** pte_get_phys, as a page number. */
  function PageOf(e: nat): (n: nat)
    ensures n < FRAMES
  {
    (e / PAGE_SIZE) % FRAMES
  }

  function LinkEntry(page: nat): nat {
    page * PAGE_SIZE + 3
  }

  /** An entry with the page of `phys`, and the flags around it with the present bit on. */
  function LeafEntry(phys: nat, flags: nat): nat {
    flags / NX_BASE * NX_BASE + PageOf(phys) * PAGE_SIZE + (flags % PAGE_SIZE / 2 * 2 + 1)
  }

  lemma LinkNames(page: nat)
    requires page < FRAMES
    ensures Present(LinkEntry(page)) && PageOf(LinkEntry(page)) == page
  {
  }

  lemma LeafNames(phys: nat, flags: nat)
    ensures Present(LeafEntry(phys, flags)) && PageOf(LeafEntry(phys, flags)) == PageOf(phys)
  {
    var hi, lo := flags / NX_BASE, flags % PAGE_SIZE / 2 * 2 + 1;
    var e := LeafEntry(phys, flags);
    assert e == (hi * FRAMES + PageOf(phys)) * PAGE_SIZE + lo;
    assert e / PAGE_SIZE == hi * FRAMES + PageOf(phys);
  }

  // ----- the path of an address -----

  /** PML4, PDPT, PD and PT index. */
  function Path(virt: nat): (p: seq<nat>)
    ensures |p| == 4 && forall i :: 0 <= i < 4 ==> p[i] < 512
  {
    [(virt / 0x80_0000_0000) % 512, (virt / 0x4000_0000) % 512, (virt / 0x20_0000) % 512, (virt / 0x1000) % 512]
  }

  /** The page of an address among those the 48 translated bits can tell apart. */
  function VirtualPage(virt: nat): nat {
    (virt / PAGE_SIZE) % PAGES
  }

  lemma Halves(v: nat)
    ensures v / 0x20_0000 == v / 0x1000 / 512 && v / 0x4000_0000 == v / 0x20_0000 / 512
    ensures v / 0x80_0000_0000 == v / 0x4000_0000 / 512
  {
  }

  lemma Digits(v: nat)
    ensures v % PAGES == ((v / 512 / 512 / 512 % 512 * 512 + v / 512 / 512 % 512) * 512 + v / 512 % 512) * 512 + v % 512
  {
    var a, b, c := v / 512, v / 512 / 512, v / 512 / 512 / 512;
    var w := c / 512;
    assert v == (((w * 512 + c % 512) * 512 + b % 512) * 512 + a % 512) * 512 + v % 512;
    assert v == w * PAGES + (((c % 512) * 512 + b % 512) * 512 + a % 512) * 512 + v % 512;
  }

  function Join(a: nat, b: nat, c: nat, d: nat): nat {
    ((a * 512 + b) * 512 + c) * 512 + d
  }

  lemma PairUnique(x: nat, d: nat, x': nat, d': nat)
    requires d < 512 && d' < 512
    ensures x * 512 + d == x' * 512 + d' <==> x == x' && d == d'
  {
  }

  lemma JoinUnique(a: nat, b: nat, c: nat, d: nat, a': nat, b': nat, c': nat, d': nat)
    requires a < 512 && b < 512 && c < 512 && d < 512 && a' < 512 && b' < 512 && c' < 512 && d' < 512
    ensures Join(a, b, c, d) == Join(a', b', c', d') <==> a == a' && b == b' && c == c' && d == d'
  {
    PairUnique((a * 512 + b) * 512 + c, d, (a' * 512 + b') * 512 + c', d');
    PairUnique(a * 512 + b, c, a' * 512 + b', c');
    PairUnique(a, b, a', b');
  }

  lemma PathJoins(v: nat)
    ensures var p := Path(v);
            VirtualPage(v) == Join(p[0], p[1], p[2], p[3])
  {
    Halves(v);
    Digits(v / PAGE_SIZE);
  }

  /** Two addresses take the same path exactly when they agree in bits 12 to 47. */
  lemma SamePath(a: nat, b: nat)
    ensures Path(a) == Path(b) <==> VirtualPage(a) == VirtualPage(b)
  {
    PathJoins(a);
    PathJoins(b);
    var p, q := Path(a), Path(b);
    hide Path, VirtualPage, Join;
    JoinUnique(p[0], p[1], p[2], p[3], q[0], q[1], q[2], q[3]);
    assert p == q <==> p[0] == q[0] && p[1] == q[1] && p[2] == q[2] && p[3] == q[3];
  }

  /** How many pages `v` is above `base`, around the 48 bits. */
  function Offset(base: nat, v: nat): (n: nat)
    ensures n < PAGES
  {
    (VirtualPage(v) + PAGES - VirtualPage(base)) % PAGES
  }

  lemma OffsetIs(base: nat, v: nat, i: nat)
    requires i < PAGES
    ensures Offset(base, v) == i <==> VirtualPage(v) == VirtualPage(base + i * PAGE_SIZE)
  {
    assert (base + i * PAGE_SIZE) / PAGE_SIZE == base / PAGE_SIZE + i;
    ModShift(base / PAGE_SIZE, i);
  }

  lemma ModShift(a: nat, i: nat)
    requires i < PAGES
    ensures (a + i) % PAGES == if a % PAGES + i < PAGES then a % PAGES + i else a % PAGES + i - PAGES
  {
  }

  // ----- the tree -----

  /** Which page holds the table at each path prefix. */
  type Tables = map<seq<nat>, nat>

  ghost predicate Linked(mem: seq<Table>, t: Tables, p: seq<nat>, i: nat)
    requires p in t && t[p] < |mem| && i < 512
  {
    var e := mem[t[p]][i];
    && (Present(e) <==> p + [i] in t)
    && (p + [i] in t ==> e == LinkEntry(t[p + [i]]) && PageOf(e) == t[p + [i]])
  }

  /** Entries of the upper three levels that are present are exactly the links to the tables, every
      table but the root has its parent, and no page is two tables. */
  ghost predicate Tree(mem: seq<Table>, t: Tables) {
    && [] in t && |mem| <= FRAMES
    && (forall p :: p in t ==> |p| <= 3 && t[p] < |mem|)
    && (forall p, q :: p in t && q in t && t[p] == t[q] ==> p == q)
    && (forall p, i :: p in t && |p| < 3 && 0 <= i < 512 ==> Linked(mem, t, p, i))
    && (forall p :: p in t && p != [] ==> p[..|p| - 1] in t && p[|p| - 1] < 512)
  }

  lemma Prefixes(v: seq<nat>)
    requires |v| == 4
    ensures v[..0] == [] && v[..1] != v[..2] && v[..2] != v[..3] && v[..1] != v[..3]
    ensures v[..1] != [] && v[..2] != [] && v[..3] != []
  {
    assert |v[..1]| == 1 && |v[..2]| == 2 && |v[..3]| == 3;
  }

  /** A table's parents are tables. */
  lemma Closed(mem: seq<Table>, t: Tables, v: seq<nat>)
    requires Tree(mem, t) && |v| == 4
    ensures [] in t
    ensures v[..3] in t ==> v[..2] in t && t[v[..3]] < |mem|
    ensures v[..2] in t ==> v[..1] in t
  {
    assert v[..3][..2] == v[..2] && v[..2][..1] == v[..1];
  }

  /** The last-level entry an address's path ends in; 0 when a table on the way is missing. */
  ghost function Leaf(mem: seq<Table>, t: Tables, path: seq<nat>): nat
    requires Tree(mem, t) && |path| == 4 && path[3] < 512
  {
    var p := path[..3];
    if p in t then mem[t[p]][path[3]] else 0
  }

  predicate IsPath(path: seq<nat>) {
    |path| == 4 && path[3] < 512
  }

  lemma NoLeaf(mem: seq<Table>, t: Tables, path: seq<nat>)
    requires Tree(mem, t) && IsPath(path) && path[..3] !in t
    ensures Leaf(mem, t, path) == 0
  {
  }

  ghost predicate SameLeaves(mem: seq<Table>, t: Tables, mem': seq<Table>, t': Tables) {
    && Tree(mem, t) && Tree(mem', t')
    && forall path :: IsPath(path) ==> Leaf(mem', t', path) == Leaf(mem, t, path)
  }

  lemma SameLeavesTrans(m0: seq<Table>, t0: Tables, m1: seq<Table>, t1: Tables, m2: seq<Table>, t2: Tables)
    requires SameLeaves(m0, t0, m1, t1) && SameLeaves(m1, t1, m2, t2)
    ensures SameLeaves(m0, t0, m2, t2)
  {
    hide Tree, Leaf;
    forall path | IsPath(path) ensures Leaf(m2, t2, path) == Leaf(m0, t0, path) {
      assert Leaf(m1, t1, path) == Leaf(m0, t0, path);
    }
  }

  /** Hanging an empty table under a missing entry keeps the tree and translates nothing new. */
  lemma Grow(mem: seq<Table>, t: Tables, p: seq<nat>, i: nat, n: nat)
    requires Tree(mem, t) && p in t && |p| < 3 && i < 512 && !Present(mem[t[p]][i])
    requires n < |mem| && forall q :: q in t ==> t[q] != n
    ensures var m1 := mem[n := EMPTY];
            var m2 := m1[t[p] := m1[t[p]][i := LinkEntry(n)]];
            Tree(m2, t[p + [i] := n]) && SameLeaves(mem, t, m2, t[p + [i] := n])
  {
    var m1 := mem[n := EMPTY];
    var m2 := m1[t[p] := m1[t[p]][i := LinkEntry(n)]];
    var t' := t[p + [i] := n];
    LinkNames(n);
    assert Linked(mem, t, p, i);
    GrowTree(mem, t, p, i, n, m2, t');
    hide Tree, Linked;
    forall path | IsPath(path) ensures Leaf(m2, t', path) == Leaf(mem, t, path) {
      GrowLeaf(mem, t, p, i, n, m2, t', path);
    }
  }

  lemma GrowTree(mem: seq<Table>, t: Tables, p: seq<nat>, i: nat, n: nat, m2: seq<Table>, t': Tables)
    requires Tree(mem, t) && p in t && |p| < 3 && i < 512 && !Present(mem[t[p]][i])
    requires n < |mem| && forall q :: q in t ==> t[q] != n
    requires m2 == mem[n := EMPTY][t[p] := mem[t[p]][i := LinkEntry(n)]] && t' == t[p + [i] := n]
    requires p + [i] !in t && Present(LinkEntry(n)) && PageOf(LinkEntry(n)) == n
    ensures Tree(m2, t')
  {
    assert (p + [i])[..|p|] == p;
    forall q, j | q in t' && |q| < 3 && 0 <= j < 512 ensures Linked(m2, t', q, j) {
      if q == p + [i] {
        assert (q + [j])[..|q|] == q;
        assert q + [j] !in t;
        assert q + [j] != q;
        assert EMPTY[j] == 0;
      } else {
        assert Linked(mem, t, q, j);
        if q + [j] == p + [i] {
          assert (q + [j])[..|q|] == q && (q + [j])[|q|] == j;
          assert |q| == |p| && q == (p + [i])[..|p|];
        }
      }
    }
  }

  lemma GrowLeaf(mem: seq<Table>, t: Tables, p: seq<nat>, i: nat, n: nat, m2: seq<Table>, t': Tables, path: seq<nat>)
    requires Tree(mem, t) && p in t && |p| < 3 && i < 512 && n < |mem| && t[p] < |mem|
    requires forall q :: q in t ==> t[q] != n
    requires m2 == mem[n := EMPTY][t[p] := mem[t[p]][i := LinkEntry(n)]] && t' == t[p + [i] := n] && p + [i] !in t
    requires Tree(m2, t') && IsPath(path)
    ensures Leaf(m2, t', path) == Leaf(mem, t, path)
  {
    var q := path[..3];
    if q in t {
      assert t[q] == t[p] ==> q == p;
    }
  }

  /** Writing a last-level entry changes that entry and nothing else. */
  lemma Store(mem: seq<Table>, t: Tables, path: seq<nat>, e: nat)
    requires Tree(mem, t) && IsPath(path) && path[..3] in t
    ensures var page := t[path[..3]];
            var mem' := mem[page := mem[page][path[3] := e]];
            && Tree(mem', t) && Leaf(mem', t, path) == e
            && forall other :: IsPath(other) && other != path ==> Leaf(mem', t, other) == Leaf(mem, t, other)
  {
    var page := t[path[..3]];
    var mem' := mem[page := mem[page][path[3] := e]];
    forall p, i | p in t && |p| < 3 && 0 <= i < 512 ensures Linked(mem', t, p, i) {
      assert Linked(mem, t, p, i);
      assert p != path[..3];
    }
    assert Tree(mem', t);
    forall other | IsPath(other) && other != path ensures Leaf(mem', t, other) == Leaf(mem, t, other) {
      var q := other[..3];
      if q in t && t[q] == page {
        assert q == path[..3] && other == q + [other[3]] && path == q + [path[3]];
      }
    }
  }

  /** One empty table is a tree that translates nothing. */
  lemma OneTable(mem: seq<Table>, root: nat)
    requires root < |mem| <= FRAMES && mem[root] == EMPTY
    ensures Tree(mem, map[[] := root]) && forall path :: IsPath(path) ==> Leaf(mem, map[[] := root], path) == 0
  {
    var t: Tables := map[[] := root];
    forall i | 0 <= i < 512 ensures Linked(mem, t, [], i) {
      assert [] + [i] != [];
    }
  }
}

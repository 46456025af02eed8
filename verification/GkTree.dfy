/** A pool that holds a tree is one: each slot is reached from the root in exactly one way. */
module GkTree {
  import opened Options
  import opened GkSyntax

  /** Where a path of child numbers leads. */
  function Leads(nodes: seq<Node>, idx: nat, path: seq<nat>): (r: Option<nat>)
    decreases |path|
  {
    if path == [] then Some(idx)
    else if idx < |nodes| && path[0] < |nodes[idx].child| then Leads(nodes, nodes[idx].child[path[0]], path[1..])
    else None
  }

  ghost predicate Reached(nodes: seq<Node>, root: nat, i: nat) {
    exists p :: Leads(nodes, root, p) == Some(i)
  }

  /** Every slot has a path from the root and no slot has two; paths leave no slot. */
  ghost predicate IsTree(nodes: seq<Node>, root: nat) {
    && (forall i :: 0 <= i < |nodes| ==> Reached(nodes, root, i))
    && (forall p, q :: Leads(nodes, root, p).Some? && Leads(nodes, root, p) == Leads(nodes, root, q) ==> p == q)
    && (forall p :: Leads(nodes, root, p).Some? ==> Leads(nodes, root, p).value < |nodes|)
  }

  // ----- a represented tree has these paths -----

  /** The k-th child's own stretch of slots. */
  lemma {:induction false} ChildRep(nodes: seq<Node>, child: seq<nat>, ts: seq<Tree>, lo: nat, k: nat)
    requires RepAll(nodes, child, ts, lo) && k < |ts|
    ensures |child| == |ts| && Rep(nodes, child[k], ts[k], lo + SizeAll(ts[..k]))
    ensures SizeAll(ts[..k]) + Size(ts[k]) <= SizeAll(ts)
    decreases |ts|
  {
    var n := |ts| - 1;
    if k < n {
      assert ts[..n][..k] == ts[..k] && child[..n][k] == child[k];
      ChildRep(nodes, child[..n], ts[..n], lo, k);
    }
  }

  lemma {:induction false} SizeAllMono(ts: seq<Tree>, k: nat, m: nat)
    requires k < m <= |ts|
    ensures SizeAll(ts[..k]) + Size(ts[k]) <= SizeAll(ts[..m])
    decreases m
  {
    assert ts[..m][..m - 1] == ts[..m - 1];
    if k < m - 1 {
      SizeAllMono(ts, k, m - 1);
    }
  }

  /** Which child's stretch a slot is in. */
  lemma {:induction false} FindChild(ts: seq<Tree>, off: nat) returns (k: nat)
    requires off < SizeAll(ts)
    ensures k < |ts| && SizeAll(ts[..k]) <= off < SizeAll(ts[..k]) + Size(ts[k])
  {
    var n := |ts| - 1;
    if off >= SizeAll(ts[..n]) {
      k := n;
    } else {
      k := FindChild(ts[..n], off);
      assert ts[..n][..k] == ts[..k];
    }
  }

  /** Where the children's slots start. */
  function Below(idx: int, lo: nat): nat {
    if idx == lo then lo + 1 else lo
  }

  lemma RootRep(nodes: seq<Node>, idx: int, t: Tree, lo: nat)
    requires Rep(nodes, idx, t, lo)
    ensures 0 <= idx < |nodes| && (idx == lo || idx == lo + Size(t) - 1) && Size(t) == 1 + SizeAll(t.kids)
    ensures |nodes[idx].child| == |t.kids| && RepAll(nodes, nodes[idx].child, t.kids, Below(idx, lo))
    ensures lo + Size(t) <= |nodes|
  {
  }

  lemma {:induction false} PathStays(nodes: seq<Node>, idx: nat, t: Tree, lo: nat, p: seq<nat>)
    requires Rep(nodes, idx, t, lo) && Leads(nodes, idx, p).Some?
    ensures lo <= Leads(nodes, idx, p).value < lo + Size(t)
    ensures p != [] ==>
            p[0] < |t.kids|
            && Rep(nodes, nodes[idx].child[p[0]], t.kids[p[0]], Below(idx, lo) + SizeAll(t.kids[..p[0]]))
    ensures p != [] ==> 0 <= Leads(nodes, idx, p).value - Below(idx, lo) - SizeAll(t.kids[..p[0]]) < Size(t.kids[p[0]])
    ensures p != [] ==> Leads(nodes, idx, p).value != idx
    decreases |p|
  {
    hide Rep, RepAll, Size, SizeAll;
    RootRep(nodes, idx, t, lo);
    if p != [] {
      var k := p[0];
      ChildRep(nodes, nodes[idx].child, t.kids, Below(idx, lo), k);
      PathStays(nodes, nodes[idx].child[k], t.kids[k], Below(idx, lo) + SizeAll(t.kids[..k]), p[1..]);
    }
  }

  lemma {:induction false} PathTo(nodes: seq<Node>, idx: nat, t: Tree, lo: nat, i: nat) returns (p: seq<nat>)
    requires Rep(nodes, idx, t, lo) && lo <= i < lo + Size(t)
    ensures Leads(nodes, idx, p) == Some(i)
    decreases Size(t)
  {
    hide Rep, RepAll, Size, SizeAll;
    RootRep(nodes, idx, t, lo);
    if i == idx {
      p := [];
    } else {
      var k := FindChild(t.kids, i - Below(idx, lo));
      ChildRep(nodes, nodes[idx].child, t.kids, Below(idx, lo), k);
      var q := PathTo(nodes, nodes[idx].child[k], t.kids[k], Below(idx, lo) + SizeAll(t.kids[..k]), i);
      p := [k] + q;
      assert p[1..] == q;
    }
  }

  lemma {:induction false} OnePath(nodes: seq<Node>, idx: nat, t: Tree, lo: nat, p: seq<nat>, q: seq<nat>)
    requires Rep(nodes, idx, t, lo)
    requires Leads(nodes, idx, p).Some? && Leads(nodes, idx, p) == Leads(nodes, idx, q)
    ensures p == q
    decreases |p|
  {
    hide Rep, RepAll, Size, SizeAll;
    PathStays(nodes, idx, t, lo, p);
    PathStays(nodes, idx, t, lo, q);
    if p != [] && q != [] {
      if p[0] < q[0] {
        SizeAllMono(t.kids, p[0], q[0]);
        assert false;
      } else if q[0] < p[0] {
        SizeAllMono(t.kids, q[0], p[0]);
        assert false;
      } else {
        OnePath(nodes, nodes[idx].child[p[0]], t.kids[p[0]], Below(idx, lo) + SizeAll(t.kids[..p[0]]), p[1..], q[1..]);
        assert p == [p[0]] + p[1..] && q == [q[0]] + q[1..];
      }
    }
  }

  /** A pool filled by one tree is a tree from that tree's root. */
  lemma PoolIsTree(nodes: seq<Node>, root: nat, t: Tree)
    requires Rep(nodes, root, t, 0) && |nodes| == Size(t)
    ensures IsTree(nodes, root)
  {
    hide Rep, Size;
    forall i | 0 <= i < |nodes| ensures Reached(nodes, root, i) {
      var p := PathTo(nodes, root, t, 0, i);
    }
    forall p, q | Leads(nodes, root, p).Some? && Leads(nodes, root, p) == Leads(nodes, root, q) ensures p == q {
      OnePath(nodes, root, t, 0, p, q);
    }
    forall p | Leads(nodes, root, p).Some? ensures Leads(nodes, root, p).value < |nodes| {
      PathStays(nodes, root, t, 0, p);
    }
  }

  // ----- what that means for single nodes -----

  lemma {:induction false} LeadsOn(nodes: seq<Node>, idx: nat, p: seq<nat>, q: seq<nat>)
    requires Leads(nodes, idx, p).Some?
    ensures Leads(nodes, idx, p + q) == Leads(nodes, Leads(nodes, idx, p).value, q)
    decreases |p|
  {
    if p == [] {
      assert p + q == q;
    } else {
      assert (p + q)[1..] == p[1..] + q;
      LeadsOn(nodes, nodes[idx].child[p[0]], p[1..], q);
    }
  }

  /** Every child link leads to an allocated node, no node has two parents or hangs twice below one,
      and nothing hangs above the root. */
  lemma UniqueParent(nodes: seq<Node>, root: nat, a: nat, j: nat, b: nat, k: nat)
    requires IsTree(nodes, root) && a < |nodes| && b < |nodes| && j < |nodes[a].child| && k < |nodes[b].child|
    ensures nodes[a].child[j] < |nodes| && nodes[a].child[j] != root
    ensures nodes[a].child[j] == nodes[b].child[k] ==> a == b && j == k
  {
    assert Reached(nodes, root, a) && Reached(nodes, root, b);
    var p :| Leads(nodes, root, p) == Some(a);
    var q :| Leads(nodes, root, q) == Some(b);
    Step(nodes, root, p, a, j);
    Step(nodes, root, q, b, k);
    assert Leads(nodes, root, []) == Some(root);
    if nodes[a].child[j] == nodes[b].child[k] {
      assert p + [j] == q + [k];
      assert (p + [j])[..|p|] == p && (q + [k])[..|q|] == q && (p + [j])[|p|] == j;
    }
  }

  lemma Step(nodes: seq<Node>, root: nat, p: seq<nat>, a: nat, j: nat)
    requires Leads(nodes, root, p) == Some(a) && a < |nodes| && j < |nodes[a].child|
    ensures Leads(nodes, root, p + [j]) == Some(nodes[a].child[j])
  {
    LeadsOn(nodes, root, p, [j]);
    assert [j][1..] == [];
    assert Leads(nodes, nodes[a].child[j], []) == Some(nodes[a].child[j]);
  }

  /** No node is its own descendant. */
  lemma NoCycle(nodes: seq<Node>, root: nat, i: nat, p: seq<nat>)
    requires IsTree(nodes, root) && i < |nodes| && Leads(nodes, i, p) == Some(i)
    ensures p == []
  {
    assert Reached(nodes, root, i);
    var q :| Leads(nodes, root, q) == Some(i);
    LeadsOn(nodes, root, q, p);
    assert q + p == q;
  }
}

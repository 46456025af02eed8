/** Trees in the node pool: what a parsing function leaves behind the slots already in use. */
module GkPool {
  import opened Options
  import opened GkSyntax
  import opened GkGrammar

  /** The outcome of one parsing function started on the pool `before`: the node index of the tree
      the grammar gives, held by the slots behind `before`, or -1 when there is no such tree or no
      room for it. */
  ghost predicate Built(before: seq<Node>, after: seq<Node>, r: int, want: Parse<Tree>, pos: nat, failed: bool) {
    if r >= 0 then
      && !failed && want.Some? && pos == want.value.1 && |after| <= MAX_NODES
      && Holds(before, after, r, want.value.0)
    else
      && failed && (want.None? || |before| + Size(want.value.0) > MAX_NODES)
  }

  ghost predicate Holds(before: seq<Node>, after: seq<Node>, r: int, t: Tree) {
    before <= after && |after| == |before| + Size(t) && Rep(after, r, t, |before|)
  }

  /** A node under construction in the first slot behind `before`, its children so far behind it. */
  ghost predicate Grown(before: seq<Node>, nodes: seq<Node>, kind: Kind, name: string, child: seq<nat>,
                        done: seq<Tree>) {
    var n := |before|;
    && |nodes| == n + 1 + SizeAll(done) && before <= nodes
    && nodes[n].(child := []) == Node(kind, 0, name, EOF, [])
    && RepAll(nodes, child, done, n + 1)
  }

  lemma GrownStart(before: seq<Node>, kind: Kind, name: string)
    ensures Grown(before, before + [Node(kind, 0, name, EOF, [])], kind, name, [], [])
  {
  }

  lemma GrownAdd(before: seq<Node>, nodes: seq<Node>, nodes': seq<Node>, kind: Kind, name: string,
                 child: seq<nat>, done: seq<Tree>, idx: nat, t: Tree)
    requires Grown(before, nodes, kind, name, child, done) && Holds(nodes, nodes', idx, t)
    ensures Grown(before, nodes', kind, name, child + [idx], done + [t])
    ensures |before| < |nodes| <= |nodes'| && nodes'[|before|] == nodes[|before|]
  {
    hide Rep;
    RepAllFrame(nodes, nodes', child, done, |before| + 1);
    RepAllSnoc(nodes', child, done, |before| + 1, idx, t);
    SizeAllSnoc(done, t);
  }

  lemma GrownLink(before: seq<Node>, nodes: seq<Node>, kind: Kind, name: string, child: seq<nat>, done: seq<Tree>)
    requires Grown(before, nodes, kind, name, child, done)
    ensures var n := |before|;
            n < |nodes| && Grown(before, nodes[n := nodes[n].(child := child)], kind, name, child, done)
  {
    var n := |before|;
    RepAllFrame(nodes, nodes[n := nodes[n].(child := child)], child, done, n + 1);
  }

  /** Two children built one after the other and then linked. */
  lemma GrownPair(before: seq<Node>, m0: seq<Node>, m1: seq<Node>, nodes: seq<Node>, kind: Kind, name: string,
                  a: nat, at: Tree, b: nat, bt: Tree)
    requires Grown(before, m0, kind, name, [], []) && Holds(m0, m1, a, at) && Holds(m1, nodes, b, bt)
    ensures var n := |before|;
            && n < |nodes| && Grown(before, nodes[n := nodes[n].(child := [a, b])], kind, name, [a, b], [at, bt])
            && nodes[n := nodes[n].(child := [a, b])][n].child == [a, b]
  {
    hide Grown, Holds;
    assert [] + [a] == [a] && [] + [at] == [at] && [a] + [b] == [a, b] && [at] + [bt] == [at, bt];
    GrownAdd(before, m0, m1, kind, name, [], [], a, at);
    GrownAdd(before, m1, nodes, kind, name, [a], [at], b, bt);
    GrownLink(before, nodes, kind, name, [a, b], [at, bt]);
  }

  lemma GrownTree(before: seq<Node>, nodes: seq<Node>, kind: Kind, name: string, child: seq<nat>, done: seq<Tree>)
    requires Grown(before, nodes, kind, name, child, done) && nodes[|before|].child == child
    ensures Holds(before, nodes, |before|, Tree(kind, 0, name, EOF, done))
  {
    hide RepAll;
  }

  /** A tree built root first can be given more children. */
  lemma HoldsGrown(before: seq<Node>, nodes: seq<Node>, kind: Kind, name: string, done: seq<Tree>)
    requires Holds(before, nodes, |before|, Tree(kind, 0, name, EOF, done))
    ensures |before| < |nodes| && Grown(before, nodes, kind, name, nodes[|before|].child, done)
  {
    hide RepAll;
  }

  lemma GrownSize(before: seq<Node>, nodes: seq<Node>, kind: Kind, name: string, child: seq<nat>, done: seq<Tree>)
    requires Grown(before, nodes, kind, name, child, done)
    ensures |nodes| == |before| + 1 + SizeAll(done)
  {
  }

  lemma GrownCount(before: seq<Node>, nodes: seq<Node>, kind: Kind, name: string, child: seq<nat>, done: seq<Tree>)
    requires Grown(before, nodes, kind, name, child, done)
    ensures |child| == |done|
  {
  }

  lemma HoldsSize(before: seq<Node>, nodes: seq<Node>, r: int, t: Tree)
    requires Holds(before, nodes, r, t)
    ensures |nodes| == |before| + Size(t)
  {
  }

  /** An operator node is put behind its operands. */
  lemma UnopHolds(before: seq<Node>, nodes: seq<Node>, op: Token, idx: nat, t: Tree)
    requires Holds(before, nodes, idx, t)
    ensures Holds(before, nodes + [Node(NUnop, 0, "", op, [idx])], |nodes|, UnopTree(op, t))
  {
    var nodes' := nodes + [Node(NUnop, 0, "", op, [idx])];
    SizeAllSnoc([], t);
    assert [] + [t] == [t] && [] + [idx] == [idx];
    RepFrame(nodes, nodes', idx, t, |before|);
    RepAllSnoc(nodes', [], [], |before|, idx, t);
  }

  lemma BinopHolds(before: seq<Node>, mid: seq<Node>, nodes: seq<Node>, op: Token, l: nat, lt: Tree, r: nat, rt: Tree)
    requires Holds(before, mid, l, lt) && Holds(mid, nodes, r, rt)
    ensures Holds(before, nodes + [Node(NBinop, 0, "", op, [l, r])], |nodes|, BinopTree(op, lt, rt))
  {
    hide Rep;
    var nodes' := nodes + [Node(NBinop, 0, "", op, [l, r])];
    RepFrame(mid, nodes', l, lt, |before|);
    RepFrame(nodes, nodes', r, rt, |mid|);
    PairHolds(nodes', |before|, l, lt, r, rt);
    OpRoot(nodes', |before|, op, [l, r], [lt, rt]);
    SizePair(lt, rt);
  }

  lemma PairHolds(nodes: seq<Node>, lo: nat, l: nat, lt: Tree, r: nat, rt: Tree)
    requires Rep(nodes, l, lt, lo) && Rep(nodes, r, rt, lo + Size(lt))
    ensures RepAll(nodes, [l, r], [lt, rt], lo)
  {
    hide Rep;
    SizeAllSnoc([], lt);
    assert [] + [lt] == [lt] && [lt] + [rt] == [lt, rt] && [] + [l] == [l] && [l] + [r] == [l, r];
    RepAllSnoc(nodes, [], [], lo, l, lt);
    RepAllSnoc(nodes, [l], [lt], lo, r, rt);
  }

  lemma OpRoot(nodes: seq<Node>, lo: nat, op: Token, child: seq<nat>, ts: seq<Tree>)
    requires |nodes| == lo + SizeAll(ts) + 1 && nodes[|nodes| - 1] == Node(NBinop, 0, "", op, child)
    requires ts != [] && RepAll(nodes, child, ts, lo)
    ensures Rep(nodes, |nodes| - 1, Tree(NBinop, 0, "", op, ts), lo)
  {
    hide RepAll;
    assert SizeAll(ts) >= 1;
  }
}

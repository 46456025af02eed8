/** Tokens, syntax-tree nodes, and the trees a node pool stands for. */
module GkSyntax {

  datatype Token =
    | INT(value: int) | STR(text: string) | IDENT(name: string)
    | PLUS | MINUS | STAR | SLASH | PERCENT
    | EQ | NEQ | LT | LE | GT | GE
    | AND | OR | NOT
    | ASSIGN
    | LPAREN | RPAREN | COMMA | COLON
    | IF | ELIF | ELSE | WHILE | FOR | IN | DEF | RETURN | BREAK | CONTINUE | TRUE | FALSE
    | NEWLINE | INDENT | DEDENT | EOF

  datatype Kind =
    | NInt | NStr | NBool | NVar | NAssign | NBinop | NUnop | NCall | NIf | NWhile | NFor | NDef
    | NReturn | NBreak | NContinue | NBlock | NPrint | NRange | NInput | NIntCast

  const MAX_NODES: nat := 2048
  const MAX_CHILDREN: nat := 64
  const MAX_TEXT: nat := 255   // characters of a string, its end mark not counted

  const MIN_INT: int := -0x8000_0000
  const MAX_INT: int := 0x7FFF_FFFF

  /** What fits into 32 bits. */
  predicate InInt(n: int) {
    MIN_INT <= n <= MAX_INT
  }

  type Int32 = n: int | InInt(n)

  /** A slot of the node pool; `child` holds indices of other slots. */
  datatype Node = Node(kind: Kind, intVal: int, strVal: string, op: Token, child: seq<nat>)

  datatype Tree = Tree(kind: Kind, intVal: int, strVal: string, op: Token, kids: seq<Tree>)

  function Leaf(kind: Kind): Node {
    Node(kind, 0, "", EOF, [])
  }

  // ----- sizes -----

  function Size(t: Tree): (n: nat)
    ensures n >= 1
    decreases t
  {
    1 + SizeAll(t.kids)
  }

  function SizeAll(ts: seq<Tree>): nat
    decreases ts
  {
    if ts == [] then 0 else SizeAll(ts[..|ts| - 1]) + Size(ts[|ts| - 1])
  }

  lemma SizeAllSnoc(ts: seq<Tree>, t: Tree)
    ensures SizeAll(ts + [t]) == SizeAll(ts) + Size(t)
  {
    assert (ts + [t])[..|ts|] == ts;
  }

  // ----- which part of the pool holds a tree -----

  /** The node at `idx` is the root of `t`, and exactly the slots from `lo` on, as many as `t` has
      nodes, hold it: the root first or last, the children one after the other. */
  ghost predicate Rep(nodes: seq<Node>, idx: int, t: Tree, lo: nat)
    decreases t, 0
  {
    && lo + Size(t) <= |nodes|
    && (idx == lo || idx == lo + Size(t) - 1)
    && nodes[idx].kind == t.kind && nodes[idx].intVal == t.intVal
    && nodes[idx].strVal == t.strVal && nodes[idx].op == t.op
    && RepAll(nodes, nodes[idx].child, t.kids, if idx == lo then lo + 1 else lo)
  }

  ghost predicate RepAll(nodes: seq<Node>, child: seq<nat>, ts: seq<Tree>, lo: nat)
    decreases ts, 0
  {
    && |child| == |ts|
    && (ts != [] ==>
          var n := |ts| - 1;
          && RepAll(nodes, child[..n], ts[..n], lo)
          && Rep(nodes, child[n], ts[n], lo + SizeAll(ts[..n])))
  }

  lemma RepAllSnoc(nodes: seq<Node>, child: seq<nat>, ts: seq<Tree>, lo: nat, idx: nat, t: Tree)
    requires RepAll(nodes, child, ts, lo) && Rep(nodes, idx, t, lo + SizeAll(ts))
    ensures RepAll(nodes, child + [idx], ts + [t], lo)
  {
    assert (ts + [t])[..|ts|] == ts && (child + [idx])[..|ts|] == child;
  }

  /** A tree's slots are all that matters. */
  lemma {:induction false} RepFrame(nodes: seq<Node>, nodes': seq<Node>, idx: int, t: Tree, lo: nat)
    requires Rep(nodes, idx, t, lo) && lo + Size(t) <= |nodes'|
    requires forall i :: lo <= i < lo + Size(t) ==> nodes'[i] == nodes[i]
    ensures Rep(nodes', idx, t, lo)
    decreases t, 0
  {
    RepAllFrame(nodes, nodes', nodes[idx].child, t.kids, if idx == lo then lo + 1 else lo);
  }

  lemma {:induction false} RepAllFrame(nodes: seq<Node>, nodes': seq<Node>, child: seq<nat>, ts: seq<Tree>, lo: nat)
    requires RepAll(nodes, child, ts, lo) && lo + SizeAll(ts) <= |nodes'|
    requires forall i :: lo <= i < lo + SizeAll(ts) && i < |nodes| ==> nodes'[i] == nodes[i]
    ensures RepAll(nodes', child, ts, lo)
    decreases ts, 0
  {
    if ts != [] {
      var n := |ts| - 1;
      RepAllFrame(nodes, nodes', child[..n], ts[..n], lo);
      RepFrame(nodes, nodes', child[n], ts[n], lo + SizeAll(ts[..n]));
    }
  }
}

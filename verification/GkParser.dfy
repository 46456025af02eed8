/**
 The recursive-descent parser: it moves one position over the token array and fills one node pool,
 and each of its functions builds the tree the grammar gives, in the slots right behind those in use.
 */
module GkParser {
  import opened Options
  import opened GkSyntax
  import opened GkGrammar
  import opened GkPool
  import opened GkSteps
  import opened GkTree

  class Parser {
    const tokens: seq<Token>
    var pos: nat
    var nodes: seq<Node>
    var failed: bool   // the error text is not empty

    ghost predicate Ready()
      reads this
    {
      Ended(tokens) && DefsFit(tokens) && pos < |tokens| && !failed && |nodes| <= MAX_NODES
    }

    constructor (tokens: seq<Token>)
      requires Ended(tokens) && DefsFit(tokens)
      ensures this.tokens == tokens && Ready() && nodes == [] && pos == 0
    {
      this.tokens := tokens;
      pos, nodes, failed := 0, [], false;
    }

    method NewNode(node: Node) returns (r: int)
      requires Ready()
      modifies `nodes, `failed
      ensures r == -1 || r == |old(nodes)|
      ensures r < 0 <==> |old(nodes)| == MAX_NODES
      ensures r < 0 ==> failed
      ensures r >= 0 ==> Ready() && nodes == old(nodes) + [node]
    {
      if |nodes| >= MAX_NODES {
        failed := true;
        return -1;
      }
      r := |nodes|;
      nodes := nodes + [node];
    }

    /** `nodes[n].child[nodes[n].n_children++] = c`. */
    method Link(n: nat, c: nat, ghost before: seq<Node>, ghost mid: seq<Node>, ghost kind: Kind, ghost name: string,
                ghost done: seq<Tree>, ghost t: Tree)
      requires Ready() && n == |before| && n < |mid| && |done| < MAX_CHILDREN
      requires Grown(before, mid, kind, name, mid[n].child, done) && Holds(mid, nodes, c, t)
      modifies `nodes
      ensures Ready() && n < |nodes| && Grown(before, nodes, kind, name, nodes[n].child, done + [t])
    {
      hide Grown, Holds;
      GrownAdd(before, mid, nodes, kind, name, mid[n].child, done, c, t);
      GrownLink(before, nodes, kind, name, nodes[n].child + [c], done + [t]);
      nodes := nodes[n := nodes[n].(child := nodes[n].child + [c])];
    }

    /** The same, refused when the node is full. */
    method Attach(n: nat, c: nat, ghost before: seq<Node>, ghost mid: seq<Node>, ghost kind: Kind, ghost name: string,
                  ghost done: seq<Tree>, ghost t: Tree) returns (ok: bool)
      requires Ready() && n == |before| && n < |mid|
      requires Grown(before, mid, kind, name, mid[n].child, done) && Holds(mid, nodes, c, t)
      modifies `nodes, `failed
      ensures ok <==> |done| < MAX_CHILDREN
      ensures if ok then Ready() && n < |nodes| && Grown(before, nodes, kind, name, nodes[n].child, done + [t])
              else failed
    {
      hide Grown, Holds;
      GrownAdd(before, mid, nodes, kind, name, mid[n].child, done, c, t);
      GrownCount(before, nodes, kind, name, mid[n].child + [c], done + [t]);
      if |nodes[n].child| >= MAX_CHILDREN {
        failed := true;
        return false;
      }
      Link(n, c, before, mid, kind, name, done, t);
      ok := true;
    }

    method Advance()
      requires Ready()
      modifies `pos
      ensures Ready() && pos == if tokens[old(pos)] == EOF then old(pos) else old(pos) + 1
    {
      if tokens[pos] != EOF {
        pos := pos + 1;
      }
    }

    method Match(t: Token) returns (yes: bool)
      requires Ready() && t != EOF
      modifies `pos
      ensures Ready() && pos == Accept(tokens, old(pos), t) && yes == (tokens[old(pos)] == t)
    {
      yes := tokens[pos] == t;
      if yes {
        Advance();
      }
    }

    method Demand(t: Token) returns (yes: bool)
      requires Ready() && t != EOF
      modifies `pos, `failed
      ensures yes <==> Expect(tokens, old(pos), t) == Some(pos)
      ensures if yes then Ready() else failed && Expect(tokens, old(pos), t) == None
    {
      yes := Match(t);
      if !yes {
        failed := true;
      }
    }

    method SkipBlank()
      requires Ready()
      modifies `pos
      ensures Ready() && pos == SkipNewlines(tokens, old(pos))
    {
      while tokens[pos] == NEWLINE
        invariant Ready() && SkipNewlines(tokens, pos) == SkipNewlines(tokens, old(pos))
        decreases |tokens| - pos
      {
        Advance();
      }
    }

    // ----- expressions -----

    method Single(node: Node) returns (r: int)
      requires Ready() && node.child == []
      modifies `pos, `nodes, `failed
      requires tokens[pos] != EOF
      ensures Built(old(nodes), nodes, r,
              Some((Tree(node.kind, node.intVal, node.strVal, node.op, []), old(pos) + 1)), pos, failed)
    {
      Advance();
      r := NewNode(node);
    }

    method Primary() returns (r: int)
      requires Ready()
      modifies `pos, `nodes, `failed
      ensures Built(old(nodes), nodes, r, ParsePrimary(tokens, old(pos)), pos, failed)
      decreases |tokens| - pos, 0, 2
    {
      var t := tokens[pos];
      if t.INT? {
        r := Single(Leaf(NInt).(intVal := t.value));
      } else if t.STR? {
        r := Single(Leaf(NStr).(strVal := t.text));
      } else if t == TRUE || t == FALSE {
        r := Single(Leaf(NBool).(intVal := if t == TRUE then 1 else 0));
      } else if t.IDENT? {
        if tokens[pos + 1] == LPAREN {
          r := CallExpr();
        } else {
          r := Single(Leaf(NVar).(strVal := t.name));
        }
      } else if t == LPAREN {
        r := Parenthesised();
      } else {
        failed := true;
        r := -1;
      }
    }

    method Parenthesised() returns (r: int)
      requires Ready() && tokens[pos] == LPAREN
      modifies `pos, `nodes, `failed
      ensures Built(old(nodes), nodes, r, ParsePrimary(tokens, old(pos)), pos, failed)
      decreases |tokens| - pos, 0, 1
    {
      hide ParseLevel, Holds;
      Advance();
      r := Binary(1);
      if r < 0 { return; }
      var yes := Demand(RPAREN);
      if !yes { return -1; }
    }

    method CallExpr() returns (r: int)
      requires Ready() && tokens[pos].IDENT? && tokens[pos + 1] == LPAREN
      modifies `pos, `nodes, `failed
      ensures Built(old(nodes), nodes, r, ParsePrimary(tokens, old(pos)), pos, failed)
      decreases |tokens| - pos, 0, 1
    {
      hide ParseLevel, ParseArgs, ParsePrimary, Grown, Holds, Size, SizeAll, CallKind;
      var name := tokens[pos].name;
      PrimaryOfCall(tokens, pos);
      Advance();
      Advance();
      var n := NewNode(Node(CallKind(name), 0, name, EOF, []));
      if n < 0 { return -1; }
      GrownStart(old(nodes), CallKind(name), name);
      var ok, done := Arguments(n, old(nodes), CallKind(name), name);
      if !ok { return -1; }
      var yes := Demand(RPAREN);
      if !yes { return -1; }
      GrownTree(old(nodes), nodes, CallKind(name), name, nodes[n].child, done);
      GrownSize(old(nodes), nodes, CallKind(name), name, nodes[n].child, done);
      r := n;
    }

    /** What a loop that collects children of the node behind `before` leaves: all of them, or no room
        for them, or an error in one. */
    ghost predicate Collected(before: seq<Node>, kind: Kind, name: string, want: Parse<seq<Tree>>, ok: bool,
                              done: seq<Tree>)
      reads this
    {
      if ok then
        && Ready() && want == Some((done, pos)) && |before| < |nodes|
        && Grown(before, nodes, kind, name, nodes[|before|].child, done)
      else
        failed && (want.None? || |before| + 1 + SizeAll(want.value.0) > MAX_NODES)
    }

    /** An argument is parsed and attached, if it is one and the node has room for it. */
    method OneArgument(n: nat, ghost before: seq<Node>, ghost kind: Kind, ghost name: string, ghost done: seq<Tree>)
      returns (ok: bool, ghost t: Tree)
      requires Ready() && n == |before| < |nodes| && Grown(before, nodes, kind, name, nodes[n].child, done)
      modifies `pos, `nodes, `failed
      ensures var e := ParseLevel(tokens, 1, old(pos));
              if ok then
                && Ready() && e == Some((t, pos)) && |done| < MAX_CHILDREN
                && n < |nodes| && Grown(before, nodes, kind, name, nodes[n].child, done + [t])
              else
                failed && (e.None? || |done| >= MAX_CHILDREN
                    || |before| + 1 + SizeAll(done) + Size(e.value.0) > MAX_NODES)
      decreases |tokens| - pos, 7
    {
      hide ParseLevel, Grown, Holds, Size, SizeAll;
      ghost var mid, p := nodes, pos;
      GrownSize(before, nodes, kind, name, nodes[n].child, done);
      t := Tree(NBlock, 0, "", EOF, []);
      var arg := Binary(1);
      if arg < 0 { return false, t; }
      t := ParseLevel(tokens, 1, p).value.0;
      ok := Attach(n, arg, before, mid, kind, name, done, t);
    }

    method Arguments(n: nat, ghost before: seq<Node>, ghost kind: Kind, ghost name: string)
      returns (ok: bool, ghost done: seq<Tree>)
      requires Ready() && n == |before| < |nodes| && Grown(before, nodes, kind, name, nodes[n].child, [])
      modifies `pos, `nodes, `failed
      ensures Collected(before, kind, name, ParseArgs(tokens, old(pos), []), ok, done)
      decreases |tokens| - pos, 8
    {
      hide ParseLevel, ParseArgs, Grown, Holds, Size, SizeAll;
      done := [];
      while tokens[pos] != RPAREN && tokens[pos] != EOF
        invariant Ready() && old(pos) <= pos && n < |nodes|
        invariant Grown(before, nodes, kind, name, nodes[n].child, done)
        invariant ParseArgs(tokens, pos, done) == ParseArgs(tokens, old(pos), [])
        decreases |tokens| - pos
      {
        ArgsStep(tokens, pos, done);
        ghost var t;
        ok, t := OneArgument(n, before, kind, name, done);
        if !ok { return; }
        done := done + [t];
        var more := Match(COMMA);
        if !more { return true, done; }
      }
      ArgsStop(tokens, pos, done);
      ok := true;
    }

    method Unary() returns (r: int)
      requires Ready()
      modifies `pos, `nodes, `failed
      ensures Built(old(nodes), nodes, r, ParseLevel(tokens, UNARY_LEVEL, old(pos)), pos, failed)
      decreases |tokens| - pos, 1
    {
      hide ParseLevel, ParsePrimary, Holds, Size, SizeAll, UnopTree;
      LevelOfUnary(tokens, pos);
      if tokens[pos] == MINUS || tokens[pos] == NOT {
        var op := tokens[pos];
        Advance();
        ghost var e := ParseLevel(tokens, 6, pos);
        if e.Some? { UnopSize(op, e.value.0); }
        var operand := Unary();
        if operand < 0 { return -1; }
        UnopHolds(old(nodes), nodes, op, operand, e.value.0);
        HoldsSize(old(nodes), nodes, operand, e.value.0);
        r := NewNode(Node(NUnop, 0, "", op, [operand]));
      } else {
        r := Primary();
      }
    }

    /** parse_mul (5), parse_add (4), parse_cmp (3), parse_and (2), parse_or (1): the same loop over
        the operators of a level. */
    method Binary(l: nat) returns (r: int)
      requires Ready() && 1 <= l <= 5
      modifies `pos, `nodes, `failed
      ensures Built(old(nodes), nodes, r, ParseLevel(tokens, l, old(pos)), pos, failed)
      decreases |tokens| - pos, 7 - l
    {
      hide ParseLevel, ParseTail, Holds, OpLevel;
      LevelOfBinary(tokens, l, pos);
      ghost var e := ParseLevel(tokens, l + 1, pos);
      if l == 5 {
        r := Unary();
      } else {
        r := Binary(l + 1);
      }
      if r < 0 { return; }
      ghost var left := e.value.0;
      while OpLevel(tokens[pos]) == l
        invariant Ready() && old(pos) < pos && r >= 0
        invariant Holds(old(nodes), nodes, r, left)
        invariant ParseTail(tokens, l, left, pos) == ParseLevel(tokens, l, old(pos))
        decreases |tokens| - pos
      {
        var op := tokens[pos];
        ghost var mid := nodes;
        TailStep(tokens, l, left, pos);
        HoldsSize(old(nodes), nodes, r, left);
        Advance();
        ghost var e := ParseLevel(tokens, l + 1, pos);
        var right: int;
        if l == 5 {
          right := Unary();
        } else {
          right := Binary(l + 1);
        }
        if right < 0 { return -1; }
        BinopHolds(old(nodes), mid, nodes, op, r, left, right, e.value.0);
        HoldsSize(mid, nodes, right, e.value.0);
        var n := NewNode(Node(NBinop, 0, "", op, [r, right]));
        if n < 0 { return -1; }
        left, r := BinopTree(op, left, e.value.0), n;
      }
      TailStep(tokens, l, left, pos);
    }

    // ----- statements -----

    /** The statement loop of parse_block (to DEDENT) and of gk_parse (to EOF). */
    method Statements(n: nat, end: Token, ghost before: seq<Node>) returns (ok: bool, ghost done: seq<Tree>)
      requires Ready() && n == |before| < |nodes| && Grown(before, nodes, NBlock, "", nodes[n].child, [])
      modifies `pos, `nodes, `failed
      ensures Collected(before, NBlock, "", ParseStmts(tokens, SkipNewlines(tokens, old(pos)), end, []), ok, done)
      decreases |tokens| - pos, 11
    {
      hide ParseStmt, ParseStmts, SkipNewlines, Grown, Holds, Size, SizeAll;
      done := [];
      SkipBlank();
      while tokens[pos] != end && tokens[pos] != EOF
        invariant Ready() && old(pos) <= pos && n < |nodes|
        invariant Grown(before, nodes, NBlock, "", nodes[n].child, done)
        invariant ParseStmts(tokens, pos, end, done) == ParseStmts(tokens, SkipNewlines(tokens, old(pos)), end, [])
        decreases |tokens| - pos
      {
        ghost var mid, p := nodes, pos;
        StmtsStep(tokens, pos, end, done);
        GrownSize(before, nodes, NBlock, "", nodes[n].child, done);
        var st := Stmt();
        if st < 0 { return false, done; }
        ghost var t := ParseStmt(tokens, p).value.0;
        ok := Attach(n, st, before, mid, NBlock, "", done, t);
        if !ok { return; }
        done := done + [t];
        SkipBlank();
      }
      StmtsStop(tokens, pos, end, done);
      ok := true;
    }

    method Block() returns (r: int)
      requires Ready()
      modifies `pos, `nodes, `failed
      ensures Built(old(nodes), nodes, r, ParseBlock(tokens, old(pos)), pos, failed)
      decreases |tokens| - pos, 8
    {
      hide ParseBlock, ParseStmts, SkipNewlines, Grown, Holds, Size, SizeAll;
      BlockStep(tokens, pos);
      var yes := Demand(INDENT);
      if !yes { return -1; }
      var n := NewNode(Leaf(NBlock));
      if n < 0 { return -1; }
      GrownStart(old(nodes), NBlock, "");
      var ok, done := Statements(n, DEDENT, old(nodes));
      if !ok { return -1; }
      var _ := Match(DEDENT);
      GrownTree(old(nodes), nodes, NBlock, "", nodes[n].child, done);
      r := n;
    }

    /** What ends a compound statement's header, then its block. */
    method Suite() returns (r: int)
      requires Ready()
      modifies `pos, `nodes, `failed
      ensures Built(old(nodes), nodes, r, ParseSuite(tokens, old(pos)), pos, failed)
      decreases |tokens| - pos, 9
    {
      hide ParseSuite, ParseBlock, Holds;
      SuiteStep(tokens, pos);
      var yes := Demand(COLON);
      if !yes { return -1; }
      var _ := Match(NEWLINE);
      r := Block();
    }

    method Stmt() returns (r: int)
      requires Ready()
      modifies `pos, `nodes, `failed
      ensures Built(old(nodes), nodes, r, ParseStmt(tokens, old(pos)), pos, failed)
      decreases |tokens| - pos, 10
    {
      hide ParseDef, ParseIf, ParseLoop, ParseLine, ParseLevel, Holds;
      var t := tokens[pos];
      if t == RETURN {
        Advance();
        if tokens[pos] == NEWLINE || tokens[pos] == EOF {
          r := Word(NReturn);
        } else {
          r := Line(NReturn, "");
        }
      } else if t == BREAK {
        Advance();
        r := Word(NBreak);
      } else if t == CONTINUE {
        Advance();
        r := Word(NContinue);
      } else if t == DEF {
        r := Def();
      } else if t == IF || t == ELIF {
        r := If();
      } else if t == WHILE {
        Advance();
        r := Loop(NWhile, "");
      } else if t == FOR {
        r := For();
      } else if t.IDENT? && tokens[pos + 1] == ASSIGN {
        Advance();
        Advance();
        r := Line(NAssign, t.name);
      } else {
        r := Binary(1);
        if r < 0 { return; }
        var _ := Match(NEWLINE);
      }
    }

    method For() returns (r: int)
      requires Ready() && tokens[pos] == FOR
      modifies `pos, `nodes, `failed
      ensures Built(old(nodes), nodes, r, ParseStmt(tokens, old(pos)), pos, failed)
      decreases |tokens| - pos, 9
    {
      hide ParseDef, ParseIf, ParseLoop, ParseLine, ParseLevel, Holds;
      Advance();
      if !tokens[pos].IDENT? {
        failed := true;
        return -1;
      }
      var name := tokens[pos].name;
      Advance();
      var yes := Demand(IN);
      if !yes { return -1; }
      r := Loop(NFor, name);
    }

    /** A statement of one keyword, already taken. */
    method Word(kind: Kind) returns (r: int)
      requires Ready()
      modifies `pos, `nodes, `failed
      ensures Built(old(nodes), nodes, r, Some((Tree(kind, 0, "", EOF, []), Accept(tokens, old(pos), NEWLINE))),
              pos, failed)
    {
      var _ := Match(NEWLINE);
      r := NewNode(Leaf(kind));
    }

    /** A return or an assignment from its expression on. */
    method Line(kind: Kind, name: string) returns (r: int)
      requires Ready()
      modifies `pos, `nodes, `failed
      ensures Built(old(nodes), nodes, r, ParseLine(tokens, old(pos), kind, name), pos, failed)
      decreases |tokens| - pos, 9
    {
      hide ParseLine, ParseLevel, Grown, Holds, Size, SizeAll;
      LineStep(tokens, pos, kind, name);
      ghost var e := ParseLevel(tokens, 1, pos);
      var n := NewNode(Node(kind, 0, name, EOF, []));
      if n < 0 { return -1; }
      ghost var mid := nodes;
      GrownStart(old(nodes), kind, name);
      var expr := Binary(1);
      if expr < 0 { return -1; }
      Link(n, expr, old(nodes), mid, kind, name, [], e.value.0);
      assert [] + [e.value.0] == [e.value.0];
      var _ := Match(NEWLINE);
      GrownTree(old(nodes), nodes, kind, name, nodes[n].child, [e.value.0]);
      r := n;
    }

    /** A while, a for or the first arm of an if, from its condition or range on. */
    method Loop(kind: Kind, name: string) returns (r: int)
      requires Ready()
      modifies `pos, `nodes, `failed
      ensures Built(old(nodes), nodes, r, ParseLoop(tokens, old(pos), kind, name), pos, failed)
      ensures r == -1 || r == |old(nodes)|
      decreases |tokens| - pos, 9
    {
      hide ParseLoop, ParseLevel, ParseSuite, Grown, Holds, Size, SizeAll;
      LoopStep(tokens, pos, kind, name);
      ghost var e := ParseLevel(tokens, 1, pos);
      var n := NewNode(Node(kind, 0, name, EOF, []));
      if n < 0 { return -1; }
      ghost var m0 := nodes;
      GrownStart(old(nodes), kind, name);
      var cond := Binary(1);
      if cond < 0 { return -1; }
      ghost var b := ParseSuite(tokens, pos);
      ghost var m1 := nodes;
      HoldsSize(m0, m1, cond, e.value.0);
      var body := Suite();
      if body < 0 { return -1; }
      GrownPair(old(nodes), m0, m1, nodes, kind, name, cond, e.value.0, body, b.value.0);
      nodes := nodes[n := nodes[n].(child := [cond, body])];
      GrownTree(old(nodes), nodes, kind, name, [cond, body], [e.value.0, b.value.0]);
      r := n;
    }

    method Def() returns (r: int)
      requires Ready() && tokens[pos] == DEF
      modifies `pos, `nodes, `failed
      ensures Built(old(nodes), nodes, r, ParseDef(tokens, old(pos)), pos, failed)
      decreases |tokens| - pos, 9
    {
      hide ParseDef, Holds;
      DefNone(tokens, pos);
      Advance();
      if !tokens[pos].IDENT? {
        failed := true;
        return -1;
      }
      var name := tokens[pos].name;
      Advance();
      r := DefRest(name, old(pos));
    }

    /** A definition from behind its name on. */
    method DefRest(name: string, ghost start: nat) returns (r: int)
      requires Ready() && start + 2 == pos && tokens[start] == DEF && tokens[start + 1] == IDENT(name)
      modifies `pos, `nodes, `failed
      ensures Built(old(nodes), nodes, r, ParseDef(tokens, start), pos, failed)
      decreases |tokens| - pos, 12
    {
      hide ParseDef, ParseParams, ParseSuite, Grown, Holds, Size, SizeAll;
      DefNone(tokens, start);
      var n := NewNode(Node(NDef, 0, name, EOF, []));
      if n < 0 { return -1; }
      GrownStart(old(nodes), NDef, name);
      var yes := Demand(LPAREN);
      if !yes { return -1; }
      DefStep(tokens, start);
      assert DefFits(tokens, start);
      var ok, done := Params(n, old(nodes), name);
      if !ok { return -1; }
      yes := Demand(RPAREN);
      if !yes { return -1; }
      GrownSize(old(nodes), nodes, NDef, name, nodes[n].child, done);
      r := DefBody(n, old(nodes), name, done, start);
    }

    /** The body of a definition whose parameters have been read. */
    method DefBody(n: nat, ghost before: seq<Node>, ghost name: string, ghost done: seq<Tree>,
                   ghost start: nat) returns (r: int)
      requires Ready() && n == |before| < |nodes| && Grown(before, nodes, NDef, name, nodes[n].child, done)
      requires |done| < MAX_CHILDREN
      modifies `pos, `nodes, `failed
      ensures var b := ParseSuite(tokens, old(pos));
              if r >= 0 then
                && !failed && b.Some? && pos == b.value.1 && |nodes| <= MAX_NODES
                && Holds(before, nodes, r, Tree(NDef, 0, name, EOF, done + [b.value.0]))
              else
                failed && (b.None? || |before| + 1 + SizeAll(done) + Size(b.value.0) > MAX_NODES)
      decreases |tokens| - pos, 10
    {
      hide ParseSuite, Grown, Holds, Size, SizeAll;
      ghost var b := ParseSuite(tokens, pos);
      ghost var mid := nodes;
      GrownSize(before, nodes, NDef, name, nodes[n].child, done);
      var body := Suite();
      if body < 0 { return -1; }
      Link(n, body, before, mid, NDef, name, done, b.value.0);
      GrownTree(before, nodes, NDef, name, nodes[n].child, done + [b.value.0]);
      r := n;
    }

    method Params(n: nat, ghost before: seq<Node>, ghost name: string) returns (ok: bool, ghost done: seq<Tree>)
      requires Ready() && n == |before| < |nodes| && Grown(before, nodes, NDef, name, nodes[n].child, [])
      requires ParamRun(tokens, pos) < MAX_CHILDREN
      modifies `pos, `nodes, `failed
      ensures Collected(before, NDef, name, ParseParams(tokens, old(pos), []), ok, done)
      ensures |done| < MAX_CHILDREN
    {
      hide ParseParams, Grown, Holds, SizeAll;
      done := [];
      while tokens[pos] != RPAREN && tokens[pos] != EOF
        invariant Ready() && n < |nodes|
        invariant Grown(before, nodes, NDef, name, nodes[n].child, done)
        invariant ParseParams(tokens, pos, done) == ParseParams(tokens, old(pos), [])
        invariant |done| + ParamRun(tokens, pos) < MAX_CHILDREN
        decreases |tokens| - pos
      {
        ghost var mid := nodes;
        ParamsStep(tokens, pos, done);
        GrownSize(before, nodes, NDef, name, nodes[n].child, done);
        if !tokens[pos].IDENT? {
          failed := true;
          return false, done;
        }
        ghost var t := VarTree(tokens[pos].name);
        var pn := Single(Leaf(NVar).(strVal := tokens[pos].name));
        if pn < 0 { return false, done; }
        Link(n, pn, before, mid, NDef, name, done, t);
        done := done + [t];
        var more := Match(COMMA);
        if !more { return true, done; }
      }
      ParamsStop(tokens, pos, done);
      ok := true;
    }

    method If() returns (r: int)
      requires Ready() && (tokens[pos] == IF || tokens[pos] == ELIF)
      modifies `pos, `nodes, `failed
      ensures Built(old(nodes), nodes, r, ParseIf(tokens, old(pos)), pos, failed)
      decreases |tokens| - pos, 9
    {
      hide ParseIf, ParseLoop, SkipNewlines, IfEnd, Grown, Holds, Size;
      IfStep(tokens, pos);
      IfSize(tokens, pos);
      Advance();
      ghost var head := ParseLoop(tokens, pos, NIf, "");
      r := Loop(NIf, "");
      if r < 0 { return -1; }
      HoldsGrown(old(nodes), nodes, NIf, "", head.value.0.kids);
      SkipBlank();
      r := Rest(r, old(nodes), head.value.0.kids);
    }

    /** The elif or else of the If at `n`. */
    method Rest(n: nat, ghost before: seq<Node>, ghost done: seq<Tree>) returns (r: int)
      requires Ready() && n == |before| < |nodes| && |done| == 2 && Grown(before, nodes, NIf, "", nodes[n].child, done)
      modifies `pos, `nodes, `failed
      ensures Built(before, nodes, r, IfEnd(tokens, done[0], done[1], old(pos)), pos, failed)
      decreases |tokens| - pos, 11
    {
      hide ParseSuite, ParseStmt, Grown, Holds, Size, SizeAll;
      assert done == [done[0], done[1]];
      IfEndStep(tokens, done[0], done[1], pos);
      GrownSize(before, nodes, NIf, "", nodes[n].child, done);
      SizePair(done[0], done[1]);
      ghost var mid := nodes;
      var rest := -1;
      ghost var t := None;
      if tokens[pos] == ELIF {
        t := ParseStmt(tokens, pos);
        rest := Stmt();
      } else if tokens[pos] == ELSE {
        t := ParseSuite(tokens, pos + 1);
        Advance();
        rest := Suite();
      } else {
        GrownTree(before, nodes, NIf, "", nodes[n].child, done);
        return n;
      }
      if rest < 0 { return -1; }
      Link(n, rest, before, mid, NIf, "", done, t.value.0);
      assert done + [t.value.0] == [done[0], done[1], t.value.0];
      GrownTree(before, nodes, NIf, "", nodes[n].child, done + [t.value.0]);
      r := n;
    }

    /** gk_parse: the whole program as one tree, or -1 and an error. */
    method Parse() returns (r: int)
      requires Ended(tokens) && DefsFit(tokens) && !failed
      modifies `pos, `nodes, `failed
      ensures pos < |tokens| || r < 0
      ensures r < 0 <==> failed
      ensures var want := ParseProgram(tokens);
              if r >= 0 then
                IsTree(nodes, 0) && r == 0 && want.Some? && |nodes| == Size(want.value) <= MAX_NODES
                    && Rep(nodes, 0, want.value, 0) && tokens[pos] == EOF
              else
                want.None? || Size(want.value) > MAX_NODES
    {
      hide ParseStmts, SkipNewlines, Grown, Size, SizeAll, Rep;
      pos, nodes := 0, [];
      var root := NewNode(Leaf(NBlock));
      GrownStart([], NBlock, "");
      assert [] + [Leaf(NBlock)] == [Leaf(NBlock)];
      var ok, done := Statements(0, EOF, []);
      ProgramStep(tokens);
      if !ok { return -1; }
      GrownTree([], nodes, NBlock, "", nodes[0].child, done);
      PoolIsTree(nodes, 0, BlockTree(done));
      r := 0;
    }
  }
}

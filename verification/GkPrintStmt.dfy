/** Statements, blocks and whole programs as tokens, and the proof that the grammar reads them back. */
module GkPrintStmt {
  import opened Options
  import opened GkSyntax
  import opened GkGrammar
  import opened GkPrint
  import opened Places

  // ----- statements as trees and as tokens -----

  function NodeTree(kind: Kind, name: string, kids: seq<Tree>): Tree {
    Tree(kind, 0, name, EOF, kids)
  }

  function StmtTree(s: Stmt): Tree
    decreases s
  {
    match s
    case ExprStmt(e) => ExprTree(e)
    case Assign(name, e) => NodeTree(NAssign, name, [ExprTree(e)])
    case Return(None) => NodeTree(NReturn, "", [])
    case Return(Some(e)) => NodeTree(NReturn, "", [ExprTree(e)])
    case Break => NodeTree(NBreak, "", [])
    case Continue => NodeTree(NContinue, "", [])
    case Def(f, params, body) => NodeTree(NDef, f, ParamTrees(params) + [BlockTree(StmtTrees(body))])
    case If(c, body, NoElse) => NodeTree(NIf, "", [ExprTree(c), BlockTree(StmtTrees(body))])
    case If(c, body, Elif(s')) => NodeTree(NIf, "", [ExprTree(c), BlockTree(StmtTrees(body)), StmtTree(s')])
    case If(c, body, Else(body')) => NodeTree(NIf, "",
        [ExprTree(c), BlockTree(StmtTrees(body)), BlockTree(StmtTrees(body'))])
    case While(c, body) => NodeTree(NWhile, "", [ExprTree(c), BlockTree(StmtTrees(body))])
    case For(name, iter, body) => NodeTree(NFor, name, [ExprTree(iter), BlockTree(StmtTrees(body))])
  }

  function StmtTrees(ss: seq<Stmt>): (ts: seq<Tree>)
    ensures |ts| == |ss|
    decreases ss
  {
    if ss == [] then [] else [StmtTree(ss[0])] + StmtTrees(ss[1..])
  }

  function ParamTrees(ps: seq<string>): (ts: seq<Tree>)
    ensures |ts| == |ps|
  {
    if ps == [] then [] else [VarTree(ps[0])] + ParamTrees(ps[1..])
  }

  /** Tokens of a statement; an If starts with `kw`, which is IF or, in an elif, ELIF. */
  function PrintAs(s: Stmt, kw: Token): seq<Token>
    decreases s, 1
  {
    match s
    case ExprStmt(e) => Print(e, 1) + [NEWLINE]
    case Assign(name, e) => [IDENT(name), ASSIGN] + Print(e, 1) + [NEWLINE]
    case Return(None) => [RETURN, NEWLINE]
    case Return(Some(e)) => [RETURN] + Print(e, 1) + [NEWLINE]
    case Break => [BREAK, NEWLINE]
    case Continue => [CONTINUE, NEWLINE]
    case Def(f, params, body) => [DEF, IDENT(f), LPAREN] + PrintParams(params) + [RPAREN] + Suite(body)
    case If(c, body, o) => [kw] + Print(c, 1) + Suite(body) + PrintOrelse(o)
    case While(c, body) => [WHILE] + Print(c, 1) + Suite(body)
    case For(name, iter, body) => [FOR, IDENT(name), IN] + Print(iter, 1) + Suite(body)
  }

  function PrintStmts(ss: seq<Stmt>): seq<Token>
    decreases ss, 0
  {
    if ss == [] then [] else PrintAs(ss[0], IF) + PrintStmts(ss[1..])
  }

  function PrintOrelse(o: Orelse): seq<Token>
    decreases o, 0
  {
    match o
    case NoElse => []
    case Elif(s) => PrintAs(s, ELIF)
    case Else(body) => [ELSE] + Suite(body)
  }

  /** What ends a compound statement's header, and its indented body. */
  function Suite(body: seq<Stmt>): seq<Token>
    decreases body, 1
  {
    [COLON, NEWLINE, INDENT] + PrintStmts(body) + [DEDENT]
  }

  function PrintParams(ps: seq<string>): seq<Token> {
    if ps == [] then []
    else if |ps| == 1 then [IDENT(ps[0])]
    else [IDENT(ps[0]), COMMA] + PrintParams(ps[1..])
  }

  function PrintProgram(ss: seq<Stmt>): seq<Token> {
    PrintStmts(ss) + [EOF]
  }

  /** Within the size limits of a node, and with If statements only behind `elif`. */
  predicate StmtFits(s: Stmt)
    decreases s
  {
    match s
    case ExprStmt(e) => Fits(e)
    case Assign(_, e) => Fits(e)
    case Return(v) => v.Some? ==> Fits(v.value)
    case Break => true
    case Continue => true
    case Def(_, _, body) => BlockFits(body)
    case If(c, body, o) =>
      Fits(c) && BlockFits(body) &&
      (match o
       case NoElse => true
       case Elif(s') => s'.If? && StmtFits(s')
       case Else(body') => BlockFits(body'))
    case While(c, body) => Fits(c) && BlockFits(body)
    case For(_, iter, body) => Fits(iter) && BlockFits(body)
  }

  predicate StmtsFit(ss: seq<Stmt>)
    decreases ss, 0
  {
    ss == [] || (StmtFits(ss[0]) && StmtsFit(ss[1..]))
  }

  predicate BlockFits(ss: seq<Stmt>)
    decreases ss, 1
  {
    |ss| <= MAX_CHILDREN && StmtsFit(ss)
  }

  // ----- no expression contains an assignment sign -----

  lemma {:induction false} NoAssign(e: Expr, l: nat)
    requires 1 <= l <= 7
    ensures ASSIGN !in Print(e, l)
    decreases e, 1
  {
    match e
    case Bin(op, a, b) =>
      NoAssign(a, OpLevel(BinaryToken(op)));
      NoAssign(b, OpLevel(BinaryToken(op)) + 1);
    case Un(_, x) => NoAssign(x, 6);
    case Call(_, args) => NoAssignArgs(args);
    case _ =>
  }

  lemma {:induction false} NoAssignArgs(es: seq<Expr>)
    ensures ASSIGN !in PrintArgs(es)
    decreases es
  {
    if es != [] {
      NoAssign(es[0], 1);
      NoAssignArgs(es[1..]);
    }
  }

  // ----- reading statements back -----

  /** What may follow a statement: not a blank line, which it would swallow, nor the rest of an If. */
  predicate Ends(t: Token) {
    t != NEWLINE && t != ELIF && t != ELSE
  }

  /** An expression and one token that cannot continue it. */
  lemma ReadHead(e: Expr, t: Token, toks: seq<Token>, pos: nat, rest: seq<Token>)
    requires Ended(toks) && Fits(e) && Follows(t, 0)
    requires At(toks, pos, Print(e, 1) + [t] + rest)
    ensures var q := pos + |Print(e, 1)|;
            && pos < q < |toks| && Starter(toks[pos]) && toks[q] == t && At(toks, q, [t] + rest)
            && ParseLevel(toks, 1, pos) == Some((ExprTree(e), q))
  {
    hide *;
    var p := Print(e, 1);
    PrintStart(e, 1);
    assert p + [t] + rest == p + ([t] + rest);
    AtConcat(toks, pos, p, [t] + rest);
    HasFirst(toks, pos + |p|, [t] + rest);
    ReadArg(e, toks, pos);
  }

  lemma ReadEval(e: Expr, toks: seq<Token>, pos: nat)
    requires Ended(toks) && Fits(e)
    requires At(toks, pos, Print(e, 1) + [NEWLINE]) && pos + |Print(e, 1)| + 1 < |toks|
    ensures pos < |toks| && Starter(toks[pos])
    ensures ParseStmt(toks, pos) == Some((ExprTree(e), pos + |Print(e, 1)| + 1))
  {
    hide *;
    var p := Print(e, 1);
    NoAssign(e, 1);
    assert p + [NEWLINE] + [] == p + [NEWLINE];
    LineFollows();
    ReadHead(e, NEWLINE, toks, pos, []);
    assert toks[pos + 1] != ASSIGN by {
      if |p| > 1 {
        AtConcat(toks, pos, p, [NEWLINE]);
        AtIndex(toks, pos, p, 1);
      }
    }
    StmtEval(toks, pos, ExprTree(e), pos + |p|);
  }

  lemma StmtEval(toks: seq<Token>, pos: nat, t: Tree, q: nat)
    requires Ended(toks) && pos + 1 < |toks| && Starter(toks[pos]) && toks[pos + 1] != ASSIGN
    requires q < |toks| && toks[q] == NEWLINE && ParseLevel(toks, 1, pos) == Some((t, q))
    ensures ParseStmt(toks, pos) == Some((t, q + 1))
  {
    hide ParseIf, ParseDef, ParseLoop, ParseLine, ParseLevel;
  }

  /** `skip` keyword tokens, an expression and the line end, as in an assignment or a return. */
  lemma ReadLine(skip: seq<Token>, e: Expr, toks: seq<Token>, pos: nat, kind: Kind, name: string)
    requires Ended(toks) && Fits(e)
    requires At(toks, pos, skip + Print(e, 1) + [NEWLINE]) && pos + |skip| + |Print(e, 1)| + 1 < |toks|
    ensures var p := pos + |skip|;
            && p < |toks| && At(toks, pos, skip) && Starter(toks[p])
            && ParseLine(toks, p, kind, name) == Some((NodeTree(kind, name, [ExprTree(e)]), p + |Print(e, 1)| + 1))
  {
    hide *;
    var p := Print(e, 1);
    assert skip + p + [NEWLINE] == skip + (p + [NEWLINE]);
    AtConcat(toks, pos, skip, p + [NEWLINE]);
    assert p + [NEWLINE] + [] == p + [NEWLINE];
    LineFollows();
    ReadHead(e, NEWLINE, toks, pos + |skip|, []);
    LineOf(toks, pos + |skip|, kind, name, ExprTree(e), pos + |skip| + |p|);
  }

  lemma LineFollows()
    ensures Follows(NEWLINE, 0)
  {
  }

  lemma LineOf(toks: seq<Token>, pos: nat, kind: Kind, name: string, t: Tree, p: nat)
    requires Ended(toks) && pos < |toks| && p < |toks| && toks[p] == NEWLINE && ParseLevel(toks, 1, pos) == Some((t, p))
    ensures ParseLine(toks, pos, kind, name) == Some((NodeTree(kind, name, [t]), p + 1))
  {
    hide ParseLevel;
  }

  lemma SuiteShape(body: seq<Stmt>)
    ensures Suite(body) == [COLON, NEWLINE] + ([INDENT] + PrintStmts(body) + [DEDENT])
    ensures |Suite(body)| == |PrintStmts(body)| + 4 && Suite(body)[0] == COLON
    ensures BlockFits(body) ==> StmtsFit(body) && |body| <= MAX_CHILDREN
  {
    hide PrintStmts, StmtsFit;
  }

  lemma {:induction false} ReadSuite(body: seq<Stmt>, toks: seq<Token>, pos: nat)
    requires Ended(toks) && BlockFits(body)
    requires At(toks, pos, Suite(body)) && pos + |Suite(body)| < |toks|
    ensures pos < |toks| && ParseSuite(toks, pos) == Some((BlockTree(StmtTrees(body)), pos + |Suite(body)|))
    decreases body, 2
  {
    hide *;
    var p := PrintStmts(body);
    SuiteShape(body);
    AtConcat(toks, pos, [COLON, NEWLINE], [INDENT] + p + [DEDENT]);
    AtIndex(toks, pos, [COLON, NEWLINE], 0);
    AtIndex(toks, pos, [COLON, NEWLINE], 1);
    HasInside(toks, pos + 2, INDENT, p, DEDENT);
    ReadStmts(body, toks, pos + 3, DEDENT, []);
    assert [] + StmtTrees(body) == StmtTrees(body);
    EndsNotBlank(toks[pos + 3]);
    SuiteOf(toks, pos, StmtTrees(body), pos + 3 + |p|);
  }

  lemma SuiteOf(toks: seq<Token>, pos: nat, ts: seq<Tree>, q: nat)
    requires Ended(toks) && pos + 3 < |toks| && q < |toks| && toks[pos] == COLON && toks[pos + 1] == NEWLINE
    requires toks[pos + 2] == INDENT
    requires toks[q] == DEDENT && toks[pos + 3] != NEWLINE && ParseStmts(toks, pos + 3, DEDENT, []) == Some((ts, q))
    ensures ParseSuite(toks, pos) == Some((BlockTree(ts), q + 1))
  {
    hide ParseStmts, ParseStmt, ParseLevel;
    assert ParseBlock(toks, pos + 2) == Some((BlockTree(ts), q + 1));
  }

  lemma StmtsShape(ss: seq<Stmt>)
    requires ss != [] && StmtsFit(ss)
    ensures PrintStmts(ss) == PrintAs(ss[0], IF) + PrintStmts(ss[1..])
    ensures StmtTrees(ss) == [StmtTree(ss[0])] + StmtTrees(ss[1..])
    ensures StmtFits(ss[0]) && StmtsFit(ss[1..])
  {
    hide PrintAs, StmtTree, StmtFits;
  }

  lemma NoStmts(toks: seq<Token>, pos: nat, end: Token, done: seq<Tree>)
    requires Ended(toks) && pos < |toks| && toks[pos] == end
    ensures PrintStmts([]) == [] && StmtTrees([]) == [] && done + [] == done
    ensures ParseStmts(toks, pos, end, done) == Some((done, pos))
  {
    hide ParseStmt;
  }

  /** The statement loop up to its end token. */
  lemma {:induction false} ReadStmts(ss: seq<Stmt>, toks: seq<Token>, pos: nat, end: Token, done: seq<Tree>)
    requires Ended(toks) && StmtsFit(ss) && |done| + |ss| <= MAX_CHILDREN && (end == DEDENT || end == EOF)
    requires At(toks, pos, PrintStmts(ss)) && pos + |PrintStmts(ss)| < |toks| && toks[pos + |PrintStmts(ss)|] == end
    ensures pos < |toks| && Ends(toks[pos])
    ensures ParseStmts(toks, pos, end, done) == Some((done + StmtTrees(ss), pos + |PrintStmts(ss)|))
    decreases ss, 1
  {
    hide *;
    if ss == [] {
      NoStmts(toks, pos + |PrintStmts([])|, end, done);
      EndEnds(end);
    } else {
      var p, t := |PrintAs(ss[0], IF)|, StmtTree(ss[0]);
      StmtsShape(ss);
      AtConcat(toks, pos, PrintAs(ss[0], IF), PrintStmts(ss[1..]));
      ReadStmts(ss[1..], toks, pos + p, end, done + [t]);
      ReadStmt(ss[0], IF, toks, pos);
      OpensEnds(toks[pos]);
      StmtsTake(toks, pos, end, done, t, pos + p);
      assert done + [t] + StmtTrees(ss[1..]) == done + ([t] + StmtTrees(ss[1..]));
    }
  }

  lemma OpensEnds(t: Token)
    requires Opens(t, IF)
    ensures Ends(t)
  {
  }

  lemma EndEnds(t: Token)
    requires t == DEDENT || t == EOF
    ensures Ends(t)
  {
  }

  lemma EndsNotBlank(t: Token)
    requires Ends(t)
    ensures t != NEWLINE
  {
  }

  lemma StmtsTake(toks: seq<Token>, pos: nat, end: Token, done: seq<Tree>, t: Tree, p: nat)
    requires Ended(toks) && pos < |toks| && p < |toks| && Opens(toks[pos], IF) && Ends(toks[p])
    requires end == DEDENT || end == EOF
    requires ParseStmt(toks, pos) == Some((t, p)) && |done| < MAX_CHILDREN
    ensures ParseStmts(toks, pos, end, done) == ParseStmts(toks, p, end, done + [t])
  {
    hide ParseStmt, ParseLevel;
  }

  /** The first token of a statement is neither a blank line nor the end of a block or an arm. */
  predicate Opens(t: Token, kw: Token) {
    t != NEWLINE && t != DEDENT && t != EOF && t != ELSE && (t == ELIF ==> kw == ELIF)
  }

  /** A statement, printed, is read back by the grammar, which takes exactly its tokens. */
  lemma {:induction false} ReadStmt(s: Stmt, kw: Token, toks: seq<Token>, pos: nat)
    requires Ended(toks) && StmtFits(s) && (kw == IF || (kw == ELIF && s.If?))
    requires At(toks, pos, PrintAs(s, kw)) && pos + |PrintAs(s, kw)| < |toks| && Ends(toks[pos + |PrintAs(s, kw)|])
    ensures pos < |toks| && Opens(toks[pos], kw)
    ensures ParseStmt(toks, pos) == Some((StmtTree(s), pos + |PrintAs(s, kw)|))
    decreases s, 5
  {
    hide *;
    if s.If? {
      ReadIf(s, kw, toks, pos);
      StmtIf(toks, pos);
    } else if s.Def? {
      ReadDef(s, toks, pos);
      StmtDef(toks, pos);
    } else if s.While? {
      ReadWhile(s, toks, pos);
    } else if s.For? {
      ReadFor(s, toks, pos);
    } else {
      ReadSimple(s, toks, pos);
    }
  }

  lemma StmtIf(toks: seq<Token>, pos: nat)
    requires Ended(toks) && pos < |toks| && (toks[pos] == IF || toks[pos] == ELIF)
    ensures ParseStmt(toks, pos) == ParseIf(toks, pos) && Opens(toks[pos], toks[pos])
  {
    hide ParseIf, ParseDef, ParseLoop, ParseLine, ParseLevel;
  }

  lemma StmtDef(toks: seq<Token>, pos: nat)
    requires Ended(toks) && pos < |toks| && toks[pos] == DEF
    ensures ParseStmt(toks, pos) == ParseDef(toks, pos) && Opens(toks[pos], IF)
  {
    hide ParseIf, ParseDef, ParseLoop, ParseLine, ParseLevel;
  }

  lemma StmtWhile(toks: seq<Token>, pos: nat)
    requires Ended(toks) && pos + 1 < |toks| && toks[pos] == WHILE
    ensures Opens(toks[pos], IF) && ParseStmt(toks, pos) == ParseLoop(toks, pos + 1, NWhile, "")
  {
    hide ParseIf, ParseDef, ParseLoop, ParseLine, ParseLevel;
  }

  lemma StmtFor(toks: seq<Token>, pos: nat)
    requires Ended(toks) && pos + 3 < |toks| && toks[pos] == FOR && toks[pos + 1].IDENT? && toks[pos + 2] == IN
    ensures Opens(toks[pos], IF) && ParseStmt(toks, pos) == ParseLoop(toks, pos + 3, NFor, toks[pos + 1].name)
  {
    hide ParseIf, ParseDef, ParseLoop, ParseLine, ParseLevel;
  }

  lemma StmtWord(toks: seq<Token>, pos: nat)
    requires Ended(toks) && pos + 1 < |toks| && toks[pos + 1] == NEWLINE
    requires toks[pos] == RETURN || toks[pos] == BREAK || toks[pos] == CONTINUE
    ensures Opens(toks[pos], IF)
    ensures ParseStmt(toks, pos)
         == Some((NodeTree(if toks[pos] == RETURN then NReturn else if toks[pos] == BREAK then NBreak else NContinue,
                           "", []), pos + 2))
  {
    hide ParseIf, ParseDef, ParseLoop, ParseLine, ParseLevel;
  }

  lemma StmtReturn(toks: seq<Token>, pos: nat)
    requires Ended(toks) && pos + 1 < |toks| && toks[pos] == RETURN && Starter(toks[pos + 1])
    ensures Opens(toks[pos], IF) && ParseStmt(toks, pos) == ParseLine(toks, pos + 1, NReturn, "")
  {
    hide ParseIf, ParseDef, ParseLoop, ParseLine, ParseLevel;
  }

  lemma StmtAssign(toks: seq<Token>, pos: nat)
    requires Ended(toks) && pos + 2 < |toks| && toks[pos].IDENT? && toks[pos + 1] == ASSIGN
    ensures Opens(toks[pos], IF) && ParseStmt(toks, pos) == ParseLine(toks, pos + 2, NAssign, toks[pos].name)
  {
    hide ParseIf, ParseDef, ParseLoop, ParseLine, ParseLevel;
  }

  lemma SimpleShape(s: Stmt)
    requires StmtFits(s)
    ensures s.ExprStmt? ==> Fits(s.e) && PrintAs(s, IF) == Print(s.e, 1) + [NEWLINE] && StmtTree(s) == ExprTree(s.e)
    ensures s.Assign? ==>
            Fits(s.e) && PrintAs(s, IF) == [IDENT(s.name), ASSIGN] + Print(s.e, 1) + [NEWLINE]
            && StmtTree(s) == NodeTree(NAssign, s.name, [ExprTree(s.e)])
    ensures s.Return? && s.value.Some? ==>
            Fits(s.value.value) && PrintAs(s, IF) == [RETURN] + Print(s.value.value, 1) + [NEWLINE]
            && StmtTree(s) == NodeTree(NReturn, "", [ExprTree(s.value.value)])
    ensures s.Return? && s.value.None? ==>
            PrintAs(s, IF) == [RETURN, NEWLINE] && StmtTree(s) == NodeTree(NReturn, "", [])
    ensures s.Break? ==> PrintAs(s, IF) == [BREAK, NEWLINE] && StmtTree(s) == NodeTree(NBreak, "", [])
    ensures s.Continue? ==> PrintAs(s, IF) == [CONTINUE, NEWLINE] && StmtTree(s) == NodeTree(NContinue, "", [])
  {
    hide Fits, Print, ExprTree, NodeTree;
  }

  lemma StarterOpens(t: Token)
    requires Starter(t)
    ensures Opens(t, IF)
  {
  }

  lemma ReadSimple(s: Stmt, toks: seq<Token>, pos: nat)
    requires Ended(toks) && StmtFits(s) && (s.ExprStmt? || s.Assign? || s.Return? || s.Break? || s.Continue?)
    requires At(toks, pos, PrintAs(s, IF)) && pos + |PrintAs(s, IF)| < |toks|
    ensures pos < |toks| && Opens(toks[pos], IF)
    ensures ParseStmt(toks, pos) == Some((StmtTree(s), pos + |PrintAs(s, IF)|))
  {
    hide *;
    if s.ExprStmt? {
      SimpleShape(s);
      ReadEval(s.e, toks, pos);
      StarterOpens(toks[pos]);
    } else if s.Assign? {
      ReadAssign(s, toks, pos);
    } else {
      ReadJump(s, toks, pos);
    }
  }

  lemma ReadAssign(s: Stmt, toks: seq<Token>, pos: nat)
    requires Ended(toks) && StmtFits(s) && s.Assign?
    requires At(toks, pos, PrintAs(s, IF)) && pos + |PrintAs(s, IF)| < |toks|
    ensures pos < |toks| && Opens(toks[pos], IF)
    ensures ParseStmt(toks, pos) == Some((StmtTree(s), pos + |PrintAs(s, IF)|))
  {
    hide *;
    SimpleShape(s);
    var head := [IDENT(s.name), ASSIGN];
    ReadLine(head, s.e, toks, pos, NAssign, s.name);
    AtIndex(toks, pos, head, 0);
    AtIndex(toks, pos, head, 1);
    StmtAssign(toks, pos);
  }

  lemma ReadJump(s: Stmt, toks: seq<Token>, pos: nat)
    requires Ended(toks) && StmtFits(s) && (s.Return? || s.Break? || s.Continue?)
    requires At(toks, pos, PrintAs(s, IF)) && pos + |PrintAs(s, IF)| < |toks|
    ensures pos < |toks| && Opens(toks[pos], IF)
    ensures ParseStmt(toks, pos) == Some((StmtTree(s), pos + |PrintAs(s, IF)|))
  {
    hide *;
    SimpleShape(s);
    if s.Return? && s.value.Some? {
      ReadLine([RETURN], s.value.value, toks, pos, NReturn, "");
      AtIndex(toks, pos, [RETURN], 0);
      StmtReturn(toks, pos);
    } else {
      AtIndex(toks, pos, PrintAs(s, IF), 0);
      AtIndex(toks, pos, PrintAs(s, IF), 1);
      StmtWord(toks, pos);
    }
  }

  lemma {:induction false} ReadWhile(s: Stmt, toks: seq<Token>, pos: nat)
    requires Ended(toks) && StmtFits(s) && s.While?
    requires At(toks, pos, PrintAs(s, IF)) && pos + |PrintAs(s, IF)| < |toks|
    ensures pos < |toks| && Opens(toks[pos], IF)
    ensures ParseStmt(toks, pos) == Some((StmtTree(s), pos + |PrintAs(s, IF)|))
    decreases s, 4
  {
    hide *;
    LoopShape(s);
    ReadLoop([WHILE], s.cond, s.body, toks, pos, NWhile, "");
    AtIndex(toks, pos, [WHILE], 0);
    StmtWhile(toks, pos);
  }

  lemma {:induction false} ReadFor(s: Stmt, toks: seq<Token>, pos: nat)
    requires Ended(toks) && StmtFits(s) && s.For?
    requires At(toks, pos, PrintAs(s, IF)) && pos + |PrintAs(s, IF)| < |toks|
    ensures pos < |toks| && Opens(toks[pos], IF)
    ensures ParseStmt(toks, pos) == Some((StmtTree(s), pos + |PrintAs(s, IF)|))
    decreases s, 4
  {
    hide *;
    var head := [FOR, IDENT(s.name), IN];
    LoopShape(s);
    ReadLoop(head, s.iter, s.body, toks, pos, NFor, s.name);
    AtIndex(toks, pos, head, 0);
    AtIndex(toks, pos, head, 1);
    AtIndex(toks, pos, head, 2);
    StmtFor(toks, pos);
  }

  lemma LoopShape(s: Stmt)
    requires StmtFits(s) && (s.While? || s.For?)
    ensures BlockFits(s.body)
    ensures s.While? ==>
            Fits(s.cond) && PrintAs(s, IF) == [WHILE] + Print(s.cond, 1) + Suite(s.body)
            && StmtTree(s) == NodeTree(NWhile, "", [ExprTree(s.cond), BlockTree(StmtTrees(s.body))])
    ensures s.For? ==>
            Fits(s.iter) && PrintAs(s, IF) == [FOR, IDENT(s.name), IN] + Print(s.iter, 1) + Suite(s.body)
            && StmtTree(s) == NodeTree(NFor, s.name, [ExprTree(s.iter), BlockTree(StmtTrees(s.body))])
  {
    hide BlockFits, Fits, Print, Suite, ExprTree, StmtTrees;
  }

  /** A loop: keyword tokens, an expression, the body. */
  lemma {:induction false} ReadLoop(skip: seq<Token>, e: Expr, body: seq<Stmt>, toks: seq<Token>, pos: nat,
                                    kind: Kind, name: string)
    requires Ended(toks) && Fits(e) && BlockFits(body)
    requires At(toks, pos, skip + Print(e, 1) + Suite(body)) && pos + |skip + Print(e, 1) + Suite(body)| < |toks|
    ensures At(toks, pos, skip)
    ensures pos + |skip| < |toks| && ParseLoop(toks, pos + |skip|, kind, name)
              == Some((NodeTree(kind, name, [ExprTree(e), BlockTree(StmtTrees(body))]),
                  pos + |skip + Print(e, 1) + Suite(body)|))
    decreases body, 4
  {
    hide *;
    assert skip + Print(e, 1) + Suite(body) + [] == skip + Print(e, 1) + Suite(body);
    ReadHeadSuite(skip, e, body, [], toks, pos);
    LoopOf(toks, pos + |skip|, kind, name, ExprTree(e), pos + |skip| + |Print(e, 1)|, BlockTree(StmtTrees(body)),
      pos + |skip| + |Print(e, 1)| + |Suite(body)|);
  }

  lemma LoopOf(toks: seq<Token>, pos: nat, kind: Kind, name: string, head: Tree, p: nat, body: Tree, q: nat)
    requires Ended(toks) && pos < |toks| && p < |toks| && ParseLevel(toks, 1, pos) == Some((head, p))
    requires ParseSuite(toks, p) == Some((body, q))
    ensures ParseLoop(toks, pos, kind, name) == Some((NodeTree(kind, name, [head, body]), q))
  {
    hide ParseLevel, ParseSuite;
  }

  /** Keyword tokens, an expression and a suite at their places. */
  lemma {:induction false} ReadHeadSuite(skip: seq<Token>, e: Expr, body: seq<Stmt>, rest: seq<Token>,
                                         toks: seq<Token>, pos: nat)
    requires Ended(toks) && Fits(e) && BlockFits(body)
    requires At(toks, pos, skip + Print(e, 1) + Suite(body) + rest) && pos + |skip + Print(e, 1) + Suite(body)| < |toks|
    ensures var p := pos + |skip|;
            var q := p + |Print(e, 1)|;
            && At(toks, pos, skip) && p < q < |toks|
            && ParseLevel(toks, 1, p) == Some((ExprTree(e), q))
            && ParseSuite(toks, q) == Some((BlockTree(StmtTrees(body)), q + |Suite(body)|))
            && At(toks, q + |Suite(body)|, rest)
    decreases body, 3
  {
    hide *;
    var p, b := Print(e, 1), Suite(body);
    SuiteShape(body);
    assert skip + p + b + rest == skip + (p + [COLON] + (b[1..] + rest));
    AtConcat(toks, pos, skip, p + [COLON] + (b[1..] + rest));
    ColonFollows();
    ReadHead(e, COLON, toks, pos + |skip|, b[1..] + rest);
    assert [COLON] + (b[1..] + rest) == b + rest;
    AtConcat(toks, pos + |skip| + |p|, b, rest);
    ReadSuite(body, toks, pos + |skip| + |p|);
  }

  lemma ColonFollows()
    ensures Follows(COLON, 0)
  {
  }

  lemma {:induction false} ReadIf(s: Stmt, kw: Token, toks: seq<Token>, pos: nat)
    requires Ended(toks) && s.If? && StmtFits(s) && (kw == IF || kw == ELIF)
    requires At(toks, pos, PrintAs(s, kw)) && pos + |PrintAs(s, kw)| < |toks| && Ends(toks[pos + |PrintAs(s, kw)|])
    ensures pos < |toks| && toks[pos] == kw && ParseIf(toks, pos) == Some((StmtTree(s), pos + |PrintAs(s, kw)|))
    decreases s, 4
  {
    hide *;
    var c, body, o := s.cond, s.body, s.orelse;
    IfShape(s, kw);
    ReadHeadSuite([kw], c, body, PrintOrelse(o), toks, pos);
    AtIndex(toks, pos, [kw], 0);
    ReadOrelse(o, toks, pos, ExprTree(c), BlockTree(StmtTrees(body)),
      pos + 1 + |Print(c, 1)|, pos + 1 + |Print(c, 1)| + |Suite(body)|);
  }

  lemma IfShape(s: Stmt, kw: Token)
    requires s.If? && StmtFits(s)
    ensures PrintAs(s, kw) == [kw] + Print(s.cond, 1) + Suite(s.body) + PrintOrelse(s.orelse)
    ensures Fits(s.cond) && BlockFits(s.body) && OrelseFits(s.orelse)
    ensures StmtTree(s) == NodeTree(NIf, "", [ExprTree(s.cond), BlockTree(StmtTrees(s.body))] + OrelseTrees(s.orelse))
  {
    hide Print, Suite, Fits, BlockFits, ExprTree, StmtTrees, PrintOrelse;
    var c, b := ExprTree(s.cond), BlockTree(StmtTrees(s.body));
    match s.orelse
    case NoElse => assert [c, b] + [] == [c, b];
    case Elif(s') => assert [c, b] + [StmtTree(s')] == [c, b, StmtTree(s')];
    case Else(body) => assert [c, b] + [BlockTree(StmtTrees(body))] == [c, b, BlockTree(StmtTrees(body))];
  }

  function OrelseTrees(o: Orelse): seq<Tree> {
    match o
    case NoElse => []
    case Elif(s) => [StmtTree(s)]
    case Else(body) => [BlockTree(StmtTrees(body))]
  }

  predicate OrelseFits(o: Orelse) {
    match o
    case NoElse => true
    case Elif(s) => s.If? && StmtFits(s)
    case Else(body) => BlockFits(body)
  }

  /** The end of an If whose condition and body have been read, up to `q`. */
  lemma {:induction false} ReadOrelse(o: Orelse, toks: seq<Token>, pos: nat, cond: Tree, block: Tree, p: nat, q: nat)
    requires Ended(toks) && OrelseFits(o) && pos + 1 < |toks| && (toks[pos] == IF || toks[pos] == ELIF)
    requires p < |toks| && ParseLevel(toks, 1, pos + 1) == Some((cond, p)) && ParseSuite(toks, p) == Some((block, q))
    requires At(toks, q, PrintOrelse(o)) && q + |PrintOrelse(o)| < |toks| && Ends(toks[q + |PrintOrelse(o)|])
    ensures ParseIf(toks, pos) == Some((NodeTree(NIf, "", [cond, block] + OrelseTrees(o)), q + |PrintOrelse(o)|))
    decreases o, 7
  {
    hide *;
    if o.NoElse? {
      OrelseShape(o);
      ReadNoElse(toks, pos, cond, block, p, q);
    } else if o.Elif? {
      ReadElif(o, toks, pos, cond, block, p, q);
    } else {
      ReadElse(o, toks, pos, cond, block, p, q);
    }
  }

  lemma {:induction false} ReadElif(o: Orelse, toks: seq<Token>, pos: nat, cond: Tree, block: Tree, p: nat, q: nat)
    requires Ended(toks) && OrelseFits(o) && pos + 1 < |toks| && (toks[pos] == IF || toks[pos] == ELIF) && o.Elif?
    requires p < |toks| && ParseLevel(toks, 1, pos + 1) == Some((cond, p)) && ParseSuite(toks, p) == Some((block, q))
    requires At(toks, q, PrintOrelse(o)) && q + |PrintOrelse(o)| < |toks| && Ends(toks[q + |PrintOrelse(o)|])
    ensures ParseIf(toks, pos) == Some((NodeTree(NIf, "", [cond, block] + OrelseTrees(o)), q + |PrintOrelse(o)|))
    decreases o, 6
  {
    hide *;
    OrelseShape(o);
    ReadStmt(o.s, ELIF, toks, q);
    ElifFirst(o.s, toks, q);
    IfElif(toks, pos, cond, block, p, q, StmtTree(o.s), q + |PrintAs(o.s, ELIF)|);
    assert [cond, block] + [StmtTree(o.s)] == [cond, block, StmtTree(o.s)];
  }

  lemma {:induction false} ReadElse(o: Orelse, toks: seq<Token>, pos: nat, cond: Tree, block: Tree, p: nat, q: nat)
    requires Ended(toks) && OrelseFits(o) && pos + 1 < |toks| && (toks[pos] == IF || toks[pos] == ELIF) && o.Else?
    requires p < |toks| && ParseLevel(toks, 1, pos + 1) == Some((cond, p)) && ParseSuite(toks, p) == Some((block, q))
    requires At(toks, q, PrintOrelse(o)) && q + |PrintOrelse(o)| < |toks| && Ends(toks[q + |PrintOrelse(o)|])
    ensures ParseIf(toks, pos) == Some((NodeTree(NIf, "", [cond, block] + OrelseTrees(o)), q + |PrintOrelse(o)|))
    decreases o, 6
  {
    hide *;
    OrelseShape(o);
    var rest := BlockTree(StmtTrees(o.body));
    AtConcat(toks, q, [ELSE], Suite(o.body));
    AtIndex(toks, q, [ELSE], 0);
    ReadSuite(o.body, toks, q + 1);
    IfElse(toks, pos, cond, block, p, q, rest, q + 1 + |Suite(o.body)|);
    assert [cond, block] + [rest] == [cond, block, rest];
  }

  lemma OrelseShape(o: Orelse)
    requires OrelseFits(o)
    ensures o.NoElse? ==> PrintOrelse(o) == [] && OrelseTrees(o) == []
    ensures o.Elif? ==>
            o.s.If? && StmtFits(o.s) && PrintOrelse(o) == PrintAs(o.s, ELIF) && OrelseTrees(o) == [StmtTree(o.s)]
    ensures o.Else? ==>
            BlockFits(o.body) && PrintOrelse(o) == [ELSE] + Suite(o.body)
            && OrelseTrees(o) == [BlockTree(StmtTrees(o.body))]
  {
    hide Suite, StmtTrees, BlockFits, PrintAs, StmtTree, StmtFits;
  }

  lemma ReadNoElse(toks: seq<Token>, pos: nat, cond: Tree, block: Tree, p: nat, q: nat)
    requires Ended(toks) && pos + 1 < |toks| && (toks[pos] == IF || toks[pos] == ELIF)
    requires p < |toks| && ParseLevel(toks, 1, pos + 1) == Some((cond, p)) && ParseSuite(toks, p) == Some((block, q))
    requires q < |toks| && Ends(toks[q])
    ensures ParseIf(toks, pos) == Some((NodeTree(NIf, "", [cond, block] + []), q))
  {
    hide ParseLevel, ParseSuite, ParseStmt;
    assert [cond, block] + [] == [cond, block];
  }

  lemma IfElif(toks: seq<Token>, pos: nat, cond: Tree, block: Tree, p: nat, q: nat, rest: Tree, f: nat)
    requires Ended(toks) && pos + 1 < |toks| && (toks[pos] == IF || toks[pos] == ELIF)
    requires p < |toks| && ParseLevel(toks, 1, pos + 1) == Some((cond, p)) && ParseSuite(toks, p) == Some((block, q))
    requires q < |toks| && toks[q] == ELIF && ParseStmt(toks, q) == Some((rest, f))
    ensures ParseIf(toks, pos) == Some((NodeTree(NIf, "", [cond, block, rest]), f))
  {
    hide ParseLevel, ParseSuite, ParseStmt;
  }

  lemma IfElse(toks: seq<Token>, pos: nat, cond: Tree, block: Tree, p: nat, q: nat, rest: Tree, f: nat)
    requires Ended(toks) && pos + 1 < |toks| && (toks[pos] == IF || toks[pos] == ELIF)
    requires p < |toks| && ParseLevel(toks, 1, pos + 1) == Some((cond, p)) && ParseSuite(toks, p) == Some((block, q))
    requires q < |toks| && toks[q] == ELSE && ParseSuite(toks, q + 1) == Some((rest, f))
    ensures ParseIf(toks, pos) == Some((NodeTree(NIf, "", [cond, block, rest]), f))
  {
    hide ParseLevel, ParseSuite, ParseStmt;
  }

  lemma ElifFirst(s: Stmt, toks: seq<Token>, q: nat)
    requires s.If? && At(toks, q, PrintAs(s, ELIF))
    ensures q < |toks| && toks[q] == ELIF
  {
    assert PrintAs(s, ELIF)[0] == ELIF;
    AtIndex(toks, q, PrintAs(s, ELIF), 0);
  }

  lemma {:induction false} ReadDef(s: Stmt, toks: seq<Token>, pos: nat)
    requires Ended(toks) && StmtFits(s) && s.Def?
    requires At(toks, pos, PrintAs(s, IF)) && pos + |PrintAs(s, IF)| < |toks|
    ensures pos < |toks| && toks[pos] == DEF
    ensures ParseDef(toks, pos) == Some((StmtTree(s), pos + |PrintAs(s, IF)|))
    decreases s, 4
  {
    hide *;
    var head, ps, b := [DEF, IDENT(s.fun), LPAREN], PrintParams(s.params), Suite(s.body);
    DefShape(s);
    AtConcat(toks, pos, head, ps + [RPAREN] + b);
    AtIndex(toks, pos, head, 0);
    AtIndex(toks, pos, head, 1);
    AtIndex(toks, pos, head, 2);
    HasBetween(toks, pos + 3, ps, RPAREN, b);
    ReadParams(s.params, toks, pos + 3, []);
    assert [] + ParamTrees(s.params) == ParamTrees(s.params);
    ReadSuite(s.body, toks, pos + 3 + |ps| + 1);
    DefOf(toks, pos, ParamTrees(s.params), pos + 3 + |ps|, BlockTree(StmtTrees(s.body)), pos + 3 + |ps| + 1 + |b|);
  }

  lemma DefShape(s: Stmt)
    requires StmtFits(s) && s.Def?
    ensures PrintAs(s, IF) == [DEF, IDENT(s.fun), LPAREN] + (PrintParams(s.params) + [RPAREN] + Suite(s.body))
    ensures StmtTree(s) == NodeTree(NDef, s.fun, ParamTrees(s.params) + [BlockTree(StmtTrees(s.body))])
    ensures BlockFits(s.body)
  {
    hide PrintParams, Suite, ParamTrees, StmtTrees, BlockFits;
  }

  lemma DefOf(toks: seq<Token>, pos: nat, params: seq<Tree>, p: nat, body: Tree, e: nat)
    requires Ended(toks) && pos + 3 < |toks| && p + 1 < |toks| && toks[pos] == DEF && toks[pos + 1].IDENT?
    requires toks[pos + 2] == LPAREN
    requires ParseParams(toks, pos + 3, []) == Some((params, p)) && toks[p] == RPAREN
    requires ParseSuite(toks, p + 1) == Some((body, e))
    ensures ParseDef(toks, pos) == Some((NodeTree(NDef, toks[pos + 1].name, params + [body]), e))
  {
    hide ParseParams, ParseSuite;
  }

  lemma {:induction false} ReadParams(ps: seq<string>, toks: seq<Token>, pos: nat, done: seq<Tree>)
    requires Ended(toks)
    requires At(toks, pos, PrintParams(ps)) && pos + |PrintParams(ps)| < |toks|
    requires toks[pos + |PrintParams(ps)|] == RPAREN
    ensures ParseParams(toks, pos, done) == Some((done + ParamTrees(ps), pos + |PrintParams(ps)|))
    decreases ps
  {
    hide *;
    if |ps| <= 1 {
      FewParams(ps, toks, pos, done);
    } else {
      var t := VarTree(ps[0]);
      ParamsShape(ps, toks, pos);
      ParamsTake(toks, pos, done);
      ReadParams(ps[1..], toks, pos + 2, done + [t]);
      assert done + [t] + ParamTrees(ps[1..]) == done + ([t] + ParamTrees(ps[1..]));
    }
  }

  lemma FewParams(ps: seq<string>, toks: seq<Token>, pos: nat, done: seq<Tree>)
    requires Ended(toks) && |ps| <= 1
    requires At(toks, pos, PrintParams(ps)) && pos + |PrintParams(ps)| < |toks|
    requires toks[pos + |PrintParams(ps)|] == RPAREN
    ensures ParseParams(toks, pos, done) == Some((done + ParamTrees(ps), pos + |PrintParams(ps)|))
  {
    if ps == [] {
      assert done + [] == done;
    } else {
      AtIndex(toks, pos, PrintParams(ps), 0);
      assert ps[1..] == [] && ParamTrees(ps[1..]) == [];
      assert ParamTrees(ps) == [VarTree(ps[0])];
    }
  }

  lemma ParamsTake(toks: seq<Token>, pos: nat, done: seq<Tree>)
    requires Ended(toks) && pos + 2 < |toks| && toks[pos].IDENT? && toks[pos + 1] == COMMA
    ensures ParseParams(toks, pos, done) == ParseParams(toks, pos + 2, done + [VarTree(toks[pos].name)])
  {
  }

  lemma ParamsShape(ps: seq<string>, toks: seq<Token>, pos: nat)
    requires |ps| > 1 && At(toks, pos, PrintParams(ps))
    ensures |PrintParams(ps)| == |PrintParams(ps[1..])| + 2 && ParamTrees(ps) == [VarTree(ps[0])] + ParamTrees(ps[1..])
    ensures pos + 1 < |toks| && toks[pos] == IDENT(ps[0]) && toks[pos + 1] == COMMA
    ensures At(toks, pos + 2, PrintParams(ps[1..]))
  {
    AtConcat(toks, pos, [IDENT(ps[0]), COMMA], PrintParams(ps[1..]));
    AtIndex(toks, pos, [IDENT(ps[0]), COMMA], 0);
    AtIndex(toks, pos, [IDENT(ps[0]), COMMA], 1);
  }

  /** Printing a program and parsing it gives the program's tree. */
  lemma ProgramRoundTrip(ss: seq<Stmt>)
    requires BlockFits(ss)
    ensures Ended(PrintProgram(ss)) && ParseProgram(PrintProgram(ss)) == Some(BlockTree(StmtTrees(ss)))
  {
    var toks := PrintProgram(ss);
    assert toks[0..|PrintStmts(ss)|] == PrintStmts(ss);
    hide PrintStmts, StmtTrees, StmtsFit, ParseStmts;
    ReadStmts(ss, toks, 0, EOF, []);
    EndsNotBlank(toks[0]);
    assert [] + StmtTrees(ss) == StmtTrees(ss);
  }
}

/**
 The statements of the language as stretches of tokens. A text is a program exactly when its tokens are split
 like this, and the tree it is read as is the one that goes with the split.
 */
module GkStatements {
  import opened Options
  import opened GkSyntax
  import opened GkGrammar
  import opened GkSteps
  import opened GkPhrases

  // ----- statements -----

  /** Tokens `i` to `j` are an expression of tree `t`, and no longer one starts at `i`. */
  ghost predicate Whole(toks: seq<Token>, i: nat, j: nat, t: Tree) {
    Phrase(toks, 1, i, j, t) && Complete(toks, 1, j)
  }

  /** A line that ends at `p` ends its statement in front of `j`: a newline, if there is one, belongs to it. */
  predicate LineTo(toks: seq<Token>, p: nat, j: nat) {
    p < |toks| && j < |toks| && j == if toks[p] == NEWLINE then p + 1 else p
  }

  /** From `p` to `j` there are only newlines, at `j` there is none. */
  predicate BlanksTo(toks: seq<Token>, p: nat, j: nat) {
    p <= j < |toks| && (forall q | p <= q < j :: toks[q] == NEWLINE) && toks[j] != NEWLINE
  }

  /** Tokens `i` to `j` are a statement of tree `t`. */
  ghost predicate Statement(toks: seq<Token>, i: nat, j: nat, t: Tree)
    requires i < |toks|
    decreases |toks| - i, 10
  {
    i + 1 < |toks| && i < j < |toks|
    && if toks[i] == RETURN && (toks[i + 1] == NEWLINE || toks[i + 1] == EOF) then
         t == Tree(NReturn, 0, "", EOF, []) && LineTo(toks, i + 1, j)
       else if toks[i] == RETURN then ValueLine(toks, i + 1, j, NReturn, "", t)
       else if toks[i] == BREAK then t == Tree(NBreak, 0, "", EOF, []) && LineTo(toks, i + 1, j)
       else if toks[i] == CONTINUE then t == Tree(NContinue, 0, "", EOF, []) && LineTo(toks, i + 1, j)
       else if toks[i] == DEF then Definition(toks, i, j, t)
       else if toks[i] == IF || toks[i] == ELIF then Conditional(toks, i, j, t)
       else if toks[i] == WHILE then Looped(toks, i + 1, j, NWhile, "", t)
       else if toks[i] == FOR then
         i + 3 < |toks| && toks[i + 1].IDENT? && toks[i + 2] == IN
         && Looped(toks, i + 3, j, NFor, toks[i + 1].name, t)
       else if toks[i].IDENT? && toks[i + 1] == ASSIGN then
         ValueLine(toks, i + 2, j, NAssign, toks[i].name, t)
       else exists p: nat :: Whole(toks, i, p, t) && LineTo(toks, p, j)
  }

  /** An expression up to the end of the line, under a node of kind `kind`. */
  ghost predicate ValueLine(toks: seq<Token>, i: nat, j: nat, kind: Kind, name: string, t: Tree) {
    |t.kids| == 1 && t == Tree(kind, 0, name, EOF, t.kids)
    && exists p: nat :: Whole(toks, i, p, t.kids[0]) && LineTo(toks, p, j)
  }

  /** An expression and a block: the head and the body of a loop. */
  ghost predicate Looped(toks: seq<Token>, i: nat, j: nat, kind: Kind, name: string, t: Tree)
    requires i < |toks|
    decreases |toks| - i, 9
  {
    |t.kids| == 2 && t == Tree(kind, 0, name, EOF, t.kids)
    && exists p: nat :: HeadBody(toks, i, p, j, t.kids[0], t.kids[1])
  }

  ghost predicate HeadBody(toks: seq<Token>, i: nat, p: nat, j: nat, head: Tree, body: Tree)
    requires i < |toks|
    decreases |toks| - i, 8
  {
    i < p < |toks| && Whole(toks, i, p, head) && Suite(toks, p, j, body)
  }

  /** A colon, perhaps a newline, and an indented block. */
  ghost predicate Suite(toks: seq<Token>, i: nat, j: nat, t: Tree)
    requires i < |toks|
    decreases |toks| - i, 8
  {
    toks[i] == COLON && exists b: nat :: BlockBehind(toks, i, b, j, t)
  }

  ghost predicate BlockBehind(toks: seq<Token>, i: nat, b: nat, j: nat, t: Tree)
    requires i < |toks|
    decreases |toks| - i, 7
  {
    i < b && LineTo(toks, i + 1, b) && Block(toks, b, j, t)
  }

  /** INDENT, statements, at most 64, and a DEDENT unless the text is at its end. */
  ghost predicate Block(toks: seq<Token>, i: nat, j: nat, t: Tree)
    requires i < |toks|
    decreases |toks| - i, 7
  {
    toks[i] == INDENT && |t.kids| <= 64 && t == Tree(NBlock, 0, "", EOF, t.kids)
    && exists s: nat, e: nat :: BlockParts(toks, i, s, e, j, t.kids)
  }

  ghost predicate BlockParts(toks: seq<Token>, i: nat, s: nat, e: nat, j: nat, ts: seq<Tree>)
    requires i < |toks|
    decreases |toks| - i, 6
  {
    i < s && BlanksTo(toks, i + 1, s) && Statements(toks, s, e, DEDENT, ts)
    && e < |toks| && j == if toks[e] == DEDENT then e + 1 else e
  }

  /** One statement after the other with newlines between them, up to `end` or the end of the text. */
  ghost predicate Statements(toks: seq<Token>, i: nat, j: nat, end: Token, ts: seq<Tree>)
    requires i < |toks|
    decreases |toks| - i, 12
  {
    if ts == [] then i == j && (toks[i] == end || toks[i] == EOF)
    else toks[i] != end && toks[i] != EOF && exists p: nat, q: nat :: FirstThen(toks, i, p, q, j, end, ts)
  }

  ghost predicate FirstThen(
      toks: seq<Token>, i: nat, p: nat, q: nat, j: nat, end: Token, ts: seq<Tree>)
    requires i < |toks| && ts != []
    decreases |toks| - i, 11
  {
    i < p && Statement(toks, i, p, ts[0]) && BlanksTo(toks, p, q) && Statements(toks, q, j, end, ts[1..])
  }

  /** A condition and a block, and then, newlines apart, an elif of the same kind, an else or neither. */
  ghost predicate Conditional(toks: seq<Token>, i: nat, j: nat, t: Tree)
    requires i + 1 < |toks|
    decreases |toks| - i, 9
  {
    2 <= |t.kids| <= 3 && t == Tree(NIf, 0, "", EOF, t.kids)
    && exists p: nat, q: nat, e: nat :: IfParts(toks, i, p, q, e, j, t.kids)
  }

  ghost predicate IfParts(toks: seq<Token>, i: nat, p: nat, q: nat, e: nat, j: nat, ts: seq<Tree>)
    requires i + 1 < |toks| && |ts| >= 2
    decreases |toks| - i, 8
  {
    i < q < |toks| && HeadBody(toks, i + 1, p, q, ts[0], ts[1])
    && BlanksTo(toks, q, e) && Orelse(toks, i, e, j, ts[2..])
  }

  ghost predicate Orelse(toks: seq<Token>, i: nat, e: nat, j: nat, ts: seq<Tree>)
    requires i < |toks|
    decreases |toks| - i, 7
  {
    i < e < |toks|
    && if toks[e] == ELIF then e + 1 < |toks| && |ts| == 1 && Conditional(toks, e, j, ts[0])
       else if toks[e] == ELSE then e + 1 < |toks| && |ts| == 1 && Suite(toks, e + 1, j, ts[0])
       else ts == [] && j == e
  }

  /** A name, parameter names in parentheses, and a block: the children are the parameters and the block. */
  ghost predicate Definition(toks: seq<Token>, i: nat, j: nat, t: Tree)
    requires i < |toks|
    decreases |toks| - i, 9
  {
    i + 3 < |toks| && toks[i + 1].IDENT? && toks[i + 2] == LPAREN
    && |t.kids| >= 1 && t == Tree(NDef, 0, toks[i + 1].name, EOF, t.kids)
    && exists q: nat :: DefParts(toks, i, q, j, t.kids)
  }

  ghost predicate DefParts(toks: seq<Token>, i: nat, q: nat, j: nat, ts: seq<Tree>)
    requires i < |toks| && |ts| >= 1
    decreases |toks| - i, 8
  {
    i + 3 <= q && q + 1 < |toks| && toks[q] == RPAREN
    && Parameters(toks, i + 3, q, ts[..|ts| - 1]) && Suite(toks, q + 1, j, ts[|ts| - 1])
  }

  /** Names with commas between them, and perhaps one more behind the last. */
  predicate Parameters(toks: seq<Token>, i: nat, j: nat, ts: seq<Tree>)
    requires i <= j < |toks|
    decreases j - i
  {
    if ts == [] then i == j
    else
      i < j && toks[i].IDENT? && ts[0] == Tree(NVar, 0, toks[i].name, EOF, [])
      && if toks[i + 1] == COMMA then i + 2 <= j && Parameters(toks, i + 2, j, ts[1..])
         else j == i + 1 && |ts| == 1
  }

  /** Statements with newlines in front of, between and behind them, at most 64 of them. */
  ghost predicate Program(toks: seq<Token>, t: Tree) {
    |t.kids| <= 64 && t == Tree(NBlock, 0, "", EOF, t.kids)
    && exists s: nat, e: nat :: ProgramParts(toks, s, e, t.kids)
  }

  ghost predicate ProgramParts(toks: seq<Token>, s: nat, e: nat, ts: seq<Tree>) {
    s < |toks| && BlanksTo(toks, 0, s) && Statements(toks, s, e, EOF, ts)
  }

  // ----- the parser finds these stretches and no others -----

  lemma WholeExactly(toks: seq<Token>, i: nat, j: nat, t: Tree)
    requires Ended(toks) && i < |toks|
    ensures ParseLevel(toks, 1, i) == Some((t, j)) <==> Whole(toks, i, j, t)
    ensures Whole(toks, i, j, t) ==> i < j < |toks|
  {
    ExpressionExactly(toks, i, j, t);
    if Whole(toks, i, j, t) { Spans(toks, 1, i, j, t); }
    hide Phrase, ParseLevel, Complete;
  }

  lemma LineEnd(toks: seq<Token>, p: nat, j: nat)
    requires Ended(toks) && p < |toks|
    ensures LineTo(toks, p, j) <==> j == Accept(toks, p, NEWLINE)
  {
  }

  lemma {:induction false} BlanksEnd(toks: seq<Token>, p: nat, j: nat)
    requires Ended(toks) && p < |toks|
    ensures BlanksTo(toks, p, j) <==> j == SkipNewlines(toks, p)
    decreases |toks| - p
  {
    if toks[p] == NEWLINE {
      BlanksEnd(toks, p + 1, j);
      if BlanksTo(toks, p + 1, j) {
        assert BlanksTo(toks, p, j);
      }
    }
  }

  lemma ValueLineExactly(toks: seq<Token>, i: nat, j: nat, kind: Kind, name: string, t: Tree)
    requires Ended(toks) && i < |toks|
    ensures ParseLine(toks, i, kind, name) == Some((t, j)) <==> ValueLine(toks, i, j, kind, name, t)
  {
    hide ParseLine, ParseLevel, Whole, LineTo, Accept, Size, SizeAll;
    LineStep(toks, i, kind, name);
    if ParseLine(toks, i, kind, name) == Some((t, j)) {
      var (head, p) := ParseLevel(toks, 1, i).value;
      WholeExactly(toks, i, p, head);
      LineEnd(toks, p, j);
      assert Whole(toks, i, p, t.kids[0]) && LineTo(toks, p, j);
    }
    if ValueLine(toks, i, j, kind, name, t) {
      var p: nat :| Whole(toks, i, p, t.kids[0]) && LineTo(toks, p, j);
      WholeExactly(toks, i, p, t.kids[0]);
      LineEnd(toks, p, j);
      assert t.kids == [t.kids[0]];
    }
  }

  lemma {:induction false} HeadExactly(toks: seq<Token>, i: nat, j: nat, kind: Kind, name: string, a: Tree, b: Tree)
    requires Ended(toks) && i < |toks|
    ensures ParseLoop(toks, i, kind, name) == Some((Tree(kind, 0, name, EOF, [a, b]), j))
            <==> exists p: nat :: HeadBody(toks, i, p, j, a, b)
    decreases |toks| - i, 8
  {
    hide ParseLoop, ParseLevel, ParseSuite, Whole, Suite, Size, SizeAll;
    LoopStep(toks, i, kind, name);
    if ParseLoop(toks, i, kind, name) == Some((Tree(kind, 0, name, EOF, [a, b]), j)) {
      var (head, p) := ParseLevel(toks, 1, i).value;
      var body := ParseSuite(toks, p).value.0;
      assert [a, b][0] == [head, body][0] && [a, b][1] == [head, body][1];
      WholeExactly(toks, i, p, head);
      SuiteExactly(toks, p, j, body);
      assert HeadBody(toks, i, p, j, a, b);
    }
    if p: nat :| HeadBody(toks, i, p, j, a, b) {
      WholeExactly(toks, i, p, a);
      SuiteExactly(toks, p, j, b);
    }
  }

  lemma {:induction false} LoopedExactly(toks: seq<Token>, i: nat, j: nat, kind: Kind, name: string, t: Tree)
    requires Ended(toks) && i < |toks|
    ensures ParseLoop(toks, i, kind, name) == Some((t, j)) <==> Looped(toks, i, j, kind, name, t)
    decreases |toks| - i, 9
  {
    hide ParseLoop, Whole, Suite;
    if Looped(toks, i, j, kind, name, t) {
      HeadUsed(toks, i, j, kind, name, t);
    }
    LoopShape(toks, i, kind, name);
    if |t.kids| == 2 {
      assert t.kids == [t.kids[0], t.kids[1]];
      HeadExactly(toks, i, j, kind, name, t.kids[0], t.kids[1]);
    }
  }

  lemma HeadUsed(toks: seq<Token>, i: nat, j: nat, kind: Kind, name: string, t: Tree)
    requires i < |toks| && Looped(toks, i, j, kind, name, t)
    ensures exists p: nat :: HeadBody(toks, i, p, j, t.kids[0], t.kids[1])
  {
    if p: nat :| HeadBody(toks, i, p, j, t.kids[0], t.kids[1]) {
    }
  }

  lemma LoopShape(toks: seq<Token>, i: nat, kind: Kind, name: string)
    requires Ended(toks) && i < |toks|
    ensures var r := ParseLoop(toks, i, kind, name);
            r.Some? ==> |r.value.0.kids| == 2 && r.value.0 == Tree(kind, 0, name, EOF, r.value.0.kids)
  {
    LoopStep(toks, i, kind, name);
    hide ParseLoop, ParseLevel, ParseSuite, Size, SizeAll;
  }

  lemma {:induction false} SuiteExactly(toks: seq<Token>, i: nat, j: nat, t: Tree)
    requires Ended(toks) && i < |toks|
    ensures ParseSuite(toks, i) == Some((t, j)) <==> Suite(toks, i, j, t)
    decreases |toks| - i, 8
  {
    hide ParseSuite, ParseBlock, Block, LineTo, Accept;
    SuiteStep(toks, i);
    if toks[i] == COLON {
      var b := Accept(toks, i + 1, NEWLINE);
      LineEnd(toks, i + 1, b);
      BlockExactly(toks, b, j, t);
      assert Block(toks, b, j, t) ==> BlockBehind(toks, i, b, j, t);
      if c: nat :| BlockBehind(toks, i, c, j, t) {
        LineEnd(toks, i + 1, c);
      }
    }
  }

  lemma {:induction false} BlockExactly(toks: seq<Token>, i: nat, j: nat, t: Tree)
    requires Ended(toks) && i < |toks|
    ensures ParseBlock(toks, i) == Some((t, j)) <==> Block(toks, i, j, t)
    decreases |toks| - i, 7
  {
    hide ParseBlock, ParseStmts, Statements, BlanksTo, SkipNewlines, Size, SizeAll;
    BlockStep(toks, i);
    assert [] + t.kids == t.kids;
    if toks[i] == INDENT {
      var s := SkipNewlines(toks, i + 1);
      BlanksEnd(toks, i + 1, s);
      if ParseBlock(toks, i) == Some((t, j)) {
        var e := ParseStmts(toks, s, DEDENT, []).value.1;
        StatementsExactly(toks, s, e, DEDENT, t.kids, []);
        assert BlockParts(toks, i, s, e, j, t.kids);
      }
      if s': nat, e: nat :| BlockParts(toks, i, s', e, j, t.kids) {
        BlanksEnd(toks, i + 1, s');
        StatementsExactly(toks, s, e, DEDENT, t.kids, []);
      }
    }
  }

  lemma {:induction false} StatementsExactly(
      toks: seq<Token>, i: nat, j: nat, end: Token, ts: seq<Tree>, done: seq<Tree>)
    requires Ended(toks) && i < |toks| && |done| <= 64
    ensures ParseStmts(toks, i, end, done) == Some((done + ts, j))
            <==> Statements(toks, i, j, end, ts) && |done| + |ts| <= 64
    decreases |toks| - i, 12
  {
    hide ParseStmts, ParseStmt, Statement, Statements, BlanksTo, SkipNewlines, Size, SizeAll;
    if toks[i] == end || toks[i] == EOF {
      StmtsStop(toks, i, end, done);
      NoStatements(toks, i, j, end, ts);
      assert done + [] == done;
      assert done + ts == done ==> |ts| == 0;
    } else {
      if ParseStmts(toks, i, end, done) == Some((done + ts, j)) {
        StatementsSound(toks, i, j, end, ts, done);
      }
      if Statements(toks, i, j, end, ts) && |done| + |ts| <= 64 {
        StatementsComplete(toks, i, j, end, ts, done);
      }
    }
  }

  lemma NoStatements(toks: seq<Token>, i: nat, j: nat, end: Token, ts: seq<Tree>)
    requires i < |toks| && (toks[i] == end || toks[i] == EOF)
    ensures Statements(toks, i, j, end, ts) <==> ts == [] && i == j
  {
    hide FirstThen;
  }

  lemma FirstUsed(toks: seq<Token>, i: nat, j: nat, end: Token, ts: seq<Tree>)
    requires i < |toks| && toks[i] != end && toks[i] != EOF && Statements(toks, i, j, end, ts)
    ensures ts != [] && exists p: nat, q: nat :: FirstThen(toks, i, p, q, j, end, ts)
  {
    hide Statement, BlanksTo;
    if p: nat, q: nat :| FirstThen(toks, i, p, q, j, end, ts) {
    }
  }

  lemma OfFirst(toks: seq<Token>, i: nat, p: nat, q: nat, j: nat, end: Token, ts: seq<Tree>)
    requires i < |toks| && toks[i] != end && toks[i] != EOF && ts != [] && FirstThen(toks, i, p, q, j, end, ts)
    ensures Statements(toks, i, j, end, ts)
  {
    hide Statement, BlanksTo;
  }

  lemma {:induction false} StatementsSound(
      toks: seq<Token>, i: nat, j: nat, end: Token, ts: seq<Tree>, done: seq<Tree>)
    requires Ended(toks) && i < |toks| && |done| <= 64 && toks[i] != end && toks[i] != EOF
    requires ParseStmts(toks, i, end, done) == Some((done + ts, j))
    ensures Statements(toks, i, j, end, ts) && |done| + |ts| <= 64
    decreases |toks| - i, 11
  {
    hide ParseStmts, ParseStmt, Statement, Statements, BlanksTo, SkipNewlines, Size, SizeAll;
    StmtsStep(toks, i, end, done);
    var (t, p) := ParseStmt(toks, i).value;
    var q := SkipNewlines(toks, p);
    StmtsExtend(toks, q, end, done + [t]);
    assert (done + [t])[|done|] == t;
    assert ts[0] == (done + ts)[|done|] == t;
    assert done + ts == done + [t] + ts[1..];
    StatementExactly(toks, i, p, t);
    BlanksEnd(toks, p, q);
    StatementsExactly(toks, q, j, end, ts[1..], done + [t]);
    OfFirst(toks, i, p, q, j, end, ts);
  }

  lemma {:induction false} StmtsExtend(toks: seq<Token>, i: nat, end: Token, done: seq<Tree>)
    requires Ended(toks) && i < |toks| && ParseStmts(toks, i, end, done).Some?
    ensures done <= ParseStmts(toks, i, end, done).value.0
    decreases |toks| - i
  {
    hide ParseStmts, ParseStmt, SkipNewlines, Size, SizeAll;
    if toks[i] == end || toks[i] == EOF {
      StmtsStop(toks, i, end, done);
    } else {
      StmtsStep(toks, i, end, done);
      var (t, p) := ParseStmt(toks, i).value;
      StmtsExtend(toks, SkipNewlines(toks, p), end, done + [t]);
    }
  }

  lemma {:induction false} StatementsComplete(
      toks: seq<Token>, i: nat, j: nat, end: Token, ts: seq<Tree>, done: seq<Tree>)
    requires Ended(toks) && i < |toks| && |done| + |ts| <= 64 && toks[i] != end && toks[i] != EOF
    requires Statements(toks, i, j, end, ts)
    ensures ParseStmts(toks, i, end, done) == Some((done + ts, j))
    decreases |toks| - i, 11
  {
    hide ParseStmts, ParseStmt, Statement, Statements, BlanksTo, SkipNewlines, Size, SizeAll;
    FirstUsed(toks, i, j, end, ts);
    var p: nat, q: nat :| FirstThen(toks, i, p, q, j, end, ts);
    StatementExactly(toks, i, p, ts[0]);
    BlanksEnd(toks, p, q);
    StatementsExactly(toks, q, j, end, ts[1..], done + [ts[0]]);
    assert done + [ts[0]] + ts[1..] == done + ts;
    StmtsStep(toks, i, end, done);
  }

  lemma {:induction false} StatementExactly(toks: seq<Token>, i: nat, j: nat, t: Tree)
    requires Ended(toks) && i < |toks| && toks[i] != EOF
    ensures ParseStmt(toks, i) == Some((t, j)) <==> Statement(toks, i, j, t)
    decreases |toks| - i, 10
  {
    hide ParseStmt, Statement;
    if toks[i] == RETURN {
      ReturnExactly(toks, i, j, t);
    } else if toks[i] == BREAK || toks[i] == CONTINUE {
      JumpExactly(toks, i, j, t);
    } else if toks[i] == DEF {
      DefinitionExactly(toks, i, j, t);
      DefDispatch(toks, i, j, t);
    } else if toks[i] == IF || toks[i] == ELIF {
      ConditionalExactly(toks, i, j, t);
      IfDispatch(toks, i, j, t);
    } else if toks[i] == WHILE {
      LoopedExactly(toks, i + 1, j, NWhile, "", t);
      WhileDispatch(toks, i, j, t);
    } else if toks[i] == FOR {
      ForExactly(toks, i, j, t);
    } else if toks[i].IDENT? && toks[i + 1] == ASSIGN {
      AssignExactly(toks, i, j, t);
    } else {
      ExprStmtExactly(toks, i, j, t);
    }
  }

  lemma DefDispatch(toks: seq<Token>, i: nat, j: nat, t: Tree)
    requires Ended(toks) && i < |toks| && toks[i] == DEF
    ensures ParseStmt(toks, i) == ParseDef(toks, i)
    ensures Statement(toks, i, j, t) <==> i < j < |toks| && Definition(toks, i, j, t)
  {
    hide ParseDef;
  }

  lemma IfDispatch(toks: seq<Token>, i: nat, j: nat, t: Tree)
    requires Ended(toks) && i + 1 < |toks| && (toks[i] == IF || toks[i] == ELIF)
    ensures ParseStmt(toks, i) == ParseIf(toks, i)
    ensures Statement(toks, i, j, t) <==> i < j < |toks| && Conditional(toks, i, j, t)
  {
    hide ParseIf;
  }

  lemma WhileDispatch(toks: seq<Token>, i: nat, j: nat, t: Tree)
    requires Ended(toks) && i + 1 < |toks| && toks[i] == WHILE
    ensures ParseStmt(toks, i) == ParseLoop(toks, i + 1, NWhile, "")
    ensures Statement(toks, i, j, t) <==> i < j < |toks| && Looped(toks, i + 1, j, NWhile, "", t)
  {
    hide ParseLoop;
  }

  lemma ReturnExactly(toks: seq<Token>, i: nat, j: nat, t: Tree)
    requires Ended(toks) && i < |toks| && toks[i] == RETURN
    ensures ParseStmt(toks, i) == Some((t, j)) <==> Statement(toks, i, j, t)
  {
    ValueLineExactly(toks, i + 1, j, NReturn, "", t);
    LineEnd(toks, i + 1, j);
    hide ParseLine, ValueLine, LineTo, Accept;
  }

  lemma JumpExactly(toks: seq<Token>, i: nat, j: nat, t: Tree)
    requires Ended(toks) && i < |toks| && (toks[i] == BREAK || toks[i] == CONTINUE)
    ensures ParseStmt(toks, i) == Some((t, j)) <==> Statement(toks, i, j, t)
  {
    LineEnd(toks, i + 1, j);
    hide LineTo, Accept;
  }

  lemma {:induction false} ForExactly(toks: seq<Token>, i: nat, j: nat, t: Tree)
    requires Ended(toks) && i < |toks| && toks[i] == FOR
    ensures ParseStmt(toks, i) == Some((t, j)) <==> Statement(toks, i, j, t)
    decreases |toks| - i, 9
  {
    if toks[i + 1].IDENT? && toks[i + 2] == IN {
      LoopedExactly(toks, i + 3, j, NFor, toks[i + 1].name, t);
    }
    hide ParseLoop, Looped;
  }

  lemma AssignExactly(toks: seq<Token>, i: nat, j: nat, t: Tree)
    requires Ended(toks) && i < |toks| && toks[i].IDENT? && toks[i + 1] == ASSIGN
    ensures ParseStmt(toks, i) == Some((t, j)) <==> Statement(toks, i, j, t)
  {
    ValueLineExactly(toks, i + 2, j, NAssign, toks[i].name, t);
    hide ParseLine, ValueLine;
  }

  /** None of the words a statement starts with, and no assignment. */
  predicate Plain(toks: seq<Token>, i: nat)
    requires i < |toks|
  {
    toks[i] !in {RETURN, BREAK, CONTINUE, DEF, IF, ELIF, WHILE, FOR}
    && !(toks[i].IDENT? && i + 1 < |toks| && toks[i + 1] == ASSIGN)
  }

  lemma ExprStmtExactly(toks: seq<Token>, i: nat, j: nat, t: Tree)
    requires Ended(toks) && i < |toks| && toks[i] != EOF && Plain(toks, i)
    ensures ParseStmt(toks, i) == Some((t, j)) <==> Statement(toks, i, j, t)
  {
    hide ParseStmt, Statement, ParseLevel, LineTo, Accept, Whole, Plain;
    ExprDispatch(toks, i, j, t);
    var e := ParseLevel(toks, 1, i);
    if e.Some? {
      WholeExactly(toks, i, e.value.1, e.value.0);
      LineEnd(toks, e.value.1, j);
    }
    if p: nat :| Whole(toks, i, p, t) && LineTo(toks, p, j) {
      WholeExactly(toks, i, p, t);
    }
  }

  lemma ExprDispatch(toks: seq<Token>, i: nat, j: nat, t: Tree)
    requires Ended(toks) && i < |toks| && toks[i] != EOF && Plain(toks, i)
    ensures var e := ParseLevel(toks, 1, i);
            ParseStmt(toks, i) == if e.None? then None else Some((e.value.0, Accept(toks, e.value.1, NEWLINE)))
    ensures Statement(toks, i, j, t)
            <==> i < j < |toks| && exists p: nat :: Whole(toks, i, p, t) && LineTo(toks, p, j)
  {
    hide ParseLevel, Accept, Whole, LineTo;
  }

  // ----- definitions -----

  lemma {:induction false} DefinitionExactly(toks: seq<Token>, i: nat, j: nat, t: Tree)
    requires Ended(toks) && i < |toks| && toks[i] == DEF
    ensures ParseDef(toks, i) == Some((t, j)) <==> Definition(toks, i, j, t)
    decreases |toks| - i, 9
  {
    hide ParseDef, ParseParams, ParseSuite, Suite, Parameters, Size, SizeAll;
    DefNone(toks, i);
    if toks[i + 1].IDENT? && toks[i + 2] == LPAREN {
      DefStep(toks, i);
      if ParseDef(toks, i) == Some((t, j)) {
        var (params, q) := ParseParams(toks, i + 3, []).value;
        var body := ParseSuite(toks, q + 1).value.0;
        ParametersExactly(toks, i + 3, q, params, []);
        assert [] + params == params;
        SuiteExactly(toks, q + 1, j, body);
        assert (params + [body])[..|params|] == params;
        assert DefParts(toks, i, q, j, t.kids);
      }
      if q: nat :| Definition(toks, i, j, t) && DefParts(toks, i, q, j, t.kids) {
        var params := t.kids[..|t.kids| - 1];
        ParametersExactly(toks, i + 3, q, params, []);
        assert [] + params == params;
        SuiteExactly(toks, q + 1, j, t.kids[|t.kids| - 1]);
        assert t.kids == params + [t.kids[|t.kids| - 1]];
      }
    }
  }

  lemma {:induction false} ParametersExactly(toks: seq<Token>, i: nat, j: nat, ts: seq<Tree>, done: seq<Tree>)
    requires Ended(toks) && i < |toks| && j < |toks| && toks[j] == RPAREN
    ensures ParseParams(toks, i, done) == Some((done + ts, j)) <==> i <= j && Parameters(toks, i, j, ts)
    decreases |toks| - i
  {
    hide ParseParams, Size, SizeAll;
    if toks[i] == RPAREN || toks[i] == EOF {
      ParamsStop(toks, i, done);
      assert done + [] == done;
      assert done + ts == done ==> |ts| == 0;
    } else {
      ParamsStep(toks, i, done);
      if toks[i].IDENT? {
        var t := VarTree(toks[i].name);
        if ts != [] && ts[0] == t {
          assert done + ts == done + [t] + ts[1..];
          assert done + ts == done + [t] ==> |ts| == 1;
          if toks[i + 1] == COMMA {
            ParametersExactly(toks, i + 2, j, ts[1..], done + [t]);
          }
        } else if ParseParams(toks, i, done) == Some((done + ts, j)) {
          ParamsExtend(toks, i, done);
          assert false;
        }
      }
    }
  }

  lemma {:induction false} ParamsExtend(toks: seq<Token>, i: nat, done: seq<Tree>)
    requires Ended(toks) && i < |toks| && ParseParams(toks, i, done).Some?
    ensures var ts := ParseParams(toks, i, done).value.0;
            done <= ts && (toks[i].IDENT? ==> |ts| > |done| && ts[|done|] == VarTree(toks[i].name))
    decreases |toks| - i
  {
    hide ParseParams, Size, SizeAll;
    if toks[i] == RPAREN || toks[i] == EOF {
      ParamsStop(toks, i, done);
    } else {
      ParamsStep(toks, i, done);
      if toks[i].IDENT? && toks[i + 1] == COMMA {
        var t := VarTree(toks[i].name);
        ParamsExtend(toks, i + 2, done + [t]);
        assert (done + [t])[|done|] == t;
      }
    }
  }

  // ----- conditionals -----

  lemma {:induction false} ConditionalExactly(toks: seq<Token>, i: nat, j: nat, t: Tree)
    requires Ended(toks) && i < |toks| && (toks[i] == IF || toks[i] == ELIF)
    ensures ParseIf(toks, i) == Some((t, j)) <==> Conditional(toks, i, j, t)
    decreases |toks| - i, 9
  {
    hide ParseIf, ParseLoop, IfEnd, HeadBody, BlanksTo, SkipNewlines, Orelse;
    IfStep(toks, i);
    if ParseIf(toks, i) == Some((t, j)) {
      ConditionalSound(toks, i, j, t);
    }
    if p: nat, q: nat, e: nat :| Conditional(toks, i, j, t) && IfParts(toks, i, p, q, e, j, t.kids) {
      ConditionalComplete(toks, i, p, q, e, j, t);
    }
  }

  lemma {:induction false} ConditionalSound(toks: seq<Token>, i: nat, j: nat, t: Tree)
    requires Ended(toks) && i < |toks| && (toks[i] == IF || toks[i] == ELIF) && ParseIf(toks, i) == Some((t, j))
    ensures Conditional(toks, i, j, t)
    decreases |toks| - i, 8
  {
    hide ParseIf, ParseLoop, IfEnd, HeadBody, BlanksTo, SkipNewlines, Orelse;
    IfStep(toks, i);
    var (head, q) := ParseLoop(toks, i + 1, NIf, "").value;
    var a, b := head.kids[0], head.kids[1];
    assert head.kids == [a, b];
    HeadExactly(toks, i + 1, q, NIf, "", a, b);
    var p: nat :| HeadBody(toks, i + 1, p, q, a, b);
    var e := SkipNewlines(toks, q);
    BlanksEnd(toks, q, e);
    OrelseExactly(toks, i, e, j, a, b, t);
    assert IfParts(toks, i, p, q, e, j, t.kids);
  }

  lemma {:induction false} ConditionalComplete(
      toks: seq<Token>, i: nat, p: nat, q: nat, e: nat, j: nat, t: Tree)
    requires Ended(toks) && i < |toks| && (toks[i] == IF || toks[i] == ELIF)
    requires 2 <= |t.kids| <= 3 && t == Tree(NIf, 0, "", EOF, t.kids) && IfParts(toks, i, p, q, e, j, t.kids)
    ensures ParseIf(toks, i) == Some((t, j))
    decreases |toks| - i, 8
  {
    hide ParseIf, ParseLoop, IfEnd, Whole, Suite, BlanksTo, SkipNewlines, Orelse;
    IfStep(toks, i);
    var a, b := t.kids[0], t.kids[1];
    HeadExactly(toks, i + 1, q, NIf, "", a, b);
    BlanksEnd(toks, q, e);
    assert t.kids == [a, b] + t.kids[2..];
    assert HeadBody(toks, i + 1, p, q, a, b);
    assert Orelse(toks, i, e, j, t.kids[2..]);
    assert ParseLoop(toks, i + 1, NIf, "") == Some((Tree(NIf, 0, "", EOF, [a, b]), q));
    OrelseExactly(toks, i, e, j, a, b, t);
  }

  lemma {:induction false} OrelseExactly(toks: seq<Token>, i: nat, e: nat, j: nat, a: Tree, b: Tree, t: Tree)
    requires Ended(toks) && i < e < |toks|
    ensures IfEnd(toks, a, b, e) == Some((t, j))
            <==> 2 <= |t.kids| <= 3 && t == Tree(NIf, 0, "", EOF, [a, b] + t.kids[2..])
                 && Orelse(toks, i, e, j, t.kids[2..])
    decreases |toks| - i, 7
  {
    hide ParseStmt, ParseSuite, ParseIf, Suite;
    if 2 <= |t.kids| <= 3 {
      if toks[e] == ELIF {
        IfDispatch(toks, e, j, t);
        if |t.kids| == 3 {
          ConditionalExactly(toks, e, j, t.kids[2]);
        }
      } else if toks[e] == ELSE && |t.kids| == 3 {
        SuiteExactly(toks, e + 1, j, t.kids[2]);
      }
      if |t.kids| == 3 {
        assert t.kids[2..] == [t.kids[2]];
        assert [a, b] + [t.kids[2]] == [a, b, t.kids[2]];
      } else {
        assert t.kids[2..] == [];
        assert [a, b] + [] == [a, b];
      }
    }
  }

  // ----- programs -----

  /** A token sequence is read as the tree `t` exactly when it is a program of that tree. */
  lemma ProgramExactly(toks: seq<Token>, t: Tree)
    requires Ended(toks)
    ensures ParseProgram(toks) == Some(t) <==> Program(toks, t)
  {
    hide ParseProgram, ParseStmts, Statements, BlanksTo, SkipNewlines, Size, SizeAll;
    ProgramStep(toks);
    var s := SkipNewlines(toks, 0);
    BlanksEnd(toks, 0, s);
    assert [] + t.kids == t.kids;
    if ParseProgram(toks) == Some(t) {
      var e := ParseStmts(toks, s, EOF, []).value.1;
      StatementsExactly(toks, s, e, EOF, t.kids, []);
      assert ProgramParts(toks, s, e, t.kids);
    }
    if s': nat, e: nat :| ProgramParts(toks, s', e, t.kids) {
      BlanksEnd(toks, 0, s');
      StatementsExactly(toks, s, e, EOF, t.kids, []);
    }
  }

  /** The language is unambiguous: no text is a program of two trees. */
  lemma Unambiguous(toks: seq<Token>, t: Tree, u: Tree)
    requires Ended(toks) && Program(toks, t) && Program(toks, u)
    ensures t == u
  {
    ProgramExactly(toks, t);
    ProgramExactly(toks, u);
    hide Program, ParseProgram;
  }
}

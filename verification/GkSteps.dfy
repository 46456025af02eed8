/** What the grammar says of one step of each parsing function, sizes included. */
module GkSteps {
  import opened Options
  import opened GkSyntax
  import opened GkGrammar

  lemma ArgsStep(toks: seq<Token>, pos: nat, done: seq<Tree>)
    requires Ended(toks) && pos < |toks| && toks[pos] != RPAREN && toks[pos] != EOF
    ensures var e, r := ParseLevel(toks, 1, pos), ParseArgs(toks, pos, done);
            && (e.None? || |done| >= MAX_CHILDREN ==> r.None?)
            && (e.Some? && |done| < MAX_CHILDREN ==>
                  && (r.Some? ==> SizeAll(r.value.0) >= SizeAll(done) + Size(e.value.0))
                  && r == if toks[e.value.1] == COMMA then ParseArgs(toks, e.value.1 + 1, done + [e.value.0])
                          else Some((done + [e.value.0], e.value.1)))
  {
    var e := ParseLevel(toks, 1, pos);
    if e.Some? {
      SizeAllSnoc(done, e.value.0);
    }
    hide ParseLevel;
  }

  lemma ArgsStop(toks: seq<Token>, pos: nat, done: seq<Tree>)
    requires Ended(toks) && pos < |toks| && (toks[pos] == RPAREN || toks[pos] == EOF)
    ensures ParseArgs(toks, pos, done) == Some((done, pos))
  {
  }

  lemma PrimaryOfCall(toks: seq<Token>, pos: nat)
    requires Ended(toks) && pos < |toks| && toks[pos].IDENT? && toks[pos + 1] == LPAREN
    ensures var a, r := ParseArgs(toks, pos + 2, []), ParsePrimary(toks, pos);
            && (a.None? ==> r.None?)
            && (r.Some? ==> Size(r.value.0) == 1 + SizeAll(a.value.0))
            && (a.Some? ==>
                  r == if toks[a.value.1] == RPAREN
                         then Some((CallTree(toks[pos].name, a.value.0), a.value.1 + 1)) else None)
  {
    hide ParseArgs, ParseLevel;
  }

  lemma LevelOfUnary(toks: seq<Token>, pos: nat)
    requires Ended(toks) && pos < |toks|
    ensures if toks[pos] == MINUS || toks[pos] == NOT then
              var e := ParseLevel(toks, 6, pos + 1);
              ParseLevel(toks, 6, pos) == if e.None? then None else Some((UnopTree(toks[pos], e.value.0), e.value.1))
            else
              ParseLevel(toks, 6, pos) == ParsePrimary(toks, pos)
  {
    hide ParsePrimary;
  }

  lemma LevelOfBinary(toks: seq<Token>, l: nat, pos: nat)
    requires Ended(toks) && pos < |toks| && 1 <= l <= 5
    ensures var e, r := ParseLevel(toks, l + 1, pos), ParseLevel(toks, l, pos);
            && (e.None? ==> r.None?)
            && (e.Some? ==> r == ParseTail(toks, l, e.value.0, e.value.1))
            && (r.Some? ==> Size(r.value.0) >= Size(e.value.0))
  {
    hide ParseTail;
  }

  lemma TailStep(toks: seq<Token>, l: nat, left: Tree, pos: nat)
    requires Ended(toks) && pos < |toks| && 1 <= l <= 5
    ensures var r := ParseTail(toks, l, left, pos);
            if OpLevel(toks[pos]) != l then r == Some((left, pos))
            else
              var e := ParseLevel(toks, l + 1, pos + 1);
              && toks[pos] != EOF
              && (e.None? ==> r.None?)
              && (e.Some? ==> r == ParseTail(toks, l, BinopTree(toks[pos], left, e.value.0), e.value.1))
              && (r.Some? ==> Size(r.value.0) >= 1 + Size(left) + Size(e.value.0))
  {
    if OpLevel(toks[pos]) == l && ParseLevel(toks, l + 1, pos + 1).Some? {
      SizePair(left, ParseLevel(toks, l + 1, pos + 1).value.0);
    }
    hide ParseLevel, OpLevel;
  }

  // ----- statements -----

  lemma StmtsStep(toks: seq<Token>, pos: nat, end: Token, done: seq<Tree>)
    requires Ended(toks) && pos < |toks| && toks[pos] != end && toks[pos] != EOF
    ensures var e, r := ParseStmt(toks, pos), ParseStmts(toks, pos, end, done);
            && (e.None? || |done| >= MAX_CHILDREN ==> r.None?)
            && (e.Some? && |done| < MAX_CHILDREN ==>
                  && (r.Some? ==> SizeAll(r.value.0) >= SizeAll(done) + Size(e.value.0))
                  && r == ParseStmts(toks, SkipNewlines(toks, e.value.1), end, done + [e.value.0]))
  {
    var e := ParseStmt(toks, pos);
    if e.Some? {
      SizeAllSnoc(done, e.value.0);
    }
    hide ParseStmt;
  }

  lemma StmtsStop(toks: seq<Token>, pos: nat, end: Token, done: seq<Tree>)
    requires Ended(toks) && pos < |toks| && (toks[pos] == end || toks[pos] == EOF)
    ensures ParseStmts(toks, pos, end, done) == Some((done, pos))
  {
  }

  lemma BlockStep(toks: seq<Token>, pos: nat)
    requires Ended(toks) && pos < |toks|
    ensures var e, r := Expect(toks, pos, INDENT), ParseBlock(toks, pos);
            && (e.None? ==> r.None?)
            && (e.Some? ==>
                  var b := ParseStmts(toks, SkipNewlines(toks, e.value), DEDENT, []);
                  && r == (if b.None? then None else Some((BlockTree(b.value.0), Accept(toks, b.value.1, DEDENT))))
                  && (b.Some? ==> Size(BlockTree(b.value.0)) == 1 + SizeAll(b.value.0)))
  {
    hide ParseStmts, SkipNewlines;
  }

  lemma SuiteStep(toks: seq<Token>, pos: nat)
    requires Ended(toks) && pos < |toks|
    ensures var e := Expect(toks, pos, COLON);
            ParseSuite(toks, pos) == if e.None? then None else ParseBlock(toks, Accept(toks, e.value, NEWLINE))
  {
    hide ParseBlock;
  }

  lemma LineStep(toks: seq<Token>, pos: nat, kind: Kind, name: string)
    requires Ended(toks) && pos < |toks|
    ensures var e, r := ParseLevel(toks, 1, pos), ParseLine(toks, pos, kind, name);
            && (e.None? ==> r.None?)
            && (e.Some? ==> r == Some((Tree(kind, 0, name, EOF, [e.value.0]), Accept(toks, e.value.1, NEWLINE)))
                            && Size(r.value.0) == 1 + Size(e.value.0))
  {
    hide ParseLevel;
    var e := ParseLevel(toks, 1, pos);
    if e.Some? {
      SizeOne(e.value.0);
    }
  }

  lemma UnopSize(op: Token, t: Tree)
    ensures Size(UnopTree(op, t)) == 1 + Size(t)
  {
    SizeOne(t);
  }

  lemma SizeOne(t: Tree)
    ensures SizeAll([t]) == Size(t)
  {
    SizeAllSnoc([], t);
    assert [] + [t] == [t];
  }

  lemma LoopStep(toks: seq<Token>, pos: nat, kind: Kind, name: string)
    requires Ended(toks) && pos < |toks|
    ensures var e, r := ParseLevel(toks, 1, pos), ParseLoop(toks, pos, kind, name);
            && (e.None? ==> r.None?)
            && (r.Some? ==> Size(r.value.0) >= 1 + Size(e.value.0))
            && (e.Some? ==>
                  var b := ParseSuite(toks, e.value.1);
                  && r == (if b.None? then None
                      else Some((Tree(kind, 0, name, EOF, [e.value.0, b.value.0]), b.value.1)))
                  && (b.Some? ==> Size(r.value.0) == 1 + Size(e.value.0) + Size(b.value.0)))
  {
    hide ParseLevel, ParseSuite;
    var e := ParseLevel(toks, 1, pos);
    if e.Some? && ParseSuite(toks, e.value.1).Some? {
      SizePair(e.value.0, ParseSuite(toks, e.value.1).value.0);
    }
  }

  lemma ParamsStep(toks: seq<Token>, pos: nat, done: seq<Tree>)
    requires Ended(toks) && pos < |toks| && toks[pos] != RPAREN && toks[pos] != EOF
    ensures var r := ParseParams(toks, pos, done);
            if !toks[pos].IDENT? then r.None?
            else
              var t := VarTree(toks[pos].name);
              && (r.Some? ==> SizeAll(r.value.0) >= SizeAll(done) + Size(t))
              && r == if toks[pos + 1] == COMMA
                        then ParseParams(toks, pos + 2, done + [t]) else Some((done + [t], pos + 1))
  {
    if toks[pos].IDENT? {
      SizeAllSnoc(done, VarTree(toks[pos].name));
    }
  }

  lemma ParamsStop(toks: seq<Token>, pos: nat, done: seq<Tree>)
    requires Ended(toks) && pos < |toks| && (toks[pos] == RPAREN || toks[pos] == EOF)
    ensures ParseParams(toks, pos, done) == Some((done, pos))
  {
  }

  lemma DefNone(toks: seq<Token>, pos: nat)
    requires Ended(toks) && pos < |toks| && toks[pos] == DEF
    ensures pos + 1 < |toks| && (toks[pos + 1].IDENT? ==> pos + 2 < |toks|)
    ensures !toks[pos + 1].IDENT? || toks[pos + 2] != LPAREN ==> ParseDef(toks, pos) == None
  {
  }

  lemma DefStep(toks: seq<Token>, pos: nat)
    requires Ended(toks) && pos < |toks| && toks[pos] == DEF && toks[pos + 1].IDENT? && toks[pos + 2] == LPAREN
    ensures var a, r := ParseParams(toks, pos + 3, []), ParseDef(toks, pos);
            && (a.None? ==> r.None?)
            && (r.Some? ==> Size(r.value.0) >= 1 + SizeAll(a.value.0))
            && (a.Some? && toks[a.value.1] != RPAREN ==> r.None?)
            && (a.Some? && toks[a.value.1] == RPAREN ==>
                  var b := ParseSuite(toks, a.value.1 + 1);
                  && r == (if b.None? then None
                      else Some((Tree(NDef, 0, toks[pos + 1].name, EOF, a.value.0 + [b.value.0]), b.value.1)))
                  && (b.Some? ==> Size(r.value.0) == 1 + SizeAll(a.value.0) + Size(b.value.0)))
  {
    hide ParseSuite, ParseParams;
    var a := ParseParams(toks, pos + 3, []);
    if a.Some? && toks[a.value.1] == RPAREN && ParseSuite(toks, a.value.1 + 1).Some? {
      SizeAllSnoc(a.value.0, ParseSuite(toks, a.value.1 + 1).value.0);
    }
  }

  /** The condition and body of an If are read as those of a loop are. */
  lemma IfStep(toks: seq<Token>, pos: nat)
    requires Ended(toks) && pos < |toks| && (toks[pos] == IF || toks[pos] == ELIF)
    ensures var h, r := ParseLoop(toks, pos + 1, NIf, ""), ParseIf(toks, pos);
            && (h.None? ==> r.None?)
            && (h.Some? ==>
                  && h.value.0 == Tree(NIf, 0, "", EOF, h.value.0.kids) && |h.value.0.kids| == 2
                  && r == IfEnd(toks, h.value.0.kids[0], h.value.0.kids[1], SkipNewlines(toks, h.value.1)))
  {
    hide ParseLevel, ParseSuite, SkipNewlines, ParseStmt;
  }

  lemma IfSize(toks: seq<Token>, pos: nat)
    requires Ended(toks) && pos < |toks| && (toks[pos] == IF || toks[pos] == ELIF)
    ensures var h, r := ParseLoop(toks, pos + 1, NIf, ""), ParseIf(toks, pos);
            h.Some? && r.Some? ==> Size(r.value.0) >= Size(h.value.0)
  {
    hide ParseLoop, ParseIf, IfEnd, Size, SizeAll, SkipNewlines;
    var h := ParseLoop(toks, pos + 1, NIf, "");
    IfStep(toks, pos);
    if h.Some? {
      var kids := h.value.0.kids;
      IfEndStep(toks, kids[0], kids[1], SkipNewlines(toks, h.value.1));
      PairSize(NIf, "", kids[0], kids[1]);
      assert kids == [kids[0], kids[1]];
    }
  }

  lemma PairSize(kind: Kind, name: string, a: Tree, b: Tree)
    ensures Size(Tree(kind, 0, name, EOF, [a, b])) == 1 + Size(a) + Size(b)
  {
    SizePair(a, b);
  }

  /** What follows the body of an If: an elif, an else, or nothing. */
  function IfEnd(toks: seq<Token>, cond: Tree, body: Tree, pos: nat): (r: Parse<Tree>)
    requires Ended(toks) && pos < |toks|
  {
    var rest := if toks[pos] == ELIF then ParseStmt(toks, pos)
                else if toks[pos] == ELSE then ParseSuite(toks, pos + 1) else None;
    if toks[pos] != ELIF && toks[pos] != ELSE then Some((Tree(NIf, 0, "", EOF, [cond, body]), pos))
    else if rest.None? then None
    else Some((Tree(NIf, 0, "", EOF, [cond, body, rest.value.0]), rest.value.1))
  }

  lemma IfEndStep(toks: seq<Token>, cond: Tree, body: Tree, pos: nat)
    requires Ended(toks) && pos < |toks|
    ensures var r := IfEnd(toks, cond, body, pos);
            r.Some? ==> Size(r.value.0) == 1 + Size(cond) + Size(body) + SizeAll(r.value.0.kids[2..])
                        && (|r.value.0.kids| == 3 ==> SizeAll(r.value.0.kids[2..]) == Size(r.value.0.kids[2]))
  {
    hide ParseStmt, ParseSuite;
    SizePair(cond, body);
    var r := IfEnd(toks, cond, body, pos);
    if r.Some? && |r.value.0.kids| == 3 {
      var t := r.value.0.kids[2];
      assert [cond, body] + [t] == [cond, body, t] && [cond, body, t][2..] == [t];
      SizeAllSnoc([cond, body], t);
      SizeOne(t);
    }
  }

  lemma ProgramStep(toks: seq<Token>)
    requires Ended(toks)
    ensures var b := ParseStmts(toks, SkipNewlines(toks, 0), EOF, []);
            && ParseProgram(toks) == (if b.None? then None else Some(BlockTree(b.value.0)))
            && (b.Some? ==> Size(BlockTree(b.value.0)) == 1 + SizeAll(b.value.0) && toks[b.value.1] == EOF)
  {
    hide ParseStmts, SkipNewlines;
  }
}

/** Two programs, from their text to their output, that do not do what the language guide says. */
module GkExamples {
  import opened Options
  import opened GkSyntax
  import opened GkGrammar
  import opened GkPrint
  import opened GkPrintStmt
  import opened GkMeaning
  import opened GkText
  import opened GkSource
  import opened GkPrograms
  import opened GkEquations

  // ----- evaluating small trees -----

  lemma DefNode(f: nat, name: string, body: Tree, st: St)
    requires |st.funcs| < MAX_FUNCS
    ensures Eval(f + 1, Some(NodeTree(NDef, name, [body])), st)
            == Ok(VNone, st.(funcs := st.funcs + [Func(name, [], body)]))
  {
    var t := NodeTree(NDef, name, [body]);
    assert Eval(f + 1, Some(t), st) == EvalDef(t, st);
    assert Names(t.kids[..0]) == [];
  }

  /** A call of the first function defined, without arguments. */
  lemma CallNode(f: nat, name: string, body: Tree, st: St)
    requires CallKind(name) == NCall && st.funcs == [Func(name, [], body)] && |st.scopes| <= MAX_CALL_DEPTH
    ensures Eval(f + 1, Some(CallTree(name, [])), st)
         == match Eval(f, Some(body), st.(scopes := st.scopes + [map[]]))
            case Bad(e) => Bad(e)
            case Ok(v, st1) => Leave(v, st1)
  {
    var t := CallTree(name, []);
    var inner := st.scopes + [map[]];
    assert Eval(f + 1, Some(t), st) == EvalCall(f, t, st);
    assert EvalArgs(f, [], [], st) == Oks([], st);
    assert Bind(inner, [], [], 0) == Some(inner);
    hide Eval, Leave;
  }

  lemma PrintNode(f: nat, t: Tree, st: St)
    ensures Eval(f + 1, Some(CallTree("print", [t])), st)
         == match Eval(f, Some(t), st)
            case Bad(e) => Bad(e)
            case Ok(v, st1) => if HasText(v) then Ok(VNone, st1.(out := st1.out + [Text(v)] + ["\n"]))
                else Bad(Overflow)
  {
    var p := CallTree("print", [t]);
    assert Eval(f + 1, Some(p), st) == EvalPrint(f, [t], 0, st);
    hide Text;
    var o := Eval(f, Some(t), st);
    if o.Ok? && HasText(o.v) {
      var st1 := Printed(o.st, o.v, false);
      assert EvalPrint(f, [t], 1, st1) == Ok(VNone, st1.(out := st1.out + ["\n"]));
      assert o.st.out + [Text(o.v)] + [] == o.st.out + [Text(o.v)];
    }
  }

  /** A statement that leaves nothing pending, in front of the rest of its block. */
  lemma BlockNode(f: nat, first: Tree, rest: seq<Tree>, st: St, v: Value, st1: St)
    requires rest != [] && Eval(f, Some(first), st) == Ok(v, st1) && !st1.flags.Any()
    ensures Eval(f + 1, Some(BlockTree([first] + rest)), st) == Eval(f + 1, Some(BlockTree(rest)), st1)
  {
    var ts := [first] + rest;
    assert Eval(f + 1, Some(BlockTree(ts)), st) == EvalBlock(f, ts, 0, VNone, st) == EvalBlock(f, ts, 1, v, st1);
    BlockShift(f, first, rest, 0, v, VNone, st1);
    assert Eval(f + 1, Some(BlockTree(rest)), st1) == EvalBlock(f, rest, 0, VNone, st1);
  }

  lemma {:induction false} BlockShift(f: nat, first: Tree, rest: seq<Tree>, i: nat, a: Value, b: Value, st: St)
    requires i <= |rest| && (i == |rest| ==> a == b)
    ensures EvalBlock(f, [first] + rest, i + 1, a, st) == EvalBlock(f, rest, i, b, st)
    decreases |rest| - i
  {
    hide Eval;
    if i < |rest| {
      assert ([first] + rest)[i + 1] == rest[i];
      var o := Eval(f, Some(rest[i]), st);
      if o.Ok? && !o.st.flags.Any() {
        BlockShift(f, first, rest, i + 1, o.v, o.v, o.st);
      }
    }
  }

  // ----- a function without a return -----

  /** def f(): 5, then print(f()). */
  function Five(): seq<Stmt> {
    [Def("f", [], [ExprStmt(IntLit(5))]), ExprStmt(Call("print", [Call("f", [])]))]
  }

  function FiveDef(): Tree { NodeTree(NDef, "f", [BlockTree([IntTree(5)])]) }
  function FivePrint(): Tree { CallTree("print", [CallTree("f", [])]) }

  lemma FiveRead()
    ensures Program(Source(Five())) == Some(BlockTree([FiveDef(), FivePrint()]))
  {
    FiveParts();
    FiveSize();
    hide *;
    Read(Five(), BlockTree([FiveDef(), FivePrint()]));
  }

  lemma FiveParts()
    ensures BlockTree(StmtTrees(Five())) == BlockTree([FiveDef(), FivePrint()])
    ensures BlockFits(Five()) && StmtsOk(Five()) && |PrintStmts(Five())| <= 60
  {
    var ss, body := Five(), [ExprStmt(IntLit(5))];
    StmtsTwo(ss[0], ss[1]);
    CallPrint(Call("f", []));
    DefOne("f", ExprStmt(IntLit(5)));
    CallTrees("f");
    NameF();
    hide Print, Plain, PrintAs, StmtTree, StmtFits, StmtOk, ExprTree, IsName;
  }

  lemma FiveSize()
    ensures Size(BlockTree([FiveDef(), FivePrint()])) <= 20
  {
    SizeTwo(FiveDef(), FivePrint());
    SizeOne(BlockTree([IntTree(5)]), NDef, "f", EOF);
    SizeOne(IntTree(5), NBlock, "", EOF);
    SizeOne(CallTree("f", []), NPrint, "print", EOF);
    SizeNone(IntTree(5));
    SizeNone(CallTree("f", []));
  }

  /** A short program is read as its tree. */
  lemma Read(ss: seq<Stmt>, t: Tree)
    requires BlockTree(StmtTrees(ss)) == t && BlockFits(ss) && StmtsOk(ss) && |PrintStmts(ss)| <= 60 && Size(t) <= 20
    ensures Program(Source(ss)) == Some(t)
  {
    hide StmtTrees, PrintStmts, BlockFits, StmtsOk, Size, Program, Source;
    WrittenMeans(ss, [], 0);
  }

  lemma CallTrees(name: string)
    ensures ExprTree(Call(name, [])) == CallTree(name, []) && Plain(Call(name, [])) == [IDENT(name), LPAREN, RPAREN]
    ensures Fits(Call(name, [])) && (IsName(name) ==> ExprOk(Call(name, [])))
  {
    assert ExprTrees([]) == [] && PrintArgs([]) == [];
    assert [IDENT(name), LPAREN] + [] + [RPAREN] == [IDENT(name), LPAREN, RPAREN];
  }

  /** A statement that prints one value. */
  lemma CallPrint(e: Expr)
    ensures var s := ExprStmt(Call("print", [e]));
            && StmtTree(s) == CallTree("print", [ExprTree(e)]) && |PrintAs(s, IF)| == |Plain(e)| + 4
            && StmtFits(s) == Fits(e) && (StmtOk(s) <==> ExprOk(e))
  {
    hide Plain, ExprTree, Fits, ExprOk, IsName;
    NameF();
    OneArgument(e);
    CallParts("print", [e]);
  }

  lemma OneArgument(e: Expr)
    ensures ExprTrees([e]) == [ExprTree(e)] && PrintArgs([e]) == Plain(e)
    ensures FitsAll([e]) == Fits(e) && ExprsOk([e]) == ExprOk(e)
  {
    hide Plain, ExprTree, Fits, ExprOk;
    assert [e][1..] == [] && ExprTrees([]) == [];
  }

  lemma CallParts(f: string, args: seq<Expr>)
    ensures ExprTree(Call(f, args)) == CallTree(f, ExprTrees(args)) && Print(Call(f, args), 1) == Plain(Call(f, args))
    ensures |Plain(Call(f, args))| == |PrintArgs(args)| + 3
    ensures Fits(Call(f, args)) == (|args| <= MAX_CHILDREN && FitsAll(args))
    ensures ExprOk(Call(f, args)) == (IsName(f) && ExprsOk(args))
  {
    hide ExprTrees, PrintArgs, FitsAll, ExprsOk, IsName;
  }

  /** A definition without parameters, of one statement. */
  lemma DefOne(f: string, s: Stmt)
    ensures var d := Def(f, [], [s]);
            && StmtTree(d) == NodeTree(NDef, f, [BlockTree([StmtTree(s)])]) && |PrintAs(d, IF)| == |PrintAs(s, IF)| + 8
            && StmtFits(d) == StmtFits(s) && (StmtOk(d) <==> IsName(f) && StmtOk(s))
  {
    StmtsOne(s);
    assert ParamTrees([]) == [] && PrintParams([]) == [];
    assert [] + [BlockTree([StmtTree(s)])] == [BlockTree([StmtTree(s)])];
    DefParts(f, [s]);
  }

  lemma DefParts(f: string, body: seq<Stmt>)
    ensures var d := Def(f, [], body);
            && StmtTree(d) == NodeTree(NDef, f, ParamTrees([]) + [BlockTree(StmtTrees(body))])
            && |PrintAs(d, IF)| == |PrintParams([])| + |PrintStmts(body)| + 8
            && StmtFits(d) == BlockFits(body) && (StmtOk(d) <==> IsName(f) && BodyOk(body))
  {
    hide StmtTrees, PrintStmts, BlockFits, BodyOk, IsName, ParamTrees, PrintParams;
    assert NamesOk([]);
  }

  lemma NameF()
    ensures IsName("f") && IsName("print")
  {
    assert WordToken("f") == IDENT("f") && WordToken("print") == IDENT("print");
  }

  lemma StmtsOne(s: Stmt)
    ensures StmtTrees([s]) == [StmtTree(s)] && PrintStmts([s]) == PrintAs(s, IF)
    ensures StmtsFit([s]) == StmtFits(s) && StmtsOk([s]) == StmtOk(s) && BodyOk([s]) == StmtOk(s)
  {
    hide StmtTree, PrintAs, StmtFits, StmtOk;
    assert StmtTrees([]) == [] && PrintStmts([]) == [] && StmtsFit([]) && StmtsOk([]);
    assert [s][1..] == [];
  }

  lemma StmtsTwo(s: Stmt, r: Stmt)
    ensures StmtTrees([s, r]) == [StmtTree(s), StmtTree(r)] && PrintStmts([s, r]) == PrintAs(s, IF) + PrintAs(r, IF)
    ensures StmtsFit([s, r]) == (StmtFits(s) && StmtFits(r)) && StmtsOk([s, r]) == (StmtOk(s) && StmtOk(r))
  {
    hide StmtTree, PrintAs, StmtFits, StmtOk;
    StmtsOne(r);
    assert [s, r][1..] == [r];
  }

  lemma SizeNone(t: Tree)
    requires t.kids == []
    ensures Size(t) == 1
  {
  }

  lemma SizeOne(t: Tree, kind: Kind, name: string, op: Token)
    ensures Size(Tree(kind, 0, name, op, [t])) == 1 + Size(t)
  {
    SizeAllSnoc([], t);
    assert [] + [t] == [t];
  }

  lemma SizeTwo(a: Tree, b: Tree)
    ensures Size(BlockTree([a, b])) == 1 + Size(a) + Size(b)
  {
    SizePair(a, b);
  }

  /** The guide says that f() is None; 5 is printed. */
  lemma NotNone(f: nat, input: seq<string>)
    requires f >= 5
    ensures var o := Eval(f, Program(Source(Five())), Initial(input));
            o.Ok? && o.st.out == ["5", "\n"]
  {
    var g, st, five := f - 5, Initial(input), BlockTree([IntTree(5)]);
    FiveRead();
    hide Eval, Program, Source, Five, Leave;
    var st1 := st.(funcs := st.funcs + [Func("f", [], five)]);
    DefNode(g + 3, "f", five, st);
    BlockNode(g + 4, FiveDef(), [FivePrint()], st, VNone, st1);
    assert [FiveDef()] + [FivePrint()] == [FiveDef(), FivePrint()];
    OneInBlock(g + 4, FivePrint(), st1);
    PrintNode(g + 3, CallTree("f", []), st1);
    var inner := st1.(scopes := st1.scopes + [map[]]);
    CallNode(g + 2, "f", five, st1);
    OneInBlock(g + 1, IntTree(5), inner);
    LiteralNode(g, 5, inner);
    LeaveFive(inner);
  }

  lemma LiteralNode(f: nat, n: int, st: St)
    ensures Eval(f + 1, Some(IntTree(n)), st) == Ok(VInt(n), st)
  {
  }

  lemma LeaveFive(st: St)
    requires !st.flags.returning && |st.scopes| > 0
    ensures Leave(VInt(5), st) == Ok(VInt(5), st.(scopes := st.scopes[..|st.scopes| - 1]))
    ensures Text(VInt(5)) == "5" && HasText(VInt(5))
  {
  }

  // ----- a break that leaves its function -----

  /** def f(): break, then while True: f(), then print("done"). */
  function Endless(): seq<Stmt> {
    [Def("f", [], [Break]), While(BoolLit(true), [ExprStmt(Call("f", []))]), ExprStmt(Call("print", [StrLit("done")]))]
  }

  function BreakBody(): Tree { BlockTree([NodeTree(NBreak, "", [])]) }
  function BreakDef(): Tree { NodeTree(NDef, "f", [BreakBody()]) }
  function CallLoop(): Tree { NodeTree(NWhile, "", [BoolTree(true), BlockTree([CallTree("f", [])])]) }
  function DonePrint(): Tree { CallTree("print", [StrTree("done")]) }

  lemma EndlessRead()
    ensures Program(Source(Endless())) == Some(BlockTree([BreakDef(), CallLoop(), DonePrint()]))
  {
    EndlessParts();
    EndlessSize();
    hide *;
    Read(Endless(), BlockTree([BreakDef(), CallLoop(), DonePrint()]));
  }

  lemma EndlessParts()
    ensures BlockTree(StmtTrees(Endless())) == BlockTree([BreakDef(), CallLoop(), DonePrint()])
    ensures BlockFits(Endless()) && StmtsOk(Endless()) && |PrintStmts(Endless())| <= 60
  {
    var ss := Endless();
    StmtsThree(ss[0], ss[1], ss[2]);
    DefOne("f", Break);
    WhileOne(Call("f", []));
    CallPrint(StrLit("done"));
    CallTrees("f");
    NameF();
    hide Print, Plain, PrintAs, StmtTree, StmtFits, StmtOk, ExprTree, IsName;
  }

  lemma EndlessSize()
    ensures Size(BlockTree([BreakDef(), CallLoop(), DonePrint()])) <= 20
  {
    SizeThree(BreakDef(), CallLoop(), DonePrint());
    SizeOne(BreakBody(), NDef, "f", EOF);
    SizeOne(NodeTree(NBreak, "", []), NBlock, "", EOF);
    SizeNone(NodeTree(NBreak, "", []));
    SizeLoop();
    SizeOne(StrTree("done"), NPrint, "print", EOF);
    SizeNone(StrTree("done"));
  }

  lemma SizeLoop()
    ensures Size(CallLoop()) == 4
  {
    var body := BlockTree([CallTree("f", [])]);
    SizePair(BoolTree(true), body);
    SizeOne(CallTree("f", []), NBlock, "", EOF);
    SizeNone(CallTree("f", []));
    SizeNone(BoolTree(true));
  }

  lemma SizeThree(a: Tree, b: Tree, c: Tree)
    ensures Size(BlockTree([a, b, c])) == 1 + Size(a) + Size(b) + Size(c)
  {
    SizePair(a, b);
    SizeAllSnoc([a, b], c);
    assert [a, b] + [c] == [a, b, c];
  }

  lemma StmtsThree(s: Stmt, r: Stmt, q: Stmt)
    ensures StmtTrees([s, r, q]) == [StmtTree(s), StmtTree(r), StmtTree(q)]
    ensures PrintStmts([s, r, q]) == PrintAs(s, IF) + (PrintAs(r, IF) + PrintAs(q, IF))
    ensures StmtsFit([s, r, q]) == (StmtFits(s) && StmtFits(r) && StmtFits(q))
    ensures StmtsOk([s, r, q]) == (StmtOk(s) && StmtOk(r) && StmtOk(q))
  {
    hide StmtTree, PrintAs, StmtFits, StmtOk;
    StmtsTwo(r, q);
    assert [s, r, q][1..] == [r, q];
  }

  /** while True, around one expression. */
  lemma WhileOne(e: Expr)
    ensures var w := While(BoolLit(true), [ExprStmt(e)]);
            && StmtTree(w) == NodeTree(NWhile, "", [BoolTree(true), BlockTree([ExprTree(e)])])
            && |PrintAs(w, IF)| == |Plain(e)| + 7
            && StmtFits(w) == Fits(e) && (StmtOk(w) <==> ExprOk(e))
  {
    hide Plain, ExprTree, Fits, ExprOk;
    StmtsOne(ExprStmt(e));
    ExprParts(e);
    assert Print(BoolLit(true), 1) == [TRUE] && ExprTree(BoolLit(true)) == BoolTree(true) by { BoolParts(); }
    assert Fits(BoolLit(true)) && ExprOk(BoolLit(true)) by { BoolParts(); }
    WhileParts(BoolLit(true), [ExprStmt(e)]);
  }

  lemma BoolParts()
    ensures Print(BoolLit(true), 1) == [TRUE] && ExprTree(BoolLit(true)) == BoolTree(true)
    ensures Fits(BoolLit(true)) && ExprOk(BoolLit(true))
  {
  }

  lemma ExprParts(e: Expr)
    ensures var s := ExprStmt(e);
            && StmtTree(s) == ExprTree(e) && |PrintAs(s, IF)| == |Plain(e)| + 1
            && StmtFits(s) == Fits(e) && (StmtOk(s) <==> ExprOk(e))
  {
    hide Plain, ExprTree, Fits, ExprOk;
  }

  lemma WhileParts(c: Expr, body: seq<Stmt>)
    ensures var w := While(c, body);
            && StmtTree(w) == NodeTree(NWhile, "", [ExprTree(c), BlockTree(StmtTrees(body))])
            && |PrintAs(w, IF)| == |Print(c, 1)| + |PrintStmts(body)| + 5
            && StmtFits(w) == (Fits(c) && BlockFits(body)) && (StmtOk(w) <==> ExprOk(c) && BodyOk(body))
  {
    hide StmtTrees, PrintStmts, BlockFits, BodyOk, Print, ExprTree, Fits, ExprOk;
  }

  /** The break in f ends the caller's endless loop, and the program goes on to its last line. */
  lemma BreakEscapes(f: nat, input: seq<string>)
    requires f >= 7
    ensures var o := Eval(f, Program(Source(Endless())), Initial(input));
            o.Ok? && o.st.out == ["done", "\n"]
    ensures !AllInLoops(Endless(), false)
  {
    var g, st := f - 7, Initial(input);
    EndlessRead();
    NotInLoops();
    hide Eval, Program, Source, Endless, AllInLoops;
    var st1 := st.(funcs := st.funcs + [Func("f", [], BreakBody())]);
    DefNode(g + 5, "f", BreakBody(), st);
    BlockNode(g + 6, BreakDef(), [CallLoop(), DonePrint()], st, VNone, st1);
    assert [BreakDef()] + [CallLoop(), DonePrint()] == [BreakDef(), CallLoop(), DonePrint()];
    LoopEnds(g, st1);
    BlockNode(g + 6, CallLoop(), [DonePrint()], st1, VNone, st1);
    assert [CallLoop()] + [DonePrint()] == [CallLoop(), DonePrint()];
    OneInBlock(g + 6, DonePrint(), st1);
    PrintNode(g + 5, StrTree("done"), st1);
    assert Eval(g + 5, Some(StrTree("done")), st1) == Ok(VStr("done"), st1) by { TextNode(g + 4, "done", st1); }
  }

  lemma TextNode(f: nat, s: string, st: St)
    ensures Eval(f + 1, Some(StrTree(s)), st) == Ok(VStr(s), st)
  {
  }

  lemma NotInLoops()
    ensures !AllInLoops(Endless(), false)
  {
    var d := Endless()[0];
    assert !AllInLoops([Break], false);
    assert !InLoops(d, false);
  }

  lemma BreakNode(f: nat, st: St)
    ensures Eval(f + 1, Some(NodeTree(NBreak, "", [])), st) == Ok(VNone, st.(flags := st.flags.(breaking := true)))
  {
  }

  lemma LeaveNothing(v: Value, st: St)
    requires !st.flags.returning && st.scopes != []
    ensures Leave(v, st) == Ok(v, st.(scopes := st.scopes[..|st.scopes| - 1]))
  {
  }

  /** Calling f leaves a break pending. */
  lemma CallBreaks(f: nat, st: St)
    requires st.funcs == [Func("f", [], BreakBody())] && 0 < |st.scopes| <= MAX_CALL_DEPTH && !st.flags.returning
    ensures Eval(f + 3, Some(CallTree("f", [])), st) == Ok(VNone, st.(flags := st.flags.(breaking := true)))
  {
    hide Eval, Leave;
    var inner := st.(scopes := st.scopes + [map[]]);
    CallNode(f + 2, "f", BreakBody(), st);
    OneInBlock(f + 1, NodeTree(NBreak, "", []), inner);
    BreakNode(f, inner);
    LeaveNothing(VNone, inner.(flags := inner.flags.(breaking := true)));
    assert inner.scopes[..|inner.scopes| - 1] == st.scopes;
  }

  /** A loop whose condition is True and whose body breaks. */
  lemma LoopNode(f: nat, body: Tree, st: St, st1: St)
    requires Eval(f + 1, Some(body), st) == Ok(VNone, st1) && st1.flags.breaking && !st1.flags.returning
    ensures Eval(f + 2, Some(NodeTree(NWhile, "", [BoolTree(true), body])), st)
         == Ok(VNone, st1.(flags := st1.flags.(breaking := false)))
  {
    var t := NodeTree(NWhile, "", [BoolTree(true), body]);
    WhileIs(f + 1, t, st);
    TrueNode(f, st);
    assert Kid(t, 0) == Some(BoolTree(true)) && Kid(t, 1) == Some(body);
    hide Eval;
  }

  lemma WhileIs(f: nat, t: Tree, st: St)
    requires t.kind == NWhile
    ensures Eval(f + 1, Some(t), st) == EvalWhile(f, t, VNone, st)
  {
    hide EvalWhile;
  }

  lemma TrueNode(f: nat, st: St)
    ensures Eval(f + 1, Some(BoolTree(true)), st) == Ok(VBool(true), st)
  {
  }

  lemma LoopEnds(f: nat, st: St)
    requires st.funcs == [Func("f", [], BreakBody())] && 0 < |st.scopes| <= MAX_CALL_DEPTH && !st.flags.Any()
    ensures Eval(f + 6, Some(CallLoop()), st) == Ok(VNone, st)
  {
    hide Eval;
    CallBreaks(f + 1, st);
    OneInBlock(f + 4, CallTree("f", []), st);
    LoopNode(f + 4, BlockTree([CallTree("f", [])]), st, st.(flags := st.flags.(breaking := true)));
  }
}

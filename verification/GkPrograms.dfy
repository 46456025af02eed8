/** Whole programs: parse, run, and what that means for the program as written. */
module GkPrograms {
  import opened Options
  import opened GkSyntax
  import opened GkGrammar
  import opened GkPrint
  import opened GkPrintStmt
  import opened GkParser
  import opened GkTree
  import opened GkMeaning
  import opened GkLaws
  import opened GkInterp
  import opened GkText
  import opened GkLexer
  import opened GkSource

  /** The evaluation state a program starts in. */
  function Initial(input: seq<string>): St {
    St([map[]], [], Flags(false, false, false, VNone), input, [])
  }

  /** The program a source text is, if all its tokens and all its nodes fit. */
  function Program(src: string): Option<Tree> {
    match Tokens(src)
    case None => None
    case Some(ts) =>
      if |ts| > MAX_TOKENS || !Ended(ts) then None
      else
        match ParseProgram(ts)
        case None => None
        case Some(t) => if Size(t) > MAX_NODES then None else Some(t)
  }

  /** How a run ends: refused by the lexer or parser, stopped by an error, or at the end of the program. */
  datatype Verdict = Refused | Stopped(fault: Fault) | Ran(out: seq<string>)

  /** What no stage checks: the depth of the indentation, the size of the numbers, the parameters of a
      definition. */
  ghost predicate Runnable(src: string) {
    WithinLimits(src) && (Tokens(src).Some? ==> DefsFit(Tokens(src).value))
  }

  /** gk_run: the verdict on a text is what its tree means. It is `Stopped(Overflow)` exactly where an int
      leaves its 32 bits and the original is undefined. */
  method Run(src: string, input: seq<string>, fuel: nat) returns (r: Verdict)
    requires Runnable(src)
    ensures r == match Program(src)
                 case None => Refused
                 case Some(t) =>
                   match Eval(fuel, Some(t), Initial(input))
                   case Bad(e) => Stopped(e)
                   case Ok(_, st) => Ran(st.out)
  {
    hide Eval, ParseProgram, Size, Rep, Tokens, DefsFit, WithinLimits;
    var l := new Lexer();
    var ok := l.Lex(src);
    if !ok {
      return Refused;
    }
    TokensBalance(src);
    var p := new Parser(l.tokens);
    var root := p.Parse();
    if root < 0 {
      return Refused;
    }
    ghost var t := ParseProgram(l.tokens);
    var s := new Interp(p.nodes, input);
    assert Held(p.nodes, root, t.value);
    var _ := s.Run(fuel, root, t, Initial(input));
    r := if s.fault == None then Ran(s.out) else Stopped(s.fault.value);
  }

  /** A program written down within the limits is that program, and means its own tree: nothing is lost
      between text and evaluation. */
  lemma WrittenMeans(ss: seq<Stmt>, input: seq<string>, fuel: nat)
    requires BlockFits(ss) && StmtsOk(ss) && |PrintProgram(ss)| <= MAX_TOKENS
    ensures var t := BlockTree(StmtTrees(ss));
            && Program(Source(ss)) == (if Size(t) <= MAX_NODES then Some(t) else None)
            && (Size(t) <= MAX_NODES ==>
                Eval(fuel, Program(Source(ss)), Initial(input)) == Eval(fuel, Some(t), Initial(input)))
  {
    hide Eval, BlockFits, StmtsOk, Size;
    SourceRoundTrip(ss);
    ProgramRoundTrip(ss);
    hide Tokens, Source, PrintProgram, ParseProgram;
  }

  // ----- break and continue in the program as written -----

  /** Every break and continue is inside a loop of its own function. */
  predicate InLoops(s: Stmt, inLoop: bool)
    decreases s
  {
    match s
    case Break => inLoop
    case Continue => inLoop
    case Def(_, _, body) => AllInLoops(body, false)
    case If(_, body, NoElse) => AllInLoops(body, inLoop)
    case If(_, body, Elif(s')) => AllInLoops(body, inLoop) && InLoops(s', inLoop)
    case If(_, body, Else(body')) => AllInLoops(body, inLoop) && AllInLoops(body', inLoop)
    case While(_, body) => AllInLoops(body, true)
    case For(_, _, body) => AllInLoops(body, true)
    case _ => true
  }

  predicate AllInLoops(ss: seq<Stmt>, inLoop: bool)
    decreases ss
  {
    ss == [] || (InLoops(ss[0], inLoop) && AllInLoops(ss[1..], inLoop))
  }

  ghost predicate AllPlaced(ts: seq<Tree>, p: Place) {
    forall i :: 0 <= i < |ts| ==> Placed(ts[i], p)
  }

  lemma {:induction false} ExprPlaced(e: Expr, p: Place)
    ensures Placed(ExprTree(e), p)
    decreases e
  {
    match e
    case Call(f, args) => ExprsPlaced(args);
    case Un(_, x) => ExprPlaced(x, InExpr);
    case Bin(_, l, r) => ExprPlaced(l, InExpr); ExprPlaced(r, InExpr);
    case _ =>
  }

  lemma {:induction false} ExprsPlaced(es: seq<Expr>)
    ensures AllPlaced(ExprTrees(es), InExpr)
    decreases es
  {
    if es != [] {
      ExprPlaced(es[0], InExpr);
      ExprsPlaced(es[1..]);
    }
  }

  function PlaceOf(inLoop: bool): Place {
    if inLoop then InLoop else Outside
  }

  lemma {:induction false} BlockPlaced(ss: seq<Stmt>, inLoop: bool)
    requires AllInLoops(ss, inLoop)
    ensures Placed(BlockTree(StmtTrees(ss)), PlaceOf(inLoop))
    decreases ss, 1
  {
    StmtsPlaced(ss, inLoop);
  }

  lemma {:induction false} StmtsPlaced(ss: seq<Stmt>, inLoop: bool)
    requires AllInLoops(ss, inLoop)
    ensures AllPlaced(StmtTrees(ss), PlaceOf(inLoop))
    decreases ss, 0
  {
    if ss != [] {
      StmtPlaced(ss[0], inLoop);
      StmtsPlaced(ss[1..], inLoop);
    }
  }

  lemma {:induction false} StmtPlaced(s: Stmt, inLoop: bool)
    requires InLoops(s, inLoop)
    ensures Placed(StmtTree(s), PlaceOf(inLoop))
    decreases s, 2
  {
    match s
    case ExprStmt(e) => ExprPlaced(e, PlaceOf(inLoop));
    case Assign(_, e) => ExprPlaced(e, InExpr);
    case Return(Some(e)) => ExprPlaced(e, InExpr);
    case Def(_, params, body) => BlockPlaced(body, false); DefPlaced(s, inLoop);
    case If(_, _, _) => IfPlaced(s, inLoop);
    case While(c, body) => ExprPlaced(c, InExpr); BlockPlaced(body, true);
    case For(_, iter, body) => ExprPlaced(iter, InExpr); BlockPlaced(body, true);
    case _ =>
  }

  lemma {:induction false} IfPlaced(s: Stmt, inLoop: bool)
    requires s.If? && InLoops(s, inLoop)
    ensures Placed(StmtTree(s), PlaceOf(inLoop))
    decreases s, 0
  {
    ExprPlaced(s.cond, InExpr);
    BlockPlaced(s.body, inLoop);
    match s.orelse
    case NoElse =>
    case Elif(s') => StmtPlaced(s', inLoop);
    case Else(body') => BlockPlaced(body', inLoop);
  }

  lemma DefPlaced(s: Stmt, inLoop: bool)
    requires s.Def? && Placed(BlockTree(StmtTrees(s.body)), Outside)
    ensures Placed(StmtTree(s), PlaceOf(inLoop))
  {
    hide StmtTrees;
    var t := StmtTree(s);
    ParamsPlaced(s.params);
    forall i | 0 <= i < |t.kids| ensures Placed(t.kids[i], KidPlace(NDef, i, |t.kids|, PlaceOf(inLoop))) {
      if i < |s.params| { assert t.kids[i] == ParamTrees(s.params)[i]; }
    }
  }

  lemma {:induction false} ParamsPlaced(ps: seq<string>)
    ensures AllPlaced(ParamTrees(ps), InExpr)
  {
    if ps != [] {
      ParamsPlaced(ps[1..]);
    }
  }

  /** Run to its end, a program whose jumps are in loops of their own functions leaves no break or
      continue pending, and its top-level scope is the only one left. */
  lemma ProgramKeeps(ss: seq<Stmt>, input: seq<string>, fuel: nat)
    requires AllInLoops(ss, false)
    ensures var o := Eval(fuel, Some(BlockTree(StmtTrees(ss))), Initial(input));
            o.Ok? ==> !o.st.flags.breaking && !o.st.flags.continuing && |o.st.scopes| == 1
  {
    hide Eval, StmtTrees, AllInLoops;
    BlockPlaced(ss, false);
    EvalKeeps(fuel, Some(BlockTree(StmtTrees(ss))), Initial(input), Outside);
  }
}

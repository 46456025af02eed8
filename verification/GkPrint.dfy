/**
 Programs as abstract syntax, the token sequence each is written as, and the proof that the
 grammar reads back exactly the tree that was written.
 */
module GkPrint {
  import opened Options
  import opened GkSyntax
  import opened GkGrammar
  import opened Places

  datatype Binary = Or | And | Eq | Neq | Lt | Le | Gt | Ge | Add | Sub | Mul | Div | Mod
  datatype Unary = Neg | Not

  datatype Expr =
    | IntLit(n: int) | StrLit(s: string) | BoolLit(b: bool) | Var(name: string)
    | Call(fun: string, args: seq<Expr>)
    | Un(uop: Unary, e: Expr)
    | Bin(bop: Binary, l: Expr, r: Expr)

  datatype Stmt =
    | ExprStmt(e: Expr) | Assign(name: string, e: Expr) | Return(value: Option<Expr>) | Break | Continue
    | Def(fun: string, params: seq<string>, body: seq<Stmt>)
    | If(cond: Expr, body: seq<Stmt>, orelse: Orelse)
    | While(cond: Expr, body: seq<Stmt>)
    | For(name: string, iter: Expr, body: seq<Stmt>)
  datatype Orelse = NoElse | Elif(s: Stmt) | Else(body: seq<Stmt>)  // `s` is an If

  function BinaryToken(b: Binary): (t: Token)
    ensures 1 <= OpLevel(t) <= 5
  {
    match b
    case Or => OR case And => AND
    case Eq => EQ case Neq => NEQ case Lt => LT case Le => LE case Gt => GT case Ge => GE
    case Add => PLUS case Sub => MINUS
    case Mul => STAR case Div => SLASH case Mod => PERCENT
  }

  function UnaryToken(u: Unary): Token {
    if u == Neg then MINUS else NOT
  }

  // ----- expressions as trees and as tokens -----

  function ExprTree(e: Expr): Tree
    decreases e
  {
    match e
    case IntLit(n) => IntTree(n)
    case StrLit(s) => StrTree(s)
    case BoolLit(b) => BoolTree(b)
    case Var(name) => VarTree(name)
    case Call(f, args) => CallTree(f, ExprTrees(args))
    case Un(op, x) => UnopTree(UnaryToken(op), ExprTree(x))
    case Bin(op, l, r) => BinopTree(BinaryToken(op), ExprTree(l), ExprTree(r))
  }

  function ExprTrees(es: seq<Expr>): (ts: seq<Tree>)
    ensures |ts| == |es|
    decreases es
  {
    if es == [] then [] else [ExprTree(es[0])] + ExprTrees(es[1..])
  }

  /** The documented precedence, loosest 1 to tightest 7. */
  function Prec(e: Expr): (l: nat)
    ensures 1 <= l <= 7
  {
    match e
    case Bin(op, _, _) => OpLevel(BinaryToken(op))
    case Un(_, _) => 6
    case _ => 7
  }

  /** Tokens of `e` where an operand of level `l` is wanted: parentheses only when `e` binds looser.
      Binary operators associate to the left. */
  function Print(e: Expr, l: nat): seq<Token>
    requires 1 <= l <= 7
    decreases e, 1
  {
    if Prec(e) < l then [LPAREN] + Plain(e) + [RPAREN] else Plain(e)
  }

  function Plain(e: Expr): seq<Token>
    decreases e, 0
  {
    match e
    case IntLit(n) => [INT(n)]
    case StrLit(s) => [STR(s)]
    case BoolLit(b) => [if b then TRUE else FALSE]
    case Var(name) => [IDENT(name)]
    case Call(f, args) => [IDENT(f), LPAREN] + PrintArgs(args) + [RPAREN]
    case Un(op, x) => [UnaryToken(op)] + Print(x, 6)
    case Bin(op, a, b) =>
      Print(a, OpLevel(BinaryToken(op))) + [BinaryToken(op)] + Print(b, OpLevel(BinaryToken(op)) + 1)
  }

  function PrintArgs(es: seq<Expr>): seq<Token>
    decreases es
  {
    if es == [] then []
    else if |es| == 1 then Print(es[0], 1)
    else Print(es[0], 1) + [COMMA] + PrintArgs(es[1..])
  }

  /** No call has more arguments than a node has room for. */
  predicate Fits(e: Expr)
    decreases e
  {
    match e
    case Call(_, args) => |args| <= MAX_CHILDREN && FitsAll(args)
    case Un(_, x) => Fits(x)
    case Bin(_, a, b) => Fits(a) && Fits(b)
    case _ => true
  }

  predicate FitsAll(es: seq<Expr>)
    decreases es
  {
    es == [] || (Fits(es[0]) && FitsAll(es[1..]))
  }

  // ----- tokens at a position -----

  /** A token between two pieces. */
  lemma HasBetween(toks: seq<Token>, pos: nat, a: seq<Token>, t: Token, b: seq<Token>)
    requires At(toks, pos, a + [t] + b)
    ensures At(toks, pos, a) && pos + |a| < |toks| && toks[pos + |a|] == t && At(toks, pos + |a| + 1, b)
  {
    AtConcat(toks, pos, a + [t], b);
    AtConcat(toks, pos, a, [t]);
    HasOne(toks, pos + |a|, t);
  }

  /** A piece between two tokens. */
  lemma HasInside(toks: seq<Token>, pos: nat, t: Token, a: seq<Token>, u: Token)
    requires At(toks, pos, [t] + a + [u])
    ensures pos + |a| + 1 < |toks| && toks[pos] == t && At(toks, pos + 1, a) && toks[pos + 1 + |a|] == u
  {
    AtConcat(toks, pos, [t] + a, [u]);
    AtConcat(toks, pos, [t], a);
    HasOne(toks, pos, t);
    HasOne(toks, pos + 1 + |a|, u);
  }

  lemma HasOne(toks: seq<Token>, pos: nat, t: Token)
    requires At(toks, pos, [t])
    ensures pos < |toks| && toks[pos] == t
  {
    assert toks[pos..pos + 1][0] == t;
  }

  /** `first` rest of a printed expression is never empty and starts with one of these. */
  predicate Starter(t: Token) {
    t.INT? || t.STR? || t.IDENT? || t in {TRUE, FALSE, LPAREN, MINUS, NOT}
  }

  lemma {:induction false} PrintStart(e: Expr, l: nat)
    requires 1 <= l <= 7
    ensures |Print(e, l)| > 0 && Starter(Print(e, l)[0])
    ensures l == 7 ==> Print(e, l)[0] != MINUS && Print(e, l)[0] != NOT
    decreases e
  {
    if Prec(e) >= l && e.Bin? {
      PrintStart(e.l, OpLevel(BinaryToken(e.bop)));
    }
  }

  // ----- reading an expression back -----

  /** What may follow an operand of level `l`: no tighter operator, no argument list. */
  predicate Follows(t: Token, l: nat) {
    OpLevel(t) <= l && t != LPAREN
  }

  /** What the function of level `l` returns once it has read `t` and stands at `q`. */
  function After(toks: seq<Token>, l: nat, t: Tree, q: nat): Parse<Tree>
    requires Ended(toks) && q < |toks| && 1 <= l <= 7
  {
    if l <= 5 then ParseTail(toks, l, t, q) else Some((t, q))
  }

  // One step of each parsing loop.

  lemma TailStops(toks: seq<Token>, l: nat, t: Tree, q: nat)
    requires Ended(toks) && q < |toks| && 1 <= l <= 5 && OpLevel(toks[q]) != l
    ensures ParseTail(toks, l, t, q) == Some((t, q))
  {
  }

  lemma TailTakes(toks: seq<Token>, l: nat, left: Tree, p: nat, right: Tree, q: nat)
    requires Ended(toks) && p < |toks| && q < |toks| && 1 <= l <= 5 && OpLevel(toks[p]) == l
    requires ParseLevel(toks, l + 1, p + 1) == Some((right, q))
    ensures ParseTail(toks, l, left, p) == ParseTail(toks, l, BinopTree(toks[p], left, right), q)
  {
  }

  lemma AfterTighter(toks: seq<Token>, l: nat, t: Tree, q: nat)
    requires Ended(toks) && q < |toks| && 1 <= l <= 6 && OpLevel(toks[q]) <= l
    ensures After(toks, l + 1, t, q) == Some((t, q))
  {
    if l + 1 <= 5 {
      TailStops(toks, l + 1, t, q);
    }
  }

  lemma LevelUp(toks: seq<Token>, l: nat, pos: nat, t: Tree, q: nat)
    requires Ended(toks) && pos < |toks| && q < |toks| && 1 <= l <= 6
    requires ParseLevel(toks, l + 1, pos) == Some((t, q))
    requires l == 6 ==> toks[pos] != MINUS && toks[pos] != NOT
    ensures ParseLevel(toks, l, pos) == After(toks, l, t, q)
  {
  }

  lemma ArgsTake(toks: seq<Token>, pos: nat, done: seq<Tree>, t: Tree, p: nat)
    requires Ended(toks) && pos < |toks| && p < |toks| && toks[pos] != RPAREN && toks[pos] != EOF
    requires ParseLevel(toks, 1, pos) == Some((t, p)) && |done| < MAX_CHILDREN
    ensures toks[p] == COMMA ==> ParseArgs(toks, pos, done) == ParseArgs(toks, p + 1, done + [t])
    ensures toks[p] != COMMA ==> ParseArgs(toks, pos, done) == Some((done + [t], p))
  {
  }

  /** A primary is read as such at every level. */
  lemma {:induction false} Climb(toks: seq<Token>, l: nat, pos: nat, t: Tree, q: nat)
    requires Ended(toks) && pos < |toks| && q < |toks| && 1 <= l <= 7
    requires ParsePrimary(toks, pos) == Some((t, q)) && toks[pos] != MINUS && toks[pos] != NOT
    requires Follows(toks[q], l)
    ensures ParseLevel(toks, l, pos) == After(toks, l, t, q)
    decreases 7 - l
  {
    if l < 7 {
      hide ParsePrimary, ParseTail, OpLevel;
      Climb(toks, l + 1, pos, t, q);
      AfterTighter(toks, l, t, q);
    }
  }

  /** `e`, printed where an operand of level `l` is wanted, is read back by the function of level `l`. */
  lemma {:induction false} ReadBack(e: Expr, l: nat, toks: seq<Token>, pos: nat)
    requires Ended(toks) && 1 <= l <= 7 && Fits(e)
    requires At(toks, pos, Print(e, l)) && pos + |Print(e, l)| < |toks|
    requires Follows(toks[pos + |Print(e, l)|], l)
    ensures pos < |toks| && ParseLevel(toks, l, pos) == After(toks, l, ExprTree(e), pos + |Print(e, l)|)
    decreases e, if Prec(e) < l then 8 else 7 - l, 1
  {
    hide ParseLevel, ParseTail, ParsePrimary, ParseArgs, OpLevel, At, Follows;
    if Prec(e) < l {
      ReadParens(e, l, toks, pos);
    } else if Prec(e) > l {
      ReadTighter(e, l, toks, pos);
    } else if e.Bin? {
      ReadBinary(e.bop, e.l, e.r, toks, pos);
    } else if e.Un? {
      ReadUnary(e.uop, e.e, toks, pos);
    } else if e.Call? {
      ReadCall(e.fun, e.args, toks, pos);
    } else {
      ReadLiteral(e, toks, pos);
    }
  }

  lemma HasFirst(toks: seq<Token>, pos: nat, p: seq<Token>)
    requires At(toks, pos, p) && |p| > 0
    ensures pos < |toks| && toks[pos] == p[0]
  {
    assert toks[pos] == toks[pos..pos + |p|][0];
  }

  lemma {:induction false} ReadTighter(e: Expr, l: nat, toks: seq<Token>, pos: nat)
    requires Ended(toks) && 1 <= l < Prec(e) && Fits(e)
    requires At(toks, pos, Print(e, l)) && pos + |Print(e, l)| < |toks|
    requires Follows(toks[pos + |Print(e, l)|], l)
    ensures pos < |toks| && ParseLevel(toks, l, pos) == After(toks, l, ExprTree(e), pos + |Print(e, l)|)
    decreases e, 7 - l, 0
  {
    hide *;
    PlainTighter(e, l, toks[pos + |Print(e, l)|]);
    PrintStart(e, l + 1);
    HasFirst(toks, pos, Print(e, l));
    ReadBack(e, l + 1, toks, pos);
    AfterTighter(toks, l, ExprTree(e), pos + |Print(e, l)|);
    LevelUp(toks, l, pos, ExprTree(e), pos + |Print(e, l)|);
  }

  lemma PlainTighter(e: Expr, l: nat, t: Token)
    requires 1 <= l < Prec(e)
    ensures Prec(e) <= 7 && Print(e, l + 1) == Print(e, l)
    ensures Follows(t, l) ==> Follows(t, l + 1) && OpLevel(t) <= l
  {
    hide Plain, Prec, OpLevel;
  }

  lemma ReadLiteral(e: Expr, toks: seq<Token>, pos: nat)
    requires Ended(toks) && (e.IntLit? || e.StrLit? || e.BoolLit? || e.Var?)
    requires At(toks, pos, Plain(e)) && pos + |Plain(e)| < |toks| && Follows(toks[pos + |Plain(e)|], 7)
    ensures pos < |toks| && ParseLevel(toks, 7, pos) == Some((ExprTree(e), pos + |Plain(e)|))
  {
    HasFirst(toks, pos, Plain(e));
  }

  lemma {:induction false} ReadParens(e: Expr, l: nat, toks: seq<Token>, pos: nat)
    requires Ended(toks) && 1 <= l <= 7 && Fits(e) && Prec(e) < l
    requires At(toks, pos, Print(e, l)) && pos + |Print(e, l)| < |toks|
    requires Follows(toks[pos + |Print(e, l)|], l)
    ensures pos < |toks| && ParseLevel(toks, l, pos) == After(toks, l, ExprTree(e), pos + |Print(e, l)|)
    decreases e, 7, 2
  {
    hide *;
    var q := pos + |Print(e, l)| - 1;
    ParensShape(e, l);
    HasInside(toks, pos, LPAREN, Plain(e), RPAREN);
    CloseFollows();
    ReadBack(e, 1, toks, pos + 1);
    AfterIsTail(toks, 1, ExprTree(e), q);
    TailStops(toks, 1, ExprTree(e), q);
    PrimaryParens(toks, pos, ExprTree(e), q);
    Climb(toks, l, pos, ExprTree(e), q + 1);
  }

  lemma ParensShape(e: Expr, l: nat)
    requires 1 <= l <= 7 && Prec(e) < l
    ensures Prec(e) >= 1 && Print(e, 1) == Plain(e) && Print(e, l) == [LPAREN] + Plain(e) + [RPAREN]
  {
    hide Plain, Prec;
  }

  lemma CloseFollows()
    ensures Follows(RPAREN, 1) && OpLevel(RPAREN) == 0
  {
  }

  lemma PrimaryParens(toks: seq<Token>, pos: nat, t: Tree, q: nat)
    requires Ended(toks) && pos < |toks| && q < |toks| && toks[pos] == LPAREN && toks[q] == RPAREN
    requires ParseLevel(toks, 1, pos + 1) == Some((t, q))
    ensures ParsePrimary(toks, pos) == Some((t, q + 1))
  {
    hide ParseLevel, ParseArgs;
  }

  lemma {:induction false} ReadBinary(op: Binary, a: Expr, b: Expr, toks: seq<Token>, pos: nat)
    requires Ended(toks) && Fits(a) && Fits(b)
    requires At(toks, pos, Plain(Bin(op, a, b))) && pos + |Plain(Bin(op, a, b))| < |toks|
    requires Follows(toks[pos + |Plain(Bin(op, a, b))|], OpLevel(BinaryToken(op)))
    ensures pos < |toks|
    ensures ParseLevel(toks, OpLevel(BinaryToken(op)), pos)
              == After(toks, OpLevel(BinaryToken(op)), ExprTree(Bin(op, a, b)), pos + |Plain(Bin(op, a, b))|)
    decreases Bin(op, a, b), 0
  {
    hide *;
    BinaryShape(op, a, b);
    var l, t := OpLevel(BinaryToken(op)), BinaryToken(op);
    var p, q := Print(a, l), Print(b, l + 1);
    HasBetween(toks, pos, p, t, q);
    var end := pos + |p| + 1 + |q|;
    OperandEnds(op, toks[end]);
    ReadBack(a, l, toks, pos);
    ReadBack(b, l + 1, toks, pos + |p| + 1);
    AfterTighter(toks, l, ExprTree(b), end);
    AfterIsTail(toks, l, ExprTree(a), pos + |p|);
    AfterIsTail(toks, l, BinopTree(t, ExprTree(a), ExprTree(b)), end);
    TailTakes(toks, l, ExprTree(a), pos + |p|, ExprTree(b), end);
  }

  lemma BinaryShape(op: Binary, a: Expr, b: Expr)
    ensures var l, t := OpLevel(BinaryToken(op)), BinaryToken(op);
            && 1 <= l <= 5 && t != LPAREN && Follows(t, l)
            && Plain(Bin(op, a, b)) == Print(a, l) + [t] + Print(b, l + 1)
            && ExprTree(Bin(op, a, b)) == BinopTree(t, ExprTree(a), ExprTree(b))
  {
    hide Print;
  }

  lemma OperandEnds(op: Binary, t: Token)
    ensures Follows(t, OpLevel(BinaryToken(op))) ==>
              Follows(t, OpLevel(BinaryToken(op)) + 1) && OpLevel(t) <= OpLevel(BinaryToken(op))
  {
  }

  lemma AfterIsTail(toks: seq<Token>, l: nat, t: Tree, q: nat)
    requires Ended(toks) && q < |toks| && 1 <= l <= 5
    ensures After(toks, l, t, q) == ParseTail(toks, l, t, q)
  {
  }

  lemma {:induction false} ReadUnary(op: Unary, x: Expr, toks: seq<Token>, pos: nat)
    requires Ended(toks) && Fits(x)
    requires At(toks, pos, Plain(Un(op, x))) && pos + |Plain(Un(op, x))| < |toks|
    requires Follows(toks[pos + |Plain(Un(op, x))|], 6)
    ensures pos < |toks|
    ensures ParseLevel(toks, 6, pos) == Some((ExprTree(Un(op, x)), pos + |Plain(Un(op, x))|))
    decreases Un(op, x), 0
  {
    AtConcat(toks, pos, [UnaryToken(op)], Print(x, 6));
    HasFirst(toks, pos, [UnaryToken(op)]);
    ReadBack(x, 6, toks, pos + 1);
  }

  lemma {:induction false} ReadCall(f: string, args: seq<Expr>, toks: seq<Token>, pos: nat)
    requires Ended(toks) && FitsAll(args) && |args| <= MAX_CHILDREN
    requires At(toks, pos, Plain(Call(f, args))) && pos + |Plain(Call(f, args))| < |toks|
    ensures pos < |toks|
    ensures ParseLevel(toks, 7, pos) == Some((ExprTree(Call(f, args)), pos + |Plain(Call(f, args))|))
    decreases Call(f, args), 0, 0
  {
    hide Plain, ExprTree, PrintArgs, FitsAll, ExprTrees, ParseArgs, ParsePrimary, ParseLevel, At;
    CallLayout(f, args, toks, pos);
    ReadArgs(args, toks, pos + 2, []);
    assert [] + ExprTrees(args) == ExprTrees(args);
    PrimaryCall(toks, pos, ExprTrees(args), pos + 2 + |PrintArgs(args)|);
  }

  lemma CallLayout(f: string, args: seq<Expr>, toks: seq<Token>, pos: nat)
    requires At(toks, pos, Plain(Call(f, args)))
    ensures ExprTree(Call(f, args)) == CallTree(f, ExprTrees(args))
    ensures |Plain(Call(f, args))| == |PrintArgs(args)| + 3
    ensures pos + 2 + |PrintArgs(args)| < |toks| && At(toks, pos + 2, PrintArgs(args))
    ensures toks[pos] == IDENT(f) && toks[pos + 1] == LPAREN && toks[pos + 2 + |PrintArgs(args)|] == RPAREN
  {
    assert Plain(Call(f, args)) == [IDENT(f)] + ([LPAREN] + PrintArgs(args) + [RPAREN]);
    hide At, PrintArgs;
    AtConcat(toks, pos, [IDENT(f)], [LPAREN] + PrintArgs(args) + [RPAREN]);
    HasFirst(toks, pos, [IDENT(f)]);
    HasInside(toks, pos + 1, LPAREN, PrintArgs(args), RPAREN);
  }

  lemma PrimaryCall(toks: seq<Token>, pos: nat, args: seq<Tree>, q: nat)
    requires Ended(toks) && pos + 2 < |toks| && q < |toks| && toks[pos].IDENT? && toks[pos + 1] == LPAREN
    requires toks[q] == RPAREN
    requires ParseArgs(toks, pos + 2, []) == Some((args, q))
    ensures ParseLevel(toks, 7, pos) == Some((CallTree(toks[pos].name, args), q + 1))
  {
  }

  lemma {:induction false} ReadArgs(args: seq<Expr>, toks: seq<Token>, pos: nat, done: seq<Tree>)
    requires Ended(toks) && FitsAll(args) && |done| + |args| <= MAX_CHILDREN
    requires At(toks, pos, PrintArgs(args)) && pos + |PrintArgs(args)| < |toks|
    requires toks[pos + |PrintArgs(args)|] == RPAREN
    ensures ParseArgs(toks, pos, done) == Some((done + ExprTrees(args), pos + |PrintArgs(args)|))
    decreases args, 1, 0
  {
    if args == [] {
      assert done + [] == done;
    } else if |args| == 1 {
      var t := ExprTree(args[0]);
      assert args[1..] == [];
      assert PrintArgs(args) == Print(args[0], 1) && ExprTrees(args) == [t];
      assert Fits(args[0]);
      hide Print, Fits, FitsAll, ParseLevel, ParseArgs, ExprTree, ExprTrees, PrintArgs, At;
      ReadArg(args[0], toks, pos);
      ArgsTake(toks, pos, done, t, pos + |PrintArgs(args)|);
    } else {
      ReadMoreArgs(args, toks, pos, done);
    }
  }

  lemma {:induction false} ReadMoreArgs(args: seq<Expr>, toks: seq<Token>, pos: nat, done: seq<Tree>)
    requires Ended(toks) && FitsAll(args) && |done| + |args| <= MAX_CHILDREN && |args| > 1
    requires At(toks, pos, PrintArgs(args)) && pos + |PrintArgs(args)| < |toks|
    requires toks[pos + |PrintArgs(args)|] == RPAREN
    ensures ParseArgs(toks, pos, done) == Some((done + ExprTrees(args), pos + |PrintArgs(args)|))
    decreases args, 0, 0
  {
    hide Print, Fits, FitsAll, ParseLevel, ParseArgs, ExprTree, ExprTrees, PrintArgs, At;
    MoreArgsLayout(args, toks, pos);
    var p, t := |Print(args[0], 1)|, ExprTree(args[0]);
    ReadArg(args[0], toks, pos);
    ArgsTake(toks, pos, done, t, pos + p);
    ReadArgs(args[1..], toks, pos + p + 1, done + [t]);
    assert done + [t] + ExprTrees(args[1..]) == done + ([t] + ExprTrees(args[1..]));
  }

  lemma MoreArgsLayout(args: seq<Expr>, toks: seq<Token>, pos: nat)
    requires |args| > 1 && FitsAll(args) && At(toks, pos, PrintArgs(args))
    ensures Fits(args[0]) && FitsAll(args[1..])
    ensures ExprTrees(args) == [ExprTree(args[0])] + ExprTrees(args[1..])
    ensures var p := |Print(args[0], 1)|;
            && |PrintArgs(args)| == p + 1 + |PrintArgs(args[1..])|
            && At(toks, pos, Print(args[0], 1)) && pos + p < |toks| && toks[pos + p] == COMMA
            && At(toks, pos + p + 1, PrintArgs(args[1..]))
  {
    hide At, Print;
    HasBetween(toks, pos, Print(args[0], 1), COMMA, PrintArgs(args[1..]));
  }

  /** An expression where nothing that follows can continue it, as in an argument or a statement. */
  lemma {:induction false} ReadArg(e: Expr, toks: seq<Token>, pos: nat)
    requires Ended(toks) && Fits(e)
    requires At(toks, pos, Print(e, 1)) && pos + |Print(e, 1)| < |toks|
    requires Follows(toks[pos + |Print(e, 1)|], 0)
    ensures pos < |toks| && Starter(toks[pos])
    ensures ParseLevel(toks, 1, pos) == Some((ExprTree(e), pos + |Print(e, 1)|))
    decreases e, 9
  {
    PrintStart(e, 1);
    HasFirst(toks, pos, Print(e, 1));
    ReadBack(e, 1, toks, pos);
    TailStops(toks, 1, ExprTree(e), pos + |Print(e, 1)|);
  }

  /** Printing an expression and parsing it gives the expression's tree and takes exactly its tokens. */
  lemma ExprRoundTrip(e: Expr, before: seq<Token>, after: seq<Token>)
    requires Fits(e) && Ended(after) && |after| > 0 && Follows(after[0], 0)
    ensures var toks := before + Print(e, 1) + after;
            Ended(toks) && ParseLevel(toks, 1, |before|) == Some((ExprTree(e), |before| + |Print(e, 1)|))
  {
    hide *;
    var p := Print(e, 1);
    Between(before, p, after);
    ReadArg(e, before + p + after, |before|);
  }

  lemma Between(before: seq<Token>, p: seq<Token>, after: seq<Token>)
    requires Ended(after)
    ensures var toks := before + p + after;
            Ended(toks) && At(toks, |before|, p) && |before| + |p| < |toks| && toks[|before| + |p|] == after[0]
  {
    var toks := before + p + after;
    assert toks[|before|..|before| + |p|] == p;
    assert toks[|toks| - 1] == after[|after| - 1];
  }
}

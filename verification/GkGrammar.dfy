/**
 The grammar the parser recognises, as functions from a token position to a tree and the
 position behind it. `None` is a syntax error.
 */
module GkGrammar {
  import opened Options
  import opened GkSyntax

  type Parse<T> = Option<(T, nat)>

  /** The token array ends with EOF, so looking at the current token is always possible. */
  predicate Ended(toks: seq<Token>) {
    |toks| > 0 && toks[|toks| - 1] == EOF
  }

  const OR_LEVEL: nat := 1
  const UNARY_LEVEL: nat := 6
  const PRIMARY_LEVEL: nat := 7

  /** Which rung of the precedence ladder a binary operator belongs to; 0 for other tokens. */
  function OpLevel(t: Token): (l: nat)
    ensures l <= 5
  {
    match t
    case OR => 1
    case AND => 2
    case EQ | NEQ | LT | LE | GT | GE => 3
    case PLUS | MINUS => 4
    case STAR | SLASH | PERCENT => 5
    case _ => 0
  }

  /** Calls of the built-in names become nodes of their own kind. */
  function CallKind(name: string): Kind {
    if name == "print" then NPrint
    else if name == "range" then NRange
    else if name == "input" then NInput
    else if name == "int" then NIntCast
    else NCall
  }

  function IntTree(n: int): Tree { Tree(NInt, n, "", EOF, []) }
  function StrTree(s: string): Tree { Tree(NStr, 0, s, EOF, []) }
  function BoolTree(b: bool): Tree { Tree(NBool, if b then 1 else 0, "", EOF, []) }
  function VarTree(name: string): Tree { Tree(NVar, 0, name, EOF, []) }
  function CallTree(name: string, args: seq<Tree>): Tree { Tree(CallKind(name), 0, name, EOF, args) }
  function UnopTree(op: Token, t: Tree): Tree { Tree(NUnop, 0, "", op, [t]) }
  function BinopTree(op: Token, l: Tree, r: Tree): Tree { Tree(NBinop, 0, "", op, [l, r]) }
  function BlockTree(ts: seq<Tree>): Tree { Tree(NBlock, 0, "", EOF, ts) }

  // ----- expressions -----

  /** `x` at `Some` if the token at `pos` is `t`. */
  function Expect(toks: seq<Token>, pos: nat, t: Token): (r: Option<nat>)
    requires Ended(toks) && pos < |toks| && t != EOF
    ensures r.Some? ==> r.value == pos + 1 < |toks|
  {
    if toks[pos] == t then Some(pos + 1) else None
  }

  /** One of the functions parse_or (level 1) to parse_mul (5), parse_unary (6), parse_primary (7). */
  function ParseLevel(toks: seq<Token>, l: nat, pos: nat): (r: Parse<Tree>)
    requires Ended(toks) && pos < |toks| && 1 <= l <= 7
    ensures r.Some? ==> pos < r.value.1 < |toks|
    decreases |toks| - pos, 7 - l, 1
  {
    if l == PRIMARY_LEVEL then ParsePrimary(toks, pos)
    else if l == UNARY_LEVEL then
      if toks[pos] == MINUS || toks[pos] == NOT then
        match ParseLevel(toks, UNARY_LEVEL, pos + 1)
        case None => None
        case Some((t, p)) => Some((UnopTree(toks[pos], t), p))
      else ParseLevel(toks, PRIMARY_LEVEL, pos)
    else
      match ParseLevel(toks, l + 1, pos)
      case None => None
      case Some((left, p)) => ParseTail(toks, l, left, p)
  }

  /** The loop of a binary level: while an operator of the level follows, take it and another operand. */
  function ParseTail(toks: seq<Token>, l: nat, left: Tree, pos: nat): (r: Parse<Tree>)
    requires Ended(toks) && pos < |toks| && 1 <= l <= 5
    ensures r.Some? ==> pos <= r.value.1 < |toks| && Size(r.value.0) >= Size(left)
    decreases |toks| - pos, 7 - l, 0
  {
    if OpLevel(toks[pos]) == l then
      match ParseLevel(toks, l + 1, pos + 1)
      case None => None
      case Some((right, p)) =>
        assert SizeAll([left, right]) == Size(left) + Size(right) by { SizePair(left, right); }
        ParseTail(toks, l, BinopTree(toks[pos], left, right), p)
    else
      Some((left, pos))
  }

  lemma SizePair(a: Tree, b: Tree)
    ensures SizeAll([a, b]) == Size(a) + Size(b)
  {
    SizeAllSnoc([], a);
    SizeAllSnoc([a], b);
    assert [] + [a] == [a] && [a] + [b] == [a, b];
  }

  function ParsePrimary(toks: seq<Token>, pos: nat): (r: Parse<Tree>)
    requires Ended(toks) && pos < |toks|
    ensures r.Some? ==> pos < r.value.1 < |toks|
    decreases |toks| - pos, 0, 0
  {
    if toks[pos].INT? then Some((IntTree(toks[pos].value), pos + 1))
    else if toks[pos].STR? then Some((StrTree(toks[pos].text), pos + 1))
    else if toks[pos] == TRUE || toks[pos] == FALSE then Some((BoolTree(toks[pos] == TRUE), pos + 1))
    else if toks[pos].IDENT? then
      if toks[pos + 1] == LPAREN then
        match ParseArgs(toks, pos + 2, [])
        case None => None
        case Some((args, p)) =>
          match Expect(toks, p, RPAREN)
          case None => None
          case Some(q) => Some((CallTree(toks[pos].name, args), q))
      else Some((VarTree(toks[pos].name), pos + 1))
    else if toks[pos] == LPAREN then
      match ParseLevel(toks, OR_LEVEL, pos + 1)
      case None => None
      case Some((t, p)) =>
        match Expect(toks, p, RPAREN)
        case None => None
        case Some(q) => Some((t, q))
    else None
  }

  /** The argument loop, `done` being the arguments read before. */
  function ParseArgs(toks: seq<Token>, pos: nat, done: seq<Tree>): (r: Parse<seq<Tree>>)
    requires Ended(toks) && pos < |toks|
    ensures r.Some? ==> pos <= r.value.1 < |toks| && SizeAll(r.value.0) >= SizeAll(done)
    decreases |toks| - pos, 7, 0
  {
    if toks[pos] == RPAREN || toks[pos] == EOF then Some((done, pos))
    else
      match ParseLevel(toks, OR_LEVEL, pos)
      case None => None
      case Some((arg, p)) =>
        SizeAllSnoc(done, arg);
        if |done| >= MAX_CHILDREN then None
        else if toks[p] == COMMA then ParseArgs(toks, p + 1, done + [arg])
        else Some((done + [arg], p))
  }

  // ----- statements -----

  function SkipNewlines(toks: seq<Token>, pos: nat): (p: nat)
    requires Ended(toks) && pos < |toks|
    ensures pos <= p < |toks| && toks[p] != NEWLINE
    ensures toks[pos] != NEWLINE ==> p == pos
    decreases |toks| - pos
  {
    if toks[pos] == NEWLINE then SkipNewlines(toks, pos + 1) else pos
  }

  /** Past one token if it is `t`. */
  function Accept(toks: seq<Token>, pos: nat, t: Token): (p: nat)
    requires Ended(toks) && pos < |toks| && t != EOF
    ensures pos <= p < |toks|
  {
    if toks[pos] == t then pos + 1 else pos
  }

  /** The header end and the body of a compound statement: ':', a line end, a block. */
  function ParseSuite(toks: seq<Token>, pos: nat): (r: Parse<Tree>)
    requires Ended(toks) && pos < |toks|
    ensures r.Some? ==> pos < r.value.1 < |toks|
    decreases |toks| - pos, 9, 0
  {
    match Expect(toks, pos, COLON)
    case None => None
    case Some(p) => ParseBlock(toks, Accept(toks, p, NEWLINE))
  }

  function ParseBlock(toks: seq<Token>, pos: nat): (r: Parse<Tree>)
    requires Ended(toks) && pos < |toks|
    ensures r.Some? ==> pos < r.value.1 < |toks|
    decreases |toks| - pos, 8, 0
  {
    match Expect(toks, pos, INDENT)
    case None => None
    case Some(p) =>
      match ParseStmts(toks, SkipNewlines(toks, p), DEDENT, [])
      case None => None
      case Some((ts, q)) => Some((BlockTree(ts), Accept(toks, q, DEDENT)))
  }

  /** The statement loop of a block (ended by DEDENT or EOF) or of a program (by EOF). */
  function ParseStmts(toks: seq<Token>, pos: nat, end: Token, done: seq<Tree>): (r: Parse<seq<Tree>>)
    requires Ended(toks) && pos < |toks|
    ensures r.Some? ==> pos <= r.value.1 < |toks| && SizeAll(r.value.0) >= SizeAll(done)
    ensures r.Some? ==> toks[r.value.1] == end || toks[r.value.1] == EOF
    decreases |toks| - pos, 11, 0
  {
    if toks[pos] == end || toks[pos] == EOF then Some((done, pos))
    else
      match ParseStmt(toks, pos)
      case None => None
      case Some((t, p)) =>
        SizeAllSnoc(done, t);
        if |done| >= MAX_CHILDREN then None
        else ParseStmts(toks, SkipNewlines(toks, p), end, done + [t])
  }

  function ParseStmt(toks: seq<Token>, pos: nat): (r: Parse<Tree>)
    requires Ended(toks) && pos < |toks|
    ensures r.Some? ==> pos < r.value.1 < |toks|
    decreases |toks| - pos, 10, 0
  {
    if toks[pos] == RETURN then
      if toks[pos + 1] == NEWLINE || toks[pos + 1] == EOF then
        Some((Tree(NReturn, 0, "", EOF, []), Accept(toks, pos + 1, NEWLINE)))
      else
        ParseLine(toks, pos + 1, NReturn, "")
    else if toks[pos] == BREAK then Some((Tree(NBreak, 0, "", EOF, []), Accept(toks, pos + 1, NEWLINE)))
    else if toks[pos] == CONTINUE then Some((Tree(NContinue, 0, "", EOF, []), Accept(toks, pos + 1, NEWLINE)))
    else if toks[pos] == DEF then ParseDef(toks, pos)
    else if toks[pos] == IF || toks[pos] == ELIF then ParseIf(toks, pos)
    else if toks[pos] == WHILE then ParseLoop(toks, pos + 1, NWhile, "")
    else if toks[pos] == FOR then
      if !toks[pos + 1].IDENT? || toks[pos + 2] != IN then None
      else ParseLoop(toks, pos + 3, NFor, toks[pos + 1].name)
    else if toks[pos].IDENT? && toks[pos + 1] == ASSIGN then
      ParseLine(toks, pos + 2, NAssign, toks[pos].name)
    else
      match ParseLevel(toks, OR_LEVEL, pos)
      case None => None
      case Some((t, p)) => Some((t, Accept(toks, p, NEWLINE)))
  }

  /** The expression that ends a return or an assignment. */
  function ParseLine(toks: seq<Token>, pos: nat, kind: Kind, name: string): (r: Parse<Tree>)
    requires Ended(toks) && pos < |toks|
    ensures r.Some? ==> pos < r.value.1 < |toks|
    decreases |toks| - pos, 9, 0
  {
    match ParseLevel(toks, OR_LEVEL, pos)
    case None => None
    case Some((t, p)) => Some((Tree(kind, 0, name, EOF, [t]), Accept(toks, p, NEWLINE)))
  }

  /** The condition or range of a loop, and its body. */
  function ParseLoop(toks: seq<Token>, pos: nat, kind: Kind, name: string): (r: Parse<Tree>)
    requires Ended(toks) && pos < |toks|
    ensures r.Some? ==> pos < r.value.1 < |toks|
    decreases |toks| - pos, 9, 0
  {
    match ParseLevel(toks, OR_LEVEL, pos)
    case None => None
    case Some((head, p)) =>
      match ParseSuite(toks, p)
      case None => None
      case Some((body, q)) => Some((Tree(kind, 0, name, EOF, [head, body]), q))
  }

  function ParseDef(toks: seq<Token>, pos: nat): (r: Parse<Tree>)
    requires Ended(toks) && pos < |toks| && toks[pos] == DEF
    ensures r.Some? ==> pos < r.value.1 < |toks|
    decreases |toks| - pos, 9, 0
  {
    if !toks[pos + 1].IDENT? || toks[pos + 2] != LPAREN then None
    else
      match ParseParams(toks, pos + 3, [])
      case None => None
      case Some((params, p)) =>
        match Expect(toks, p, RPAREN)
        case None => None
        case Some(q) =>
          match ParseSuite(toks, q)
          case None => None
          case Some((body, e)) => Some((Tree(NDef, 0, toks[pos + 1].name, EOF, params + [body]), e))
  }

  function ParseParams(toks: seq<Token>, pos: nat, done: seq<Tree>): (r: Parse<seq<Tree>>)
    requires Ended(toks) && pos < |toks|
    ensures r.Some? ==> pos <= r.value.1 < |toks| && SizeAll(r.value.0) >= SizeAll(done)
    decreases |toks| - pos
  {
    if toks[pos] == RPAREN || toks[pos] == EOF then Some((done, pos))
    else if !toks[pos].IDENT? then None
    else
      var t := VarTree(toks[pos].name);
      SizeAllSnoc(done, t);
      if toks[pos + 1] == COMMA then ParseParams(toks, pos + 2, done + [t])
      else Some((done + [t], pos + 1))
  }

  /** How many parameters are read from `pos` on. */
  function ParamRun(toks: seq<Token>, pos: nat): nat
    decreases |toks| - pos
  {
    if pos < |toks| && toks[pos].IDENT? then
      1 + if pos + 1 < |toks| && toks[pos + 1] == COMMA then ParamRun(toks, pos + 2) else 0
    else 0
  }

  /** A definition leaves its node room for the body, which nothing checks. */
  predicate DefFits(toks: seq<Token>, p: nat) {
    p + 3 < |toks| && toks[p] == DEF && toks[p + 1].IDENT? && toks[p + 2] == LPAREN ==>
        ParamRun(toks, p + 3) < MAX_CHILDREN
  }

  ghost predicate DefsFit(toks: seq<Token>) {
    forall p: nat :: DefFits(toks, p)
  }

  function ParseIf(toks: seq<Token>, pos: nat): (r: Parse<Tree>)
    requires Ended(toks) && pos < |toks| && (toks[pos] == IF || toks[pos] == ELIF)
    ensures r.Some? ==> pos < r.value.1 < |toks|
    decreases |toks| - pos, 9, 0
  {
    match ParseLevel(toks, OR_LEVEL, pos + 1)
    case None => None
    case Some((cond, p)) =>
      match ParseSuite(toks, p)
      case None => None
      case Some((body, q)) =>
        var e := SkipNewlines(toks, q);
        if toks[e] == ELIF then WithOrelse(cond, body, ParseStmt(toks, e))
        else if toks[e] == ELSE then WithOrelse(cond, body, ParseSuite(toks, e + 1))
        else Some((Tree(NIf, 0, "", EOF, [cond, body]), e))
  }

  function WithOrelse(cond: Tree, body: Tree, orelse: Parse<Tree>): (r: Parse<Tree>)
    ensures r.Some? <==> orelse.Some?
    ensures r.Some? ==> r.value.1 == orelse.value.1
  {
    match orelse
    case None => None
    case Some((rest, f)) => Some((Tree(NIf, 0, "", EOF, [cond, body, rest]), f))
  }

  /** A whole program: statements up to EOF under one block. */
  function ParseProgram(toks: seq<Token>): (r: Option<Tree>)
    requires Ended(toks)
  {
    match ParseStmts(toks, SkipNewlines(toks, 0), EOF, [])
    case None => None
    case Some((ts, _)) => Some(BlockTree(ts))
  }
}

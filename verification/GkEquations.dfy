/** Equations between programs, and between values and their text. */
module GkEquations {
  import opened Options
  import opened GkSyntax
  import opened GkGrammar
  import opened GkMeaning
  import opened GkLaws

  /** Division truncates toward zero: the quotient times the divisor misses the dividend by less than the
      divisor, on the dividend's side. */
  lemma QuotientTruncates(a: int, b: int)
    requires b != 0
    ensures var q, r := Quotient(a, b), Remainder(a, b);
            && a == b * q + r
            && (if b > 0 then -b < r < b else b < r < -b)
            && (a >= 0 ==> r >= 0) && (a <= 0 ==> r <= 0)
  {
    Magnitudes(if a >= 0 then a else -a, if b > 0 then b else -b);
  }

  lemma Magnitudes(a: int, b: int)
    requires a >= 0 && b > 0
    ensures a == b * (a / b) + a % b && 0 <= a % b < b
    ensures b * -(a / b) == -(b * (a / b)) && -b * (a / b) == -(b * (a / b)) && -b * -(a / b) == b * (a / b)
  {
  }

  lemma {:induction false} NumeralDigits(n: nat, rest: string)
    requires n <= MAX_INT
    ensures Numeral(Digits(n) + rest, 0) == Numeral(rest, n)
    decreases n
  {
    if n < 10 {
      assert (Digits(n) + rest)[1..] == rest;
    } else {
      var last := ['0' + (n % 10) as char];
      NumeralDigits(n / 10, last + rest);
      assert Digits(n) + rest == Digits(n / 10) + (last + rest);
      assert (last + rest)[1..] == rest;
    }
  }

  /** int() of the text of any number that has one is the number. */
  lemma IntOfText(n: int)
    requires InInt(n) && HasText(VInt(n))
    ensures ToInt(VStr(Text(VInt(n)))) == Val(VInt(n))
  {
    var m: nat := if n < 0 then -n else n;
    NumeralDigits(m, "");
    assert Digits(m) + "" == Digits(m);
    DigitFirst(m);
    if n < 0 {
      assert ("-" + Digits(m))[1..] == Digits(m);
    }
  }

  lemma {:induction false} DigitFirst(n: nat)
    ensures Digits(n) != "" && Digits(n)[0] != '-'
  {
    if n >= 10 {
      DigitFirst(n / 10);
    }
  }

  /** The laws of De Morgan, order of evaluation, short circuits, side effects and errors included. */
  lemma NotAnd(f: nat, a: Tree, b: Tree, st: St)
    ensures Eval(f, Some(UnopTree(NOT, BinopTree(AND, a, b))), st)
         == Eval(f, Some(BinopTree(OR, UnopTree(NOT, a), UnopTree(NOT, b))), st)
  {
    DeMorgan(f, AND, OR, a, b, st);
  }

  lemma NotOr(f: nat, a: Tree, b: Tree, st: St)
    ensures Eval(f, Some(UnopTree(NOT, BinopTree(OR, a, b))), st)
         == Eval(f, Some(BinopTree(AND, UnopTree(NOT, a), UnopTree(NOT, b))), st)
  {
    DeMorgan(f, OR, AND, a, b, st);
  }

  lemma DeMorgan(f: nat, op: Token, dual: Token, a: Tree, b: Tree, st: St)
    requires (op == AND && dual == OR) || (op == OR && dual == AND)
    ensures Eval(f, Some(UnopTree(NOT, BinopTree(op, a, b))), st)
         == Eval(f, Some(BinopTree(dual, UnopTree(NOT, a), UnopTree(NOT, b))), st)
  {
    hide *;
    var notA, notB := UnopTree(NOT, a), UnopTree(NOT, b);
    NoFuel(UnopTree(NOT, BinopTree(op, a, b)), st);
    NoFuel(BinopTree(dual, notA, notB), st);
    NoFuel(BinopTree(op, a, b), st);
    NoFuel(notA, st);
    BoolTruth();
    if f >= 2 {
      NotNode(f - 1, BinopTree(op, a, b), st);
      LogicNode(f - 2, op, a, b, st);
      LogicNode(f - 1, dual, notA, notB, st);
      NotNode(f - 2, a, st);
      var l := Eval(f - 2, Some(a), st);
      if l.Ok? {
        NotNode(f - 2, b, l.st);
      }
    } else if f == 1 {
      NotNode(0, BinopTree(op, a, b), st);
      LogicNode(0, dual, notA, notB, st);
    }
  }

  lemma BoolTruth()
    ensures Truthy(VBool(true)) && !Truthy(VBool(false))
  {
  }

  lemma NoFuel(t: Tree, st: St)
    ensures Eval(0, Some(t), st) == Bad(OutOfFuel)
  {
  }

  lemma NotNode(f: nat, t: Tree, st: St)
    ensures Eval(f + 1, Some(UnopTree(NOT, t)), st)
         == match Eval(f, Some(t), st)
            case Bad(e) => Bad(e)
            case Ok(v, st1) => Ok(VBool(!Truthy(v)), st1)
  {
    hide Truthy;
    assert Eval(f + 1, Some(UnopTree(NOT, t)), st) == EvalUnop(f, UnopTree(NOT, t), st);
    assert Kid(UnopTree(NOT, t), 0) == Some(t);
  }

  lemma LogicNode(f: nat, op: Token, a: Tree, b: Tree, st: St)
    requires op == AND || op == OR
    ensures Eval(f + 1, Some(BinopTree(op, a, b)), st)
         == match Eval(f, Some(a), st)
            case Bad(e) => Bad(e)
            case Ok(l, st1) =>
              if Truthy(l) == (op == OR) then Ok(VBool(op == OR), st1)
              else match Eval(f, Some(b), st1)
                   case Bad(e) => Bad(e)
                   case Ok(r, st2) => Ok(VBool(Truthy(r)), st2)
  {
    hide Truthy, BinaryOf;
    assert Eval(f + 1, Some(BinopTree(op, a, b)), st) == EvalBinop(f, BinopTree(op, a, b), st);
    assert Kid(BinopTree(op, a, b), 0) == Some(a) && Kid(BinopTree(op, a, b), 1) == Some(b);
  }

  function IfTree(c: Tree, then_: Tree, else_: Tree): Tree {
    Tree(NIf, 0, "", EOF, [c, then_, else_])
  }

  /** An elif means the same as an else with an if in it. */
  lemma ElifIsElse(f: nat, c: Tree, body: Tree, elif: Tree, st: St)
    requires Finished(Eval(f, Some(IfTree(c, body, elif)), st))
    ensures Eval(f + 1, Some(IfTree(c, body, BlockTree([elif]))), st) == Eval(f, Some(IfTree(c, body, elif)), st)
  {
    var g := f - 1;
    IfNode(g, c, body, elif, st);
    IfNode(f, c, body, BlockTree([elif]), st);
    var v := Eval(g, Some(c), st);
    MoreFuel(g, f, Some(c), st);
    if v.Ok? {
      if Truthy(v.v) {
        MoreFuel(g, f, Some(body), v.st);
      } else {
        OneInBlock(g, elif, v.st);
      }
    }
  }

  lemma IfNode(f: nat, c: Tree, body: Tree, other: Tree, st: St)
    ensures Eval(f + 1, Some(IfTree(c, body, other)), st)
         == match Eval(f, Some(c), st)
            case Bad(e) => Bad(e)
            case Ok(v, st1) => Eval(f, Some(if Truthy(v) then body else other), st1)
  {
    hide Truthy;
    var t := IfTree(c, body, other);
    assert Eval(f + 1, Some(t), st) == EvalIf(f, t, st);
    assert Kid(t, 0) == Some(c) && Kid(t, 1) == Some(body) && Kid(t, 2) == Some(other);
  }

  lemma OneInBlock(f: nat, t: Tree, st: St)
    ensures Eval(f + 1, Some(BlockTree([t])), st) == Eval(f, Some(t), st)
  {
    assert Eval(f + 1, Some(BlockTree([t])), st) == EvalBlock(f, [t], 0, VNone, st);
    if Eval(f, Some(t), st).Ok? {
      var o := Eval(f, Some(t), st);
      assert EvalBlock(f, [t], 1, o.v, o.st) == Ok(o.v, o.st);
    }
  }
}

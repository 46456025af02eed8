/** What the operators of the language compute, as laws of evaluated expressions. */
module GkOperators {
  import opened Options
  import opened GkSyntax
  import opened GkGrammar
  import opened GkMeaning
  import opened GkLaws
  import opened GkEquations

  /** `t` evaluates to `v` and leaves the state alone, as literals, variables and what is made of them do. */
  ghost predicate Yields(f: nat, t: Tree, st: St, v: Value) {
    Eval(f, Some(t), st) == Ok(v, st)
  }

  lemma YieldsMore(f: nat, g: nat, t: Tree, st: St, v: Value)
    requires Yields(f, t, st, v) && f <= g
    ensures Yields(g, t, st, v)
  {
    MoreFuel(f, g, Some(t), st);
  }

  lemma Literal(f: nat, n: int, st: St)
    requires f > 0
    ensures Yields(f, IntTree(n), st, VInt(n))
  {
  }

  // ----- one node -----

  lemma BinaryNode(f: nat, op: Token, a: Tree, b: Tree, st: St, l: Value, r: Value)
    requires op != AND && op != OR && Yields(f, a, st, l) && Yields(f, b, st, r)
    ensures Eval(f + 1, Some(BinopTree(op, a, b)), st) == Lift(BinaryOf(op, l, r), st)
  {
    hide BinaryOf;
    assert Eval(f + 1, Some(BinopTree(op, a, b)), st) == EvalBinop(f, BinopTree(op, a, b), st);
    assert Kid(BinopTree(op, a, b), 0) == Some(a) && Kid(BinopTree(op, a, b), 1) == Some(b);
  }

  /** The operands are ints. */
  ghost predicate Ints(f: nat, a: Tree, b: Tree, st: St, m: int, n: int) {
    Yields(f, a, st, VInt(m)) && Yields(f, b, st, VInt(n))
  }

  ghost predicate Whole(f: nat, t: Tree, st: St, n: int) {
    Eval(f, Some(t), st) == if InInt(n) then Ok(VInt(n), st) else Bad(Overflow)
  }

  lemma Sum(f: nat, a: Tree, b: Tree, st: St, m: int, n: int)
    requires Ints(f, a, b, st, m, n)
    ensures Whole(f + 1, BinopTree(PLUS, a, b), st, m + n)
  {
    BinaryNode(f, PLUS, a, b, st, VInt(m), VInt(n));
    hide Eval;
  }

  lemma Difference(f: nat, a: Tree, b: Tree, st: St, m: int, n: int)
    requires Ints(f, a, b, st, m, n)
    ensures Whole(f + 1, BinopTree(MINUS, a, b), st, m - n)
  {
    BinaryNode(f, MINUS, a, b, st, VInt(m), VInt(n));
    hide Eval;
  }

  lemma Product(f: nat, a: Tree, b: Tree, st: St, m: int, n: int)
    requires Ints(f, a, b, st, m, n)
    ensures Whole(f + 1, BinopTree(STAR, a, b), st, m * n)
  {
    BinaryNode(f, STAR, a, b, st, VInt(m), VInt(n));
    hide Eval;
  }

  lemma Division(f: nat, a: Tree, b: Tree, st: St, m: int, n: int)
    requires Ints(f, a, b, st, m, n)
    ensures n == 0 ==> Eval(f + 1, Some(BinopTree(SLASH, a, b)), st) == Bad(Failed)
    ensures n == 0 ==> Eval(f + 1, Some(BinopTree(PERCENT, a, b)), st) == Bad(Failed)
    ensures n != 0 ==> Whole(f + 1, BinopTree(SLASH, a, b), st, Quotient(m, n))
    ensures n != 0 && InInt(Quotient(m, n)) ==> Yields(f + 1, BinopTree(PERCENT, a, b), st, VInt(Remainder(m, n)))
  {
    BinaryNode(f, SLASH, a, b, st, VInt(m), VInt(n));
    BinaryNode(f, PERCENT, a, b, st, VInt(m), VInt(n));
    hide Eval, Quotient, Remainder;
  }

  // ----- arithmetic -----

  /** `0 + 1` is 1. */
  lemma ZeroPlusOne(st: St)
    ensures Yields(2, BinopTree(PLUS, IntTree(0), IntTree(1)), st, VInt(1))
  {
    Literal(1, 0, st);
    Literal(1, 1, st);
    hide Eval;
    Sum(1, IntTree(0), IntTree(1), st, 0, 1);
  }

  /** Adding 1 steps from each int to the next, up to the last. */
  lemma AddOne(f: nat, a: Tree, st: St, m: int)
    requires Yields(f, a, st, VInt(m)) && InInt(m)
    ensures Eval(f + 1, Some(BinopTree(PLUS, a, IntTree(1))), st)
         == if m == 0x7FFF_FFFF then Bad(Overflow) else Ok(VInt(m + 1), st)
  {
    NoFuelYields(f, a, st, VInt(m));
    Literal(f, 1, st);
    hide Eval;
    Sum(f, a, IntTree(1), st, m, 1);
  }

  lemma NoFuelYields(f: nat, t: Tree, st: St, v: Value)
    requires Yields(f, t, st, v)
    ensures f > 0
  {
  }

  /** `a - b + b` is `a`. */
  lemma SubtractAdd(f: nat, a: Tree, b: Tree, st: St, m: int, n: int)
    requires Ints(f, a, b, st, m, n) && InInt(m) && InInt(m - n)
    ensures Yields(f + 2, BinopTree(PLUS, BinopTree(MINUS, a, b), b), st, VInt(m))
  {
    Difference(f, a, b, st, m, n);
    YieldsMore(f, f + 1, b, st, VInt(n));
    Sum(f + 1, BinopTree(MINUS, a, b), b, st, m - n, n);
    hide Eval;
  }

  /** `a + b` means `b + a`, overflow included. */
  lemma AddCommutes(f: nat, a: Tree, b: Tree, st: St, m: int, n: int)
    requires Ints(f, a, b, st, m, n)
    ensures Eval(f + 1, Some(BinopTree(PLUS, a, b)), st) == Eval(f + 1, Some(BinopTree(PLUS, b, a)), st)
  {
    Sum(f, a, b, st, m, n);
    Sum(f, b, a, st, n, m);
    hide Eval;
  }

  /** `a + (b + 1)` is `a + b + 1`. */
  lemma AddNext(f: nat, a: Tree, b: Tree, st: St, m: int, n: int)
    requires Ints(f, a, b, st, m, n) && InInt(m + n) && InInt(n + 1)
    ensures var one := IntTree(1);
            Eval(f + 2, Some(BinopTree(PLUS, a, BinopTree(PLUS, b, one))), st)
            == Eval(f + 2, Some(BinopTree(PLUS, BinopTree(PLUS, a, b), one)), st)
  {
    NoFuelYields(f, a, st, VInt(m));
    Literal(f, 1, st);
    Literal(f + 1, 1, st);
    hide Eval;
    Sum(f, b, IntTree(1), st, n, 1);
    Sum(f, a, b, st, m, n);
    YieldsMore(f, f + 1, a, st, VInt(m));
    Sum(f + 1, a, BinopTree(PLUS, b, IntTree(1)), st, m, n + 1);
    Sum(f + 1, BinopTree(PLUS, a, b), IntTree(1), st, m + n, 1);
  }

  /** `a * 0` is 0. */
  lemma TimesZero(f: nat, a: Tree, st: St, m: int)
    requires Yields(f, a, st, VInt(m))
    ensures Yields(f + 1, BinopTree(STAR, a, IntTree(0)), st, VInt(0))
  {
    NoFuelYields(f, a, st, VInt(m));
    Literal(f, 0, st);
    Product(f, a, IntTree(0), st, m, 0);
    hide Eval;
  }

  /** `a * (b + 1)` is `a * b + a`. */
  lemma TimesNext(f: nat, a: Tree, b: Tree, st: St, m: int, n: int)
    requires Ints(f, a, b, st, m, n) && InInt(m * n) && InInt(n + 1)
    ensures Eval(f + 2, Some(BinopTree(STAR, a, BinopTree(PLUS, b, IntTree(1)))), st)
         == Eval(f + 2, Some(BinopTree(PLUS, BinopTree(STAR, a, b), a)), st)
  {
    NoFuelYields(f, a, st, VInt(m));
    Literal(f, 1, st);
    hide Eval;
    Sum(f, b, IntTree(1), st, n, 1);
    Product(f, a, b, st, m, n);
    YieldsMore(f, f + 1, a, st, VInt(m));
    Product(f + 1, a, BinopTree(PLUS, b, IntTree(1)), st, m, n + 1);
    Sum(f + 1, BinopTree(STAR, a, b), a, st, m * n, m);
    assert m * (n + 1) == m * n + m;
  }

  /** `a / b * b + a % b` is `a`; the remainder is nearer to zero than `b` and on the side of `a`. By zero
      neither is defined. */
  lemma DivideMultiply(f: nat, a: Tree, b: Tree, st: St, m: int, n: int) returns (r: int)
    requires Ints(f, a, b, st, m, n) && InInt(m) && InInt(n) && !(m == -0x8000_0000 && n == -1)
    ensures n == 0 ==> Eval(f + 1, Some(BinopTree(SLASH, a, b)), st) == Bad(Failed)
    ensures n == 0 ==> Eval(f + 1, Some(BinopTree(PERCENT, a, b)), st) == Bad(Failed)
    ensures n != 0 ==>
              && Yields(f + 1, BinopTree(PERCENT, a, b), st, VInt(r))
              && (if n > 0 then -n < r < n else n < r < -n) && (m >= 0 ==> r >= 0) && (m <= 0 ==> r <= 0)
              && var whole := BinopTree(STAR, BinopTree(SLASH, a, b), b);
                 Yields(f + 3, BinopTree(PLUS, whole, BinopTree(PERCENT, a, b)), st, VInt(m))
  {
    hide Eval, Quotient, Remainder;
    Division(f, a, b, st, m, n);
    r := 0;
    if n != 0 {
      var q := Quotient(m, n);
      r := Remainder(m, n);
      QuotientTruncates(m, n);
      QuotientFits(m, n);
      YieldsMore(f, f + 1, b, st, VInt(n));
      Product(f + 1, BinopTree(SLASH, a, b), b, st, q, n);
      YieldsMore(f + 1, f + 2, BinopTree(PERCENT, a, b), st, VInt(r));
      Sum(f + 2, BinopTree(STAR, BinopTree(SLASH, a, b), b), BinopTree(PERCENT, a, b), st, q * n, r);
    }
  }

  lemma QuotientFits(m: int, n: int)
    requires InInt(m) && InInt(n) && n != 0 && !(m == MIN_INT && n == -1)
    ensures InInt(Quotient(m, n)) && InInt(Quotient(m, n) * n)
  {
    var a, b := if m >= 0 then m else -m, if n > 0 then n else -n;
    Shrinks(a, b);
    assert Quotient(m, n) == if (m >= 0) == (n > 0) then a / b else -(a / b);
    Signs(a / b, b);
    assert n == -1 ==> b == 1;
  }

  lemma Shrinks(a: int, b: int)
    requires a >= 0 && b > 0
    ensures 0 <= a / b * b <= a && 0 <= a / b <= a && (b > 1 ==> a / b * 2 <= a)
  {
    var q := a / b;
    assert a == b * q + a % b;
    TimesGrows(q, b);
  }

  lemma TimesGrows(q: int, b: int)
    requires q >= 0 && b > 0
    ensures q <= q * b && (b > 1 ==> q * 2 <= q * b)
  {
    assert q * b == q * (b - 1) + q;
    if b > 1 { assert q * (b - 1) == q * (b - 2) + q; }
  }

  lemma Signs(q: int, b: int)
    ensures -q * b == -(q * b) && q * -b == -(q * b) && -q * -b == q * b
  {
  }

  /** `-a` is `0 - a`. */
  lemma Negated(f: nat, a: Tree, st: St, m: int)
    requires Yields(f, a, st, VInt(m))
    ensures Eval(f + 1, Some(UnopTree(MINUS, a)), st) == Eval(f + 1, Some(BinopTree(MINUS, IntTree(0), a)), st)
  {
    NoFuelYields(f, a, st, VInt(m));
    Literal(f, 0, st);
    Difference(f, IntTree(0), a, st, 0, m);
    var t := UnopTree(MINUS, a);
    assert Eval(f + 1, Some(t), st) == EvalUnop(f, t, st);
    assert Kid(t, 0) == Some(a);
  }

  // ----- comparisons -----

  ghost predicate Says(f: nat, t: Tree, st: St, b: bool) {
    Yields(f, t, st, VBool(b))
  }

  lemma Compared(f: nat, a: Tree, b: Tree, st: St, m: int, n: int)
    requires Ints(f, a, b, st, m, n)
    ensures Says(f + 1, BinopTree(LT, a, b), st, m < n) && Says(f + 1, BinopTree(GT, a, b), st, m > n)
    ensures Says(f + 1, BinopTree(LE, a, b), st, m <= n) && Says(f + 1, BinopTree(GE, a, b), st, m >= n)
    ensures Says(f + 1, BinopTree(EQ, a, b), st, m == n) && Says(f + 1, BinopTree(NEQ, a, b), st, m != n)
  {
    forall op | op == LT || op == GT || op == LE || op == GE || op == EQ || op == NEQ
      ensures Eval(f + 1, Some(BinopTree(op, a, b)), st) == Lift(BinaryOf(op, VInt(m), VInt(n)), st)
    {
      BinaryNode(f, op, a, b, st, VInt(m), VInt(n));
    }
    hide Eval;
  }

  /** Of two ints exactly one of `<`, `==` and `>` holds, and `<=`, `>=` and `!=` are the negations of `>`, `<`
      and `==`. */
  lemma Trichotomy(f: nat, a: Tree, b: Tree, st: St, m: int, n: int) returns (lt: bool, eq: bool, gt: bool)
    requires Ints(f, a, b, st, m, n)
    ensures Says(f + 1, BinopTree(LT, a, b), st, lt) && Says(f + 1, BinopTree(EQ, a, b), st, eq)
    ensures Says(f + 1, BinopTree(GT, a, b), st, gt)
    ensures (lt && !eq && !gt) || (!lt && eq && !gt) || (!lt && !eq && gt)
    ensures Says(f + 1, BinopTree(LE, a, b), st, !gt) && Says(f + 1, BinopTree(GE, a, b), st, !lt)
    ensures Says(f + 1, BinopTree(NEQ, a, b), st, !eq)
  {
    Compared(f, a, b, st, m, n);
    lt, eq, gt := m < n, m == n, m > n;
  }

  /** `a < b` says the same as `a - b < 0`. */
  lemma LessIsNegative(f: nat, a: Tree, b: Tree, st: St, m: int, n: int)
    requires Ints(f, a, b, st, m, n) && InInt(m - n)
    ensures Eval(f + 2, Some(BinopTree(LT, a, b)), st)
         == Eval(f + 2, Some(BinopTree(LT, BinopTree(MINUS, a, b), IntTree(0))), st)
  {
    hide Eval;
    Literal(f + 1, 0, st);
    YieldsMore(f, f + 1, a, st, VInt(m));
    YieldsMore(f, f + 1, b, st, VInt(n));
    Compared(f + 1, a, b, st, m, n);
    Difference(f, a, b, st, m, n);
    Compared(f + 1, BinopTree(MINUS, a, b), IntTree(0), st, m - n, 0);
  }

  /** -1 is less than 0, and 0 is not. */
  lemma NegativeIsLess(st: St)
    ensures Says(2, BinopTree(LT, IntTree(-1), IntTree(0)), st, true)
    ensures Says(2, BinopTree(LT, IntTree(0), IntTree(0)), st, false)
  {
    hide Eval;
    Literal(1, 0, st);
    Literal(1, -1, st);
    Compared(1, IntTree(-1), IntTree(0), st, -1, 0);
    Compared(1, IntTree(0), IntTree(0), st, 0, 0);
  }

  /** Values are equal when they are of one kind and the same, but None equals nothing, itself included. */
  lemma Equality(f: nat, a: Tree, b: Tree, st: St, l: Value, r: Value)
    requires Yields(f, a, st, l) && Yields(f, b, st, r)
    ensures Says(f + 1, BinopTree(EQ, a, b), st, l == r && l != VNone)
    ensures Says(f + 1, BinopTree(NEQ, a, b), st, !(l == r && l != VNone))
  {
    BinaryNode(f, EQ, a, b, st, l, r);
    BinaryNode(f, NEQ, a, b, st, l, r);
    hide Eval;
  }

  /** Arithmetic and order are for ints alone, `+` behind a string aside. */
  lemma IntsOnly(f: nat, op: Token, a: Tree, b: Tree, st: St, l: Value, r: Value)
    requires Yields(f, a, st, l) && Yields(f, b, st, r) && (!l.VInt? || !r.VInt?) && !(op == PLUS && l.VStr?)
    requires op == PLUS || op == MINUS || op == STAR || op == SLASH || op == PERCENT
             || op == LT || op == LE || op == GT || op == GE
    ensures Eval(f + 1, Some(BinopTree(op, a, b)), st) == Bad(Failed)
  {
    BinaryNode(f, op, a, b, st, l, r);
    hide Eval;
  }

  // ----- truth -----

  /** What counts as false: 0, the empty text, False and None. */
  predicate Falsy(v: Value) {
    v == VInt(0) || v == VStr("") || v == VBool(false) || v == VNone
  }

  lemma FalsyIs(v: Value)
    ensures Truthy(v) <==> !Falsy(v)
  {
  }

  lemma Not(f: nat, a: Tree, st: St, v: Value)
    requires Yields(f, a, st, v)
    ensures Says(f + 1, UnopTree(NOT, a), st, Falsy(v))
  {
    FalsyIs(v);
    NotNode(f, a, st);
    hide Eval, Truthy, Falsy;
  }

  /** `and` and `or` give True or False; the second operand is evaluated only if the first does not decide. */
  lemma AndOr(f: nat, a: Tree, b: Tree, st: St, v: Value)
    requires Yields(f, a, st, v)
    ensures Falsy(v) ==> Says(f + 1, BinopTree(AND, a, b), st, false)
    ensures !Falsy(v) ==> Says(f + 1, BinopTree(OR, a, b), st, true)
    ensures forall w :: Yields(f, b, st, w) && !Falsy(v) ==> Says(f + 1, BinopTree(AND, a, b), st, !Falsy(w))
    ensures forall w :: Yields(f, b, st, w) && Falsy(v) ==> Says(f + 1, BinopTree(OR, a, b), st, !Falsy(w))
  {
    FalsyIs(v);
    LogicNode(f, AND, a, b, st);
    LogicNode(f, OR, a, b, st);
    forall w ensures Truthy(w) <==> !Falsy(w) { FalsyIs(w); }
    hide Eval, Truthy, Falsy;
  }

  // ----- text -----

  /** The value of decimal digits, the first weighing most. */
  function Decimal(s: string): int {
    if s == "" then 0 else 10 * Decimal(s[..|s| - 1]) + (s[|s| - 1] as int - '0' as int)
  }

  /** Digits without a leading zero, a minus sign in front of those of a negative number. */
  predicate IsDecimal(s: string, n: int) {
    if n < 0 then |s| > 1 && s[0] == '-' && AllDigits(s[1..]) && s[1] != '0' && Decimal(s[1..]) == -n
    else |s| > 0 && AllDigits(s) && (s[0] == '0' ==> s == "0") && Decimal(s) == n
  }

  predicate AllDigits(s: string) {
    forall i :: 0 <= i < |s| ==> '0' <= s[i] <= '9'
  }

  lemma {:induction false} DigitsDecimal(n: nat)
    ensures var s := Digits(n); |s| > 0 && AllDigits(s) && (s[0] == '0' ==> s == "0") && Decimal(s) == n
  {
    var s := Digits(n);
    if n >= 10 {
      DigitsDecimal(n / 10);
      assert s[..|s| - 1] == Digits(n / 10);
    }
  }

  /** What print shows: ints in decimal, texts as they are, and the three words. */
  lemma Texts(n: int, s: string)
    ensures IsDecimal(Text(VInt(n)), n) && Text(VStr(s)) == s
    ensures Text(VBool(true)) == "True" && Text(VBool(false)) == "False" && Text(VNone) == "None"
  {
    DigitsDecimal(if n < 0 then -n else n);
    if n < 0 {
      var d := Digits(-n);
      assert ("-" + d)[1..] == d;
      assert Decimal("0") == 0 by { assert "0"[..0] == ""; }
    }
  }

  /** `s + v` is the text of `s` followed by that of `v`, cut at 255 characters. */
  lemma Append(f: nat, a: Tree, b: Tree, st: St, s: string, v: Value)
    requires Yields(f, a, st, VStr(s)) && Yields(f, b, st, v) && |s| <= 255 && v != VInt(-0x8000_0000)
    ensures var whole := s + Text(v);
            Yields(f + 1, BinopTree(PLUS, a, b), st, VStr(if |whole| <= 255 then whole else whole[..255]))
  {
    BinaryNode(f, PLUS, a, b, st, VStr(s), v);
    hide Eval, Text;
    var t := Text(v);
    if |s + t| > 255 {
      assert (s + t)[..255] == s + t[..255 - |s|];
    }
  }

  // ----- int() -----

  lemma IntCastNode(f: nat, a: Tree, st: St, v: Value)
    requires Yields(f, a, st, v)
    ensures Eval(f + 1, Some(CallTree("int", [a])), st) == Lift(ToInt(v), st)
  {
    hide ToInt;
    var t := CallTree("int", [a]);
    assert t.kind == NIntCast;
    assert Eval(f + 1, Some(t), st) == EvalIntCast(f, t, st);
    assert Kid(t, 0) == Some(a);
  }

  /** The text of an int, turned back by int(), is the int. */
  lemma IntOfDecimal(f: nat, a: Tree, st: St, s: string, n: int)
    requires Yields(f, a, st, VStr(s)) && IsDecimal(s, n) && -0x8000_0000 < n <= 0x7FFF_FFFF
    ensures Yields(f + 1, CallTree("int", [a]), st, VInt(n))
  {
    IntCastNode(f, a, st, VStr(s));
    ReadsBack(s, n);
    hide Eval, ToInt;
  }

  lemma ReadsBack(s: string, n: int)
    requires IsDecimal(s, n) && -0x8000_0000 < n <= 0x7FFF_FFFF
    ensures ToInt(VStr(s)) == Val(VInt(n))
  {
    var p := if n < 0 then s[1..] else s;
    assert "" + p == p;
    assert p + "" == p;
    NumeralRun(p, 0, "", "");
    assert n >= 0 ==> s[0] != '-';
    hide Numeral;
  }

  /** Reading the digits of `p` on top of a number read before. */
  lemma {:induction false} NumeralRun(p: string, acc: nat, before: string, rest: string)
    requires AllDigits(p) && AllDigits(before) && acc == Decimal(before) && 0 <= Decimal(before + p) <= MAX_INT
    ensures Numeral(p + rest, acc) == Numeral(rest, Decimal(before + p))
    decreases |p|
  {
    hide Decimal, AllDigits;
    if p == "" {
      assert before + p == before && p + rest == rest;
    } else {
      var next := before + [p[0]];
      DigitTaken(before, p);
      assert (p + rest)[0] == p[0] && (p + rest)[1..] == p[1..] + rest;
      NumeralRun(p[1..], Decimal(next), next, rest);
    }
  }

  lemma DigitTaken(before: string, p: string)
    requires AllDigits(p) && AllDigits(before) && p != ""
    ensures var next := before + [p[0]];
            && '0' <= p[0] <= '9' && AllDigits(next) && AllDigits(p[1..]) && before + p == next + p[1..]
            && Decimal(next) == 10 * Decimal(before) + (p[0] as int - '0' as int)
            && 0 <= Decimal(next) <= Decimal(before + p)
  {
    var next := before + [p[0]];
    assert next[..|next| - 1] == before && before + p == next + p[1..];
    DecimalGrows(next, p[1..]);
  }

  lemma {:induction false} DecimalGrows(s: string, t: string)
    requires AllDigits(s) && AllDigits(t)
    ensures 0 <= Decimal(s) <= Decimal(s + t)
    decreases |t|, |s|
  {
    if t == "" {
      assert s + t == s;
      if s != "" { DecimalGrows(s[..|s| - 1], ""); assert s[..|s| - 1] + "" == s[..|s| - 1]; }
    } else {
      var front := t[..|t| - 1];
      assert (s + t)[..|s + t| - 1] == s + front;
      DecimalGrows(s, front);
    }
  }

  /** int() of a text fails when there is nothing behind the sign, or something that is no digit behind digits
      of an int. */
  lemma IntRefuses(f: nat, a: Tree, st: St, sign: string, p: string, rest: string)
    requires Yields(f, a, st, VStr(sign + p + rest)) && (sign == "" || sign == "-")
    requires AllDigits(p) && Decimal(p) <= 0x7FFF_FFFF
    requires if rest == "" then p == ""
             else !('0' <= rest[0] <= '9') && !(sign == "" && p == "" && rest[0] == '-')
    ensures Eval(f + 1, Some(CallTree("int", [a])), st) == Bad(Failed)
  {
    IntCastNode(f, a, st, VStr(sign + p + rest));
    Refused(sign, p, rest);
    hide Eval, ToInt;
  }

  lemma Refused(sign: string, p: string, rest: string)
    requires (sign == "" || sign == "-") && AllDigits(p) && Decimal(p) <= 0x7FFF_FFFF
    requires if rest == "" then p == ""
             else !('0' <= rest[0] <= '9') && !(sign == "" && p == "" && rest[0] == '-')
    ensures ToInt(VStr(sign + p + rest)) == Err(Failed)
  {
    hide ToInt, Decimal, Numeral, AllDigits;
    var q := p + rest;
    assert sign + p + rest == sign + q;
    SignSplit(sign, q);
    if rest != "" {
      StopsBehind(p, rest);
      assert q[0] == if p == "" then rest[0] else p[0];
      FirstDigit(p);
    }
  }

  lemma StopsBehind(p: string, rest: string)
    requires AllDigits(p) && Decimal(p) <= 0x7FFF_FFFF && rest != "" && !('0' <= rest[0] <= '9')
    ensures Numeral(p + rest, 0) == Err(Failed)
  {
    hide Decimal, Numeral, AllDigits;
    NoDigits();
    DecimalGrows("", p);
    assert "" + p == p;
    NumeralRun(p, 0, "", rest);
    NumeralStops(rest, Decimal(p));
  }

  lemma FirstDigit(p: string)
    requires AllDigits(p)
    ensures p != "" ==> '0' <= p[0] <= '9'
  {
  }

  lemma NumeralStops(rest: string, acc: nat)
    requires rest != "" && !('0' <= rest[0] <= '9')
    ensures Numeral(rest, acc) == Err(Failed)
  {
  }

  lemma NoDigits()
    ensures Decimal("") == 0 && AllDigits("")
  {
  }

  lemma SignSplit(sign: string, q: string)
    requires sign == "" || sign == "-"
    ensures q == "" ==> ToInt(VStr(sign + q)) == Err(Failed)
    ensures q != "" && (sign == "" ==> q[0] != '-') && Numeral(q, 0).Err? ==> ToInt(VStr(sign + q)) == Numeral(q, 0)
  {
    hide Numeral;
    assert sign == "-" ==> (sign + q)[1..] == q;
    assert sign == "" ==> sign + q == q;
  }
}

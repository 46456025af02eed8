/** What a function without a return yields: None for some bodies, never None for others. */
module GkReturns {
  import opened Options
  import opened GkSyntax
  import opened GkGrammar
  import opened GkMeaning
  import opened GkLaws

  /** No return in the tree; those of functions defined in it are not its own. */
  predicate NoReturn(t: Tree)
    decreases t
  {
    t.kind != NReturn && (t.kind != NDef ==> forall i :: 0 <= i < |t.kids| ==> NoReturn(t.kids[i]))
  }

  /** What is left at the end of `t` is None: printing, definitions and jumps leave None, an assignment
      what it assigned, a block its last statement's value, an if and a loop their bodies'. */
  predicate AlwaysNone(t: Tree)
    decreases t
  {
    if t.kind in {NPrint, NDef, NBreak, NContinue} then true
    else if t.kind == NAssign then t.kids != [] ==> AlwaysNone(t.kids[0])
    else if t.kind == NBlock then t.kids != [] ==> AlwaysNone(t.kids[|t.kids| - 1])
    else if t.kind == NIf then
      && (|t.kids| > 1 ==> AlwaysNone(t.kids[1]))
      && (|t.kids| == 3 ==> AlwaysNone(t.kids[2]))
    else if t.kind == NWhile || t.kind == NFor then |t.kids| > 1 ==> AlwaysNone(t.kids[1])
    else false
  }

  /** What is left at the end of `t` is not None: literals, operators, input() and int() give something,
      whatever their operands. A variable or a call may give either, and a loop may not turn at all. */
  predicate NeverNone(t: Tree)
    decreases t
  {
    if t.kind in {NInt, NStr, NBool, NBinop, NInput, NIntCast} then true
    else if t.kind == NUnop then t.op == MINUS || t.op == NOT
    else if t.kind == NAssign then t.kids != [] && NeverNone(t.kids[0])
    else if t.kind == NBlock then t.kids != [] && NeverNone(t.kids[|t.kids| - 1])
    else if t.kind == NIf then |t.kids| == 3 && NeverNone(t.kids[1]) && NeverNone(t.kids[2])
    else false
  }

  predicate NoReturnOpt(t: Option<Tree>) {
    t.Some? ==> NoReturn(t.value)
  }

  predicate AlwaysNoneOpt(t: Option<Tree>) {
    t.Some? ==> AlwaysNone(t.value)
  }

  predicate NeverNoneOpt(t: Option<Tree>) {
    t.Some? && NeverNone(t.value)
  }

  /** Nothing is pending, and all functions keep their jumps in their own loops. */
  ghost predicate Ready(st: St) {
    st.scopes != [] && !st.flags.Any() && FuncsPlaced(st.funcs)
  }

  /** What the tree says of an outcome: no return of its own, and whether its value is None. A jump that
      is pending leaves None. */
  ghost predicate Says(noReturn: bool, always: bool, never: bool, o: Out) {
    o.Ok? ==>
      && (noReturn ==> !o.st.flags.returning)
      && (!o.st.flags.returning && (always || o.st.flags.breaking || o.st.flags.continuing) ==> o.v == VNone)
      && (never && !o.st.flags.Any() ==> o.v != VNone)
  }

  ghost predicate SaysOf(t: Option<Tree>, o: Out) {
    Says(NoReturnOpt(t), AlwaysNoneOpt(t), NeverNoneOpt(t), o)
  }

  lemma {:induction false} EvalSays(fuel: nat, t: Option<Tree>, st: St, p: Place)
    requires Ready(st) && PlacedOpt(t, p)
    ensures SaysOf(t, Eval(fuel, t, st))
    decreases fuel, 0, 0
  {
    hide Placed, FuncsPlaced, NoReturn, AlwaysNone, NeverNone, EvalNode;
    if t.Some? && fuel > 0 {
      NodeSays(fuel - 1, t.value, st, p);
    }
  }

  predicate IsExpr(k: Kind) {
    k in {NInt, NStr, NBool, NVar, NUnop, NBinop, NPrint, NInput, NIntCast, NCall, NRange}
  }

  lemma {:induction false} NodeSays(f: nat, t: Tree, st: St, p: Place)
    requires Ready(st) && Placed(t, p)
    ensures SaysOf(Some(t), EvalNode(f, t, st))
    decreases f, 5, 0
  {
    hide Placed, FuncsPlaced, NoReturn, AlwaysNone, NeverNone, EvalNode, Says;
    if IsExpr(t.kind) { ExprSays(f, t, st, p); }
    else if t.kind == NAssign { AssignSays(f, t, st, p); }
    else if t.kind == NBlock { NodeIs(f, t, st); BlockSays(f, t, 0, VNone, st, p); }
    else if t.kind == NIf { IfSays(f, t, st, p); }
    else if t.kind == NWhile { NodeIs(f, t, st); WhileSays(f, t, VNone, st, p); }
    else if t.kind == NFor { ForSays(f, t, st, p); }
    else { LeafSays(f, t, st); }
  }

  lemma NodeIs(f: nat, t: Tree, st: St)
    ensures t.kind == NBlock ==> EvalNode(f, t, st) == EvalBlock(f, t.kids, 0, VNone, st)
    ensures t.kind == NWhile ==> EvalNode(f, t, st) == EvalWhile(f, t, VNone, st)
    ensures t.kind == NFor ==> EvalNode(f, t, st) == EvalFor(f, t, st)
    ensures t.kind == NIf ==> EvalNode(f, t, st) == EvalIf(f, t, st)
    ensures t.kind == NAssign ==> EvalNode(f, t, st) == EvalAssign(f, t, st)
    ensures t.kind == NCall ==> EvalNode(f, t, st) == EvalCall(f, t, st)
  {
    hide EvalBlock, EvalWhile, EvalFor, EvalIf, EvalAssign, EvalCall;
  }

  /** After a child at place `p` without a jump or return, evaluation is ready to go on. */
  lemma KidReady(f: nat, t: Tree, k: nat, st: St, p: Place)
    requires Ready(st) && Placed(t, p)
    ensures var o := Eval(f, Kid(t, k), st);
            o.Ok? ==>
              && o.st.scopes != [] && FuncsPlaced(o.st.funcs) && FlagsAt(o.st.flags, KidPlace(t.kind, k, |t.kids|, p))
  {
    KidKeeps(f, t, k, st, p);
    hide Placed, FuncsPlaced, Eval;
  }

  lemma KidPlaced(t: Tree, k: nat, p: Place)
    requires Placed(t, p) && k < |t.kids|
    ensures Placed(t.kids[k], KidPlace(t.kind, k, |t.kids|, p))
  {
  }

  /** An expression has no jump and no return to leave. */
  lemma {:induction false} ExprSays(f: nat, t: Tree, st: St, p: Place)
    requires Ready(st) && Placed(t, p) && IsExpr(t.kind)
    ensures SaysOf(Some(t), EvalNode(f, t, st))
  {
    assert Placed(t, InExpr);
    NodeKeeps(f, t, st, InExpr);
    hide Placed, FuncsPlaced;
    ExprValue(f, t, st);
  }

  lemma ExprValue(f: nat, t: Tree, st: St)
    requires IsExpr(t.kind)
    ensures var o := EvalNode(f, t, st);
            o.Ok? ==> (AlwaysNone(t) ==> o.v == VNone) && (NeverNone(t) ==> o.v != VNone)
  {
    hide Eval, EvalPrint, EvalCall, EvalUnop, EvalBinop, EvalInput, EvalIntCast;
    if t.kind == NPrint { PrintsNone(f, t.kids, 0, st); }
    else if t.kind == NUnop { UnopValue(f, t, st); }
    else if t.kind == NBinop { BinopValue(f, t, st); }
    else if t.kind == NInput { InputValue(f, t, st); }
    else if t.kind == NIntCast { IntCastValue(f, t, st); }
  }

  lemma UnopValue(f: nat, t: Tree, st: St)
    ensures (t.op == MINUS || t.op == NOT) && EvalUnop(f, t, st).Ok? ==> EvalUnop(f, t, st).v != VNone
  {
    hide Eval;
  }

  lemma BinopValue(f: nat, t: Tree, st: St)
    ensures EvalBinop(f, t, st).Ok? ==> EvalBinop(f, t, st).v != VNone
  {
    hide Eval, Quotient, Remainder, Joined, Text;
  }

  lemma InputValue(f: nat, t: Tree, st: St)
    ensures EvalInput(f, t, st).Ok? ==> EvalInput(f, t, st).v != VNone
  {
    hide Eval, Text;
  }

  lemma IntCastValue(f: nat, t: Tree, st: St)
    ensures EvalIntCast(f, t, st).Ok? ==> EvalIntCast(f, t, st).v != VNone
  {
    hide Eval, Numeral;
  }

  lemma {:induction false} PrintsNone(f: nat, ts: seq<Tree>, i: nat, st: St)
    requires i <= |ts|
    ensures EvalPrint(f, ts, i, st).Ok? ==> EvalPrint(f, ts, i, st).v == VNone
    decreases |ts| - i
  {
    hide Eval, Text;
    if i < |ts| {
      var o := Eval(f, Some(ts[i]), st);
      if o.Ok? && HasText(o.v) {
        PrintsNone(f, ts, i + 1, Printed(o.st, o.v, i < |ts| - 1));
      }
    }
  }

  lemma LeafSays(f: nat, t: Tree, st: St)
    requires Ready(st) && !IsExpr(t.kind) && t.kind !in {NAssign, NBlock, NIf, NWhile, NFor}
    ensures SaysOf(Some(t), EvalNode(f, t, st))
  {
    hide Eval;
  }

  lemma {:induction false} AssignSays(f: nat, t: Tree, st: St, p: Place)
    requires Ready(st) && Placed(t, p) && t.kind == NAssign
    ensures SaysOf(Some(t), EvalNode(f, t, st))
    decreases f, 4, 0
  {
    NodeIs(f, t, st);
    KidReady(f, t, 0, st, p);
    if t.kids != [] { KidPlaced(t, 0, p); }
    EvalSays(f, Kid(t, 0), st, InExpr);
    hide Placed, FuncsPlaced, Eval, EvalNode, Assigned, NoReturn;
  }

  /** `last` is what the statements before the i-th left. */
  ghost predicate LastOf(t: Tree, i: nat, last: Value)
    requires i <= |t.kids|
  {
    if i == 0 then last == VNone
    else (AlwaysNone(t.kids[i - 1]) ==> last == VNone) && (NeverNone(t.kids[i - 1]) ==> last != VNone)
  }

  lemma {:induction false} BlockSays(f: nat, t: Tree, i: nat, last: Value, st: St, p: Place)
    requires Ready(st) && Placed(t, p) && t.kind == NBlock && i <= |t.kids| && LastOf(t, i, last)
    ensures SaysOf(Some(t), EvalBlock(f, t.kids, i, last, st))
    decreases f, 3, |t.kids| - i
  {
    hide Placed, FuncsPlaced, Eval;
    if i < |t.kids| {
      KidReady(f, t, i, st, p);
      KidPlaced(t, i, p);
      EvalSays(f, Some(t.kids[i]), st, p);
      var o := Eval(f, Some(t.kids[i]), st);
      if o.Ok? && !o.st.flags.Any() {
        BlockSays(f, t, i + 1, o.v, o.st, p);
      } else {
        BlockLeft(t, i, o);
      }
    }
  }

  /** A statement that ends its block with a jump or a return. */
  lemma BlockLeft(t: Tree, i: nat, o: Out)
    requires t.kind == NBlock && i < |t.kids| && SaysOf(Some(t.kids[i]), o) && (o.Ok? ==> o.st.flags.Any())
    ensures SaysOf(Some(t), o)
  {
    hide AlwaysNone, NeverNone;
  }

  lemma {:induction false} IfSays(f: nat, t: Tree, st: St, p: Place)
    requires Ready(st) && Placed(t, p) && t.kind == NIf
    ensures SaysOf(Some(t), EvalNode(f, t, st))
    decreases f, 4, 0
  {
    NodeIs(f, t, st);
    KidReady(f, t, 0, st, p);
    hide Placed, FuncsPlaced, Eval, EvalNode;
    var c := Eval(f, Kid(t, 0), st);
    if c.Ok? && Truthy(c.v) {
      if |t.kids| > 1 { KidPlaced(t, 1, p); }
      EvalSays(f, Kid(t, 1), c.st, p);
    } else if c.Ok? && |t.kids| == 3 {
      KidPlaced(t, 2, p);
      EvalSays(f, Kid(t, 2), c.st, p);
    }
  }

  lemma {:induction false} WhileSays(f: nat, t: Tree, last: Value, st: St, p: Place)
    requires Ready(st) && Placed(t, p) && t.kind == NWhile && (AlwaysNone(t) ==> last == VNone)
    ensures SaysOf(Some(t), EvalWhile(f, t, last, st))
    decreases f, 2, 0
  {
    KidReady(f, t, 0, st, p);
    hide Placed, FuncsPlaced, Eval;
    var c := Eval(f, Kid(t, 0), st);
    if c.Ok? && Truthy(c.v) {
      KidReady(f, t, 1, c.st, p);
      if |t.kids| > 1 { KidPlaced(t, 1, p); }
      EvalSays(f, Kid(t, 1), c.st, InLoop);
      var o := Eval(f, Kid(t, 1), c.st);
      if o.Ok? && f > 0 && !o.st.flags.returning && !o.st.flags.breaking {
        WhileSays(f - 1, t, o.v, o.st.(flags := o.st.flags.(continuing := false)), p);
      }
    }
  }

  lemma {:induction false} ForSays(f: nat, t: Tree, st: St, p: Place)
    requires Ready(st) && Placed(t, p) && t.kind == NFor
    ensures SaysOf(Some(t), EvalNode(f, t, st))
    decreases f, 4, 0
  {
    NodeIs(f, t, st);
    hide FuncsPlaced, Eval, EvalNode, EvalSteps, NoReturn, AlwaysNone, NeverNone, Says;
    if t.kids == [] || (t.kids[0].kind == NRange && t.kids[0].kids == []) {
      FaultSays(Some(t), EvalFor(f, t, st));
    } else {
      var head := if t.kids[0].kind == NRange then Kid(t.kids[0], 0) else Kid(t, 0);
      KidPlaced(t, 0, p);
      if t.kids[0].kind == NRange { KidReady(f, t.kids[0], 0, st, InExpr); } else { KidReady(f, t, 0, st, p); }
      var o := Eval(f, head, st);
      if o.Ok? && o.v.VInt? {
        StepsSay(f, t, 0, o.v.i, VNone, o.st, p);
      } else {
        FaultSays(Some(t), EvalFor(f, t, st));
      }
    }
  }

  lemma FaultSays(t: Option<Tree>, o: Out)
    requires o.Bad?
    ensures SaysOf(t, o)
  {
  }

  lemma {:induction false} StepsSay(f: nat, t: Tree, i: nat, limit: int, last: Value, st: St, p: Place)
    requires Ready(st) && Placed(t, p) && t.kind == NFor && (AlwaysNone(t) ==> last == VNone)
    ensures SaysOf(Some(t), EvalSteps(f, t, i, limit, last, st))
    decreases f, 2, limit - i
  {
    hide Placed, FuncsPlaced, Eval;
    var s := Assigned(st.scopes, t.strVal, VInt(i));
    if i < limit && s.Some? {
      var st0 := st.(scopes := s.value);
      KidReady(f, t, 1, st0, p);
      if |t.kids| > 1 { KidPlaced(t, 1, p); }
      EvalSays(f, Kid(t, 1), st0, InLoop);
      var o := Eval(f, Kid(t, 1), st0);
      if o.Ok? && !o.st.flags.returning && !o.st.flags.breaking {
        StepsSay(f, t, i + 1, limit, o.v, o.st.(flags := o.st.flags.(continuing := false)), p);
      }
    }
  }

  // ----- calls -----

  /** A call of a function without a return yields None if its body always ends in None, and something
      else if its body never does. */
  lemma {:induction false} WithoutReturn(f: nat, t: Tree, st: St)
    requires Ready(st) && t.kind == NCall && Placed(t, InExpr)
    requires FindFunc(st.funcs, t.strVal, 0).Some? && NoReturn(FindFunc(st.funcs, t.strVal, 0).value.body)
    ensures var body, o := FindFunc(st.funcs, t.strVal, 0).value.body, EvalNode(f, t, st);
            o.Ok? ==> (AlwaysNone(body) ==> o.v == VNone) && (NeverNone(body) ==> o.v != VNone)
  {
    NodeIs(f, t, st);
    ArgsKeep(f, t, [], st, InExpr);
    hide Placed, FindFunc, Eval, EvalNode, EvalArgs, Bind, NoReturn, AlwaysNone, NeverNone;
    var fn, a := FindFunc(st.funcs, t.strVal, 0), EvalArgs(f, t.kids, [], st);
    if a.Oks? && |t.kids| == |fn.value.params| {
      var inner := a.st.scopes + [map[]];
      var bound := Bind(inner, fn.value.params, a.vs, 0);
      BindKeeps(inner, fn.value.params, a.vs, 0);
      if bound.Some? {
        FoundPlaced(st.funcs, t.strVal);
        EvalSays(f, Some(fn.value.body), a.st.(scopes := bound.value), Outside);
        EvalKeeps(f, Some(fn.value.body), a.st.(scopes := bound.value), Outside);
      }
    }
  }

  lemma FoundPlaced(funcs: seq<Func>, name: string)
    requires FuncsPlaced(funcs) && FindFunc(funcs, name, 0).Some?
    ensures Placed(FindFunc(funcs, name, 0).value.body, Outside)
  {
    hide Placed;
  }
}

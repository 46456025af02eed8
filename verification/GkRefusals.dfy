/** Which programs stop with an error: unknown names, calls that do not fit, tables that are full. */
module GkRefusals {
  import opened Options
  import opened GkSyntax
  import opened GkGrammar
  import opened GkPrintStmt
  import opened GkMeaning
  import opened GkOperators
  import opened GkControl

  /** A name is an error exactly when no call still running has a variable of that name. */
  lemma {:induction false} UnknownName(name: string, st: St)
    ensures Eval(1, Some(VarTree(name)), st) == Bad(Failed) <==> forall s :: s in st.scopes ==> name !in s
  {
    assert Eval(1, Some(VarTree(name)), st) == EvalVar(name, st);
    NowhereFound(st.scopes, name);
  }

  lemma {:induction false} NowhereFound(scopes: seq<Scope>, name: string)
    ensures Lookup(scopes, name).None? <==> forall s :: s in scopes ==> name !in s
  {
    if scopes != [] {
      var n := |scopes| - 1;
      NowhereFound(scopes[..n], name);
      assert scopes == scopes[..n] + [scopes[n]];
    }
  }

  /** An assignment fails exactly when it needs a variable more than 128. */
  lemma NoMoreVariables(f: nat, name: string, e: Tree, st: St, v: Value)
    requires Yields(f, e, st, v) && st.scopes != []
    ensures Eval(f + 1, Some(AssignTree(name, e)), st) == Bad(Failed)
            <==> name !in st.scopes[|st.scopes| - 1] && Count(st.scopes) >= 128
  {
    AssignNode(f, name, e, st, v);
    hide Eval, Count;
  }

  /** A call is refused, before its arguments are evaluated, when there is no function of the name, when the
      first one has another number of parameters, and while 32 calls are running. */
  lemma CallRefused(f: nat, name: string, args: seq<Tree>, st: St)
    requires CallTree(name, args).kind == NCall
    requires (forall fn :: fn in st.funcs ==> fn.name != name)
             || (exists fn :: Defined(st, name, fn) && |fn.params| != |args|)
             || |st.scopes| > 32
    ensures Eval(f + 1, Some(CallTree(name, args)), st) == Bad(Failed)
  {
    var t := CallTree(name, args);
    CallEval(f, t, st);
    if fn :| Defined(st, name, fn) && |fn.params| != |args| {
      FirstFound(st, name, fn);
    }
    hide Eval, EvalArgs, Bind;
  }

  /** A definition is refused behind 64 others. */
  lemma NoMoreFunctions(f: nat, name: string, params: seq<string>, body: Tree, st: St)
    ensures Eval(f + 1, Some(NodeTree(NDef, name, ParamTrees(params) + [body])), st) == Bad(Failed)
            <==> |st.funcs| >= 64
  {
    DefEval(f, NodeTree(NDef, name, ParamTrees(params) + [body]), st);
    hide Eval;
  }

  /** A for loop needs an int, or a range with one. */
  lemma ForRefused(f: nat, name: string, head: Tree, body: Tree, st: St, v: Value)
    requires Yields(f, head, st, v) && head.kind != NRange && !v.VInt?
    ensures Eval(f + 1, Some(ForTree(name, head, body)), st) == Bad(Failed)
    ensures Eval(f + 1, Some(ForTree(name, RangeTree(head), body)), st) == Bad(Failed)
    ensures Eval(f + 1, Some(ForTree(name, CallTree("range", []), body)), st) == Bad(Failed)
  {
    var t, u, w := ForTree(name, head, body), ForTree(name, RangeTree(head), body),
                   ForTree(name, CallTree("range", []), body);
    ForEval(f, t, st);
    ForEval(f, u, st);
    ForEval(f, w, st);
    assert t.kids[0] == head && u.kids[0] == RangeTree(head) && w.kids[0] == CallTree("range", []);
    assert Kid(RangeTree(head), 0) == Some(head) && Kid(t, 0) == Some(head);
    hide Eval, EvalSteps;
  }

  /** Elsewhere `range` is an error, and so is `int` with any number of arguments but one. */
  lemma BuiltinsRefused(f: nat, args: seq<Tree>, st: St)
    ensures Eval(f + 1, Some(CallTree("range", args)), st) == Bad(Failed)
    ensures |args| != 1 ==> Eval(f + 1, Some(CallTree("int", args)), st) == Bad(Failed)
  {
    RangeIs(f, args, st);
    IntIs(f, args, st);
    hide Eval;
  }

  lemma RangeIs(f: nat, args: seq<Tree>, st: St)
    ensures Eval(f + 1, Some(CallTree("range", args)), st) == Bad(Failed)
  {
    assert CallTree("range", args).kind == NRange;
    hide CallKind;
  }

  lemma IntIs(f: nat, args: seq<Tree>, st: St)
    ensures Eval(f + 1, Some(CallTree("int", args)), st) == EvalIntCast(f, CallTree("int", args), st)
  {
    assert CallTree("int", args).kind == NIntCast;
    hide CallKind, EvalIntCast;
  }

  /** Only an int has a negative. */
  lemma NegateRefused(f: nat, e: Tree, st: St, v: Value)
    requires Yields(f, e, st, v) && !v.VInt?
    ensures Eval(f + 1, Some(UnopTree(MINUS, e)), st) == Bad(Failed)
  {
    var t := UnopTree(MINUS, e);
    assert Eval(f + 1, Some(t), st) == EvalUnop(f, t, st);
    assert Kid(t, 0) == Some(e);
    hide Eval;
  }

  /** input(e) shows the text of e in front of the line it takes; without input left the line is empty. */
  lemma InputAsks(f: nat, e: Tree, st: St, v: Value)
    requires Yields(f, e, st, v) && v != VInt(-0x8000_0000)
    ensures Eval(f + 1, Some(CallTree("input", [e])), st)
         == Ok(VStr(if st.input == [] then "" else st.input[0]),
               st.(input := if st.input == [] then [] else st.input[1..], out := st.out + [Text(v)] + ["\n"]))
  {
    var t := CallTree("input", [e]);
    assert t.kind == NInput && Kid(t, 0) == Some(e);
    assert Eval(f + 1, Some(t), st) == EvalInput(f, t, st);
    hide Eval, GkMeaning.Text;
  }
}

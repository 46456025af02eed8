/** What statements, loops and calls do, as laws of evaluated programs. */
module GkControl {
  import opened Options
  import opened GkSyntax
  import opened GkGrammar
  import opened GkPrintStmt
  import opened GkMeaning
  import opened GkLaws
  import opened GkEquations
  import opened GkOperators

  function AssignTree(name: string, e: Tree): Tree { NodeTree(NAssign, name, [e]) }
  function ReturnTree(e: Tree): Tree { NodeTree(NReturn, "", [e]) }
  function WhileTree(c: Tree, body: Tree): Tree { NodeTree(NWhile, "", [c, body]) }
  function ForTree(name: string, head: Tree, body: Tree): Tree { NodeTree(NFor, name, [head, body]) }
  function RangeTree(e: Tree): Tree { CallTree("range", [e]) }

  // ----- variables -----

  /** There is a scope, and room for one more variable. */
  predicate Roomy(st: St) {
    st.scopes != [] && Count(st.scopes) < 128
  }

  lemma AssignNode(f: nat, name: string, e: Tree, st: St, v: Value)
    requires Yields(f, e, st, v)
    ensures Eval(f + 1, Some(AssignTree(name, e)), st)
         == var s := Assigned(st.scopes, name, v); if s.None? then Bad(Failed) else Ok(v, st.(scopes := s.value))
  {
    hide Assigned;
    var t := AssignTree(name, e);
    assert Eval(f + 1, Some(t), st) == EvalAssign(f, t, st);
    assert Kid(t, 0) == Some(e);
  }

  /** After `x = e`, `x` is the value of `e`, and every other variable what it was. */
  lemma AssignThenRead(f: nat, name: string, e: Tree, st: St, v: Value) returns (st': St)
    requires Yields(f, e, st, v) && Roomy(st)
    ensures Eval(f + 1, Some(AssignTree(name, e)), st) == Ok(v, st') && st' == st.(scopes := st'.scopes)
    ensures Yields(1, VarTree(name), st', v)
    ensures forall other, w :: other != name ==>
              (Yields(1, VarTree(other), st, w) <==> Yields(1, VarTree(other), st', w))
  {
    AssignNode(f, name, e, st, v);
    var s := Assigned(st.scopes, name, v).value;
    st' := st.(scopes := s);
    forall other ensures Lookup(s, other) == if other == name then Some(v) else Lookup(st.scopes, other) {
      AssignedLookup(st.scopes, name, v, other);
    }
    forall x, u: St, w ensures Yields(1, VarTree(x), u, w) <==> Lookup(u.scopes, x) == Some(w) {
      VarNode(x, u, w);
    }
    hide Eval, Lookup, Assigned;
  }

  lemma VarNode(name: string, st: St, v: Value)
    ensures Yields(1, VarTree(name), st, v) <==> Lookup(st.scopes, name) == Some(v)
  {
    hide Lookup;
    assert Eval(1, Some(VarTree(name)), st) == EvalVar(name, st);
  }

  lemma AssignedLookup(scopes: seq<Scope>, name: string, v: Value, other: string)
    requires Assigned(scopes, name, v).Some?
    ensures Lookup(Assigned(scopes, name, v).value, other) == if other == name then Some(v) else Lookup(scopes, other)
  {
    var n := |scopes| - 1;
    assert Assigned(scopes, name, v).value[..n] == scopes[..n];
  }

  // ----- branches and blocks -----

  /** An if takes its body unless the condition is false, and then the other branch if there is one. */
  lemma IfTakes(f: nat, c: Tree, body: Tree, other: Tree, st: St, v: Value)
    requires Yields(f, c, st, v)
    ensures Eval(f + 1, Some(IfTree(c, body, other)), st) == Eval(f, Some(if Falsy(v) then other else body), st)
    ensures Eval(f + 1, Some(NodeTree(NIf, "", [c, body])), st)
         == if Falsy(v) then Ok(VNone, st) else Eval(f, Some(body), st)
  {
    FalsyIs(v);
    IfNode(f, c, body, other, st);
    hide Truthy, Falsy;
    var t := NodeTree(NIf, "", [c, body]);
    assert Eval(f + 1, Some(t), st) == EvalIf(f, t, st);
    assert Kid(t, 0) == Some(c) && Kid(t, 1) == Some(body);
  }

  /** A block goes on behind a statement that leaves nothing pending, and ends with one that does. */
  lemma BlockGoesOn(f: nat, t: Tree, ts: seq<Tree>, st: St, v: Value, st1: St)
    requires Eval(f, Some(t), st) == Ok(v, st1) && ts != []
    ensures !st1.flags.Any() ==> Eval(f + 1, Some(BlockTree([t] + ts)), st) == Eval(f + 1, Some(BlockTree(ts)), st1)
    ensures st1.flags.Any() ==> Eval(f + 1, Some(BlockTree([t] + ts)), st) == Ok(v, st1)
  {
    var all := [t] + ts;
    assert Eval(f + 1, Some(BlockTree(all)), st) == EvalBlock(f, all, 0, VNone, st);
    assert Eval(f + 1, Some(BlockTree(ts)), st1) == EvalBlock(f, ts, 0, VNone, st1);
    assert all[0] == t;
    if !st1.flags.Any() {
      assert EvalBlock(f, all, 0, VNone, st) == EvalBlock(f, all, 1, v, st1);
      hide Eval;
      BlockShift(f, t, ts, 0, v, VNone, st1);
    }
  }

  /** The rest of a block does not depend on what came before. */
  lemma {:induction false} BlockShift(f: nat, t: Tree, ts: seq<Tree>, i: nat, last: Value, last': Value, st: St)
    requires i <= |ts| && (i == |ts| ==> last == last')
    ensures EvalBlock(f, [t] + ts, i + 1, last, st) == EvalBlock(f, ts, i, last', st)
    decreases |ts| - i
  {
    hide Eval;
    if i < |ts| {
      assert ([t] + ts)[i + 1] == ts[i];
      var o := Eval(f, Some(ts[i]), st);
      if o.Ok? && !o.st.flags.Any() {
        BlockShift(f, t, ts, i + 1, o.v, o.v, o.st);
      }
    }
  }

  /** `return e` is pending with the value of `e`. */
  lemma ReturnPends(f: nat, e: Tree, st: St, v: Value)
    requires Yields(f, e, st, v)
    ensures Eval(f + 1, Some(ReturnTree(e)), st) == Ok(v, st.(flags := st.flags.(returning := true, value := v)))
  {
    var t := ReturnTree(e);
    assert Eval(f + 1, Some(t), st) == EvalReturn(f, t, st);
    assert Kid(t, 0) == Some(e);
  }

  // ----- while -----

  lemma WhileNode(f: nat, c: Tree, body: Tree, st: St)
    ensures Eval(f + 1, Some(WhileTree(c, body)), st) == EvalWhile(f, WhileTree(c, body), VNone, st)
  {
  }

  /** A while loop whose condition is false does nothing. */
  lemma WhileStops(f: nat, c: Tree, body: Tree, st: St, v: Value)
    requires Yields(f, c, st, v) && Falsy(v)
    ensures Eval(f + 1, Some(WhileTree(c, body)), st) == Ok(VNone, st)
  {
    FalsyIs(v);
    WhileNode(f, c, body, st);
    assert Kid(WhileTree(c, body), 0) == Some(c);
    hide Eval, Truthy, Falsy;
  }

  /** The same error, or the same state. */
  predicate SameEnd(a: Out, b: Out) {
    match a
    case Bad(e) => b == Bad(e)
    case Ok(_, st) => b.Ok? && b.st == st
  }

  /** A while loop whose condition holds turns once: behind its body the loop starts again, unless the body
      returned or broke out; what was broken or continued is over then. */
  lemma WhileTurns(f: nat, c: Tree, body: Tree, st: St, v: Value, w: Value, st1: St)
    requires Yields(f, c, st, v) && !Falsy(v) && Eval(f, Some(body), st) == Ok(w, st1) && f > 0
    ensures st1.flags.returning ==> Eval(f + 1, Some(WhileTree(c, body)), st) == Ok(w, st1)
    ensures !st1.flags.returning && st1.flags.breaking ==>
              Eval(f + 1, Some(WhileTree(c, body)), st) == Ok(w, st1.(flags := st1.flags.(breaking := false)))
    ensures !st1.flags.returning && !st1.flags.breaking ==>
              SameEnd(Eval(f, Some(WhileTree(c, body)), st1.(flags := st1.flags.(continuing := false))),
                      Eval(f + 1, Some(WhileTree(c, body)), st))
  {
    FalsyIs(v);
    var t := WhileTree(c, body);
    WhileNode(f, c, body, st);
    WhileOnce(f, t, c, body, st, v, w, st1);
    if !st1.flags.returning && !st1.flags.breaking {
      var next := st1.(flags := st1.flags.(continuing := false));
      WhileNode(f - 1, c, body, next);
      hide Eval, Truthy, Falsy;
      WhileLast(f - 1, t, w, VNone, next);
    }
  }

  lemma WhileOnce(f: nat, t: Tree, c: Tree, body: Tree, st: St, v: Value, w: Value, st1: St)
    requires t == WhileTree(c, body) && f > 0
    requires Yields(f, c, st, v) && Truthy(v) && Eval(f, Some(body), st) == Ok(w, st1)
    ensures EvalWhile(f, t, VNone, st)
         == if st1.flags.returning then Ok(w, st1)
            else if st1.flags.breaking then Ok(w, st1.(flags := st1.flags.(breaking := false)))
            else EvalWhile(f - 1, t, w, st1.(flags := st1.flags.(continuing := false)))
  {
    assert Kid(t, 0) == Some(c) && Kid(t, 1) == Some(body);
    hide Eval, Truthy;
  }

  lemma WhileLast(f: nat, t: Tree, a: Value, b: Value, st: St)
    ensures SameEnd(EvalWhile(f, t, b, st), EvalWhile(f, t, a, st))
  {
    hide Eval, Truthy;
  }

  // ----- print and input -----

  /** The texts with spaces between and a line end behind. */
  function Line(texts: seq<string>): seq<string> {
    if texts == [] then ["\n"] else [texts[0]] + (if |texts| == 1 then [] else [" "]) + Line(texts[1..])
  }

  ghost predicate AllYield(f: nat, ts: seq<Tree>, st: St, vs: seq<Value>) {
    |ts| == |vs| && forall i :: 0 <= i < |ts| ==> forall out :: Yields(f, ts[i], st.(out := out), vs[i])
  }

  /** print shows its arguments in order, with spaces between them, and ends the line. */
  lemma PrintShows(f: nat, ts: seq<Tree>, st: St, vs: seq<Value>)
    requires AllYield(f, ts, st, vs) && forall i :: 0 <= i < |vs| ==> vs[i] != VInt(-0x8000_0000)
    ensures Eval(f + 1, Some(CallTree("print", ts)), st)
         == Ok(VNone, st.(out := st.out + Line(seq(|vs|, i requires 0 <= i < |vs| => Text(vs[i])))))
  {
    var t := CallTree("print", ts);
    assert Eval(f + 1, Some(t), st) == EvalPrint(f, ts, 0, st);
    hide Eval, Text;
    PrintRest(f, ts, 0, st, vs);
    assert st.(out := st.out) == st;
  }

  lemma {:induction false} PrintRest(f: nat, ts: seq<Tree>, i: nat, st: St, vs: seq<Value>)
    requires i <= |ts| && AllYield(f, ts, st, vs) && forall i :: 0 <= i < |vs| ==> vs[i] != VInt(-0x8000_0000)
    ensures EvalPrint(f, ts, i, st)
         == Ok(VNone, st.(out := st.out + Line(seq(|vs|, k requires 0 <= k < |vs| => Text(vs[k]))[i..])))
    decreases |ts| - i
  {
    hide Eval, Text;
    var texts := seq(|vs|, k requires 0 <= k < |vs| => Text(vs[k]));
    if i < |ts| {
      assert st.(out := st.out) == st;
      assert Yields(f, ts[i], st, vs[i]);
      var next := Printed(st, vs[i], i < |ts| - 1);
      assert texts[i..][1..] == texts[i + 1..];
      PrintRest(f, ts, i + 1, next, vs);
      assert next.out == st.out + ([texts[i]] + if |texts[i..]| == 1 then [] else [" "]);
    }
  }

  /** input() takes the next line and echoes its end. */
  lemma InputTakes(f: nat, st: St, line: string, rest: seq<string>)
    requires st.input == [line] + rest
    ensures Eval(f + 1, Some(CallTree("input", [])), st)
         == Ok(VStr(line), st.(input := rest, out := st.out + ["\n"]))
  {
    var t := CallTree("input", []);
    assert Eval(f + 1, Some(t), st) == EvalInput(f, t, st);
  }

  // ----- for -----

  /** `for name in range(head)` and `for name in head`, up to the value of the head. */
  lemma ForNode(f: nat, name: string, head: Tree, body: Tree, st: St, n: int)
    requires Yields(f, head, st, VInt(n)) && head.kind != NRange
    ensures Eval(f + 1, Some(ForTree(name, RangeTree(head), body)), st)
         == EvalSteps(f, ForTree(name, RangeTree(head), body), 0, n, VNone, st)
    ensures Eval(f + 1, Some(ForTree(name, head, body)), st) == EvalSteps(f, ForTree(name, head, body), 0, n, VNone, st)
  {
    var t, u := ForTree(name, RangeTree(head), body), ForTree(name, head, body);
    ForEval(f, t, st);
    ForEval(f, u, st);
    assert t.kids[0].kind == NRange && Kid(t.kids[0], 0) == Some(head) && Kid(u, 0) == Some(head);
    hide Eval;
  }

  lemma ForEval(f: nat, t: Tree, st: St)
    requires t.kind == NFor
    ensures Eval(f + 1, Some(t), st) == EvalFor(f, t, st)
  {
  }

  /** From `states[k]` on, the body runs with the variable bound to `k`, and leaves the next state once a
      continue is over. */
  ghost predicate Turn(f: nat, name: string, body: Tree, states: seq<St>, k: nat)
    requires k + 1 < |states|
  {
    var bound := Assigned(states[k].scopes, name, VInt(k));
    bound.Some?
    && var o := Eval(f, Some(body), states[k].(scopes := bound.value));
       o.Ok? && !o.st.flags.returning && !o.st.flags.breaking
       && o.st.(flags := o.st.flags.(continuing := false)) == states[k + 1]
  }

  /** A for loop over n runs its body n times, with 0 to n - 1 in order. */
  lemma ForTurns(f: nat, name: string, head: Tree, body: Tree, st: St, n: nat, states: seq<St>)
    requires Yields(f, head, st, VInt(n)) && head.kind != NRange
    requires |states| == n + 1 && states[0] == st && forall k :: 0 <= k < n ==> Turn(f, name, body, states, k)
    ensures var o := Eval(f + 1, Some(ForTree(name, RangeTree(head), body)), st); o.Ok? && o.st == states[n]
    ensures var o := Eval(f + 1, Some(ForTree(name, head, body)), st); o.Ok? && o.st == states[n]
  {
    ForNode(f, name, head, body, st, n);
    hide Eval;
    StepsRun(f, ForTree(name, RangeTree(head), body), name, body, 0, n, VNone, states);
    StepsRun(f, ForTree(name, head, body), name, body, 0, n, VNone, states);
  }

  lemma {:induction false} StepsRun(f: nat, t: Tree, name: string, body: Tree, k: nat, n: nat, last: Value,
                                    states: seq<St>)
    requires t.strVal == name && Kid(t, 1) == Some(body) && |states| == n + 1 && k <= n
    requires forall i :: 0 <= i < n ==> Turn(f, name, body, states, i)
    ensures EvalSteps(f, t, k, n, last, states[k]).Ok? && EvalSteps(f, t, k, n, last, states[k]).st == states[n]
    decreases n - k
  {
    hide Eval, Assigned;
    if k < n {
      assert Turn(f, name, body, states, k);
      var o := Eval(f, Some(body), states[k].(scopes := Assigned(states[k].scopes, name, VInt(k)).value));
      StepsRun(f, t, name, body, k + 1, n, o.v, states);
    }
  }

  /** A return or a break in the k-th turn ends the loop; the break is over then. */
  lemma ForEnds(f: nat, name: string, head: Tree, body: Tree, st: St, n: nat, states: seq<St>, k: nat, w: Value,
                st1: St)
    requires Yields(f, head, st, VInt(n)) && head.kind != NRange && k < n
    requires |states| == k + 1 && states[0] == st && forall i :: 0 <= i < k ==> Turn(f, name, body, states, i)
    requires Assigned(states[k].scopes, name, VInt(k)).Some?
    requires Eval(f, Some(body), states[k].(scopes := Assigned(states[k].scopes, name, VInt(k)).value)) == Ok(w, st1)
    requires st1.flags.returning || st1.flags.breaking
    ensures Eval(f + 1, Some(ForTree(name, RangeTree(head), body)), st)
         == Ok(w, if st1.flags.returning then st1 else st1.(flags := st1.flags.(breaking := false)))
  {
    ForNode(f, name, head, body, st, n);
    hide Eval;
    StepsEnd(f, ForTree(name, RangeTree(head), body), name, body, 0, n, VNone, states, w, st1);
  }

  lemma {:induction false} StepsEnd(f: nat, t: Tree, name: string, body: Tree, i: nat, n: nat, last: Value,
                                    states: seq<St>, w: Value, st1: St)
    requires t.strVal == name && Kid(t, 1) == Some(body) && i < |states| <= n
    requires forall j :: 0 <= j < |states| - 1 ==> Turn(f, name, body, states, j)
    requires var k := |states| - 1; Assigned(states[k].scopes, name, VInt(k)).Some?
    requires var k := |states| - 1;
             Eval(f, Some(body), states[k].(scopes := Assigned(states[k].scopes, name, VInt(k)).value)) == Ok(w, st1)
    requires st1.flags.returning || st1.flags.breaking
    ensures EvalSteps(f, t, i, n, last, states[i])
         == Ok(w, if st1.flags.returning then st1 else st1.(flags := st1.flags.(breaking := false)))
    decreases |states| - i
  {
    hide Eval, Assigned;
    if i < |states| - 1 {
      assert Turn(f, name, body, states, i);
      var o := Eval(f, Some(body), states[i].(scopes := Assigned(states[i].scopes, name, VInt(i)).value));
      StepsEnd(f, t, name, body, i + 1, n, o.v, states, w, st1);
    }
  }

  /** What `for x in range(n): print(x)` leaves after `k` turns. */
  function Counted(st: St, x: string, k: nat): St {
    if k == 0 then st
    else
      var was := Counted(st, x, k - 1);
      was.(scopes := if was.scopes == [] then [] else Bound(was.scopes, x, VInt(k - 1)),
           out := was.out + [Text(VInt(k - 1)), "\n"])
  }

  function Bound(scopes: seq<Scope>, x: string, v: Value): seq<Scope>
    requires scopes != []
  {
    scopes[|scopes| - 1 := scopes[|scopes| - 1][x := v]]
  }

  lemma {:induction false} CountedIs(st: St, x: string, k: nat)
    requires Roomy(st)
    ensures var c := Counted(st, x, k);
            && c.scopes != [] && c.flags == st.flags && |c.out| == |st.out| + 2 * k
            && Assigned(c.scopes, x, VInt(k)) == Some(Bound(c.scopes, x, VInt(k)))
            && c.out[..|st.out|] == st.out
            && forall i :: 0 <= i < k ==> IsDecimal(c.out[|st.out| + 2 * i], i) && c.out[|st.out| + 2 * i + 1] == "\n"
  {
    if k > 0 {
      CountedIs(st, x, k - 1);
      Texts(k - 1, "");
      hide Text, IsDecimal, Count;
    }
  }

  /** `for x in range(n): print(x)` prints 0 to n - 1 in decimal, a line each. */
  lemma CountsUp(f: nat, x: string, head: Tree, st: St, n: nat)
    requires f >= 2 && Yields(f, head, st, VInt(n)) && head.kind != NRange && Roomy(st) && !st.flags.Any()
    ensures var o := Eval(f + 1, Some(ForTree(x, RangeTree(head), CallTree("print", [VarTree(x)]))), st);
            && o.Ok? && |o.st.out| == |st.out| + 2 * n && o.st.out[..|st.out|] == st.out
            && forall i :: 0 <= i < n ==>
                 IsDecimal(o.st.out[|st.out| + 2 * i], i) && o.st.out[|st.out| + 2 * i + 1] == "\n"
  {
    var body := CallTree("print", [VarTree(x)]);
    var states := seq(n + 1, k requires 0 <= k <= n => Counted(st, x, k));
    forall k | 0 <= k < n ensures Turn(f, x, body, states, k) {
      CountedIs(st, x, k);
      CountedTurn(f, x, st, k);
      hide Eval, Counted, Assigned, Bound, Count;
    }
    CountedIs(st, x, n);
    hide Eval, Counted, Count, IsDecimal, Turn;
    ForTurns(f, x, head, body, st, n, states);
    assert states[0] == st by { assert Counted(st, x, 0) == st by { NothingCounted(st, x); } }
  }

  lemma NothingCounted(st: St, x: string)
    ensures Counted(st, x, 0) == st
  {
  }

  lemma CountedTurn(f: nat, x: string, st: St, k: nat)
    requires f >= 2 && Roomy(st) && Counted(st, x, k).scopes != []
    ensures var c := Counted(st, x, k);
            Eval(f, Some(CallTree("print", [VarTree(x)])), c.(scopes := Bound(c.scopes, x, VInt(k))))
            == Ok(VNone, Counted(st, x, k + 1))
  {
    var c := Counted(st, x, k);
    var u := c.(scopes := Bound(c.scopes, x, VInt(k)));
    assert Lookup(u.scopes, x) == Some(VInt(k));
    hide Eval, Lookup, Text;
    forall out ensures Yields(f - 1, VarTree(x), u.(out := out), VInt(k)) {
      VarNode(x, u.(out := out), VInt(k));
      YieldsMore(1, f - 1, VarTree(x), u.(out := out), VInt(k));
    }
    PrintShows(f - 1, [VarTree(x)], u, [VInt(k)]);
    var texts := seq(1, i requires 0 <= i < 1 => Text([VInt(k)][i]));
    assert texts == [Text(VInt(k))] && texts[1..] == [];
    assert Line(texts) == [Text(VInt(k)), "\n"];
  }

  /** A for loop over a negative number does nothing. */
  lemma ForNone(f: nat, name: string, head: Tree, body: Tree, st: St, n: int)
    requires Yields(f, head, st, VInt(n)) && head.kind != NRange && n <= 0
    ensures Eval(f + 1, Some(ForTree(name, RangeTree(head), body)), st) == Ok(VNone, st)
    ensures Eval(f + 1, Some(ForTree(name, head, body)), st) == Ok(VNone, st)
  {
    ForNode(f, name, head, body, st, n);
    hide Eval;
  }

  // ----- calls -----

  /** A definition is remembered with its name, its parameters, eight at most, and its body. */
  lemma DefRemembers(f: nat, name: string, params: seq<string>, body: Tree, st: St)
    requires |st.funcs| < 64
    ensures Eval(f + 1, Some(NodeTree(NDef, name, ParamTrees(params) + [body])), st)
         == Ok(VNone, st.(funcs := st.funcs + [Func(name, if |params| <= 8 then params else params[..8], body)]))
  {
    hide Eval;
    var t := NodeTree(NDef, name, ParamTrees(params) + [body]);
    DefEval(f, t, st);
    var n := if |params| <= 8 then |params| else 8;
    NamesOf(params, n);
    hide Names;
    assert t.kids[..n] == ParamTrees(params)[..n];
    assert params[..|params|] == params;
  }

  lemma DefEval(f: nat, t: Tree, st: St)
    requires t.kind == NDef
    ensures Eval(f + 1, Some(t), st) == EvalDef(t, st)
  {
  }

  lemma NamesOf(params: seq<string>, n: nat)
    requires n <= |params|
    ensures Names(ParamTrees(params)[..n]) == params[..n]
  {
    forall i | 0 <= i < n ensures ParamTrees(params)[i].strVal == params[i] { ParamAt(params, i); }
  }

  lemma {:induction false} ParamAt(params: seq<string>, i: nat)
    requires i < |params|
    ensures ParamTrees(params)[i] == VarTree(params[i])
  {
    if i > 0 { ParamAt(params[1..], i - 1); }
  }

  predicate AllDistinct(names: seq<string>) {
    forall i, j :: 0 <= i < j < |names| ==> names[i] != names[j]
  }

  /** The first function of that name. */
  ghost predicate Defined(st: St, name: string, fn: Func) {
    exists k :: 0 <= k < |st.funcs| && st.funcs[k] == fn && fn.name == name
                && forall j :: 0 <= j < k ==> st.funcs[j].name != name
  }

  /** A call runs the body of the first function of the name, in a state where the i-th parameter has the
      value of the i-th argument and every other name what it has for the caller; the variables of the body go
      with it, and a pending return is its value. */
  lemma CallRuns(f: nat, name: string, args: seq<Tree>, vs: seq<Value>, fn: Func, st: St) returns (inner: St)
    requires CallTree(name, args).kind == NCall && Defined(st, name, fn) && |fn.params| == |args| == |vs|
    requires AllDistinct(fn.params) && st.scopes != [] && |st.scopes| <= 32 && Count(st.scopes) + |args| <= 128
    requires forall i :: 0 <= i < |args| ==> Yields(f, args[i], st, vs[i])
    ensures inner == st.(scopes := inner.scopes)
    ensures inner.scopes != [] && inner.scopes[..|inner.scopes| - 1] == st.scopes
    ensures forall i :: 0 <= i < |args| ==> Yields(1, VarTree(fn.params[i]), inner, vs[i])
    ensures forall x, w :: x !in fn.params ==> (Yields(1, VarTree(x), inner, w) <==> Yields(1, VarTree(x), st, w))
    ensures Eval(f + 1, Some(CallTree(name, args)), st)
         == match Eval(f, Some(fn.body), inner)
            case Bad(e) => Bad(e)
            case Ok(v, st1) =>
              Ok(if st1.flags.returning then st1.flags.value else v,
                 st1.(flags := st1.flags.(returning := false),
                      scopes := if st1.scopes == [] then [] else st1.scopes[..|st1.scopes| - 1]))
  {
    hide Eval, Yields, Lookup, Bind, Count, FindFunc, EvalArgs, AllDistinct, Defined, Frame;
    FirstFound(st, name, fn);
    ArgsYield(f, args, [], st, vs);
    var m := Frame(fn.params, vs, |fn.params|);
    FrameHas(fn.params, vs);
    BindIs(st.scopes, fn.params, vs, 0);
    assert Frame(fn.params, vs, 0) == map[] by { NoFrame(fn.params, vs); }
    inner := st.(scopes := st.scopes + [m]);
    CallIs(f, CallTree(name, args), st, fn, vs, inner);
    forall x | x !in fn.params
      ensures forall w :: Yields(1, VarTree(x), inner, w) <==> Yields(1, VarTree(x), st, w)
    {
      TopLookup(st.scopes, m, x);
      VarSame(x, inner, st);
    }
    forall i | 0 <= i < |args| ensures Yields(1, VarTree(fn.params[i]), inner, vs[i]) {
      TopLookup(st.scopes, m, fn.params[i]);
      VarNode(fn.params[i], inner, vs[i]);
    }
  }

  lemma VarSame(x: string, a: St, b: St)
    requires Lookup(a.scopes, x) == Lookup(b.scopes, x)
    ensures forall w :: Yields(1, VarTree(x), a, w) <==> Yields(1, VarTree(x), b, w)
  {
    hide Lookup, Yields;
    forall w ensures Yields(1, VarTree(x), a, w) <==> Yields(1, VarTree(x), b, w) {
      VarNode(x, a, w);
      VarNode(x, b, w);
    }
  }

  lemma TopLookup(outer: seq<Scope>, m: Scope, x: string)
    ensures Lookup(outer + [m], x) == if x in m then Some(m[x]) else Lookup(outer, x)
  {
    assert (outer + [m])[..|outer|] == outer;
  }

  lemma FirstFound(st: St, name: string, fn: Func)
    requires Defined(st, name, fn)
    ensures FindFunc(st.funcs, name, 0) == Some(fn)
  {
  }

  lemma {:induction false} ArgsYield(f: nat, ts: seq<Tree>, done: seq<Value>, st: St, vs: seq<Value>)
    requires |ts| == |vs| && done <= vs && forall i :: 0 <= i < |ts| ==> Yields(f, ts[i], st, vs[i])
    ensures EvalArgs(f, ts, done, st) == Oks(vs, st)
    decreases |ts| - |done|
  {
    hide Eval;
    if |done| < |ts| {
      assert Yields(f, ts[|done|], st, vs[|done|]);
      ArgsYield(f, ts, done + [vs[|done|]], st, vs);
    }
  }

  /** The scope with the first `i` parameters bound. */
  function Frame(params: seq<string>, vs: seq<Value>, i: nat): Scope
    requires |params| == |vs| && i <= |params|
  {
    if i == 0 then map[] else Frame(params, vs, i - 1)[params[i - 1] := vs[i - 1]]
  }

  lemma NoFrame(params: seq<string>, vs: seq<Value>)
    requires |params| == |vs|
    ensures Frame(params, vs, 0) == map[]
  {
  }

  lemma FrameHas(params: seq<string>, vs: seq<Value>)
    requires |params| == |vs| && AllDistinct(params)
    ensures var m := Frame(params, vs, |params|);
            && (forall x :: x in m <==> x in params)
            && forall j :: 0 <= j < |params| ==> m[params[j]] == vs[j]
  {
    hide Frame, AllDistinct;
    FrameKeys(params, vs, |params|);
    assert params[..|params|] == params;
    forall j | 0 <= j < |params| ensures Frame(params, vs, |params|)[params[j]] == vs[j] {
      FrameValue(params, vs, |params|, j);
    }
  }

  lemma {:induction false} FrameKeys(params: seq<string>, vs: seq<Value>, i: nat)
    requires |params| == |vs| && i <= |params|
    ensures forall x :: x in Frame(params, vs, i) <==> x in params[..i]
    decreases i
  {
    if i > 0 {
      FrameKeys(params, vs, i - 1);
      assert params[..i] == params[..i - 1] + [params[i - 1]];
    }
  }

  lemma {:induction false} FrameSize(params: seq<string>, vs: seq<Value>, i: nat)
    requires |params| == |vs| && i <= |params| && AllDistinct(params)
    ensures |Frame(params, vs, i)| == i
    decreases i
  {
    if i > 0 {
      FrameSize(params, vs, i - 1);
      FrameKeys(params, vs, i - 1);
      var m, x := Frame(params, vs, i - 1), params[i - 1];
      assert x !in m by { NewName(params, i - 1); }
      assert m[x := vs[i - 1]].Keys == m.Keys + {x};
    }
  }

  lemma NewName(params: seq<string>, i: nat)
    requires i < |params| && AllDistinct(params)
    ensures params[i] !in params[..i]
  {
  }

  lemma {:induction false} FrameValue(params: seq<string>, vs: seq<Value>, i: nat, j: nat)
    requires |params| == |vs| && j < i <= |params| && AllDistinct(params)
    ensures params[j] in Frame(params, vs, i) && Frame(params, vs, i)[params[j]] == vs[j]
    decreases i
  {
    if j < i - 1 {
      FrameValue(params, vs, i - 1, j);
      assert params[j] != params[i - 1];
    }
  }

  /** Binding the parameters from the i-th on completes the scope. */
  lemma {:induction false} BindIs(outer: seq<Scope>, params: seq<string>, vs: seq<Value>, i: nat)
    requires |params| == |vs| && i <= |params| && AllDistinct(params) && Count(outer) + |params| <= 128
    ensures Bind(outer + [Frame(params, vs, i)], params, vs, i) == Some(outer + [Frame(params, vs, |params|)])
    decreases |params| - i
  {
    hide Count, AllDistinct, Assigned;
    if i < |params| {
      var m := Frame(params, vs, i);
      FrameSize(params, vs, i);
      TopAssigned(outer, m, params[i], vs[i]);
      BindIs(outer, params, vs, i + 1);
    }
  }

  lemma TopAssigned(outer: seq<Scope>, m: Scope, x: string, v: Value)
    requires Count(outer) + |m| < 128
    ensures Assigned(outer + [m], x, v) == Some(outer + [m[x := v]])
  {
    assert (outer + [m])[..|outer|] == outer;
    assert (outer + [m])[|outer| := m[x := v]] == outer + [m[x := v]];
  }

  lemma CallIs(f: nat, t: Tree, st: St, fn: Func, vs: seq<Value>, inner: St)
    requires t.kind == NCall && FindFunc(st.funcs, t.strVal, 0) == Some(fn) && |t.kids| == |fn.params| == |vs|
    requires |st.scopes| <= 32 && EvalArgs(f, t.kids, [], st) == Oks(vs, st)
    requires Bind(st.scopes + [map[]], fn.params, vs, 0) == Some(inner.scopes) && inner == st.(scopes := inner.scopes)
    ensures Eval(f + 1, Some(t), st)
         == match Eval(f, Some(fn.body), inner)
            case Bad(e) => Bad(e)
            case Ok(v, st1) => Leave(v, st1)
  {
    hide *;
    CallEval(f, t, st);
    CallBody(f, t, st, fn, vs, inner);
  }

  lemma CallEval(f: nat, t: Tree, st: St)
    requires t.kind == NCall
    ensures Eval(f + 1, Some(t), st) == EvalCall(f, t, st)
  {
  }

  lemma CallBody(f: nat, t: Tree, st: St, fn: Func, vs: seq<Value>, inner: St)
    requires t.kind == NCall && FindFunc(st.funcs, t.strVal, 0) == Some(fn) && |t.kids| == |fn.params| == |vs|
    requires |st.scopes| <= 32 && EvalArgs(f, t.kids, [], st) == Oks(vs, st)
    requires Bind(st.scopes + [map[]], fn.params, vs, 0) == Some(inner.scopes) && inner == st.(scopes := inner.scopes)
    ensures EvalCall(f, t, st)
         == match Eval(f, Some(fn.body), inner)
            case Bad(e) => Bad(e)
            case Ok(v, st1) => Leave(v, st1)
  {
    hide FindFunc, EvalArgs, Bind, Leave, Eval;
  }

  /** `def f(p1, ..., pn): return pi`, called with n arguments, gives the i-th. */
  lemma CallGivesArgument(f: nat, name: string, args: seq<Tree>, vs: seq<Value>, fn: Func, st: St, i: nat)
    requires CallTree(name, args).kind == NCall && Defined(st, name, fn) && |fn.params| == |args| == |vs| && i < |args|
    requires AllDistinct(fn.params) && st.scopes != [] && |st.scopes| <= 32 && Count(st.scopes) + |args| <= 128
    requires forall i :: 0 <= i < |args| ==> Yields(f, args[i], st, vs[i])
    requires fn.body == BlockTree([ReturnTree(VarTree(fn.params[i]))]) && f >= 3 && !st.flags.Any()
    ensures exists st' :: Eval(f + 1, Some(CallTree(name, args)), st) == Ok(vs[i], st') && st'.scopes == st.scopes
  {
    hide Eval, Count, Defined, AllDistinct;
    var inner := CallRuns(f, name, args, vs, fn, st);
    var r := ReturnTree(VarTree(fn.params[i]));
    BodyReturns(f, fn.params[i], inner, vs[i]);
  }

  lemma BodyReturns(f: nat, name: string, st: St, v: Value)
    requires f >= 3 && Yields(1, VarTree(name), st, v)
    ensures Eval(f, Some(BlockTree([ReturnTree(VarTree(name))])), st)
         == Ok(v, st.(flags := st.flags.(returning := true, value := v)))
  {
    hide Eval;
    YieldsMore(1, f - 2, VarTree(name), st, v);
    ReturnPends(f - 2, VarTree(name), st, v);
    OneInBlock(f - 1, ReturnTree(VarTree(name)), st);
  }
}

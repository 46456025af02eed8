/**
 The evaluator over the node pool, with its flat variable array, call depth and control flags, proved
 to compute what the trees mean. `fuel` bounds the recursion; the program has no such bound.
 */
module GkInterp {
  import opened Options
  import opened GkSyntax
  import opened GkTree
  import opened GkMeaning
  import opened GkVars

  datatype FuncDef = FuncDef(name: string, params: seq<string>, body: nat)

  /** The node at `idx` is the root of `t`. */
  ghost predicate Held(nodes: seq<Node>, idx: int, t: Tree) {
    exists lo: nat :: Rep(nodes, idx, t, lo)
  }

  ghost predicate FuncsHeld(nodes: seq<Node>, defs: seq<FuncDef>, funcs: seq<Func>) {
    && |defs| == |funcs|
    && forall i :: 0 <= i < |defs| ==> FuncHeld(nodes, defs[i], funcs[i])
  }

  ghost predicate FuncHeld(nodes: seq<Node>, d: FuncDef, f: Func) {
    d.name == f.name && d.params == f.params && Held(nodes, d.body, f.body)
  }

  lemma FuncsSnoc(nodes: seq<Node>, defs: seq<FuncDef>, d: FuncDef, funcs: seq<Func>, f: Func)
    requires FuncsHeld(nodes, defs, funcs) && FuncHeld(nodes, d, f)
    ensures FuncsHeld(nodes, defs + [d], funcs + [f])
  {
    hide FuncHeld;
  }

  lemma HeldRoot(nodes: seq<Node>, idx: int, t: Tree)
    requires Held(nodes, idx, t)
    ensures 0 <= idx < |nodes| && |nodes[idx].child| == |t.kids|
    ensures nodes[idx].kind == t.kind && nodes[idx].intVal == t.intVal && nodes[idx].strVal == t.strVal
    ensures nodes[idx].op == t.op
  {
    var lo: nat :| Rep(nodes, idx, t, lo);
    RootRep(nodes, idx, t, lo);
  }

  lemma HeldKid(nodes: seq<Node>, idx: int, t: Tree, k: nat)
    requires Held(nodes, idx, t) && k < |t.kids|
    ensures 0 <= idx < |nodes| && k < |nodes[idx].child| && Held(nodes, nodes[idx].child[k], t.kids[k])
  {
    var lo: nat :| Rep(nodes, idx, t, lo);
    RootRep(nodes, idx, t, lo);
    ChildRep(nodes, nodes[idx].child, t.kids, Below(idx, lo), k);
  }

  /** The variables left after a call are those of its caller. */
  lemma Back(was: seq<Var>, depth: nat, vars: seq<Var>)
    requires Ordered(was, depth) && depth > 0 && |vars| <= |was| && vars == was[..|vars|]
    requires forall i :: |vars| <= i < |was| ==> was[i].scope >= depth
    requires vars != [] ==> vars[|vars| - 1].scope < depth
    ensures Ordered(vars, depth - 1) && Scopes(was, depth) != []
    ensures Scopes(vars, depth - 1) == Scopes(was, depth)[..|Scopes(was, depth)| - 1]
  {
    Popped(was, depth, |vars|);
  }

  class Interp {
    const nodes: seq<Node>
    var vars: seq<Var>
    var funcs: seq<FuncDef>
    var depth: nat
    var returning: bool
    var breaking: bool
    var continuing: bool
    var returned: Value
    var fault: Option<Fault>   // Some when the error text is not empty
    var input: seq<string>
    var out: seq<string>

    /** The fields stand for the evaluation state `st`. */
    ghost predicate Is(st: St)
      reads this
    {
      && Ordered(vars, depth) && st.scopes == Scopes(vars, depth)
      && FuncsHeld(nodes, funcs, st.funcs) && |funcs| <= MAX_FUNCS
      && st.flags == Flags(returning, breaking, continuing, returned)
      && st.input == input && st.out == out
    }

    ghost predicate Agrees(o: Out, v: Value)
      reads this
    {
      if o.Ok? then fault == None && v == o.v && Is(o.st) else fault == Some(o.fault)
    }

    ghost predicate Points(idx: int, t: Option<Tree>) {
      if idx < 0 then t.None? else t.Some? && Held(nodes, idx, t.value)
    }

    constructor (nodes: seq<Node>, input: seq<string>)
      ensures this.nodes == nodes && fault == None && depth == 0
      ensures Is(St([map[]], [], Flags(false, false, false, VNone), input, []))
    {
      this.nodes, this.input, out := nodes, input, [];
      vars, funcs, depth := [], [], 0;
      returning, breaking, continuing, returned := false, false, false, VNone;
      fault := None;
      new;
      assert Scopes([], 0) == [map[]];
    }

    // ----- variables and functions -----

    method FindVar(name: string) returns (r: Option<Value>)
      requires Ordered(vars, depth)
      ensures r == Lookup(Scopes(vars, depth), name)
    {
      FindIsLookup(vars, depth, name);
      var i := |vars|;
      assert vars[..i] == vars;
      while i > 0
        invariant 0 <= i <= |vars| && Find(vars[..i], name) == Find(vars, name)
      {
        if vars[i - 1].name == name {
          return Some(vars[i - 1].val);
        }
        assert vars[..i][..i - 1] == vars[..i - 1];
        i := i - 1;
      }
      r := None;
    }

    method SetVar(name: string, val: Value, ghost st: St) returns (ok: bool)
      requires fault == None && Is(st)
      modifies `vars, `fault
      ensures var s := Assigned(st.scopes, name, val);
              if ok then s.Some? && fault == None && Is(st.(scopes := s.value)) else s.None? && fault == Some(Failed)
    {
      var i := |vars|;
      while i > 0 && vars[i - 1].scope >= depth
        invariant 0 <= i <= |vars| && vars == old(vars)
        invariant forall j :: i <= j < |vars| ==> !Here(vars, depth, name, j)
      {
        if vars[i - 1].name == name {
          UpdateIsAssigned(vars, depth, name, i - 1, val);
          vars := vars[i - 1 := vars[i - 1].(val := val)];
          return true;
        }
        i := i - 1;
      }
      assert forall j :: 0 <= j < i ==> vars[j].scope <= vars[i - 1].scope;
      AppendIsAssigned(vars, depth, name, val);
      if |vars| >= MAX_VARS {
        fault := Some(Failed);
        return false;
      }
      vars := vars + [Var(name, val, depth)];
      ok := true;
    }

    method PopScope()
      modifies `vars
      ensures |vars| <= |old(vars)| && vars == old(vars)[..|vars|]
      ensures forall i :: |vars| <= i < |old(vars)| ==> old(vars)[i].scope >= depth
      ensures vars != [] ==> vars[|vars| - 1].scope < depth
    {
      while vars != [] && vars[|vars| - 1].scope >= depth
        invariant |vars| <= |old(vars)| && vars == old(vars)[..|vars|]
        invariant forall i :: |vars| <= i < |old(vars)| ==> old(vars)[i].scope >= depth
        decreases |vars|
      {
        vars := vars[..|vars| - 1];
      }
    }

    /** The first definition of a name, or -1. */
    method FindDef(name: string, ghost fs: seq<Func>) returns (r: int)
      requires FuncsHeld(nodes, funcs, fs)
      ensures var f := GkMeaning.FindFunc(fs, name, 0);
              if r < 0 then f.None? else r < |funcs| && f.Some? && FuncHeld(nodes, funcs[r], f.value)
    {
      hide Held;
      var i := 0;
      while i < |funcs|
        invariant i <= |funcs| && GkMeaning.FindFunc(fs, name, i) == GkMeaning.FindFunc(fs, name, 0)
      {
        assert FuncHeld(nodes, funcs[i], fs[i]);
        if funcs[i].name == name {
          return i;
        }
        i := i + 1;
      }
      r := -1;
    }

    // ----- evaluation -----

    method Child(idx: nat, k: nat, ghost t: Tree) returns (c: int)
      requires Held(nodes, idx, t)
      ensures Points(c, Kid(t, k))
    {
      HeldRoot(nodes, idx, t);
      if k < |nodes[idx].child| {
        HeldKid(nodes, idx, t, k);
        c := nodes[idx].child[k];
      } else {
        c := -1;
      }
    }

    method Run(fuel: nat, idx: int, ghost t: Option<Tree>, ghost st: St) returns (v: Value)
      requires fault == None ==> Is(st) && Points(idx, t)
      modifies this
      ensures depth == old(depth)
      ensures old(fault).Some? ==> fault == old(fault) && v == VNone
      ensures old(fault).None? ==> Agrees(Eval(fuel, t, st), v)
      decreases fuel, 0, 0
    {
      hide Is, Held, EvalNode;
      if fault.Some? || idx < 0 {
        return VNone;
      }
      if fuel == 0 {
        fault := Some(OutOfFuel);
        return VNone;
      }
      v := RunNode(fuel - 1, idx, t.value, st);
    }

    method Fail(e: Fault) returns (v: Value)
      modifies `fault
      ensures fault == Some(e)
    {
      fault := Some(e);
      v := VNone;
    }

    /** The value of an operator, or its error. */
    method Take(r: Result) returns (v: Value)
      modifies `fault
      ensures if r.Val? then v == r.v && fault == old(fault) else fault == Some(r.fault)
    {
      if r.Val? { v := r.v; } else { v := Fail(r.fault); }
    }

    method RunNode(f: nat, idx: nat, ghost t: Tree, ghost st: St) returns (v: Value)
      requires fault == None && Is(st) && Held(nodes, idx, t)
      modifies this
      ensures depth == old(depth) && Agrees(EvalNode(f, t, st), v)
      decreases f, 5, 0
    {
      hide Held, EvalAssign, EvalUnop, EvalBinop, EvalPrint, EvalInput, EvalIntCast, EvalBlock, EvalIf, EvalWhile;
      hide EvalFor, EvalDef, EvalCall, EvalReturn, Scopes, Ordered, FuncsHeld;
      HeldRoot(nodes, idx, t);
      var n := nodes[idx];
      if n.kind == NInt { v := VInt(n.intVal); }
      else if n.kind == NStr { v := VStr(n.strVal); }
      else if n.kind == NBool { v := VBool(n.intVal != 0); }
      else if n.kind == NVar {
        var found := FindVar(n.strVal);
        if found == None { v := Fail(Failed); } else { v := found.value; }
      }
      else if n.kind == NAssign { v := RunAssign(f, idx, t, st); }
      else if n.kind == NUnop { v := RunUnop(f, idx, t, st); }
      else if n.kind == NBinop { v := RunBinop(f, idx, t, st); }
      else if n.kind == NPrint { v := RunPrint(f, idx, t, st); }
      else if n.kind == NInput { v := RunInput(f, idx, t, st); }
      else if n.kind == NIntCast { v := RunIntCast(f, idx, t, st); }
      else if n.kind == NBlock { v := RunBlock(f, idx, t, st); }
      else if n.kind == NIf { v := RunIf(f, idx, t, st); }
      else if n.kind == NWhile { v := RunWhile(f, idx, t, st); }
      else if n.kind == NFor { v := RunFor(f, idx, t, st); }
      else if n.kind == NDef { v := RunDef(idx, t, st); }
      else if n.kind == NCall { v := RunCall(f, idx, t, st); }
      else if n.kind == NReturn { v := RunReturn(f, idx, t, st); }
      else if n.kind == NBreak { breaking := true; v := VNone; }
      else if n.kind == NContinue { continuing := true; v := VNone; }
      else { v := Fail(Failed); }
    }

    method RunAssign(f: nat, idx: nat, ghost t: Tree, ghost st: St) returns (v: Value)
      requires fault == None && Is(st) && Held(nodes, idx, t)
      modifies this
      ensures depth == old(depth) && Agrees(EvalAssign(f, t, st), v)
      decreases f, 4, 0
    {
      hide Held, Is, Eval, Assigned;
      HeldRoot(nodes, idx, t);
      var c := Child(idx, 0, t);
      v := Run(f, c, Kid(t, 0), st);
      if fault.Some? { return VNone; }
      ghost var st1 := Eval(f, Kid(t, 0), st).st;
      var ok := SetVar(nodes[idx].strVal, v, st1);
      if !ok { return VNone; }
    }

    method RunUnop(f: nat, idx: nat, ghost t: Tree, ghost st: St) returns (v: Value)
      requires fault == None && Is(st) && Held(nodes, idx, t)
      modifies this
      ensures depth == old(depth) && Agrees(EvalUnop(f, t, st), v)
      decreases f, 4, 0
    {
      hide Held, Eval, Scopes, Ordered, FuncsHeld;
      HeldRoot(nodes, idx, t);
      var c := Child(idx, 0, t);
      var operand := Run(f, c, Kid(t, 0), st);
      if fault.Some? { return VNone; }
      v := Take(UnaryOf(nodes[idx].op, operand));
    }

    method RunBinop(f: nat, idx: nat, ghost t: Tree, ghost st: St) returns (v: Value)
      requires fault == None && Is(st) && Held(nodes, idx, t)
      modifies this
      ensures depth == old(depth) && Agrees(EvalBinop(f, t, st), v)
      decreases f, 4, 0
    {
      hide Held, Eval, BinaryOf, Scopes, Ordered, FuncsHeld;
      HeldRoot(nodes, idx, t);
      var op := nodes[idx].op;
      var c := Child(idx, 0, t);
      var l := Run(f, c, Kid(t, 0), st);
      ghost var o := Eval(f, Kid(t, 0), st);
      var d := Child(idx, 1, t);
      if op == AND {
        if !Truthy(l) { return VBool(false); }
        var r := Run(f, d, Kid(t, 1), if o.Ok? then o.st else st);
        return VBool(Truthy(r));
      }
      if op == OR {
        if Truthy(l) { return VBool(true); }
        var r := Run(f, d, Kid(t, 1), if o.Ok? then o.st else st);
        return VBool(Truthy(r));
      }
      if fault.Some? { return VNone; }
      var r := Run(f, d, Kid(t, 1), o.st);
      if fault.Some? { return VNone; }
      v := Take(BinaryOf(op, l, r));
    }

    method RunPrint(f: nat, idx: nat, ghost t: Tree, ghost st: St) returns (v: Value)
      requires fault == None && Is(st) && Held(nodes, idx, t)
      modifies this
      ensures depth == old(depth) && Agrees(EvalPrint(f, t.kids, 0, st), v)
      decreases f, 4, 0
    {
      hide Held, Eval, Scopes, Ordered, FuncsHeld;
      HeldRoot(nodes, idx, t);
      var n, i := |nodes[idx].child|, 0;
      ghost var st' := st;
      while i < n
        invariant i <= n && fault == None && Is(st') && depth == old(depth)
        invariant EvalPrint(f, t.kids, i, st') == EvalPrint(f, t.kids, 0, st)
      {
        HeldKid(nodes, idx, t, i);
        ghost var o := Eval(f, Some(t.kids[i]), st');
        var w := Run(f, nodes[idx].child[i], Some(t.kids[i]), st');
        if fault.Some? { return VNone; }
        if !HasText(w) {
          v := Fail(Overflow);
          return;
        }
        out := out + [Text(w)] + if i < n - 1 then [" "] else [];
        st' := o.st.(out := out);
        i := i + 1;
      }
      out := out + ["\n"];
      v := VNone;
    }

    method RunInput(f: nat, idx: nat, ghost t: Tree, ghost st: St) returns (v: Value)
      requires fault == None && Is(st) && Held(nodes, idx, t)
      modifies this
      ensures depth == old(depth) && Agrees(EvalInput(f, t, st), v)
      decreases f, 4, 0
    {
      hide Held, Eval, Scopes, Ordered, FuncsHeld;
      HeldRoot(nodes, idx, t);
      if |nodes[idx].child| > 0 {
        HeldKid(nodes, idx, t, 0);
        var prompt := Run(f, nodes[idx].child[0], Kid(t, 0), st);
        if fault.Some? { return VNone; }
        if !HasText(prompt) {
          v := Fail(Overflow);
          return;
        }
        out := out + [Text(prompt)];
      }
      v := VStr(if input == [] then "" else input[0]);
      input := if input == [] then [] else input[1..];
      out := out + ["\n"];
    }

    method RunIntCast(f: nat, idx: nat, ghost t: Tree, ghost st: St) returns (v: Value)
      requires fault == None && Is(st) && Held(nodes, idx, t)
      modifies this
      ensures depth == old(depth) && Agrees(EvalIntCast(f, t, st), v)
      decreases f, 4, 0
    {
      hide Held, Eval, ToInt, Numeral, Scopes, Ordered, FuncsHeld;
      HeldRoot(nodes, idx, t);
      if |nodes[idx].child| != 1 {
        v := Fail(Failed);
        return;
      }
      HeldKid(nodes, idx, t, 0);
      var w := Run(f, nodes[idx].child[0], Kid(t, 0), st);
      if fault.Some? { return VNone; }
      v := Take(ToInt(w));
    }

    method RunBlock(f: nat, idx: nat, ghost t: Tree, ghost st: St) returns (v: Value)
      requires fault == None && Is(st) && Held(nodes, idx, t)
      modifies this
      ensures depth == old(depth) && Agrees(EvalBlock(f, t.kids, 0, VNone, st), v)
      decreases f, 4, 0
    {
      hide Held, Eval, Scopes, Ordered, FuncsHeld;
      HeldRoot(nodes, idx, t);
      v := VNone;
      var i := 0;
      ghost var st' := st;
      while i < |nodes[idx].child|
        invariant i <= |t.kids| && fault == None && Is(st') && depth == old(depth)
        invariant EvalBlock(f, t.kids, i, v, st') == EvalBlock(f, t.kids, 0, VNone, st)
      {
        HeldKid(nodes, idx, t, i);
        ghost var o := Eval(f, Some(t.kids[i]), st');
        v := Run(f, nodes[idx].child[i], Some(t.kids[i]), st');
        if fault.Some? || returning || breaking || continuing { return; }
        st' := o.st;
        i := i + 1;
      }
    }

    method RunIf(f: nat, idx: nat, ghost t: Tree, ghost st: St) returns (v: Value)
      requires fault == None && Is(st) && Held(nodes, idx, t)
      modifies this
      ensures depth == old(depth) && Agrees(EvalIf(f, t, st), v)
      decreases f, 4, 0
    {
      hide Held, Eval, Is;
      HeldRoot(nodes, idx, t);
      var c := Child(idx, 0, t);
      ghost var o := Eval(f, Kid(t, 0), st);
      var cond := Run(f, c, Kid(t, 0), st);
      if fault.Some? { return VNone; }
      if Truthy(cond) {
        var d := Child(idx, 1, t);
        v := Run(f, d, Kid(t, 1), o.st);
      } else if |nodes[idx].child| == 3 {
        var d := Child(idx, 2, t);
        v := Run(f, d, Kid(t, 2), o.st);
      } else {
        v := VNone;
      }
    }

    method RunWhile(f: nat, idx: nat, ghost t: Tree, ghost st: St) returns (v: Value)
      requires fault == None && Is(st) && Held(nodes, idx, t)
      modifies this
      ensures depth == old(depth) && Agrees(EvalWhile(f, t, VNone, st), v)
      decreases f, 4, 0
    {
      hide Held, Eval, Scopes, Ordered, FuncsHeld;
      HeldRoot(nodes, idx, t);
      v := VNone;
      var k: nat := f;
      ghost var st' := st;
      while true
        invariant k <= f && fault == None && Is(st') && depth == old(depth)
        invariant EvalWhile(k, t, v, st') == EvalWhile(f, t, VNone, st)
        decreases k
      {
        ghost var o := Eval(k, Kid(t, 0), st');
        var c := Child(idx, 0, t);
        var cond := Run(k, c, Kid(t, 0), st');
        if fault.Some? || !Truthy(cond) { break; }
        ghost var p := Eval(k, Kid(t, 1), o.st);
        var d := Child(idx, 1, t);
        v := Run(k, d, Kid(t, 1), o.st);
        if fault.Some? || returning { break; }
        if breaking {
          breaking := false;
          break;
        }
        if continuing { continuing := false; }
        if k == 0 {
          fault := Some(OutOfFuel);
          break;
        }
        st' := p.st.(flags := p.st.flags.(continuing := false));
        k := k - 1;
      }
    }

    method RunFor(f: nat, idx: nat, ghost t: Tree, ghost st: St) returns (v: Value)
      requires fault == None && Is(st) && Held(nodes, idx, t)
      modifies this
      ensures depth == old(depth) && Agrees(EvalFor(f, t, st), v)
      decreases f, 4, 0
    {
      hide Held, Eval, Scopes, Ordered, FuncsHeld, EvalSteps;
      HeldRoot(nodes, idx, t);
      if |nodes[idx].child| == 0 {
        v := Fail(Failed);
        return;
      }
      HeldKid(nodes, idx, t, 0);
      var iter := nodes[idx].child[0];
      HeldRoot(nodes, iter, t.kids[0]);
      var bound: Value;
      ghost var e := if t.kids[0].kind == NRange then Kid(t.kids[0], 0) else Kid(t, 0);
      if nodes[iter].kind == NRange {
        if |nodes[iter].child| < 1 {
          v := Fail(Failed);
          return;
        }
        HeldKid(nodes, iter, t.kids[0], 0);
        bound := Run(f, nodes[iter].child[0], e, st);
      } else {
        bound := Run(f, iter, e, st);
      }
      if fault.Some? { return VNone; }
      if !bound.VInt? {
        v := Fail(Failed);
        return;
      }
      v := RunSteps(f, idx, t, bound.i, Eval(f, e, st).st);
    }

    /** The iterations of a for loop. */
    method RunSteps(f: nat, idx: nat, ghost t: Tree, limit: int, ghost st: St) returns (v: Value)
      requires fault == None && Is(st) && Held(nodes, idx, t)
      modifies this
      ensures depth == old(depth) && Agrees(EvalSteps(f, t, 0, limit, VNone, st), v)
      decreases f, 3, 0
    {
      hide Held, Eval, Assigned, Scopes, Ordered, FuncsHeld;
      HeldRoot(nodes, idx, t);
      v := VNone;
      var i := 0;
      ghost var st' := st;
      while i < limit
        invariant fault == None && Is(st') && depth == old(depth)
        invariant EvalSteps(f, t, i, limit, v, st') == EvalSteps(f, t, 0, limit, VNone, st)
      {
        ghost var s := Assigned(st'.scopes, t.strVal, VInt(i));
        var ok := SetVar(nodes[idx].strVal, VInt(i), st');
        if !ok { return VNone; }
        ghost var o := Eval(f, Kid(t, 1), st'.(scopes := s.value));
        var d := Child(idx, 1, t);
        v := Run(f, d, Kid(t, 1), st'.(scopes := s.value));
        if fault.Some? || returning { break; }
        if breaking {
          breaking := false;
          break;
        }
        if continuing { continuing := false; }
        st' := o.st.(flags := o.st.flags.(continuing := false));
        i := i + 1;
      }
    }

    method RunDef(idx: nat, ghost t: Tree, ghost st: St) returns (v: Value)
      requires fault == None && Is(st) && Held(nodes, idx, t)
      modifies `funcs, `fault
      ensures depth == old(depth) && Agrees(EvalDef(t, st), v)
    {
      hide Held, Scopes, Ordered;
      HeldRoot(nodes, idx, t);
      var child := nodes[idx].child;
      if |funcs| >= MAX_FUNCS || child == [] {
        v := Fail(Failed);
        return;
      }
      var n, i, params := |child| - 1, 0, [];
      ghost var m := Least(n, MAX_PARAMS);
      while i < n && i < MAX_PARAMS
        invariant i <= m && |params| == i && funcs == old(funcs) && fault == None
        invariant forall j :: 0 <= j < i ==> params[j] == t.kids[j].strVal
      {
        HeldKid(nodes, idx, t, i);
        HeldRoot(nodes, child[i], t.kids[i]);
        params := params + [nodes[child[i]].strVal];
        i := i + 1;
      }
      HeldKid(nodes, idx, t, n);
      ghost var g := Func(t.strVal, Names(t.kids[..m]), t.kids[n]);
      assert params == Names(t.kids[..m]);
      var d := FuncDef(nodes[idx].strVal, params, child[n]);
      FuncsSnoc(nodes, funcs, d, st.funcs, g);
      funcs := funcs + [d];
      v := VNone;
    }

    method RunArgs(f: nat, idx: nat, ghost t: Tree, ghost st: St) returns (args: seq<Value>)
      requires fault == None && Is(st) && Held(nodes, idx, t)
      modifies this
      ensures depth == old(depth)
      ensures var r := EvalArgs(f, t.kids, [], st);
              if r.Oks? then fault == None && args == r.vs && Is(r.st) else fault == Some(r.fault)
      decreases f, 3, 0
    {
      hide Held, Eval, Is;
      HeldRoot(nodes, idx, t);
      args := [];
      var i := 0;
      ghost var st' := st;
      while i < |nodes[idx].child|
        invariant i == |args| <= |t.kids| && fault == None && Is(st') && depth == old(depth)
        invariant EvalArgs(f, t.kids, args, st') == EvalArgs(f, t.kids, [], st)
      {
        HeldKid(nodes, idx, t, i);
        ghost var o := Eval(f, Some(t.kids[i]), st');
        var v := Run(f, nodes[idx].child[i], Some(t.kids[i]), st');
        if fault.Some? { return; }
        args := args + [v];
        st' := o.st;
        i := i + 1;
      }
    }

    method BindParams(params: seq<string>, args: seq<Value>, ghost st: St) returns (ok: bool)
      requires fault == None && Is(st) && |params| == |args|
      modifies `vars, `fault
      ensures var s := Bind(st.scopes, params, args, 0);
              if ok then s.Some? && fault == None && Is(st.(scopes := s.value)) else s.None? && fault == Some(Failed)
    {
      hide Is, Assigned;
      var i := 0;
      ghost var s := st.scopes;
      while i < |params|
        invariant i <= |params| && fault == None && Is(st.(scopes := s))
        invariant Bind(s, params, args, i) == Bind(st.scopes, params, args, 0)
      {
        ok := SetVar(params[i], args[i], st.(scopes := s));
        if !ok { return; }
        s := Assigned(s, params[i], args[i]).value;
        i := i + 1;
      }
      ok := true;
    }

    method RunCall(f: nat, idx: nat, ghost t: Tree, ghost st: St) returns (v: Value)
      requires fault == None && Is(st) && Held(nodes, idx, t)
      modifies this
      ensures depth == old(depth) && Agrees(EvalCall(f, t, st), v)
      decreases f, 4, 0
    {
      hide Held, Eval, EvalArgs, FindFunc, Bind, Scopes, Ordered, FuncsHeld;
      HeldRoot(nodes, idx, t);
      ghost var fn := FindFunc(st.funcs, t.strVal, 0);
      var d := FindDef(nodes[idx].strVal, st.funcs);
      if d < 0 {
        v := Fail(Failed);
        return;
      }
      var def := funcs[d];
      if |nodes[idx].child| != |def.params| || depth >= MAX_CALL_DEPTH {
        v := Fail(Failed);
        return;
      }
      ghost var a := EvalArgs(f, t.kids, [], st);
      var args := RunArgs(f, idx, t, st);
      if fault.Some? { return VNone; }
      Entered(vars, depth);
      depth := depth + 1;
      ghost var st1 := a.st.(scopes := a.st.scopes + [map[]]);
      ghost var bound := Bind(st1.scopes, def.params, args, 0);
      var ok := BindParams(def.params, args, st1);
      if !ok {
        depth := depth - 1;
        return VNone;
      }
      ghost var st2 := st1.(scopes := bound.value);
      ghost var o := Eval(f, Some(fn.value.body), st2);
      v := Run(f, def.body, Some(fn.value.body), st2);
      if returning {
        v := returned;
        returning := false;
      }
      ghost var was := vars;
      PopScope();
      if fault == None { Back(was, depth, vars); }
      depth := depth - 1;
    }

    method RunReturn(f: nat, idx: nat, ghost t: Tree, ghost st: St) returns (v: Value)
      requires fault == None && Is(st) && Held(nodes, idx, t)
      modifies this
      ensures depth == old(depth) && Agrees(EvalReturn(f, t, st), v)
      decreases f, 4, 0
    {
      hide Held, Eval, Scopes, Ordered, FuncsHeld;
      HeldRoot(nodes, idx, t);
      v := VNone;
      if |nodes[idx].child| > 0 {
        HeldKid(nodes, idx, t, 0);
        v := Run(f, nodes[idx].child[0], Kid(t, 0), st);
        if fault.Some? { return VNone; }
      }
      returning, returned := true, v;
    }
  }
}

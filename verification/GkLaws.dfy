/** Laws of evaluation: what calls and loops cannot touch, and that fuel only decides whether it ends. */
module GkLaws {
  import opened Options
  import opened GkSyntax
  import opened GkMeaning

  // ----- where break and continue may stand -----

  datatype Place = InExpr | Outside | InLoop

  predicate Allowed(kind: Kind, p: Place) {
    if kind == NBreak || kind == NContinue then p == InLoop
    else if kind in {NAssign, NReturn, NBlock, NIf, NWhile, NFor, NDef} then p != InExpr
    else true
  }

  /** The place of the i-th of n children. */
  function KidPlace(kind: Kind, i: nat, n: nat, p: Place): Place {
    if kind == NBlock then p
    else if kind == NIf then (if i == 0 then InExpr else p)
    else if kind == NWhile || kind == NFor then (if i == 0 then InExpr else InLoop)
    else if kind == NDef && i + 1 == n then Outside
    else InExpr
  }

  /** Every break and continue below `t` is inside a loop of its own function, and expressions hold
      only expressions. */
  predicate Placed(t: Tree, p: Place)
    decreases t
  {
    && Allowed(t.kind, p)
    && forall i :: 0 <= i < |t.kids| ==> Placed(t.kids[i], KidPlace(t.kind, i, |t.kids|, p))
  }

  ghost predicate FuncsPlaced(funcs: seq<Func>) {
    forall f :: f in funcs ==> Placed(f.body, Outside)
  }

  predicate AtMostOne(fl: Flags) {
    !(fl.returning && fl.breaking) && !(fl.returning && fl.continuing) && !(fl.breaking && fl.continuing)
  }

  /** Which flags may be up after something evaluated at `p`. */
  predicate FlagsAt(fl: Flags, p: Place) {
    && AtMostOne(fl)
    && (p == Outside ==> !fl.breaking && !fl.continuing)
    && (p == InExpr ==> !fl.Any())
  }

  // ----- what evaluation keeps -----

  /** The scopes of all callers. */
  predicate SameOuter(a: seq<Scope>, b: seq<Scope>) {
    |a| == |b| > 0 && a[..|a| - 1] == b[..|b| - 1]
  }

  /** Started in `st`, evaluation at `p` ended in `st'`. */
  ghost predicate Kept(st: St, st': St, placed: bool, p: Place) {
    && SameOuter(st.scopes, st'.scopes)
    && (placed && FuncsPlaced(st.funcs) && !st.flags.Any() ==> FuncsPlaced(st'.funcs) && FlagsAt(st'.flags, p))
  }

  ghost predicate KeptBy(st: St, o: Out, placed: bool, p: Place) {
    o.Ok? ==> Kept(st, o.st, placed, p)
  }

  /** The tree at hand, if there is one, is placed at `p`. */
  predicate PlacedOpt(t: Option<Tree>, p: Place) {
    t.Some? ==> Placed(t.value, p)
  }

  /**
   An evaluation without error leaves every variable of the callers alone and the number of scopes as
   it was. If each break and continue is in a loop of its own function, it ends with at most one flag
   up: none after an expression, and only `returning` outside loops.
   */
  lemma {:induction false} EvalKeeps(fuel: nat, t: Option<Tree>, st: St, p: Place)
    requires st.scopes != []
    ensures KeptBy(st, Eval(fuel, t, st), PlacedOpt(t, p), p)
    decreases fuel, 0, 0
  {
    if t.Some? && fuel > 0 {
      NodeKeeps(fuel - 1, t.value, st, p);
    }
  }

  lemma {:induction false} KidKeeps(f: nat, t: Tree, k: nat, st: St, p: Place)
    requires st.scopes != []
    ensures KeptBy(st, Eval(f, Kid(t, k), st), Placed(t, p), KidPlace(t.kind, k, |t.kids|, p))
    decreases f, 1, 0
  {
    hide Kept;
    var q := KidPlace(t.kind, k, |t.kids|, p);
    EvalKeeps(f, Kid(t, k), st, q);
    if !Placed(t, p) {
      Weaken(st, Eval(f, Kid(t, k), st), PlacedOpt(Kid(t, k), q), q);
    }
  }

  lemma Weaken(st: St, o: Out, placed: bool, p: Place)
    requires KeptBy(st, o, placed, p)
    ensures KeptBy(st, o, false, p)
  {
  }

  lemma {:induction false} NodeKeeps(f: nat, t: Tree, st: St, p: Place)
    requires st.scopes != []
    ensures KeptBy(st, EvalNode(f, t, st), Placed(t, p), p)
    decreases f, 5, 0
  {
    hide EvalAssign, EvalUnop, EvalBinop, EvalPrint, EvalInput, EvalIntCast, EvalBlock, EvalIf, EvalWhile, EvalFor;
    hide EvalCall, EvalReturn, LoopKept, Placed, Kept;
    if t.kind == NAssign { AssignKeeps(f, t, st, p); }
    else if t.kind == NUnop || t.kind == NInput || t.kind == NIntCast || t.kind == NReturn { OneKidKeeps(f, t, st, p); }
    else if t.kind == NBinop { BinopKeeps(f, t, st, p); }
    else if t.kind == NPrint { PrintKeeps(f, t, 0, st, p); }
    else if t.kind == NBlock { BlockKeeps(f, t, 0, VNone, st, p); }
    else if t.kind == NIf { IfKeeps(f, t, st, p); }
    else if t.kind == NWhile { WhileKeeps(f, t, VNone, st, p); }
    else if t.kind == NFor { ForKeeps(f, t, st, p); }
    else if t.kind == NCall { CallKeeps(f, t, st, p); }
    else { LeafKeeps(f, t, st, p); }
  }

  lemma {:induction false} OneKidKeeps(f: nat, t: Tree, st: St, p: Place)
    requires st.scopes != [] && (t.kind == NUnop || t.kind == NInput || t.kind == NIntCast || t.kind == NReturn)
    ensures KeptBy(st, EvalNode(f, t, st), Placed(t, p), p)
    decreases f, 4, 1
  {
    hide EvalUnop, EvalInput, EvalIntCast, EvalReturn, Placed, KeptBy;
    if t.kind == NUnop { UnopKeeps(f, t, st, p); }
    else if t.kind == NInput { InputKeeps(f, t, st, p); }
    else if t.kind == NIntCast { IntCastKeeps(f, t, st, p); }
    else { ReturnKeeps(f, t, st, p); }
  }

  lemma {:induction false} UnopKeeps(f: nat, t: Tree, st: St, p: Place)
    requires st.scopes != [] && t.kind == NUnop
    ensures KeptBy(st, EvalUnop(f, t, st), Placed(t, p), p)
    decreases f, 4, 0
  {
    KidKeeps(f, t, 0, st, p);
  }

  lemma {:induction false} InputKeeps(f: nat, t: Tree, st: St, p: Place)
    requires st.scopes != [] && t.kind == NInput
    ensures KeptBy(st, EvalInput(f, t, st), Placed(t, p), p)
    decreases f, 4, 0
  {
    KidKeeps(f, t, 0, st, p);
  }

  lemma {:induction false} IntCastKeeps(f: nat, t: Tree, st: St, p: Place)
    requires st.scopes != [] && t.kind == NIntCast
    ensures KeptBy(st, EvalIntCast(f, t, st), Placed(t, p), p)
    decreases f, 4, 0
  {
    KidKeeps(f, t, 0, st, p);
  }

  lemma {:induction false} ReturnKeeps(f: nat, t: Tree, st: St, p: Place)
    requires st.scopes != [] && t.kind == NReturn
    ensures KeptBy(st, EvalReturn(f, t, st), Placed(t, p), p)
    decreases f, 4, 0
  {
    KidKeeps(f, t, 0, st, p);
  }

  /** What evaluates nothing below itself. */
  lemma LeafKeeps(f: nat, t: Tree, st: St, p: Place)
    requires st.scopes != []
    requires t.kind in {NInt, NStr, NBool, NVar, NDef, NBreak, NContinue, NRange}
    ensures KeptBy(st, EvalNode(f, t, st), Placed(t, p), p)
  {
  }

  lemma {:induction false} AssignKeeps(f: nat, t: Tree, st: St, p: Place)
    requires st.scopes != [] && t.kind == NAssign
    ensures KeptBy(st, EvalAssign(f, t, st), Placed(t, p), p)
    decreases f, 4, 0
  {
    KidKeeps(f, t, 0, st, p);
  }

  lemma {:induction false} BinopKeeps(f: nat, t: Tree, st: St, p: Place)
    requires st.scopes != [] && t.kind == NBinop
    ensures KeptBy(st, EvalBinop(f, t, st), Placed(t, p), p)
    decreases f, 4, 0
  {
    KidKeeps(f, t, 0, st, p);
    var o := Eval(f, Kid(t, 0), st);
    if o.Ok? { KidKeeps(f, t, 1, o.st, p); }
  }

  lemma {:induction false} PrintKeeps(f: nat, t: Tree, i: nat, st: St, p: Place)
    requires st.scopes != [] && t.kind == NPrint && i <= |t.kids|
    ensures KeptBy(st, EvalPrint(f, t.kids, i, st), Placed(t, p), p)
    decreases f, 3, |t.kids| - i
  {
    hide Placed, HasText, Text, PlacedOpt;
    if i < |t.kids| {
      KidKeeps(f, t, i, st, p);
      var o := Eval(f, Kid(t, i), st);
      if o.Ok? && HasText(o.v) {
        PrintKeeps(f, t, i + 1, Printed(o.st, o.v, i < |t.kids| - 1), p);
      }
    }
  }

  lemma {:induction false} BlockKeeps(f: nat, t: Tree, i: nat, last: Value, st: St, p: Place)
    requires st.scopes != [] && t.kind == NBlock && i <= |t.kids|
    ensures KeptBy(st, EvalBlock(f, t.kids, i, last, st), Placed(t, p), p)
    decreases f, 3, |t.kids| - i
  {
    if i < |t.kids| {
      KidKeeps(f, t, i, st, p);
      var o := Eval(f, Kid(t, i), st);
      if o.Ok? { BlockKeeps(f, t, i + 1, o.v, o.st, p); }
    }
  }

  lemma {:induction false} IfKeeps(f: nat, t: Tree, st: St, p: Place)
    requires st.scopes != [] && t.kind == NIf
    ensures KeptBy(st, EvalIf(f, t, st), Placed(t, p), p)
    decreases f, 4, 0
  {
    KidKeeps(f, t, 0, st, p);
    var o := Eval(f, Kid(t, 0), st);
    if o.Ok? {
      KidKeeps(f, t, 1, o.st, p);
      KidKeeps(f, t, 2, o.st, p);
    }
  }

  /** A loop ends without break or continue pending. */
  ghost predicate LoopKept(st: St, o: Out, placed: bool) {
    KeptBy(st, o, placed, Outside)
  }

  lemma LoopAnywhere(st: St, o: Out, t: Tree, p: Place)
    requires LoopKept(st, o, Placed(t, p)) && (t.kind == NWhile || t.kind == NFor)
    ensures KeptBy(st, o, Placed(t, p), p)
  {
  }

  lemma {:induction false} WhileKeeps(f: nat, t: Tree, last: Value, st: St, p: Place)
    requires st.scopes != [] && t.kind == NWhile
    ensures LoopKept(st, EvalWhile(f, t, last, st), Placed(t, p))
    ensures KeptBy(st, EvalWhile(f, t, last, st), Placed(t, p), p)
    decreases f, 2, 0
  {
    hide Placed, Kept, SameOuter, FuncsPlaced, AtMostOne;
    KidKeeps(f, t, 0, st, p);
    var c := Eval(f, Kid(t, 0), st);
    if c.Ok? && Truthy(c.v) {
      KeptScopes(st, c.st, Placed(t, p), InExpr);
      KidKeeps(f, t, 1, c.st, p);
      var o := Eval(f, Kid(t, 1), c.st);
      if o.Ok? {
        var next := o.st.(flags := o.st.flags.(continuing := false));
        RoundKeeps(st, c.st, o.st, Placed(t, p));
        if f > 0 {
          WhileKeeps(f - 1, t, o.v, next, p);
          if EvalWhile(f - 1, t, o.v, next).Ok? && !o.st.flags.returning && !o.st.flags.breaking {
            KeptTrans(st, next, EvalWhile(f - 1, t, o.v, next).st, Placed(t, p));
          }
        }
      }
    }
    if c.Ok? { QuietOutside(st, c.st, Placed(t, p)); }
    LoopAnywhere(st, EvalWhile(f, t, last, st), t, p);
  }

  lemma KeptScopes(st: St, st1: St, placed: bool, p: Place)
    requires Kept(st, st1, placed, p)
    ensures st1.scopes != []
  {
  }

  lemma QuietOutside(st: St, st1: St, placed: bool)
    requires Kept(st, st1, placed, InExpr)
    ensures Kept(st, st1, placed, Outside)
  {
  }

  /** One round of a loop: condition and body. However it ends, what the loop makes of it is kept. */
  lemma RoundKeeps(st: St, st1: St, st2: St, placed: bool)
    requires Kept(st, st1, placed, InExpr) && Kept(st1, st2, placed, InLoop)
    ensures Kept(st, st2.(flags := st2.flags.(continuing := false)), placed, Outside)
            || st2.flags.returning || st2.flags.breaking
    ensures st2.flags.returning ==> Kept(st, st2, placed, Outside)
    ensures st2.flags.breaking && !st2.flags.returning ==>
            Kept(st, st2.(flags := st2.flags.(breaking := false)), placed, Outside)
    ensures !st2.flags.returning && !st2.flags.breaking ==> st2.(flags := st2.flags.(continuing := false)).scopes != []
    ensures !st2.flags.returning && !st2.flags.breaking && placed && FuncsPlaced(st.funcs) && !st.flags.Any() ==>
              !st2.(flags := st2.flags.(continuing := false)).flags.Any() && FuncsPlaced(st2.funcs)
    ensures st2.scopes != [] && SameOuter(st.scopes, st2.scopes)
  {
  }

  lemma KeptTrans(st: St, st1: St, st2: St, placed: bool)
    requires SameOuter(st.scopes, st1.scopes) && Kept(st1, st2, placed, Outside)
    requires placed && FuncsPlaced(st.funcs) && !st.flags.Any() ==> FuncsPlaced(st1.funcs) && !st1.flags.Any()
    ensures Kept(st, st2, placed, Outside)
  {
  }

  lemma {:induction false} ForKeeps(f: nat, t: Tree, st: St, p: Place)
    requires st.scopes != [] && t.kind == NFor
    ensures LoopKept(st, EvalFor(f, t, st), Placed(t, p)) && KeptBy(st, EvalFor(f, t, st), Placed(t, p), p)
    decreases f, 4, 0
  {
    if t.kids != [] {
      var r := t.kids[0].kind == NRange;
      if r { KidKeeps(f, t.kids[0], 0, st, InExpr); } else { KidKeeps(f, t, 0, st, p); }
      var o := Eval(f, if r then Kid(t.kids[0], 0) else Kid(t, 0), st);
      if o.Ok? && o.v.VInt? {
        StepsKeep(f, t, 0, o.v.i, VNone, o.st, p);
      }
    }
    LoopAnywhere(st, EvalFor(f, t, st), t, p);
  }

  lemma {:induction false} StepsKeep(f: nat, t: Tree, i: nat, limit: int, last: Value, st: St, p: Place)
    requires st.scopes != [] && t.kind == NFor
    ensures LoopKept(st, EvalSteps(f, t, i, limit, last, st), Placed(t, p))
    decreases f, 2, limit - i
  {
    var s := Assigned(st.scopes, t.strVal, VInt(i));
    if i < limit && s.Some? {
      var st1 := st.(scopes := s.value);
      KidKeeps(f, t, 1, st1, p);
      var o := Eval(f, Kid(t, 1), st1);
      if o.Ok? {
        StepsKeep(f, t, i + 1, limit, o.v, o.st.(flags := o.st.flags.(continuing := false)), p);
      }
    }
  }

  lemma {:induction false} ArgsKeep(f: nat, t: Tree, done: seq<Value>, st: St, p: Place)
    requires st.scopes != [] && t.kind == NCall && |done| <= |t.kids|
    ensures var r := EvalArgs(f, t.kids, done, st);
            r.Oks? ==> Kept(st, r.st, Placed(t, p), InExpr)
    decreases f, 3, |t.kids| - |done|
  {
    if |done| < |t.kids| {
      KidKeeps(f, t, |done|, st, p);
      var o := Eval(f, Kid(t, |done|), st);
      if o.Ok? { ArgsKeep(f, t, done + [o.v], o.st, p); }
    }
  }

  lemma {:induction false} BindKeeps(scopes: seq<Scope>, params: seq<string>, args: seq<Value>, i: nat)
    requires |params| == |args| && i <= |params| && scopes != []
    ensures var r := Bind(scopes, params, args, i);
            r.Some? ==> SameOuter(scopes, r.value)
    decreases |params| - i
  {
    if i < |params| {
      var s := Assigned(scopes, params[i], args[i]);
      if s.Some? { BindKeeps(s.value, params, args, i + 1); }
    }
  }

  /** A call leaves all of its caller's variables as they were once its arguments were known. */
  lemma {:induction false} CallKeeps(f: nat, t: Tree, st: St, p: Place)
    requires st.scopes != [] && t.kind == NCall
    ensures KeptBy(st, EvalCall(f, t, st), Placed(t, p), p)
    ensures EvalCall(f, t, st).Ok? ==>
              EvalArgs(f, t.kids, [], st).Oks? && EvalCall(f, t, st).st.scopes == EvalArgs(f, t.kids, [], st).st.scopes
    decreases f, 4, 0
  {
    var fn := FindFunc(st.funcs, t.strVal, 0);
    var r := EvalArgs(f, t.kids, [], st);
    ArgsKeep(f, t, [], st, p);
    if fn.Some? && r.Oks? && |t.kids| == |fn.value.params| {
      var inner := r.st.scopes + [map[]];
      var bound := Bind(inner, fn.value.params, r.vs, 0);
      BindKeeps(inner, fn.value.params, r.vs, 0);
      if bound.Some? {
        var st1 := r.st.(scopes := bound.value);
        EvalKeeps(f, Some(fn.value.body), st1, Outside);
      }
    }
  }

  // ----- fuel -----

  predicate Finished(o: Out) {
    o != Bad(OutOfFuel)
  }

  /** An evaluation that ended, with a value or an error, ends the same way on any more fuel. */
  lemma {:induction false} MoreFuel(f: nat, g: nat, t: Option<Tree>, st: St)
    requires f <= g && Finished(Eval(f, t, st))
    ensures Eval(g, t, st) == Eval(f, t, st)
    decreases f, 0, 0
  {
    if t.Some? {
      NodeFuel(f - 1, g - 1, t.value, st);
    }
  }

  lemma {:induction false} NodeFuel(f: nat, g: nat, t: Tree, st: St)
    requires f <= g && Finished(EvalNode(f, t, st))
    ensures EvalNode(g, t, st) == EvalNode(f, t, st)
    decreases f, 5, 0
  {
    hide EvalAssign, EvalUnop, EvalIntCast, EvalInput, EvalReturn, EvalBinop, EvalPrint, EvalBlock, EvalIf, EvalWhile;
    hide EvalFor, EvalCall;
    if t.kind == NAssign { AssignFuel(f, g, t, st); }
    else if t.kind == NUnop { UnopFuel(f, g, t, st); }
    else if t.kind == NIntCast { IntCastFuel(f, g, t, st); }
    else if t.kind == NInput { InputFuel(f, g, t, st); }
    else if t.kind == NReturn { ReturnFuel(f, g, t, st); }
    else if t.kind == NBinop { BinopFuel(f, g, t, st); }
    else if t.kind == NPrint { PrintFuel(f, g, t.kids, 0, st); }
    else if t.kind == NBlock { BlockFuel(f, g, t.kids, 0, VNone, st); }
    else if t.kind == NIf { IfFuel(f, g, t, st); }
    else if t.kind == NWhile { WhileFuel(f, g, t, VNone, st); }
    else if t.kind == NFor { ForFuel(f, g, t, st); }
    else if t.kind == NCall { CallFuel(f, g, t, st); }
  }

  lemma {:induction false} AssignFuel(f: nat, g: nat, t: Tree, st: St)
    requires f <= g && Finished(EvalAssign(f, t, st))
    ensures EvalAssign(g, t, st) == EvalAssign(f, t, st)
    decreases f, 4, 0
  {
    MoreFuel(f, g, Kid(t, 0), st);
  }

  lemma {:induction false} UnopFuel(f: nat, g: nat, t: Tree, st: St)
    requires f <= g && Finished(EvalUnop(f, t, st))
    ensures EvalUnop(g, t, st) == EvalUnop(f, t, st)
    decreases f, 4, 0
  {
    MoreFuel(f, g, Kid(t, 0), st);
  }

  lemma {:induction false} IntCastFuel(f: nat, g: nat, t: Tree, st: St)
    requires f <= g && Finished(EvalIntCast(f, t, st))
    ensures EvalIntCast(g, t, st) == EvalIntCast(f, t, st)
    decreases f, 4, 0
  {
    if |t.kids| == 1 { MoreFuel(f, g, Kid(t, 0), st); }
  }

  lemma {:induction false} InputFuel(f: nat, g: nat, t: Tree, st: St)
    requires f <= g && Finished(EvalInput(f, t, st))
    ensures EvalInput(g, t, st) == EvalInput(f, t, st)
    decreases f, 4, 0
  {
    if t.kids != [] { MoreFuel(f, g, Kid(t, 0), st); }
  }

  lemma {:induction false} ReturnFuel(f: nat, g: nat, t: Tree, st: St)
    requires f <= g && Finished(EvalReturn(f, t, st))
    ensures EvalReturn(g, t, st) == EvalReturn(f, t, st)
    decreases f, 4, 0
  {
    if t.kids != [] { MoreFuel(f, g, Kid(t, 0), st); }
  }

  lemma {:induction false} BinopFuel(f: nat, g: nat, t: Tree, st: St)
    requires f <= g && Finished(EvalBinop(f, t, st))
    ensures EvalBinop(g, t, st) == EvalBinop(f, t, st)
    decreases f, 4, 0
  {
    MoreFuel(f, g, Kid(t, 0), st);
    var o := Eval(f, Kid(t, 0), st);
    if o.Ok? && !(t.op == AND && !Truthy(o.v)) && !(t.op == OR && Truthy(o.v)) {
      MoreFuel(f, g, Kid(t, 1), o.st);
    }
  }

  lemma {:induction false} PrintFuel(f: nat, g: nat, ts: seq<Tree>, i: nat, st: St)
    requires f <= g && i <= |ts| && Finished(EvalPrint(f, ts, i, st))
    ensures EvalPrint(g, ts, i, st) == EvalPrint(f, ts, i, st)
    decreases f, 3, |ts| - i
  {
    hide Text, Printed, Eval;
    if i < |ts| {
      MoreFuel(f, g, Some(ts[i]), st);
      var o := Eval(f, Some(ts[i]), st);
      if o.Ok? && HasText(o.v) {
        PrintFuel(f, g, ts, i + 1, Printed(o.st, o.v, i < |ts| - 1));
      }
    }
  }

  lemma {:induction false} BlockFuel(f: nat, g: nat, ts: seq<Tree>, i: nat, last: Value, st: St)
    requires f <= g && i <= |ts| && Finished(EvalBlock(f, ts, i, last, st))
    ensures EvalBlock(g, ts, i, last, st) == EvalBlock(f, ts, i, last, st)
    decreases f, 3, |ts| - i
  {
    if i < |ts| {
      MoreFuel(f, g, Some(ts[i]), st);
      var o := Eval(f, Some(ts[i]), st);
      if o.Ok? && !o.st.flags.Any() { BlockFuel(f, g, ts, i + 1, o.v, o.st); }
    }
  }

  lemma {:induction false} IfFuel(f: nat, g: nat, t: Tree, st: St)
    requires f <= g && Finished(EvalIf(f, t, st))
    ensures EvalIf(g, t, st) == EvalIf(f, t, st)
    decreases f, 4, 0
  {
    MoreFuel(f, g, Kid(t, 0), st);
    var o := Eval(f, Kid(t, 0), st);
    if o.Ok? {
      if Truthy(o.v) { MoreFuel(f, g, Kid(t, 1), o.st); }
      else if |t.kids| == 3 { MoreFuel(f, g, Kid(t, 2), o.st); }
    }
  }

  lemma {:induction false} WhileFuel(f: nat, g: nat, t: Tree, last: Value, st: St)
    requires f <= g && Finished(EvalWhile(f, t, last, st))
    ensures EvalWhile(g, t, last, st) == EvalWhile(f, t, last, st)
    decreases f, 2, 0
  {
    MoreFuel(f, g, Kid(t, 0), st);
    var c := Eval(f, Kid(t, 0), st);
    if c.Ok? && Truthy(c.v) {
      MoreFuel(f, g, Kid(t, 1), c.st);
      var o := Eval(f, Kid(t, 1), c.st);
      if o.Ok? && !o.st.flags.returning && !o.st.flags.breaking {
        WhileFuel(f - 1, g - 1, t, o.v, o.st.(flags := o.st.flags.(continuing := false)));
      }
    }
  }

  lemma {:induction false} ForFuel(f: nat, g: nat, t: Tree, st: St)
    requires f <= g && Finished(EvalFor(f, t, st))
    ensures EvalFor(g, t, st) == EvalFor(f, t, st)
    decreases f, 4, 0
  {
    if t.kids != [] && !(t.kids[0].kind == NRange && t.kids[0].kids == []) {
      var e := if t.kids[0].kind == NRange then Kid(t.kids[0], 0) else Kid(t, 0);
      MoreFuel(f, g, e, st);
      var o := Eval(f, e, st);
      if o.Ok? && o.v.VInt? { StepsFuel(f, g, t, 0, o.v.i, VNone, o.st); }
    }
  }

  lemma {:induction false} StepsFuel(f: nat, g: nat, t: Tree, i: nat, limit: int, last: Value, st: St)
    requires f <= g && Finished(EvalSteps(f, t, i, limit, last, st))
    ensures EvalSteps(g, t, i, limit, last, st) == EvalSteps(f, t, i, limit, last, st)
    decreases f, 2, limit - i
  {
    var s := Assigned(st.scopes, t.strVal, VInt(i));
    if i < limit && s.Some? {
      MoreFuel(f, g, Kid(t, 1), st.(scopes := s.value));
      var o := Eval(f, Kid(t, 1), st.(scopes := s.value));
      if o.Ok? && !o.st.flags.returning && !o.st.flags.breaking {
        StepsFuel(f, g, t, i + 1, limit, o.v, o.st.(flags := o.st.flags.(continuing := false)));
      }
    }
  }

  lemma {:induction false} ArgsFuel(f: nat, g: nat, ts: seq<Tree>, done: seq<Value>, st: St)
    requires f <= g && |done| <= |ts| && EvalArgs(f, ts, done, st) != Bads(OutOfFuel)
    ensures EvalArgs(g, ts, done, st) == EvalArgs(f, ts, done, st)
    decreases f, 3, |ts| - |done|
  {
    if |done| < |ts| {
      MoreFuel(f, g, Some(ts[|done|]), st);
      var o := Eval(f, Some(ts[|done|]), st);
      if o.Ok? { ArgsFuel(f, g, ts, done + [o.v], o.st); }
    }
  }

  lemma {:induction false} CallFuel(f: nat, g: nat, t: Tree, st: St)
    requires f <= g && Finished(EvalCall(f, t, st))
    ensures EvalCall(g, t, st) == EvalCall(f, t, st)
    decreases f, 4, 0
  {
    var fn := FindFunc(st.funcs, t.strVal, 0);
    if fn.Some? && |t.kids| == |fn.value.params| && |st.scopes| <= MAX_CALL_DEPTH {
      ArgsFuel(f, g, t.kids, [], st);
      var r := EvalArgs(f, t.kids, [], st);
      if r.Oks? {
        var bound := Bind(r.st.scopes + [map[]], fn.value.params, r.vs, 0);
        if bound.Some? { MoreFuel(f, g, Some(fn.value.body), r.st.(scopes := bound.value)); }
      }
    }
  }
}

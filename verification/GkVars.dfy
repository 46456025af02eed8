/** The evaluator's one flat array of variables as a stack of scopes. */
module GkVars {
  import opened Options
  import opened GkSyntax
  import opened GkMeaning

  datatype Var = Var(name: string, val: Value, scope: nat)

  /** Sorted by scope, none beyond `depth`, no name twice in one scope. */
  ghost predicate Ordered(vars: seq<Var>, depth: nat) {
    && (forall i :: 0 <= i < |vars| ==> vars[i].scope <= depth)
    && (forall i, j :: 0 <= i < j < |vars| ==> vars[i].scope <= vars[j].scope)
    && (forall i, j :: 0 <= i < j < |vars| && vars[i].scope == vars[j].scope ==> vars[i].name != vars[j].name)
  }

  /** The variables of one scope. */
  function ScopeOf(vars: seq<Var>, k: nat): Scope {
    if vars == [] then map[]
    else
      var n := |vars| - 1;
      if vars[n].scope == k then ScopeOf(vars[..n], k)[vars[n].name := vars[n].val] else ScopeOf(vars[..n], k)
  }

  /** Scopes 0 to `depth`. */
  function Scopes(vars: seq<Var>, depth: nat): (r: seq<Scope>)
    ensures |r| == depth + 1
  {
    seq(depth + 1, k requires 0 <= k <= depth => ScopeOf(vars, k))
  }

  // ----- single scopes -----

  lemma {:induction false} InScope(vars: seq<Var>, k: nat, name: string)
    ensures name in ScopeOf(vars, k) <==> exists i :: 0 <= i < |vars| && vars[i].scope == k && vars[i].name == name
  {
    if vars != [] {
      var n := |vars| - 1;
      InScope(vars[..n], k, name);
      if i :| 0 <= i < |vars| && vars[i].scope == k && vars[i].name == name {
        if i < n { assert vars[..n][i] == vars[i]; }
      }
    }
  }

  lemma {:induction false} ValueInScope(vars: seq<Var>, depth: nat, i: nat)
    requires Ordered(vars, depth) && i < |vars|
    ensures vars[i].name in ScopeOf(vars, vars[i].scope) && ScopeOf(vars, vars[i].scope)[vars[i].name] == vars[i].val
  {
    var n := |vars| - 1;
    if i < n {
      assert vars[..n][i] == vars[i];
      ValueInScope(vars[..n], depth, i);
    }
  }

  /** Changing a value changes its own scope there and no other. */
  lemma {:induction false} ScopeUpdated(vars: seq<Var>, depth: nat, i: nat, v: Value, k: nat)
    requires Ordered(vars, depth) && i < |vars|
    ensures ScopeOf(vars[i := vars[i].(val := v)], k)
         == if k == vars[i].scope then ScopeOf(vars, k)[vars[i].name := v] else ScopeOf(vars, k)
    decreases |vars|
  {
    var n := |vars| - 1;
    var vars' := vars[i := vars[i].(val := v)];
    if i < n {
      assert vars'[..n] == vars[..n][i := vars[..n][i].(val := v)] && vars[..n][i] == vars[i];
      ScopeUpdated(vars[..n], depth, i, v, k);
    } else {
      assert vars'[..n] == vars[..n];
    }
  }

  lemma ScopeAppended(vars: seq<Var>, x: Var, k: nat)
    ensures ScopeOf(vars + [x], k) == if k == x.scope then ScopeOf(vars, k)[x.name := x.val] else ScopeOf(vars, k)
  {
    assert (vars + [x])[..|vars|] == vars;
  }

  /** Variables of inner scopes do not matter to outer ones. */
  lemma {:induction false} ScopeCut(vars: seq<Var>, m: nat, k: nat)
    requires m <= |vars| && forall i :: m <= i < |vars| ==> vars[i].scope != k
    ensures ScopeOf(vars, k) == ScopeOf(vars[..m], k)
    decreases |vars|
  {
    var n := |vars| - 1;
    if m <= n {
      assert vars[..n][..m] == vars[..m];
      ScopeCut(vars[..n], m, k);
    } else {
      assert vars[..m] == vars;
    }
  }

  // ----- the stack -----

  /** Searching the array backwards. */
  function Find(vars: seq<Var>, name: string): Option<Value> {
    if vars == [] then None
    else if vars[|vars| - 1].name == name then Some(vars[|vars| - 1].val)
    else Find(vars[..|vars| - 1], name)
  }

  lemma TopScope(vars: seq<Var>, depth: nat)
    ensures var s := Scopes(vars, depth);
            && s != [] && s[|s| - 1] == ScopeOf(vars, depth)
            && s[..|s| - 1] == if depth == 0 then [] else Scopes(vars, depth - 1)
  {
  }

  /** With no variable in the innermost scope, it is empty. */
  lemma TopEmpty(vars: seq<Var>, depth: nat)
    requires Ordered(vars, depth) && (vars != [] ==> vars[|vars| - 1].scope < depth)
    ensures ScopeOf(vars, depth) == map[] && (depth > 0 ==> Ordered(vars, depth - 1)) && (depth == 0 ==> vars == [])
  {
    assert forall i :: 0 <= i < |vars| ==> vars[i].scope <= vars[|vars| - 1].scope;
    ScopeCut(vars, 0, depth);
  }

  /** The last variable, when it is in the innermost scope, is the newest there. */
  lemma TopLast(vars: seq<Var>, depth: nat)
    requires Ordered(vars, depth) && vars != [] && vars[|vars| - 1].scope == depth
    ensures var n := |vars| - 1;
            && Ordered(vars[..n], depth)
            && ScopeOf(vars, depth) == ScopeOf(vars[..n], depth)[vars[n].name := vars[n].val]
            && vars[n].name !in ScopeOf(vars[..n], depth)
            && Scopes(vars, depth)[..depth] == Scopes(vars[..n], depth)[..depth]
  {
    InScope(vars[..|vars| - 1], depth, vars[|vars| - 1].name);
  }

  /** A backwards search finds what the innermost scope holding the name has. */
  lemma {:induction false} FindIsLookup(vars: seq<Var>, depth: nat, name: string)
    requires Ordered(vars, depth)
    ensures Find(vars, name) == Lookup(Scopes(vars, depth), name)
    decreases |vars| + depth
  {
    TopScope(vars, depth);
    hide Ordered, ScopeOf, Scopes;
    if vars == [] || vars[|vars| - 1].scope != depth {
      if vars != [] { LastWithin(vars, depth); }
      TopEmpty(vars, depth);
      if depth > 0 { FindIsLookup(vars, depth - 1, name); }
    } else {
      var n := |vars| - 1;
      TopLast(vars, depth);
      if vars[n].name != name {
        FindIsLookup(vars[..n], depth, name);
        TopScope(vars[..n], depth);
        WithoutOther(Scopes(vars[..n], depth), ScopeOf(vars[..n], depth), vars[n].name, vars[n].val, name,
            Scopes(vars, depth));
      }
    }
  }

  lemma LastWithin(vars: seq<Var>, depth: nat)
    requires Ordered(vars, depth) && vars != []
    ensures vars[|vars| - 1].scope <= depth
  {
  }

  lemma WithoutOther(a: seq<Scope>, top: Scope, other: string, v: Value, name: string, b: seq<Scope>)
    requires |a| == |b| > 0 && a[|a| - 1] == top && b[|b| - 1] == top[other := v] && name != other
    requires a[..|a| - 1] == b[..|b| - 1]
    ensures Lookup(a, name) == Lookup(b, name)
  {
  }

  lemma {:induction false} CountIs(vars: seq<Var>, depth: nat)
    requires Ordered(vars, depth)
    ensures Count(Scopes(vars, depth)) == |vars|
    decreases |vars| + depth
  {
    TopScope(vars, depth);
    hide Ordered, ScopeOf, Scopes;
    if vars == [] || vars[|vars| - 1].scope != depth {
      if vars != [] { LastWithin(vars, depth); }
      TopEmpty(vars, depth);
      if depth > 0 { CountIs(vars, depth - 1); }
    } else {
      TopLast(vars, depth);
      TopScope(vars[..|vars| - 1], depth);
      CountIs(vars[..|vars| - 1], depth);
    }
  }

  /** Where the innermost scope has the name, if it does. */
  ghost predicate Here(vars: seq<Var>, depth: nat, name: string, i: nat) {
    i < |vars| && vars[i].scope == depth && vars[i].name == name
  }

  lemma UpdateIsAssigned(vars: seq<Var>, depth: nat, name: string, i: nat, v: Value)
    requires Ordered(vars, depth) && Here(vars, depth, name, i)
    ensures var vars' := vars[i := vars[i].(val := v)];
            Ordered(vars', depth) && Assigned(Scopes(vars, depth), name, v) == Some(Scopes(vars', depth))
  {
    var vars' := vars[i := vars[i].(val := v)];
    InScope(vars, depth, name);
    forall k | 0 <= k <= depth
      ensures ScopeOf(vars', k) == if k == depth then ScopeOf(vars, k)[name := v] else ScopeOf(vars, k) {
      ScopeUpdated(vars, depth, i, v, k);
    }
    assert Scopes(vars', depth) == Scopes(vars, depth)[depth := ScopeOf(vars, depth)[name := v]];
  }

  lemma AppendIsAssigned(vars: seq<Var>, depth: nat, name: string, v: Value)
    requires Ordered(vars, depth) && forall i :: !Here(vars, depth, name, i)
    ensures if |vars| >= MAX_VARS then Assigned(Scopes(vars, depth), name, v) == None
            else
              && Ordered(vars + [Var(name, v, depth)], depth)
              && Assigned(Scopes(vars, depth), name, v) == Some(Scopes(vars + [Var(name, v, depth)], depth))
  {
    var x := Var(name, v, depth);
    CountIs(vars, depth);
    InScope(vars, depth, name);
    assert name !in ScopeOf(vars, depth) by {
      if i :| 0 <= i < |vars| && vars[i].scope == depth && vars[i].name == name {
        assert Here(vars, depth, name, i);
      }
    }
    if |vars| < MAX_VARS {
      forall k | 0 <= k <= depth
        ensures ScopeOf(vars + [x], k) == if k == depth then ScopeOf(vars, k)[name := v] else ScopeOf(vars, k) {
        ScopeAppended(vars, x, k);
      }
      assert Scopes(vars + [x], depth) == Scopes(vars, depth)[depth := ScopeOf(vars, depth)[name := v]];
      forall i, j | 0 <= i < j < |vars + [x]| && (vars + [x])[i].scope == (vars + [x])[j].scope
        ensures (vars + [x])[i].name != (vars + [x])[j].name
      {
        if j == |vars| { assert !Here(vars, depth, name, i); }
      }
    }
  }

  /** A call starts with an empty scope on top. */
  lemma Entered(vars: seq<Var>, depth: nat)
    requires Ordered(vars, depth)
    ensures Ordered(vars, depth + 1) && Scopes(vars, depth + 1) == Scopes(vars, depth) + [map[]]
  {
    ScopeCut(vars, 0, depth + 1);
  }

  /** Dropping the variables of the innermost scope drops that scope. */
  lemma Popped(vars: seq<Var>, depth: nat, m: nat)
    requires Ordered(vars, depth) && depth > 0 && m <= |vars|
    requires forall i :: m <= i < |vars| ==> vars[i].scope == depth
    requires m > 0 ==> vars[m - 1].scope < depth
    ensures Ordered(vars[..m], depth - 1) && Scopes(vars[..m], depth - 1) == Scopes(vars, depth)[..depth]
  {
    forall k | 0 <= k < depth ensures ScopeOf(vars, k) == ScopeOf(vars[..m], k) {
      ScopeCut(vars, m, k);
    }
  }
}

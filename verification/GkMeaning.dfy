/**
 What a program means: an evaluator over syntax trees whose variables live in a stack of maps, one
 per call, searched innermost first.
 */
module GkMeaning {
  import opened Options
  import opened GkSyntax

  const MAX_VARS: nat := 128
  const MAX_FUNCS: nat := 64
  const MAX_PARAMS: nat := 8
  const MAX_CALL_DEPTH: nat := 32

  datatype Value = VInt(i: int) | VStr(s: string) | VBool(b: bool) | VNone

  /** `Overflow`: an int left its 32 bits, and what the program does from there on is undefined.
      `OutOfFuel` is no error of the language: the evaluation was cut short. */
  datatype Fault = Failed | Overflow | OutOfFuel

  datatype Flags = Flags(returning: bool, breaking: bool, continuing: bool, value: Value) {
    predicate Any() {
      returning || breaking || continuing
    }
  }

  datatype Func = Func(name: string, params: seq<string>, body: Tree)

  type Scope = map<string, Value>

  datatype St = St(scopes: seq<Scope>, funcs: seq<Func>, flags: Flags, input: seq<string>, out: seq<string>)

  datatype Out = Ok(v: Value, st: St) | Bad(fault: Fault)
  datatype Result = Val(v: Value) | Err(fault: Fault)
  datatype Outs = Oks(vs: seq<Value>, st: St) | Bads(fault: Fault)

  // ----- values -----

  function IntResult(n: int): Result {
    if InInt(n) then Val(VInt(n)) else Err(Overflow)
  }

  /** The least int has no text: its negation overflows. */
  predicate HasText(v: Value) {
    v != VInt(MIN_INT)
  }

  function Truthy(v: Value): bool {
    match v
    case VBool(b) => b
    case VInt(i) => i != 0
    case VStr(s) => s != ""
    case VNone => false
  }

  function Digits(n: nat): string {
    if n < 10 then ['0' + n as char] else Digits(n / 10) + ['0' + (n % 10) as char]
  }

  function Text(v: Value): string {
    match v
    case VInt(i) => if i < 0 then "-" + Digits(-i) else Digits(i)
    case VBool(b) => if b then "True" else "False"
    case VStr(s) => s
    case VNone => "None"
  }

  /** Text is cut at the size of a string buffer. */
  function Joined(a: string, b: string): string {
    if |a| >= MAX_TEXT then a
    else if |a| + |b| <= MAX_TEXT then a + b
    else a + b[..MAX_TEXT - |a|]
  }

  /** Division truncates toward zero and the remainder takes the sign of the dividend. */
  function Quotient(a: int, b: int): int
    requires b != 0
  {
    if a >= 0 then (if b > 0 then a / b else -(a / -b))
    else (if b > 0 then -(-a / b) else -a / -b)
  }

  function Remainder(a: int, b: int): int
    requires b != 0
  {
    a - b * Quotient(a, b)
  }

  function UnaryOf(op: Token, v: Value): Result {
    if op == MINUS then (if v.VInt? then IntResult(-v.i) else Err(Failed))
    else if op == NOT then Val(VBool(!Truthy(v)))
    else Val(VNone)
  }

  /** Every binary operator but `and` and `or`. */
  function BinaryOf(op: Token, l: Value, r: Value): Result {
    if op == PLUS && l.VStr? then (if HasText(r) then Val(VStr(Joined(l.s, Text(r)))) else Err(Overflow))
    else if op == EQ then Val(VBool(l == r && !l.VNone?))
    else if op == NEQ then Val(VBool(l != r || l.VNone?))
    else if !l.VInt? || !r.VInt? then Err(Failed)
    else if op == PLUS then IntResult(l.i + r.i)
    else if op == MINUS then IntResult(l.i - r.i)
    else if op == STAR then IntResult(l.i * r.i)
    else if op == SLASH then (if r.i == 0 then Err(Failed) else IntResult(Quotient(l.i, r.i)))
    else if op == PERCENT then
      (if r.i == 0 then Err(Failed)
       else if !InInt(Quotient(l.i, r.i)) then Err(Overflow)
       else Val(VInt(Remainder(l.i, r.i))))
    else if op == LT then Val(VBool(l.i < r.i))
    else if op == LE then Val(VBool(l.i <= r.i))
    else if op == GT then Val(VBool(l.i > r.i))
    else if op == GE then Val(VBool(l.i >= r.i))
    else Err(Failed)
  }

  /** The number in the digits of `s` behind those that gave `acc`. */
  function Numeral(s: string, acc: nat): (r: Result)
    ensures r.Val? ==> r.v.VInt? && 0 <= r.v.i
    decreases |s|
  {
    if s == "" then Val(VInt(acc))
    else if '0' <= s[0] <= '9' then
      var n := acc * 10 + (s[0] as int - '0' as int);
      if InInt(n) then Numeral(s[1..], n) else Err(Overflow)
    else Err(Failed)
  }

  function ToInt(v: Value): Result {
    if v.VInt? then Val(v)
    else if !v.VStr? then Err(Failed)
    else
      var neg := v.s != "" && v.s[0] == '-';
      var p := if neg then v.s[1..] else v.s;
      if p == "" then Err(Failed)
      else
        match Numeral(p, 0)
        case Err(e) => Err(e)
        case Val(n) => Val(VInt(if neg then -n.i else n.i))
  }

  // ----- variables and functions -----

  /** The innermost scope that has the name, callers' scopes included. */
  function Lookup(scopes: seq<Scope>, name: string): Option<Value> {
    if scopes == [] then None
    else if name in scopes[|scopes| - 1] then Some(scopes[|scopes| - 1][name])
    else Lookup(scopes[..|scopes| - 1], name)
  }

  function Count(scopes: seq<Scope>): nat {
    if scopes == [] then 0 else Count(scopes[..|scopes| - 1]) + |scopes[|scopes| - 1]|
  }

  /** An assignment reaches the innermost scope only. */
  function Assigned(scopes: seq<Scope>, name: string, v: Value): Option<seq<Scope>> {
    if scopes == [] then None
    else
      var n := |scopes| - 1;
      if name !in scopes[n] && Count(scopes) >= MAX_VARS then None
      else Some(scopes[n := scopes[n][name := v]])
  }

  function Bind(scopes: seq<Scope>, params: seq<string>, args: seq<Value>, i: nat): Option<seq<Scope>>
    requires |params| == |args| && i <= |params|
    decreases |params| - i
  {
    if i == |params| then Some(scopes)
    else
      match Assigned(scopes, params[i], args[i])
      case None => None
      case Some(s) => Bind(s, params, args, i + 1)
  }

  /** The first definition of a name is the one that counts. */
  function FindFunc(funcs: seq<Func>, name: string, i: nat): (r: Option<Func>)
    requires i <= |funcs|
    ensures r.None? <==> forall k :: i <= k < |funcs| ==> funcs[k].name != name
    ensures r.Some? ==>
              exists k :: i <= k < |funcs| && funcs[k] == r.value && r.value.name == name
                          && forall j :: i <= j < k ==> funcs[j].name != name
    decreases |funcs| - i
  {
    if i == |funcs| then None
    else if funcs[i].name == name then Some(funcs[i])
    else FindFunc(funcs, name, i + 1)
  }

  function Names(ts: seq<Tree>): (r: seq<string>)
    ensures |r| == |ts|
  {
    seq(|ts|, i requires 0 <= i < |ts| => ts[i].strVal)
  }

  function Least(a: nat, b: nat): nat {
    if a < b then a else b
  }

  // ----- evaluation -----

  function Kid(t: Tree, i: nat): Option<Tree> {
    if i < |t.kids| then Some(t.kids[i]) else None
  }

  function Lift(r: Result, st: St): Out {
    match r
    case Val(v) => Ok(v, st)
    case Err(e) => Bad(e)
  }

  function EvalVar(name: string, st: St): Out {
    match Lookup(st.scopes, name)
    case None => Bad(Failed)
    case Some(v) => Ok(v, st)
  }

  function Eval(fuel: nat, t: Option<Tree>, st: St): Out
    decreases fuel, 0, 0
  {
    if t.None? then Ok(VNone, st)
    else if fuel == 0 then Bad(OutOfFuel)
    else EvalNode(fuel - 1, t.value, st)
  }

  function EvalNode(f: nat, t: Tree, st: St): Out
    decreases f, 5, 0
  {
    if t.kind == NInt then Ok(VInt(t.intVal), st)
    else if t.kind == NStr then Ok(VStr(t.strVal), st)
    else if t.kind == NBool then Ok(VBool(t.intVal != 0), st)
    else if t.kind == NVar then EvalVar(t.strVal, st)
    else if t.kind == NAssign then EvalAssign(f, t, st)
    else if t.kind == NUnop then EvalUnop(f, t, st)
    else if t.kind == NBinop then EvalBinop(f, t, st)
    else if t.kind == NPrint then EvalPrint(f, t.kids, 0, st)
    else if t.kind == NInput then EvalInput(f, t, st)
    else if t.kind == NIntCast then EvalIntCast(f, t, st)
    else if t.kind == NBlock then EvalBlock(f, t.kids, 0, VNone, st)
    else if t.kind == NIf then EvalIf(f, t, st)
    else if t.kind == NWhile then EvalWhile(f, t, VNone, st)
    else if t.kind == NFor then EvalFor(f, t, st)
    else if t.kind == NDef then EvalDef(t, st)
    else if t.kind == NCall then EvalCall(f, t, st)
    else if t.kind == NReturn then EvalReturn(f, t, st)
    else if t.kind == NBreak then Ok(VNone, st.(flags := st.flags.(breaking := true)))
    else if t.kind == NContinue then Ok(VNone, st.(flags := st.flags.(continuing := true)))
    else Bad(Failed)
  }

  function EvalAssign(f: nat, t: Tree, st: St): Out
    decreases f, 4, 0
  {
    match Eval(f, Kid(t, 0), st)
    case Bad(e) => Bad(e)
    case Ok(v, st1) =>
      var s := Assigned(st1.scopes, t.strVal, v);
      if s.None? then Bad(Failed) else Ok(v, st1.(scopes := s.value))
  }

  function EvalUnop(f: nat, t: Tree, st: St): Out
    decreases f, 4, 0
  {
    match Eval(f, Kid(t, 0), st)
    case Bad(e) => Bad(e)
    case Ok(v, st1) => Lift(UnaryOf(t.op, v), st1)
  }

  function EvalBinop(f: nat, t: Tree, st: St): Out
    decreases f, 4, 0
  {
    match Eval(f, Kid(t, 0), st)
    case Bad(e) => Bad(e)
    case Ok(l, st1) =>
      if t.op == AND && !Truthy(l) then Ok(VBool(false), st1)
      else if t.op == OR && Truthy(l) then Ok(VBool(true), st1)
      else
        match Eval(f, Kid(t, 1), st1)
        case Bad(e) => Bad(e)
        case Ok(r, st2) =>
          if t.op == AND || t.op == OR then Ok(VBool(Truthy(r)), st2) else Lift(BinaryOf(t.op, l, r), st2)
  }

  /** A value printed, with a space behind it if more follow. */
  function Printed(st: St, v: Value, more: bool): St {
    st.(out := st.out + [Text(v)] + if more then [" "] else [])
  }

  function EvalPrint(f: nat, ts: seq<Tree>, i: nat, st: St): Out
    requires i <= |ts|
    decreases f, 3, |ts| - i
  {
    if i == |ts| then Ok(VNone, st.(out := st.out + ["\n"]))
    else
      match Eval(f, Some(ts[i]), st)
      case Bad(e) => Bad(e)
      case Ok(v, st1) =>
        if !HasText(v) then Bad(Overflow)
        else EvalPrint(f, ts, i + 1, Printed(st1, v, i < |ts| - 1))
  }

  function EvalInput(f: nat, t: Tree, st: St): Out
    decreases f, 4, 0
  {
    if t.kids == [] then Line(st)
    else
      match Eval(f, Kid(t, 0), st)
      case Bad(e) => Bad(e)
      case Ok(v, st1) => if HasText(v) then Line(st1.(out := st1.out + [Text(v)])) else Bad(Overflow)
  }

  function Line(st: St): Out {
    var text := if st.input == [] then "" else st.input[0];
    Ok(VStr(text), st.(out := st.out + ["\n"], input := if st.input == [] then [] else st.input[1..]))
  }

  function EvalIntCast(f: nat, t: Tree, st: St): Out
    decreases f, 4, 0
  {
    if |t.kids| != 1 then Bad(Failed)
    else
      match Eval(f, Kid(t, 0), st)
      case Bad(e) => Bad(e)
      case Ok(v, st1) => Lift(ToInt(v), st1)
  }

  function EvalBlock(f: nat, ts: seq<Tree>, i: nat, last: Value, st: St): Out
    requires i <= |ts|
    decreases f, 3, |ts| - i
  {
    if i == |ts| then Ok(last, st)
    else
      match Eval(f, Some(ts[i]), st)
      case Bad(e) => Bad(e)
      case Ok(v, st1) => if st1.flags.Any() then Ok(v, st1) else EvalBlock(f, ts, i + 1, v, st1)
  }

  function EvalIf(f: nat, t: Tree, st: St): Out
    decreases f, 4, 0
  {
    match Eval(f, Kid(t, 0), st)
    case Bad(e) => Bad(e)
    case Ok(v, st1) =>
      if Truthy(v) then Eval(f, Kid(t, 1), st1)
      else if |t.kids| == 3 then Eval(f, Kid(t, 2), st1)
      else Ok(VNone, st1)
  }

  function EvalWhile(f: nat, t: Tree, last: Value, st: St): Out
    decreases f, 2, 0
  {
    match Eval(f, Kid(t, 0), st)
    case Bad(e) => Bad(e)
    case Ok(c, st1) =>
      if !Truthy(c) then Ok(last, st1)
      else
        match Eval(f, Kid(t, 1), st1)
        case Bad(e) => Bad(e)
        case Ok(v, st2) =>
          if st2.flags.returning then Ok(v, st2)
          else if st2.flags.breaking then Ok(v, st2.(flags := st2.flags.(breaking := false)))
          else if f == 0 then Bad(OutOfFuel)
          else EvalWhile(f - 1, t, v, st2.(flags := st2.flags.(continuing := false)))
  }

  /** The loop bound: the argument of range, or the iterable itself. */
  function EvalFor(f: nat, t: Tree, st: St): Out
    decreases f, 4, 0
  {
    if t.kids == [] || (t.kids[0].kind == NRange && t.kids[0].kids == []) then Bad(Failed)
    else
      match Eval(f, if t.kids[0].kind == NRange then Kid(t.kids[0], 0) else Kid(t, 0), st)
      case Bad(e) => Bad(e)
      case Ok(v, st1) => if !v.VInt? then Bad(Failed) else EvalSteps(f, t, 0, v.i, VNone, st1)
  }

  function EvalSteps(f: nat, t: Tree, i: nat, limit: int, last: Value, st: St): Out
    decreases f, 2, limit - i
  {
    if i >= limit then Ok(last, st)
    else
      var s := Assigned(st.scopes, t.strVal, VInt(i));
      if s.None? then Bad(Failed)
      else
        match Eval(f, Kid(t, 1), st.(scopes := s.value))
        case Bad(e) => Bad(e)
        case Ok(v, st1) =>
          if st1.flags.returning then Ok(v, st1)
          else if st1.flags.breaking then Ok(v, st1.(flags := st1.flags.(breaking := false)))
          else EvalSteps(f, t, i + 1, limit, v, st1.(flags := st1.flags.(continuing := false)))
  }

  function EvalDef(t: Tree, st: St): Out {
    if |st.funcs| >= MAX_FUNCS || t.kids == [] then Bad(Failed)
    else
      var n := |t.kids| - 1;
      Ok(VNone, st.(funcs := st.funcs + [Func(t.strVal, Names(t.kids[..Least(n, MAX_PARAMS)]), t.kids[n])]))
  }

  function EvalArgs(f: nat, ts: seq<Tree>, done: seq<Value>, st: St): (r: Outs)
    requires |done| <= |ts|
    ensures r.Oks? ==> |r.vs| == |ts|
    decreases f, 3, |ts| - |done|
  {
    if |done| == |ts| then Oks(done, st)
    else
      match Eval(f, Some(ts[|done|]), st)
      case Bad(e) => Bads(e)
      case Ok(v, st1) => EvalArgs(f, ts, done + [v], st1)
  }

  function EvalCall(f: nat, t: Tree, st: St): Out
    decreases f, 4, 0
  {
    var fn := FindFunc(st.funcs, t.strVal, 0);
    if fn.None? || |t.kids| != |fn.value.params| || |st.scopes| > MAX_CALL_DEPTH then Bad(Failed)
    else
      match EvalArgs(f, t.kids, [], st)
      case Bads(e) => Bad(e)
      case Oks(args, st1) =>
        var bound := Bind(st1.scopes + [map[]], fn.value.params, args, 0);
        if bound.None? then Bad(Failed)
        else
          match Eval(f, Some(fn.value.body), st1.(scopes := bound.value))
          case Bad(e) => Bad(e)
          case Ok(v, st2) => Leave(v, st2)
  }

  /** Back from a call: its variables go, its return is over. */
  function Leave(v: Value, st: St): Out {
    Ok(if st.flags.returning then st.flags.value else v,
       st.(flags := st.flags.(returning := false),
           scopes := if st.scopes == [] then [] else st.scopes[..|st.scopes| - 1]))
  }

  function EvalReturn(f: nat, t: Tree, st: St): Out
    decreases f, 4, 0
  {
    if t.kids == [] then Ok(VNone, st.(flags := st.flags.(returning := true, value := VNone)))
    else
      match Eval(f, Kid(t, 0), st)
      case Bad(e) => Bad(e)
      case Ok(v, st1) => Ok(v, st1.(flags := st1.flags.(returning := true, value := v)))
  }
}

/**
 What programs do before and after lowering.

 The source runs on a stack of name frames, and a statement may end normally, by `break`, by `return`,
 in a trap or in the error of a zero step.  The target runs on one flat store of slots and knows only normal
 completion and traps.  Both record the values printed.  Fuel is spent by loop iterations alone, so equal
 fuel means the same number of iterations on both sides.
 */
module HirSemantics {
  import opened Wrappers
  import opened Int64
  import opened HirSyntax

  datatype Value = Num(n: int) | Boolean(b: bool) | NilValue

  type Env = seq<map<string, Value>>
  type Store = map<nat, Value>
  type Trace = seq<seq<Value>>

  predicate Truthy(v: Value) { v != NilValue && v != Boolean(false) }

  // ----- Operators -----

  /** The strict operators; `None` is a trap. */
  function EvalStrict(op: BinOp, v: Value, w: Value): Option<Value> {
    if op.Eq? then Some(Boolean(v == w))
    else if op.Ne? then Some(Boolean(v != w))
    else if !v.Num? || !w.Num? then None
    else if op.Lt? then Some(Boolean(v.n < w.n))
    else if op.Le? then Some(Boolean(v.n <= w.n))
    else if op.Gt? then Some(Boolean(v.n > w.n))
    else if op.Ge? then Some(Boolean(v.n >= w.n))
    else if IsArith(op) then
      match Arith(op, v.n, w.n)
      case None => None
      case Some(n) => Some(Num(n))
    else None
  }

  /** `and`/`or` decide on the left operand whether the right one counts. */
  function EvalBin(op: BinOp, v: Value, w: Option<Value>): Option<Value> {
    if op.And? then (if Truthy(v) then w else Some(v))
    else if op.Or? then (if Truthy(v) then Some(v) else w)
    else match w
      case None => None
      case Some(x) => EvalStrict(op, v, x)
  }

  function EvalUnary(op: UnaryOp, v: Value): Option<Value> {
    match op
    case Not => Some(Boolean(!Truthy(v)))
    case Neg => if v.Num? then Some(Num(Wrap(-v.n))) else None
    case BitNot => if v.Num? then Some(Num(Wrap(-v.n - 1))) else None
  }

  // ----- Expressions -----

  function Eval(e: Expr, env: Env): Option<Value> {
    match e
    case Integer(i) => Some(Num(i))
    case Bool(b) => Some(Boolean(b))
    case Nil => Some(NilValue)
    // A name without a binding is a global, nil until assigned.
    case Ident(name) => Some(if Resolve(env, name).Some? then Resolve(env, name).value else NilValue)
    case BinOp(op, lhs, rhs) =>
      (match Eval(lhs, env)
       case None => None
       case Some(v) => EvalBin(op, v, Eval(rhs, env)))
    case UnaryOp(op, operand) =>
      match Eval(operand, env)
      case None => None
      case Some(v) => EvalUnary(op, v)
  }

  function Load(store: Store, id: nat): Value { if id in store then store[id] else NilValue }

  function HEval(h: HExpr, store: Store): Option<Value> {
    match h
    case HInteger(i) => Some(Num(i))
    case HBool(b) => Some(Boolean(b))
    case HNil => Some(NilValue)
    case HLocal(id) => Some(Load(store, id))
    case HBinOp(op, lhs, rhs) =>
      (match HEval(lhs, store)
       case None => None
       case Some(v) => EvalBin(op, v, HEval(rhs, store)))
    case HUnaryOp(op, operand) =>
      match HEval(operand, store)
      case None => None
      case Some(v) => EvalUnary(op, v)
  }

  function EvalAll(es: seq<Expr>, env: Env): (r: Option<seq<Value>>)
    ensures r.Some? ==> |r.value| == |es|
  {
    if es == [] then Some([])
    else match Eval(es[0], env)
      case None => None
      case Some(v) =>
        match EvalAll(es[1..], env)
        case None => None
        case Some(vs) => Some([v] + vs)
  }

  function HEvalAll(hs: seq<HExpr>, store: Store): (r: Option<seq<Value>>)
    ensures r.Some? ==> |r.value| == |hs|
  {
    if hs == [] then Some([])
    else match HEval(hs[0], store)
      case None => None
      case Some(v) =>
        match HEvalAll(hs[1..], store)
        case None => None
        case Some(vs) => Some([v] + vs)
  }

  // ----- The source -----

  /** `ZeroStep` is the error of a numeric loop whose step is zero (Lua 5.4, section 3.3.5). */
  datatype Outcome = Normal | Broke | Returned(values: seq<Value>) | Trapped | ZeroStep | OutOfFuel

  datatype Result = Result(out: Outcome, env: Env, trace: Trace)

  function BindAll(env: Env, names: seq<string>, values: seq<Value>): (r: Env)
    requires env != [] && |names| == |values|
    ensures |r| == |env|
    decreases |names|
  {
    if names == [] then env else BindAll(Bind(env, names[0], values[0]), names[1..], values[1..])
  }

  /** Assignment to the innermost binding of a name, or to a global, which the outermost frame holds. */
  function AssignName(env: Env, name: string, v: Value): (r: Env)
    requires env != []
    ensures |r| == |env|
  {
    if Resolve(env, name).Some? then Update(env, name, v) else BindBottom(env, name, v)
  }

  function AssignAll(env: Env, names: seq<string>, values: seq<Value>): (r: Env)
    requires env != [] && |names| == |values|
    ensures |r| == |env|
    decreases |names|
  {
    if names == [] then env else AssignAll(AssignName(env, names[0], values[0]), names[1..], values[1..])
  }

  /** A loop left by `break` is done. */
  function LoopEnd(r: Result): Result { if r.out.Broke? then r.(out := Normal) else r }

  /** Whether a numeric loop goes on: counting up for a positive step, down otherwise. */
  predicate ForGoesOn(i: int, stop: int, step: int) { if step > 0 then i <= stop else i >= stop }

  function Exec(fuel: nat, s: Stmt, env: Env, trace: Trace): (r: Result)
    requires env != []
    ensures |r.env| == |env|
    decreases fuel, s, 1
  {
    match s
    case Local(name, value) =>
      (match Eval(value, env)
       case None => Result(Trapped, env, trace)
       case Some(v) => Result(Normal, Bind(env, name, v), trace))
    case LocalMulti(names, values) =>
      (match EvalAll(values, env)
       case None => Result(Trapped, env, trace)
       case Some(vs) =>
         if |names| != |vs| then Result(Trapped, env, trace) else Result(Normal, BindAll(env, names, vs), trace))
    case Assign(name, value) =>
      (match Eval(value, env)
       case None => Result(Trapped, env, trace)
       case Some(v) => Result(Normal, AssignName(env, name, v), trace))
    case AssignMulti(names, values) =>
      (match EvalAll(values, env)
       case None => Result(Trapped, env, trace)
       case Some(vs) =>
         if |names| != |vs| then Result(Trapped, env, trace) else Result(Normal, AssignAll(env, names, vs), trace))
    case Block(body) => ExecBody(fuel, body, env, trace)
    case If(_, _) => ExecArms(fuel, s, 0, env, trace)
    case While(_, _) => LoopEnd(ExecWhile(fuel, s, env, trace))
    case Repeat(_, _) => LoopEnd(ExecRepeat(fuel, s, env, trace))
    case ForNumeric(_, _, _, _, _) => LoopEnd(ForRun(fuel, s, env, trace))
    case Break => Result(Broke, env, trace)
    case Return(values) =>
      (match EvalAll(values, env)
       case None => Result(Trapped, env, trace)
       case Some(vs) => Result(Returned(vs), env, trace))
    case Print(args) =>
      (match EvalAll(args, env)
       case None => Result(Trapped, env, trace)
       case Some(vs) => Result(Normal, env, trace + [vs]))
  }

  function ExecSeq(fuel: nat, ss: seq<Stmt>, env: Env, trace: Trace): (r: Result)
    requires env != []
    ensures |r.env| == |env|
    decreases fuel, ss, 0
  {
    if ss == [] then Result(Normal, env, trace)
    else
      var r := Exec(fuel, ss[0], env, trace);
      if r.out.Normal? then ExecSeq(fuel, ss[1..], r.env, r.trace) else r
  }

  /** A body in a scope of its own. */
  function ExecBody(fuel: nat, ss: seq<Stmt>, env: Env, trace: Trace): (r: Result)
    requires env != []
    ensures |r.env| == |env|
    decreases fuel, ss, 1
  {
    var r := ExecSeq(fuel, ss, Push(env), trace);
    r.(env := Pop(r.env))
  }

  /** The arms of an `if` from the `k`-th on. */
  function ExecArms(fuel: nat, s: Stmt, k: nat, env: Env, trace: Trace): (r: Result)
    requires env != [] && s.If? && k <= |s.arms|
    ensures |r.env| == |env|
    decreases fuel, s, 0, |s.arms| - k
  {
    if k == |s.arms| then ExecBody(fuel, s.elseBody, env, trace)
    else match Eval(s.arms[k].cond, env)
      case None => Result(Trapped, env, trace)
      case Some(v) =>
        if Truthy(v) then ExecBody(fuel, s.arms[k].body, env, trace)
        else ExecArms(fuel, s, k + 1, env, trace)
  }

  /** The iterations of a loop end in `Broke` when a `break` leaves it. */
  function ExecWhile(fuel: nat, s: Stmt, env: Env, trace: Trace): (r: Result)
    requires env != [] && s.While?
    ensures |r.env| == |env|
    decreases fuel, s, 0
  {
    match Eval(s.cond, env)
    case None => Result(Trapped, env, trace)
    case Some(v) =>
      if !Truthy(v) then Result(Normal, env, trace)
      else if fuel == 0 then Result(OutOfFuel, env, trace)
      else
        var r := ExecBody(fuel - 1, s.body, env, trace);
        if r.out.Normal? then ExecWhile(fuel - 1, s, r.env, r.trace) else r
  }

  /** The condition of `repeat` sees the names its body declares. */
  function ExecRepeat(fuel: nat, s: Stmt, env: Env, trace: Trace): (r: Result)
    requires env != [] && s.Repeat?
    ensures |r.env| == |env|
    decreases fuel, s, 0
  {
    if fuel == 0 then Result(OutOfFuel, env, trace)
    else
      var r := ExecSeq(fuel - 1, s.body, Push(env), trace);
      if !r.out.Normal? then r.(env := Pop(r.env))
      else match Eval(s.cond, r.env)
        case None => Result(Trapped, Pop(r.env), r.trace)
        case Some(v) =>
          if Truthy(v) then Result(Normal, Pop(r.env), r.trace)
          else ExecRepeat(fuel - 1, s, Pop(r.env), r.trace)
  }

  /** The bounds are evaluated once; a zero step is an error. */
  function ForRun(fuel: nat, s: Stmt, env: Env, trace: Trace): (r: Result)
    requires env != [] && s.ForNumeric?
    ensures |r.env| == |env|
    decreases fuel, s, 0, 1
  {
    match EvalAll(Bounds(s), env)
    case None => Result(Trapped, env, trace)
    case Some(vs) =>
      if !vs[0].Num? || !vs[1].Num? || !vs[2].Num? then Result(Trapped, env, trace)
      else if vs[2].n == 0 then Result(ZeroStep, env, trace)
      else ExecFor(fuel, s, vs[0].n, vs[1].n, vs[2].n, env, trace)
  }

  /** Each iteration has its own copy of the loop variable. */
  function ExecFor(fuel: nat, s: Stmt, i: int, stop: int, step: int, env: Env, trace: Trace): (r: Result)
    requires env != [] && s.ForNumeric?
    ensures |r.env| == |env|
    decreases fuel, s, 0, 0
  {
    if !ForGoesOn(i, stop, step) then Result(Normal, env, trace)
    else if fuel == 0 then Result(OutOfFuel, env, trace)
    else
      var r := ExecSeq(fuel - 1, s.body, Bind(Push(env), s.loopVar, Num(i)), trace);
      if r.out.Normal? then ExecFor(fuel - 1, s, i + step, stop, step, Pop(r.env), r.trace)
      else r.(env := Pop(r.env))
  }

  // ----- The target -----

  datatype HOutcome = HNormal | HTrapped | HOutOfFuel

  datatype HResult = HResult(out: HOutcome, store: Store, trace: Trace)

  predicate FlagSet(flag: Option<nat>, store: Store) {
    flag.Some? && Load(store, flag.value) == Boolean(true)
  }

  function HExec(fuel: nat, h: HStmt, store: Store, trace: Trace): HResult
    decreases fuel, h, 1
  {
    match h
    case HLocalInit(id, value) => HStore(id, value, store, trace)
    case HAssign(id, value) => HStore(id, value, store, trace)
    case HBlock(body) => HExecSeq(fuel, body, store, trace)
    case HIf(_, _) => HExecArms(fuel, h, 0, store, trace)
    case HWhile(_, _, _) => HExecWhile(fuel, h, store, trace)
    case HRepeat(_, _, _) => HExecRepeat(fuel, h, store, trace)
    case HFor(id, start, stop, step, _, _) =>
      (match HEvalAll([start, stop, step], store)
       case None => HResult(HTrapped, store, trace)
       case Some(vs) =>
         if !vs[0].Num? || !vs[1].Num? || !vs[2].Num? then HResult(HTrapped, store, trace)
         else HExecFor(fuel, h, vs[1].n, vs[2].n, store[id := vs[0]], trace))
    case HPrint(args) =>
      (match HEvalAll(args, store)
       case None => HResult(HTrapped, store, trace)
       case Some(vs) => HResult(HNormal, store, trace + [vs]))
  }

  function HStore(id: nat, value: HExpr, store: Store, trace: Trace): HResult {
    match HEval(value, store)
    case None => HResult(HTrapped, store, trace)
    case Some(v) => HResult(HNormal, store[id := v], trace)
  }

  function HExecSeq(fuel: nat, hs: seq<HStmt>, store: Store, trace: Trace): HResult
    decreases fuel, hs, 0
  {
    if hs == [] then HResult(HNormal, store, trace)
    else
      var r := HExec(fuel, hs[0], store, trace);
      if r.out.HNormal? then HExecSeq(fuel, hs[1..], r.store, r.trace) else r
  }

  function HExecArms(fuel: nat, h: HStmt, k: nat, store: Store, trace: Trace): HResult
    requires h.HIf? && k <= |h.arms|
    decreases fuel, h, 0, |h.arms| - k
  {
    if k == |h.arms| then HExecSeq(fuel, h.elseBody, store, trace)
    else match HEval(h.arms[k].cond, store)
      case None => HResult(HTrapped, store, trace)
      case Some(v) =>
        if Truthy(v) then HExecSeq(fuel, h.arms[k].body, store, trace)
        else HExecArms(fuel, h, k + 1, store, trace)
  }

  /** The condition is evaluated before the flag is consulted. */
  function HExecWhile(fuel: nat, h: HStmt, store: Store, trace: Trace): HResult
    requires h.HWhile?
    decreases fuel, h, 0
  {
    match HEval(h.cond, store)
    case None => HResult(HTrapped, store, trace)
    case Some(v) =>
      if !Truthy(v) || FlagSet(h.breakId, store) then HResult(HNormal, store, trace)
      else if fuel == 0 then HResult(HOutOfFuel, store, trace)
      else
        var r := HExecSeq(fuel - 1, h.body, store, trace);
        if r.out.HNormal? then HExecWhile(fuel - 1, h, r.store, r.trace) else r
  }

  function HExecRepeat(fuel: nat, h: HStmt, store: Store, trace: Trace): HResult
    requires h.HRepeat?
    decreases fuel, h, 0
  {
    if fuel == 0 then HResult(HOutOfFuel, store, trace)
    else
      var r := HExecSeq(fuel - 1, h.body, store, trace);
      if !r.out.HNormal? then r
      else match HEval(h.cond, r.store)
        case None => HResult(HTrapped, r.store, r.trace)
        case Some(v) =>
          if Truthy(v) || FlagSet(h.breakId, r.store) then r
          else HExecRepeat(fuel - 1, h, r.store, r.trace)
  }

  /** The counter lives in the loop variable's slot. */
  function HExecFor(fuel: nat, h: HStmt, stop: int, step: int, store: Store, trace: Trace): HResult
    requires h.HFor?
    decreases fuel, h, 0
  {
    var i := Load(store, h.varId);
    if !i.Num? then HResult(HTrapped, store, trace)
    else if !ForGoesOn(i.n, stop, step) || FlagSet(h.breakId, store) then HResult(HNormal, store, trace)
    else if fuel == 0 then HResult(HOutOfFuel, store, trace)
    else
      var r := HExecSeq(fuel - 1, h.body, store, trace);
      if !r.out.HNormal? then r
      else
        var j := Load(r.store, h.varId);
        if !j.Num? then HResult(HTrapped, r.store, r.trace)
        else HExecFor(fuel - 1, h, stop, step, r.store[h.varId := Num(j.n + step)], r.trace)
  }
}

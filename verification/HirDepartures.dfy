/**
 Programs whose code does something else: what `FragStmt` excludes, and the zero step.  Folded divisions and
 folded equalities are characterized exactly in `Int64` and `HirKinds`, and conditions behind a `break` in
 `HirConditions`; what concerns names is in `HirCaptures`.
 */
module HirDepartures {
  import opened Wrappers
  import opened Int64
  import opened HirSyntax
  import opened HirSemantics
  import opened HirLower
  import opened HirContext
  import opened HirKinds
  import opened HirRelation
  import opened HirSteps
  import opened HirSimulation
  import opened HirResults

  // ----- Unfolding short lists -----

  lemma LowerSeqCons(s: Stmt, rest: seq<Stmt>, c: Ctx, guard: Option<nat>)
    requires c.scopes != [] && LowerStmt(s, c).Ok? && LowerSeq(rest, LowerStmt(s, c).value.c, guard).Ok?
    ensures var a := LowerStmt(s, c).value;
            var b := LowerSeq(rest, a.c, guard).value;
            LowerSeq([s] + rest, c, guard) == Ok(LoweredSeq([WrapGuard(a.h, guard)] + b.hs, b.c))
  {
    assert ([s] + rest)[1..] == rest;
  }

  lemma LowerSeqOne(s: Stmt, c: Ctx, guard: Option<nat>)
    requires c.scopes != [] && LowerStmt(s, c).Ok?
    ensures var a := LowerStmt(s, c).value; LowerSeq([s], c, guard) == Ok(LoweredSeq([WrapGuard(a.h, guard)], a.c))
  {
    LowerSeqCons(s, [], c, guard);
    var a := LowerStmt(s, c).value;
    assert [s] + [] == [s] && [WrapGuard(a.h, guard)] + [] == [WrapGuard(a.h, guard)];
  }

  // ----- Departures -----

  /**
   A `do ... end` lowers its statements unguarded, so what follows a `break` there still runs:
   `do break; print(n) end` prints.
   */
  lemma BlockRunsOn(c: Ctx, n: I64, fuel: nat, env: Env, store: Store, trace: Trace)
    requires c.scopes != [] && Target(c).Some? && env != []
    ensures var s := Block([Break, Print([Integer(n)])]);
            && LowerStmt(s, c).Ok?
            && Exec(fuel, s, env, trace).trace == trace
            && HExec(fuel, LowerStmt(s, c).value.h, store, trace).trace == trace + [[Num(n)]]
  {
    var body := [Break, Print([Integer(n)])];
    var p, up := PushScope(c), HAssign(Target(c).value, HBool(true));
    var say := HPrint([HInteger(n)]);
    var next := store[Target(c).value := Boolean(true)];
    PrintsLiteral(n, p, next);
    LowerSeqOne(body[1], p, None);
    LowerSeqCons(body[0], [body[1]], p, None);
    assert body == [body[0]] + [body[1]];
    SeqAppend(fuel, [up], [say], store, trace);
    SingleRun(fuel, up, store, trace);
    SingleRun(fuel, say, next, trace);
    assert Exec(fuel, body[0], Push(env), trace).out.Broke?;
    assert ExecSeq(fuel, body, Push(env), trace).trace == trace;
  }

  lemma PrintsLiteral(n: I64, c: Ctx, store: Store)
    requires c.scopes != []
    ensures LowerStmt(Print([Integer(n)]), c) == Ok(Lowered(HPrint([HInteger(n)]), c))
    ensures HEvalAll([HInteger(n)], store) == Some([Num(n)])
  {
    assert LowerExprs([Integer(n)][1..], c) == Ok([]) && HEvalAll([HInteger(n)][1..], store) == Some([]);
    assert [HInteger(n)] + [] == [HInteger(n)] && [Num(n)] + [] == [Num(n)];
  }

  /** A `return` raises the function's flag only, which no loop consults: `while true do return end` never ends. */
  lemma {:induction false} ReturnLoopsOn(c: Ctx, fuel: nat, env: Env, store: Store, trace: Trace)
    requires c.scopes != [] && c.fn.Some? && env != [] && fuel > 0
    requires c.retKinds.Some? ==> c.retKinds.value == []
    ensures var s := While(Bool(true), [Return([])]);
            && LowerStmt(s, c).Ok?
            && Exec(fuel, s, env, trace) == Result(Returned([]), env, trace)
            && HExec(fuel, LowerStmt(s, c).value.h, store, trace).out.HOutOfFuel?
  {
    var s, body := While(Bool(true), [Return([])]), [Return([])];
    ReturnBody(PushScope(EnterLoop(c, body)));
    assert LowerBody(body, EnterLoop(c, body)).Ok?;
    EndlessRun(fuel, c.fn.value, store, trace);
    ReturnsAtOnce(fuel, env, trace);
  }

  lemma ReturnBody(p: Ctx)
    requires p.scopes != [] && p.fn.Some? && (p.retKinds.Some? ==> p.retKinds.value == [])
    ensures !BodyContainsBreak([Return([])])
    ensures LowerSeq([Return([])], p, None).Ok? && LowerSeq([Return([])], p, None).value.hs == [ReturnCode(p.fn.value, [])]
  {
    assert LowerExprs([], p) == Ok([]) && Kinds([], p.locals) == [];
    assert LowerStmt(Return([]), p).Ok? && LowerStmt(Return([]), p).value.h == ReturnCode(p.fn.value, []);
    LowerSeqOne(Return([]), p, None);
  }

  lemma ReturnsAtOnce(fuel: nat, env: Env, trace: Trace)
    requires env != [] && fuel > 0
    ensures Exec(fuel, While(Bool(true), [Return([])]), env, trace) == Result(Returned([]), env, trace)
  {
    var body := [Return([])];
    assert ExecSeq(fuel - 1, body, Push(env), trace) == Result(Returned([]), Push(env), trace);
    assert ExecBody(fuel - 1, body, env, trace) == Result(Returned([]), env, trace);
  }

  lemma {:induction false} EndlessRun(fuel: nat, slots: FnSlots, store: Store, trace: Trace)
    ensures HExecWhile(fuel, HWhile(HBool(true), [ReturnCode(slots, [])], None), store, trace).out.HOutOfFuel?
  {
    if fuel > 0 {
      var code := RetAssigns(slots.rets, []) + [HAssign(slots.returned, HBool(true))];
      assert code == [HAssign(slots.returned, HBool(true))];
      SingleRun(fuel - 1, code[0], store, trace);
      SingleRun(fuel - 1, ReturnCode(slots, []), store, trace);
      EndlessRun(fuel - 1, slots, store[slots.returned := Boolean(true)], trace);
    }
  }

  /**
   Nor does a numeric loop: `for v = a, b do return v end` returns `a`, and its code goes on to leave `b` in the
   result slot.
   */
  lemma ForReturnsLast(c: Ctx, v: string, a: I64, b: I64, fuel: nat, env: Env, store: Store, trace: Trace)
    requires WF(c) && c.fn.Some? && |c.fn.value.rets| == 1 && c.retKinds.None? && env != []
    requires a <= b && fuel > b - a
    ensures var s := ForNumeric(v, Integer(a), Integer(b), None, [Return([Ident(v)])]);
            && LowerStmt(s, c).Ok?
            && Exec(fuel, s, env, trace) == Result(Returned([Num(a)]), env, trace)
            && var q := HExec(fuel, LowerStmt(s, c).value.h, store, trace);
               && q.out.HNormal? && q.trace == trace
               && Load(q.store, c.fn.value.rets[0]) == Num(b) && Load(q.store, c.fn.value.returned) == Boolean(true)
  {
    var s := ForNumeric(v, Integer(a), Integer(b), None, [Return([Ident(v)])]);
    var slots, id := c.fn.value, |c.locals|;
    var code := [ReturnCode(slots, [HLocal(id)])];
    ForReturnLowers(c, s);
    ForReturnsFirst(fuel, s, env, trace);
    assert slots.returned in Hidden(c) && slots.rets[0] in Hidden(c);
    LiteralBounds(a, b, 1, c, env, store);
    var h := HFor(id, HInteger(a), HInteger(b), HInteger(1), code, None);
    ForReturnsRun(fuel, h, a, b, slots, store[id := Num(a)], trace);
  }

  /** Three literals, as the bounds of a numeric loop. */
  lemma LiteralBounds(i: I64, j: I64, k: I64, c: Ctx, env: Env, store: Store)
    ensures var es, hs := [Integer(i), Integer(j), Integer(k)], [HInteger(i), HInteger(j), HInteger(k)];
            && LowerExprs(es, c) == Ok(hs)
            && EvalAll(es, env) == Some([Num(i), Num(j), Num(k)]) && HEvalAll(hs, store) == Some([Num(i), Num(j), Num(k)])
  {
    LiteralsNext(k, [], [], [], c, env, store);
    LiteralsNext(j, [Integer(k)], [HInteger(k)], [Num(k)], c, env, store);
    var es, hs, vs := [Integer(j), Integer(k)], [HInteger(j), HInteger(k)], [Num(j), Num(k)];
    assert es == [Integer(j)] + [Integer(k)] && hs == [HInteger(j)] + [HInteger(k)] && vs == [Num(j)] + [Num(k)];
    LiteralsNext(i, es, hs, vs, c, env, store);
    assert [Integer(i)] + es == [Integer(i), Integer(j), Integer(k)];
    assert [HInteger(i)] + hs == [HInteger(i), HInteger(j), HInteger(k)];
    assert [Num(i)] + vs == [Num(i), Num(j), Num(k)];
  }

  lemma LiteralsNext(i: I64, es: seq<Expr>, hs: seq<HExpr>, vs: seq<Value>, c: Ctx, env: Env, store: Store)
    requires LowerExprs(es, c) == Ok(hs) && EvalAll(es, env) == Some(vs) && HEvalAll(hs, store) == Some(vs)
    ensures LowerExprs([Integer(i)] + es, c) == Ok([HInteger(i)] + hs)
    ensures EvalAll([Integer(i)] + es, env) == Some([Num(i)] + vs)
    ensures HEvalAll([HInteger(i)] + hs, store) == Some([Num(i)] + vs)
    ensures vs == [] ==> [Integer(i)] + es == [Integer(i)] && [HInteger(i)] + hs == [HInteger(i)] && [Num(i)] + vs == [Num(i)]
  {
    assert ([Integer(i)] + es)[1..] == es && ([HInteger(i)] + hs)[1..] == hs;
  }

  lemma ForReturnLowers(c: Ctx, s: Stmt)
    requires c.scopes != [] && c.fn.Some? && |c.fn.value.rets| == 1 && c.retKinds.None?
    requires s.ForNumeric? && s.start.Integer? && s.stop.Integer? && s.step.None? && s.body == [Return([Ident(s.loopVar)])]
    ensures LowerStmt(s, c).Ok?
    ensures LowerStmt(s, c).value.h
         == HFor(|c.locals|, HInteger(s.start.i), HInteger(s.stop.i), HInteger(1),
                 [ReturnCode(c.fn.value, [HLocal(|c.locals|)])], None)
  {
    var c1 := EnterLoop(c, s.body);
    var p, value := EnterFor(c1, s.loopVar), Ident(s.loopVar);
    var hs := [HInteger(s.start.i), HInteger(s.stop.i), HInteger(1)];
    assert !BodyContainsBreak(s.body) && c1.locals == c.locals && Target(c1) == None;
    LiteralBounds(s.start.i, s.stop.i, 1, c, [], map[]);
    assert Kinds(hs, c.locals) == [NumberKind, NumberKind, NumberKind];
    ReturnLowers(p, value, |c.locals|);
    LowerSeqOne(Return([value]), p, None);
  }

  lemma ReturnLowers(p: Ctx, value: Expr, id: nat)
    requires p.scopes != [] && p.fn.Some? && |p.fn.value.rets| == 1 && p.retKinds.None?
    requires LowerExpr(value, p) == Ok(HLocal(id))
    ensures LowerStmt(Return([value]), p).Ok?
    ensures LowerStmt(Return([value]), p).value.h == ReturnCode(p.fn.value, [HLocal(id)])
  {
    assert LowerExprs([value][1..], p) == Ok([]) && [HLocal(id)] + [] == [HLocal(id)];
    assert LowerExprs([value], p) == Ok([HLocal(id)]);
  }

  lemma ForReturnsFirst(fuel: nat, s: Stmt, env: Env, trace: Trace)
    requires env != [] && fuel > 0
    requires s.ForNumeric? && s.start.Integer? && s.stop.Integer? && s.step.None? && s.body == [Return([Ident(s.loopVar)])]
    requires s.start.i <= s.stop.i
    ensures Exec(fuel, s, env, trace) == Result(Returned([Num(s.start.i)]), env, trace)
  {
    var value := Ident(s.loopVar);
    var inner := Bind(Push(env), s.loopVar, Num(s.start.i));
    LiteralBounds(s.start.i, s.stop.i, 1, EMPTY_CTX, env, map[]);
    assert [value][1..] == [] && [Num(s.start.i)] + [] == [Num(s.start.i)] && Eval(value, inner) == Some(Num(s.start.i));
    assert EvalAll([value], inner) == Some([Num(s.start.i)]);
    assert ExecSeq(fuel - 1, s.body, inner, trace) == Result(Returned([Num(s.start.i)]), inner, trace);
    assert Pop(inner) == env;
    assert ExecFor(fuel, s, s.start.i, s.stop.i, 1, env, trace) == Result(Returned([Num(s.start.i)]), env, trace);
  }

  lemma {:induction false} ForReturnsRun(fuel: nat, h: HStmt, i: int, stop: int, slots: FnSlots, store: Store, trace: Trace)
    requires h.HFor? && h.body == [ReturnCode(slots, [HLocal(h.varId)])] && h.breakId.None?
    requires |slots.rets| == 1 && slots.returned != slots.rets[0] && slots.returned != h.varId && slots.rets[0] != h.varId
    requires i <= stop && fuel > stop - i && Load(store, h.varId) == Num(i)
    ensures var q := HExecFor(fuel, h, stop, 1, store, trace);
            && q.out.HNormal? && q.trace == trace
            && Load(q.store, slots.rets[0]) == Num(stop) && Load(q.store, slots.returned) == Boolean(true)
    decreases stop - i
  {
    var next := store[slots.rets[0] := Num(i)][slots.returned := Boolean(true)];
    ReturnCodeRuns(fuel - 1, slots, h.varId, store, trace);
    SingleRun(fuel - 1, h.body[0], store, trace);
    if i < stop {
      ForReturnsRun(fuel - 1, h, i + 1, stop, slots, next[h.varId := Num(i + 1)], trace);
    }
  }

  lemma ReturnCodeRuns(fuel: nat, slots: FnSlots, id: nat, store: Store, trace: Trace)
    requires |slots.rets| == 1
    ensures HExec(fuel, ReturnCode(slots, [HLocal(id)]), store, trace)
         == HResult(HNormal, store[slots.rets[0] := Load(store, id)][slots.returned := Boolean(true)], trace)
  {
    var first, last := HAssign(slots.rets[0], HLocal(id)), HAssign(slots.returned, HBool(true));
    assert RetAssigns(slots.rets[1..], [HLocal(id)][1..]) == [];
    assert RetAssigns(slots.rets, [HLocal(id)]) == [first];
    SeqAppend(fuel, [first], [last], store, trace);
    SingleRun(fuel, first, store, trace);
    SingleRun(fuel, last, store[slots.rets[0] := Load(store, id)], trace);
  }

  /** Outside every loop, a function body lowers `break` to raising its own `_returned` flag. */
  lemma BreakReturns(c: Ctx, fuel: nat, env: Env, store: Store, trace: Trace)
    requires c.scopes != [] && c.fn.Some? && c.targets == [Some(c.fn.value.returned)] && env != []
    ensures LowerStmt(Break, c).Ok? && Exec(fuel, Break, env, trace).out.Broke?
    ensures Load(HExec(fuel, LowerStmt(Break, c).value.h, store, trace).store, c.fn.value.returned) == Boolean(true)
  {}

  /**
   A numeric loop with step zero is an error in Lua, whatever its body.  Its code counts down by zero: it
   ends at once if the start is below the limit, and otherwise only by a `break`.
   */
  lemma ZeroStepRuns(
      s: Stmt, c: Ctx, i: int, stop: int, fuel: nat, env: Env, store: Store, trace: Trace)
    requires WF(c) && UserStmt(s) && s.ForNumeric? && LowerStmt(s, c).Ok? && env != []
    requires EvalAll(Bounds(s), env) == Some([Num(i), Num(stop), Num(0)])
    requires HEvalAll(LowerExprs(Bounds(s), c).value, store) == Some([Num(i), Num(stop), Num(0)])
    ensures Exec(fuel, s, env, trace) == Result(ZeroStep, env, trace)
    ensures var q := HExec(fuel, LowerStmt(s, c).value.h, store, trace);
            && (i < stop ==> q.out.HNormal? && q.trace == trace)
            && (i >= stop && q.out.HNormal? ==> BodyContainsBreak(s.body) && Load(q.store, |c.locals|) == Boolean(true))
  {
    ZeroStepSource(fuel, s, i, stop, env, trace);
    var h, p := LoweredFor(s, c);
    BoundsCleared(s, c, store);
    ZeroStepCode(fuel, h, i, stop, p, store, trace);
    LoopFlag(c, s.body);
  }

  lemma ZeroStepSource(fuel: nat, s: Stmt, i: int, stop: int, env: Env, trace: Trace)
    requires s.ForNumeric? && env != [] && EvalAll(Bounds(s), env) == Some([Num(i), Num(stop), Num(0)])
    ensures Exec(fuel, s, env, trace) == Result(ZeroStep, env, trace)
  {}

  lemma ZeroStepCode(fuel: nat, h: HStmt, i: int, stop: int, p: Ctx, store: Store, trace: Trace)
    requires h.HFor? && AllowedStmts(h.body, p, [], false) && Spared(p, h.varId)
    requires HEvalAll([h.start, h.stop, h.step], Cleared(h.breakId, store)) == Some([Num(i), Num(stop), Num(0)])
    ensures var q := HExec(fuel, WrapInit(h, h.breakId), store, trace);
            && (i < stop ==> q.out.HNormal? && q.trace == trace)
            && (i >= stop && q.out.HNormal? ==> FlagSet(h.breakId, q.store))
  {
    var mid := Cleared(h.breakId, store);
    WrapInitRuns(fuel, h, h.breakId, store, trace);
    CountsByZero(fuel, h, i, stop, p, mid[h.varId := Num(i)], trace);
  }

  /** A loop has a flag, the first slot it declares, only if its body breaks. */
  lemma LoopFlag(c: Ctx, body: seq<Stmt>)
    requires c.scopes != []
    ensures var flag := Target(EnterLoop(c, body));
            flag.Some? ==> flag.value == |c.locals| && BodyContainsBreak(body)
  {}

  /** The loop inside the code of a numeric `for`, and the context of its body, which spares the counter. */
  lemma LoweredFor(s: Stmt, c: Ctx) returns (h: HStmt, p: Ctx)
    requires WF(c) && UserStmt(s) && s.ForNumeric? && LowerStmt(s, c).Ok?
    ensures h.HFor? && h.breakId == Target(EnterLoop(c, s.body))
    ensures LowerStmt(s, c).value.h == WrapInit(h, h.breakId)
    ensures [h.start, h.stop, h.step] == LowerExprs(Bounds(s), c).value
    ensures AllowedStmts(h.body, p, [], false) && Spared(p, h.varId)
  {
    var hs, c1 := LowerExprs(Bounds(s), c).value, EnterLoop(c, s.body);
    p := EnterFor(c1, s.loopVar);
    var b := LowerSeq(s.body, p, Target(c1)).value;
    h := HFor(|c1.locals|, hs[0], hs[1], hs[2], b.hs, Target(c1));
    EnterLoopWF(c, s.body);
    ForBodyAllowed(s, c1);
  }

  lemma ForBodyAllowed(s: Stmt, c1: Ctx)
    requires WF(c1) && UserStmt(s) && s.ForNumeric?
    requires LowerSeq(s.body, EnterFor(c1, s.loopVar), Target(c1)).Ok?
    ensures var p := EnterFor(c1, s.loopVar);
            && AllowedStmts(LowerSeq(s.body, p, Target(c1)).value.hs, p, [], false) && Spared(p, |c1.locals|)
  {
    var p := EnterFor(c1, s.loopVar);
    CounterSpared(c1, s.loopVar);
    SeqAllowed(s.body, p, Target(c1), [], false);
  }

  lemma CounterSpared(c: Ctx, v: string)
    requires WF(c) && UserName(v)
    ensures WF(EnterFor(c, v)) && Spared(EnterFor(c, v), |c.locals|)
  {
    EnterForWF(c, v);
    assert Flags(EnterFor(c, v)) == Flags(c) && Hidden(EnterFor(c, v)) == Hidden(c);
    assert |c.locals| !in Hidden(c);
  }

  /** Clearing the flag does not change the bounds. */
  lemma BoundsCleared(s: Stmt, c: Ctx, store: Store)
    requires WF(c) && UserStmt(s) && s.ForNumeric? && LowerStmt(s, c).Ok?
    ensures HEvalAll(LowerExprs(Bounds(s), c).value, Cleared(Target(EnterLoop(c, s.body)), store))
         == HEvalAll(LowerExprs(Bounds(s), c).value, store)
  {
    var hs := LowerExprs(Bounds(s), c).value;
    EnterLoopWF(c, s.body);
    LowerExprsKinded(Bounds(s), c);
    EvalAllBelow(hs, c.locals, RetSet(c), store, Cleared(Target(EnterLoop(c, s.body)), store));
  }

  lemma {:induction false} CountsByZero(
      fuel: nat, h: HStmt, i: int, stop: int, p: Ctx, store: Store, trace: Trace)
    requires h.HFor? && AllowedStmts(h.body, p, [], false) && Spared(p, h.varId) && Load(store, h.varId) == Num(i)
    ensures var q := HExecFor(fuel, h, stop, 0, store, trace);
            && (i < stop ==> q.out.HNormal? && q.trace == trace)
            && (i >= stop && q.out.HNormal? ==> FlagSet(h.breakId, q.store))
    decreases fuel
  {
    if i >= stop && fuel > 0 && !FlagSet(h.breakId, store) {
      var q := HExecSeq(fuel - 1, h.body, store, trace);
      SeqSpares(fuel - 1, h.body, p, [], false, h.varId, store, trace);
      CountsByZero(fuel - 1, h, i, stop, p, q.store[h.varId := Num(i)], q.trace);
    }
  }

  // ----- Folded divisions -----

  /** `7 // (0 - 2)`: the lowering folds the divisor first and then the division, with the wrong rounding. */
  const MISFOLDED := BinOp(FloorDivide, Integer(7), BinOp(Sub, Integer(0), Integer(2)))

  /** `7 // -2`: a negated literal is an operator, which is not folded. */
  const NEGATED := BinOp(FloorDivide, Integer(7), UnaryOp(Neg, Integer(2)))

  lemma MisfoldExample(c: Ctx, env: Env, store: Store)
    ensures LowerExpr(MISFOLDED, c) == Ok(HInteger(-3)) && Eval(MISFOLDED, env) == Some(Num(-4))
    ensures LowerExpr(NEGATED, c) == Ok(HBinOp(FloorDivide, HInteger(7), HUnaryOp(Neg, HInteger(2))))
    ensures HEval(LowerExpr(NEGATED, c).value, store) == Eval(NEGATED, env) == Some(Num(-4))
  {
    FoldedQuotient();
    var two, minus := Integer(2), BinOp(Sub, Integer(0), Integer(2));
    assert LowerExpr(Integer(7), c) == Ok(HInteger(7)) && LowerExpr(two, c) == Ok(HInteger(2));
    assert LowerExpr(Integer(0), c) == Ok(HInteger(0)) && LowerExpr(minus, c) == Ok(HInteger(-2));
    assert Eval(Integer(0), env) == Some(Num(0)) && Eval(two, env) == Some(Num(2));
    assert Eval(minus, env) == Some(Num(-2)) && Eval(Integer(7), env) == Some(Num(7));
    assert LowerExpr(UnaryOp(Neg, two), c) == Ok(HUnaryOp(Neg, HInteger(2)));
    assert HEval(HInteger(2), store) == Some(Num(2)) && HEval(HUnaryOp(Neg, HInteger(2)), store) == Some(Num(-2));
    assert Eval(UnaryOp(Neg, two), env) == Some(Num(-2)) && HEval(HInteger(7), store) == Some(Num(7));
  }

  lemma FoldedQuotient()
    ensures FoldInt(FloorDivide, 7, -2) == Folded(-3) && Arith(FloorDivide, 7, -2) == Some(-4)
    ensures FoldInt(Sub, 0, 2) == Folded(-2) && Arith(Sub, 0, 2) == Some(-2) && Wrap(-2) == -2
  {
    assert 7 / -2 == -3;
    assert -7 / 2 == -4;
  }
}

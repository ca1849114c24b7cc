/**
 Names and results whose code does something else.  The lowering declares slots of its own under names a
 program may use, and declares unknown names when it meets an assignment to them; and it reserves no result
 slots for the returns of a `repeat`.
 */
module HirCaptures {
  import opened Wrappers
  import opened Int64
  import opened Numerals
  import opened HirSyntax
  import opened HirSemantics
  import opened HirLower
  import opened HirKinds
  import opened HirRelation
  import opened HirSteps
  import opened HirSimulation
  import opened HirFunctions
  import opened HirDepartures

  /** The names the lowering makes up, spelled out. */
  lemma SyntheticNames()
    ensures BROKEN_PREFIX + Decimal(0) == "_broken_0" && TMP_PREFIX + Decimal(12) == "_multi_tmp_12"
    ensures RET_PREFIX + Decimal(3) == "_ret_value_3" && RETURNED_NAME == "_returned"
  {
    assert Decimal(0) == "0" && Decimal(3) == "3" && Decimal(12) == Decimal(1) + "2" && Decimal(1) == "1";
  }

  /** `print(name)`, where `name` stands for slot `id`. */
  lemma PrintLowered(name: string, c: Ctx, id: nat)
    requires c.scopes != [] && Resolve<nat>(c.scopes, name) == Some(id)
    ensures LowerStmt(Print([Ident(name)]), c) == Ok(Lowered(HPrint([HLocal(id)]), c))
  {
    assert LowerExprs([Ident(name)][1..], c) == Ok([]);
    assert [HLocal(id)] + [] == [HLocal(id)];
  }

  lemma PrintRuns(name: string, id: nat, fuel: nat, env: Env, store: Store, trace: Trace)
    requires env != []
    ensures Exec(fuel, Print([Ident(name)]), env, trace) == Result(Normal, env, trace + [[Eval(Ident(name), env).value]])
    ensures HExec(fuel, HPrint([HLocal(id)]), store, trace) == HResult(HNormal, store, trace + [[Load(store, id)]])
  {
    assert EvalAll([Ident(name)][1..], env) == Some([]) && HEvalAll([HLocal(id)][1..], store) == Some([]);
    assert [Eval(Ident(name), env).value] + [] == [Eval(Ident(name), env).value];
    assert HEval(HLocal(id), store) == Some(Load(store, id)) && [Load(store, id)] + [] == [Load(store, id)];
  }

  // ----- The flag of a loop -----

  /**
   In a loop that breaks, a variable spelled like the flag is the flag, whatever it is outside:
   `while true do print(_broken_N); break end` prints false.
   */
  lemma FlagCapturesName(c: Ctx, fuel: nat, env: Env, store: Store, trace: Trace)
    requires c.scopes != [] && env != [] && fuel > 0
    ensures var name := BROKEN_PREFIX + Decimal(|c.locals|);
            var s := While(Bool(true), [Print([Ident(name)]), Break]);
            && LowerStmt(s, c).Ok?
            && Exec(fuel, s, env, trace) == Result(Normal, env, trace + [[Eval(Ident(name), env).value]])
            && HExec(fuel, LowerStmt(s, c).value.h, store, trace).trace == trace + [[Boolean(false)]]
  {
    var name := BROKEN_PREFIX + Decimal(|c.locals|);
    var body, flag := [Print([Ident(name)]), Break], |c.locals|;
    var code := [WrapGuard(HPrint([HLocal(flag)]), Some(flag)), WrapGuard(HAssign(flag, HBool(true)), Some(flag))];
    FlagPrintLowered(c, body, code);
    FlagPrintRuns(name, flag, code, fuel, env, store, trace);
  }

  lemma FlagPrintLowered(c: Ctx, body: seq<Stmt>, code: seq<HStmt>)
    requires c.scopes != [] && body == [Print([Ident(BROKEN_PREFIX + Decimal(|c.locals|))]), Break]
    requires code == [WrapGuard(HPrint([HLocal(|c.locals|)]), Some(|c.locals|)),
                      WrapGuard(HAssign(|c.locals|, HBool(true)), Some(|c.locals|))]
    ensures LowerStmt(While(Bool(true), body), c).Ok?
    ensures LowerStmt(While(Bool(true), body), c).value.h
         == WrapInit(HWhile(HBool(true), code, Some(|c.locals|)), Some(|c.locals|))
  {
    var name, flag := BROKEN_PREFIX + Decimal(|c.locals|), |c.locals|;
    assert ContainsBreak(body[1]);
    var c1 := EnterLoop(c, body);
    var p := PushScope(c1);
    assert Resolve<nat>(c1.scopes, name) == Some(flag);
    assert p.scopes[..|p.scopes| - 1] == c1.scopes;
    PrintLowered(name, p, flag);
    LowerSeqOne(body[1], p, Some(flag));
    LowerSeqCons(body[0], [body[1]], p, Some(flag));
    assert body == [body[0]] + [body[1]] && code == [code[0]] + [code[1]];
    assert LowerBody(body, c1).Ok? && LowerBody(body, c1).value.hs == code;
  }

  lemma FlagPrintRuns(
      name: string, flag: nat, code: seq<HStmt>, fuel: nat, env: Env, store: Store, trace: Trace)
    requires env != [] && fuel > 0
    requires code == [WrapGuard(HPrint([HLocal(flag)]), Some(flag)), WrapGuard(HAssign(flag, HBool(true)), Some(flag))]
    ensures Exec(fuel, While(Bool(true), [Print([Ident(name)]), Break]), env, trace)
         == Result(Normal, env, trace + [[Eval(Ident(name), env).value]])
    ensures HExec(fuel, WrapInit(HWhile(HBool(true), code, Some(flag)), Some(flag)), store, trace).trace
         == trace + [[Boolean(false)]]
  {
    var loop := HWhile(HBool(true), code, Some(flag));
    var down, said := store[flag := Boolean(false)], trace + [[Boolean(false)]];
    WrapInitRuns(fuel, loop, Some(flag), store, trace);
    FlagPrintRound(flag, code, fuel - 1, down, trace);
    var up := down[flag := Boolean(true)];
    assert HExecWhile(fuel - 1, loop, up, said) == HResult(HNormal, up, said);
    PrintThenBreak(name, fuel, env, trace);
  }

  lemma FlagPrintRound(flag: nat, code: seq<HStmt>, fuel: nat, down: Store, trace: Trace)
    requires code == [WrapGuard(HPrint([HLocal(flag)]), Some(flag)), WrapGuard(HAssign(flag, HBool(true)), Some(flag))]
    requires Load(down, flag) == Boolean(false)
    ensures HExecSeq(fuel, code, down, trace)
         == HResult(HNormal, down[flag := Boolean(true)], trace + [[Boolean(false)]])
  {
    var said := trace + [[Boolean(false)]];
    PrintRuns("", flag, fuel, [map[]], down, trace);
    GuardRuns(fuel, HPrint([HLocal(flag)]), Some(flag), down, trace);
    GuardRuns(fuel, HAssign(flag, HBool(true)), Some(flag), down, said);
    SingleRun(fuel, code[0], down, trace);
    SingleRun(fuel, code[1], down, said);
    SeqAppend(fuel, [code[0]], [code[1]], down, trace);
    assert code == [code[0]] + [code[1]];
  }

  lemma PrintThenBreak(name: string, fuel: nat, env: Env, trace: Trace)
    requires env != [] && fuel > 0
    ensures Exec(fuel, While(Bool(true), [Print([Ident(name)]), Break]), env, trace)
         == Result(Normal, env, trace + [[Eval(Ident(name), env).value]])
  {
    var body, inner := [Print([Ident(name)]), Break], Push(env);
    var said := trace + [[Eval(Ident(name), env).value]];
    PrintRuns(name, 0, fuel - 1, inner, map[], trace);
    assert inner[..|inner| - 1] == env;
    assert Resolve(inner, name) == Resolve(env, name);
    assert body[1..] == [Break];
    assert ExecSeq(fuel - 1, body[1..], inner, said) == Result(Broke, inner, said);
    assert ExecSeq(fuel - 1, body, inner, trace) == Result(Broke, inner, said);
    assert ExecBody(fuel - 1, body, env, trace) == Result(Broke, env, said);
    assert ExecWhile(fuel, While(Bool(true), body), env, trace) == Result(Broke, env, said);
  }

  // ----- Temporaries -----

  const TEMP := TMP_PREFIX + Decimal(2)

  /** Slot 0 is `x`, and slot 1 a variable spelled like the next temporary. */
  const TEMP_CTX := EMPTY_CTX.(
    locals := [LocalInfo("x", NumberKind), LocalInfo(TEMP, NumberKind)], scopes := [map["x" := 0, TEMP := 1]])

  const TEMP_CHUNK := [AssignMulti(["x", "x"], [Integer(1), Integer(2)]), Print([Ident(TEMP)])]

  const TEMP_CODE := [
    HBlock([HLocalInit(2, HInteger(1)), HLocalInit(3, HInteger(2)), HAssign(0, HLocal(2)), HAssign(0, HLocal(3))]),
    HPrint([HLocal(2)])]

  /**
   Behind a parallel assignment, a variable spelled like one of its temporaries is that temporary:
   `x, x = 1, 2; print(_multi_tmp_2)` prints 1.
   */
  lemma TemporaryCapturesName(v: Value, fuel: nat, store: Store, trace: Trace)
    ensures LowerSeq(TEMP_CHUNK, TEMP_CTX, None).Ok? && LowerSeq(TEMP_CHUNK, TEMP_CTX, None).value.hs == TEMP_CODE
    ensures ExecSeq(fuel, TEMP_CHUNK, [map["x" := Num(0), TEMP := v]], trace).trace == trace + [[v]]
    ensures HExecSeq(fuel, TEMP_CODE, store, trace).trace == trace + [[Num(1)]]
  {
    TempLowered();
    TempSource(v, fuel, trace);
    TempCode(fuel, store, trace);
  }

  lemma TempNames()
    ensures TEMP != TMP_PREFIX + Decimal(3) && "x" != TEMP && "x" != TMP_PREFIX + Decimal(3)
  {
    DecimalValue(2);
    DecimalValue(3);
    assert TEMP[|TMP_PREFIX|..] == Decimal(2) && (TMP_PREFIX + Decimal(3))[|TMP_PREFIX|..] == Decimal(3);
    assert TEMP[0] == '_' && (TMP_PREFIX + Decimal(3))[0] == '_';
  }

  lemma TwoLiterals(c: Ctx, env: Env)
    ensures LowerExprs([Integer(1), Integer(2)], c) == Ok([HInteger(1), HInteger(2)])
    ensures EvalAll([Integer(1), Integer(2)], env) == Some([Num(1), Num(2)])
  {
    var es := [Integer(1), Integer(2)];
    assert es[1..] == [Integer(2)] && [Integer(2)][1..] == [];
    assert LowerExprs([], c) == Ok([]) && EvalAll([], env) == Some([]);
    assert [HInteger(2)] + [] == [HInteger(2)] && [Num(2)] + [] == [Num(2)];
    assert LowerExprs([Integer(2)], c) == Ok([HInteger(2)]) && EvalAll([Integer(2)], env) == Some([Num(2)]);
    assert [HInteger(1)] + [HInteger(2)] == [HInteger(1), HInteger(2)] && [Num(1)] + [Num(2)] == [Num(1), Num(2)];
  }

  lemma TempLowered()
    ensures LowerSeq(TEMP_CHUNK, TEMP_CTX, None).Ok? && LowerSeq(TEMP_CHUNK, TEMP_CTX, None).value.hs == TEMP_CODE
  {
    var c, s := TEMP_CTX, TEMP_CHUNK[0];
    var hs := [HInteger(1), HInteger(2)];
    TwoLiterals(c, []);
    var d := TempContext(hs);
    assert s.names[1..] == ["x"] && s.names[1..][1..] == [];
    assert LowerAssignTarget("x", HLocal(2), d) == Ok(Lowered(HAssign(0, HLocal(2)), d));
    assert LowerAssignTarget("x", HLocal(3), d) == Ok(Lowered(HAssign(0, HLocal(3)), d));
    assert LowerTargets([], 4, d) == Ok(LoweredSeq([], d)) && [HAssign(0, HLocal(3))] + [] == [HAssign(0, HLocal(3))];
    assert LowerTargets(s.names[1..], 3, d) == Ok(LoweredSeq([HAssign(0, HLocal(3))], d));
    var moves := [HAssign(0, HLocal(2))] + [HAssign(0, HLocal(3))];
    assert LowerTargets(s.names, 2, d) == Ok(LoweredSeq(moves, d));
    assert Inits(hs, 2) == [HLocalInit(2, HInteger(1)), HLocalInit(3, HInteger(2))];
    assert Inits(hs, 2) + moves == TEMP_CODE[0].body;
    assert LowerStmt(s, c) == Ok(Lowered(TEMP_CODE[0], d));
    PrintLowered(TEMP, d, 2);
    LowerSeqOne(TEMP_CHUNK[1], d, None);
    LowerSeqCons(s, [TEMP_CHUNK[1]], c, None);
    assert TEMP_CHUNK == [s] + [TEMP_CHUNK[1]] && TEMP_CODE == [TEMP_CODE[0]] + [TEMP_CODE[1]];
  }

  lemma TempContext(hs: seq<HExpr>) returns (d: Ctx)
    requires hs == [HInteger(1), HInteger(2)]
    ensures d == DeclareTemps(TEMP_CTX, hs) && d.scopes != [] && d.readonly == {}
    ensures Resolve<nat>(d.scopes, "x") == Some(0) && Resolve<nat>(d.scopes, TEMP) == Some(2)
    ensures |d.locals| == 4 && d.locals[..2] == TEMP_CTX.locals
    ensures d.locals[2].kind == NumberKind && d.locals[3].kind == NumberKind
  {
    TempNames();
    var d1 := Declare(TEMP_CTX, TEMP, NumberKind);
    d := Declare(d1, TMP_PREFIX + Decimal(3), NumberKind);
    assert hs[1..] == [HInteger(2)] && hs[1..][1..] == [];
    assert DeclareTemps(d1, hs[1..]) == d;
    assert d.scopes[|d.scopes| - 1] == TEMP_CTX.scopes[0][TEMP := 2][TMP_PREFIX + Decimal(3) := 3];
  }

  lemma TempSource(v: Value, fuel: nat, trace: Trace)
    ensures ExecSeq(fuel, TEMP_CHUNK, [map["x" := Num(0), TEMP := v]], trace).trace == trace + [[v]]
  {
    TempNames();
    var env: Env := [map["x" := Num(0), TEMP := v]];
    var s := TEMP_CHUNK[0];
    TwoLiterals(TEMP_CTX, env);
    var vs := [Num(1), Num(2)];
    assert s.names[1..] == ["x"] && s.names[1..][1..] == [] && vs[1..] == [Num(2)] && vs[1..][1..] == [];
    var e1, e2 := AssignName(env, "x", Num(1)), AssignName(AssignName(env, "x", Num(1)), "x", Num(2));
    assert AssignAll(env, s.names, vs) == AssignAll(e1, s.names[1..], vs[1..]) == e2;
    assert Resolve(e1, TEMP) == Some(v) && Resolve(e2, TEMP) == Some(v);
    assert Exec(fuel, s, env, trace) == Result(Normal, e2, trace);
    PrintRuns(TEMP, 2, fuel, e2, map[], trace);
    assert TEMP_CHUNK[1..] == [TEMP_CHUNK[1]] && TEMP_CHUNK[1..][1..] == [];
    assert ExecSeq(fuel, TEMP_CHUNK[1..], e2, trace).trace == trace + [[v]];
  }

  lemma TempCode(fuel: nat, store: Store, trace: Trace)
    ensures HExecSeq(fuel, TEMP_CODE, store, trace).trace == trace + [[Num(1)]]
  {
    var moves := TEMP_CODE[0].body;
    var s1 := store[2 := Num(1)];
    var s2 := s1[3 := Num(2)];
    var s3 := s2[0 := Num(1)];
    var s4 := s3[0 := Num(2)];
    assert HExec(fuel, moves[0], store, trace) == HResult(HNormal, s1, trace);
    assert HExec(fuel, moves[1], s1, trace) == HResult(HNormal, s2, trace);
    assert HExec(fuel, moves[2], s2, trace) == HResult(HNormal, s3, trace);
    assert HExec(fuel, moves[3], s3, trace) == HResult(HNormal, s4, trace);
    assert moves[1..][0] == moves[1] && moves[1..][1..][0] == moves[2] && moves[1..][1..][1..][0] == moves[3];
    assert moves[1..][1..][1..][1..] == [];
    assert HExecSeq(fuel, moves[1..][1..][1..], s3, trace) == HResult(HNormal, s4, trace);
    assert HExecSeq(fuel, moves[1..][1..], s2, trace) == HResult(HNormal, s4, trace);
    assert HExecSeq(fuel, moves[1..], s1, trace) == HResult(HNormal, s4, trace);
    assert HExec(fuel, TEMP_CODE[0], store, trace) == HResult(HNormal, s4, trace);
    PrintRuns("", 2, fuel, [map[]], s4, trace);
    assert TEMP_CODE[1..] == [TEMP_CODE[1]];
    SingleRun(fuel, TEMP_CODE[1], s4, trace);
  }

  // ----- The slots of a function body -----

  /** A variable spelled `_returned` is the flag inside a function body: `print(_returned)` prints false. */
  lemma ReturnedCapturesName(c: Ctx, fuel: nat, env: Env, store: Store, trace: Trace)
    requires c.scopes != [] && env != []
    ensures var body := [Print([Ident(RETURNED_NAME)])];
            && LowerFunctionBody(body, c).Ok?
            && ExecSeq(fuel, body, env, trace).trace == trace + [[Eval(Ident(RETURNED_NAME), env).value]]
            && HExecSeq(fuel, LowerFunctionBody(body, c).value.hs, store, trace).trace == trace + [[Boolean(false)]]
  {
    var s, c1, id := Print([Ident(RETURNED_NAME)]), EnterFunction(c, 0), |c.locals|;
    assert [s][1..] == [] && BodyReturnArity([s]) == 0;
    assert Resolve<nat>(c1.scopes, RETURNED_NAME) == Some(id);
    PrintLowered(RETURNED_NAME, c1, id);
    LowerSeqOne(s, c1, Some(id));
    var code := [WrapGuard(HPrint([HLocal(id)]), Some(id))];
    var hs := [HLocalInit(id, HBool(false))] + DefaultInits([], c1.locals) + code;
    assert LowerFunctionBody([s], c).value.hs == hs;
    var mid := PrologueRuns(fuel, id, [], c1.locals, store, trace);
    PrintRuns(RETURNED_NAME, id, fuel, env, mid, trace);
    GuardRuns(fuel, HPrint([HLocal(id)]), Some(id), mid, trace);
    SingleRun(fuel, code[0], mid, trace);
    SeqAppend(fuel, [HLocalInit(id, HBool(false))] + DefaultInits([], c1.locals), code, store, trace);
  }

  const RESULT_NAME := RET_PREFIX + Decimal(0)

  const RESULT_BODY := [Print([Ident(RESULT_NAME)]), Return([Integer(1)])]

  /**
   A variable spelled like a result slot is that slot: `print(_ret_value_0); return 1` prints the default of
   the result, 0.
   */
  lemma ResultCapturesName(c: Ctx, fuel: nat, env: Env, store: Store, trace: Trace)
    requires c.scopes != [] && c.retKinds.None? && env != []
    ensures LowerFunctionBody(RESULT_BODY, c).Ok?
    ensures ExecSeq(fuel, RESULT_BODY, env, trace).trace == trace + [[Eval(Ident(RESULT_NAME), env).value]]
    ensures HExecSeq(fuel, LowerFunctionBody(RESULT_BODY, c).value.hs, store, trace).trace == trace + [[Num(0)]]
  {
    var flag := |c.locals|;
    var rets, b := ResultLowered(c);
    var code := ResultCode(flag);
    var prologue := [HLocalInit(flag, HBool(false))] + DefaultInits(rets, b.c.locals);
    var mid := PrologueRuns(fuel, flag, rets, b.c.locals, store, trace);
    ResultRuns(flag, fuel, mid, trace);
    SeqAppend(fuel, prologue, code, store, trace);
    PrintRuns(RESULT_NAME, 0, fuel, env, map[], trace);
    assert RESULT_BODY[1..] == [Return([Integer(1)])];
    LiteralReturns(1, fuel, env, trace + [[Eval(Ident(RESULT_NAME), env).value]]);
  }

  function ResultCode(flag: nat): seq<HStmt> {
    [WrapGuard(HPrint([HLocal(flag + 1)]), Some(flag)),
     WrapGuard(ReturnCode(FnSlots(flag, [flag + 1]), [HInteger(1)]), Some(flag))]
  }

  lemma LiteralReturns(n: I64, fuel: nat, env: Env, trace: Trace)
    requires env != []
    ensures ExecSeq(fuel, [Return([Integer(n)])], env, trace) == Result(Returned([Num(n)]), env, trace)
  {
    assert EvalAll([Integer(n)][1..], env) == Some([]) && [Num(n)] + [] == [Num(n)];
  }

  lemma ResultLowered(c: Ctx) returns (rets: seq<nat>, b: LoweredSeq)
    requires c.scopes != [] && c.retKinds.None?
    ensures rets == [|c.locals| + 1] && LowerFunctionBody(RESULT_BODY, c).Ok?
    ensures b.hs == ResultCode(|c.locals|) && InferKind(HLocal(rets[0]), b.c.locals) == NumberKind
    ensures LowerFunctionBody(RESULT_BODY, c).value.hs
         == [HLocalInit(|c.locals|, HBool(false))] + DefaultInits(rets, b.c.locals) + ResultCode(|c.locals|)
  {
    rets := [|c.locals| + 1];
    ResultArity();
    var c1 := ResultContext(c);
    b := ResultStatements(|c.locals|, c1);
  }

  lemma ResultStatements(flag: nat, c1: Ctx) returns (b: LoweredSeq)
    requires c1.scopes != [] && c1.retKinds.None? && |c1.locals| == flag + 2
    requires c1.fn == Some(FnSlots(flag, [flag + 1])) && Resolve<nat>(c1.scopes, RESULT_NAME) == Some(flag + 1)
    ensures LowerSeq(RESULT_BODY, c1, Some(flag)) == Ok(b) && b.hs == ResultCode(flag)
    ensures InferKind(HLocal(flag + 1), b.c.locals) == NumberKind
  {
    var s, back := RESULT_BODY[0], RESULT_BODY[1];
    PrintLowered(RESULT_NAME, c1, flag + 1);
    ReturnLowered(flag, c1);
    LowerSeqOne(back, c1, Some(flag));
    LowerSeqCons(s, [back], c1, Some(flag));
    assert RESULT_BODY == [s] + [back];
    b := LowerSeq(RESULT_BODY, c1, Some(flag)).value;
    assert ResultCode(flag) == [ResultCode(flag)[0]] + [ResultCode(flag)[1]];
  }

  lemma ReturnLowered(flag: nat, c1: Ctx)
    requires c1.scopes != [] && c1.retKinds.None? && |c1.locals| == flag + 2
    requires c1.fn == Some(FnSlots(flag, [flag + 1]))
    ensures var l := LowerStmt(RESULT_BODY[1], c1);
            && l.Ok? && l.value.h == ReturnCode(c1.fn.value, [HInteger(1)])
            && InferKind(HLocal(flag + 1), l.value.c.locals) == NumberKind
  {
    var hs, rets := [HInteger(1)], [flag + 1];
    assert LowerExprs([Integer(1)][1..], c1) == Ok([]) && [HInteger(1)] + [] == hs;
    assert LowerExprs([Integer(1)], c1) == Ok(hs);
    var kinds := Kinds(hs, c1.locals);
    assert rets[1..] == [];
    assert SetKinds(c1.locals, rets, kinds) == SetKind(c1.locals, flag + 1, NumberKind);
  }

  lemma ResultArity()
    ensures BodyReturnArity(RESULT_BODY) == 1
  {
    assert RESULT_BODY[1..] == [Return([Integer(1)])] && [Return([Integer(1)])][1..] == [];
    assert BodyReturnArity([Return([Integer(1)])]) == 1;
  }

  lemma ResultContext(c: Ctx) returns (c1: Ctx)
    requires c.scopes != []
    ensures c1 == EnterFunction(c, 1) && c1.scopes != [] && c1.retKinds == c.retKinds
    ensures c1.fn == Some(FnSlots(|c.locals|, [|c.locals| + 1])) && |c1.locals| == |c.locals| + 2
    ensures Resolve<nat>(c1.scopes, RESULT_NAME) == Some(|c.locals| + 1)
  {
    c1 := EnterFunction(c, 1);
    var d := Declare(Declare(c, RETURNED_NAME, BoolKind), RESULT_NAME, NumberKind);
    assert DeclareRets(Declare(c, RETURNED_NAME, BoolKind), 0, 1) == DeclareRets(d, 1, 1) == d;
    assert c1.fn.value.rets == [|c.locals| + 1];
  }

  lemma ResultRuns(flag: nat, fuel: nat, mid: Store, trace: Trace)
    requires Load(mid, flag) == Boolean(false) && Load(mid, flag + 1) == Num(0)
    ensures HExecSeq(fuel, ResultCode(flag), mid, trace).trace == trace + [[Num(0)]]
  {
    var code, slots, said := ResultCode(flag), FnSlots(flag, [flag + 1]), trace + [[Num(0)]];
    PrintRuns("", flag + 1, fuel, [map[]], mid, trace);
    GuardRuns(fuel, HPrint([HLocal(flag + 1)]), Some(flag), mid, trace);
    GuardRuns(fuel, ReturnCode(slots, [HInteger(1)]), Some(flag), mid, said);
    ResultStored(flag, 1, fuel, mid, said);
    SingleRun(fuel, code[0], mid, trace);
    SingleRun(fuel, code[1], mid, said);
    SeqAppend(fuel, [code[0]], [code[1]], mid, trace);
    assert code == [code[0]] + [code[1]];
  }

  lemma ResultStored(flag: nat, n: I64, fuel: nat, store: Store, trace: Trace)
    ensures HExec(fuel, ReturnCode(FnSlots(flag, [flag + 1]), [HInteger(n)]), store, trace)
         == HResult(HNormal, store[flag + 1 := Num(n)][flag := Boolean(true)], trace)
  {
    var rets := [flag + 1];
    var keep, up := HAssign(flag + 1, HInteger(n)), HAssign(flag, HBool(true));
    assert RetAssigns(rets[1..], [HInteger(n)][1..]) == [] && [keep] + [] == [keep];
    assert RetAssigns(rets, [HInteger(n)]) == [keep];
    SingleRun(fuel, keep, store, trace);
    SingleRun(fuel, up, store[flag + 1 := Num(n)], trace);
    SeqAppend(fuel, [keep], [up], store, trace);
  }

  // ----- Unknown names -----

  /** `if false then name = n end; print(name)` */
  function UnknownChunk(name: string, n: I64): seq<Stmt> {
    [If([Arm(Bool(false), [Assign(name, Integer(n))])], []), Print([Ident(name)])]
  }

  /**
   An assignment to an unknown name declares a slot that nothing has stored to if the assignment does not run:
   the source prints nil, the code a number.
   */
  lemma UnknownNameStarts(name: string, n: I64, fuel: nat, env: Env, store: Store, trace: Trace)
    requires env != [] && Resolve(env, name).None?
    ensures var l := LowerChunk(UnknownChunk(name, n));
            && l.Ok? && l.value.c.locals == [LocalInfo(name, NumberKind)]
            && ExecSeq(fuel, UnknownChunk(name, n), env, trace).trace == trace + [[NilValue]]
            && HExecSeq(fuel, l.value.hs, store, trace).trace == trace + [[Load(store, 0)]]
            && (StoreTyped(store, l.value.c.locals, {}) ==> Load(store, 0).Num?)
  {
    var chunk, skip := UnknownChunk(name, n), HIf([HArm(HBool(false), [HLocalInit(0, HInteger(n))])], []);
    var c1 := UnknownLowered(name, n);
    PrintLowered(name, c1, 0);
    LowerSeqOne(chunk[1], c1, None);
    LowerSeqCons(chunk[0], [chunk[1]], EMPTY_CTX, None);
    assert chunk == [chunk[0]] + [chunk[1]];
    var code := [skip] + [HPrint([HLocal(0)])];
    assert LowerChunk(chunk).value.hs == code;
    PrintRuns(name, 0, fuel, env, store, trace);
    SkippedArm(name, n, fuel, env, store, trace);
    SingleRun(fuel, skip, store, trace);
    SingleRun(fuel, code[1], store, trace);
    SeqAppend(fuel, [skip], [code[1]], store, trace);
    assert chunk[1..] == [chunk[1]] && chunk[1..][1..] == [];
    assert Exec(fuel, chunk[1], env, trace) == Result(Normal, env, trace + [[NilValue]]);
    assert ExecSeq(fuel, chunk[1..], env, trace).trace == trace + [[NilValue]];
  }

  lemma UnknownLowered(name: string, n: I64) returns (c1: Ctx)
    ensures c1 == EMPTY_CTX.(locals := [LocalInfo(name, NumberKind)], scopes := [map[name := 0]])
    ensures Resolve<nat>(c1.scopes, name) == Some(0)
    ensures LowerStmt(UnknownChunk(name, n)[0], EMPTY_CTX)
         == Ok(Lowered(HIf([HArm(HBool(false), [HLocalInit(0, HInteger(n))])], []), c1))
  {
    var s, body := UnknownChunk(name, n)[0], [Assign(name, Integer(n))];
    c1 := EMPTY_CTX.(locals := [LocalInfo(name, NumberKind)], scopes := [map[name := 0]]);
    var p := PushScope(EMPTY_CTX);
    assert p.scopes[..1] == [map[]] && Resolve<nat>(p.scopes, name) == Resolve<nat>([map[]], name) == None;
    var d := c1.(scopes := [map[name := 0], map[]]);
    assert BindBottom(p.scopes, name, 0) == d.scopes;
    assert p.locals + [LocalInfo(name, NumberKind)] == d.locals;
    assert LowerAssignTarget(name, HInteger(n), p) == Ok(Lowered(HLocalInit(0, HInteger(n)), d));
    assert LowerStmt(body[0], p) == Ok(Lowered(HLocalInit(0, HInteger(n)), d));
    LowerSeqOne(body[0], p, None);
    assert PopScope(d) == c1;
    assert LowerBody(body, EMPTY_CTX) == Ok(LoweredSeq([HLocalInit(0, HInteger(n))], c1));
    assert LowerArms(s, 1, c1) == Ok(([], c1));
    var arm := HArm(HBool(false), [HLocalInit(0, HInteger(n))]);
    assert [arm] + [] == [arm];
    assert LowerArms(s, 0, EMPTY_CTX) == Ok(([arm], c1));
    assert PopScope(PushScope(c1)) == c1;
    assert LowerBody([], c1) == Ok(LoweredSeq([], c1));
  }

  lemma SkippedArm(name: string, n: I64, fuel: nat, env: Env, store: Store, trace: Trace)
    requires env != []
    ensures Exec(fuel, UnknownChunk(name, n)[0], env, trace) == Result(Normal, env, trace)
    ensures HExec(fuel, HIf([HArm(HBool(false), [HLocalInit(0, HInteger(n))])], []), store, trace)
         == HResult(HNormal, store, trace)
  {
    var s, h := UnknownChunk(name, n)[0], HIf([HArm(HBool(false), [HLocalInit(0, HInteger(n))])], []);
    assert Pop(Push(env)) == env;
    assert s.elseBody == [] && ExecBody(fuel, [], env, trace) == Result(Normal, env, trace);
    assert ExecArms(fuel, s, 1, env, trace) == Result(Normal, env, trace);
    assert HExecArms(fuel, h, 1, store, trace) == HResult(HNormal, store, trace);
  }

  // ----- Returns in `repeat` -----

  /** `repeat return value until true` */
  function RepeatReturn(value: Expr): Stmt { Repeat([Return([value])], Bool(true)) }

  /**
   The returns of a `repeat` reserve no result slots.  A body whose only return is in one loses the value:
   its code raises the flag and stores nothing.
   */
  lemma RepeatLosesResult(c: Ctx, n: I64, fuel: nat, env: Env, store: Store, trace: Trace)
    requires c.scopes != [] && c.retKinds.None? && env != [] && fuel > 0
    ensures var body := [RepeatReturn(Integer(n))];
            && LowerFunctionBody(body, c).Ok? && EnterFunction(c, BodyReturnArity(body)).fn.value.rets == []
            && ExecSeq(fuel, body, env, trace) == Result(Returned([Num(n)]), env, trace)
            && HExecSeq(fuel, LowerFunctionBody(body, c).value.hs, store, trace)
               == HResult(HNormal, store[|c.locals| := Boolean(true)], trace)
  {
    RepeatBodyLowered(c, n);
    RepeatBodyRuns(|c.locals|, fuel, store, trace);
    RepeatReturns(n, fuel, env, trace);
  }

  function RepeatCode(flag: nat): seq<HStmt> {
    [HLocalInit(flag, HBool(false)), WrapGuard(HRepeat([RaiseCode(flag)], HBool(true), None), Some(flag))]
  }

  lemma RepeatBodyLowered(c: Ctx, n: I64)
    requires c.scopes != [] && c.retKinds.None?
    ensures var body := [RepeatReturn(Integer(n))];
            && LowerFunctionBody(body, c).Ok? && EnterFunction(c, BodyReturnArity(body)).fn.value.rets == []
            && LowerFunctionBody(body, c).value.hs == RepeatCode(|c.locals|)
  {
    var s, flag, c1 := RepeatReturn(Integer(n)), |c.locals|, EnterFunction(c, 0);
    assert [s][1..] == [] && BodyReturnArity([s]) == 0;
    assert c1.fn.value.rets == [];
    var d := RepeatLowered(Integer(n), HInteger(n), c1);
    LowerSeqOne(s, c1, Some(flag));
    var code := RepeatCode(flag);
    assert [code[0]] + DefaultInits([], d.locals) + [code[1]] == code;
  }

  lemma RepeatBodyRuns(flag: nat, fuel: nat, store: Store, trace: Trace)
    requires fuel > 0
    ensures HExecSeq(fuel, RepeatCode(flag), store, trace) == HResult(HNormal, store[flag := Boolean(true)], trace)
  {
    var code, down := RepeatCode(flag), store[flag := Boolean(false)];
    RepeatRaises(flag, fuel, down, trace);
    GuardRuns(fuel, HRepeat([RaiseCode(flag)], HBool(true), None), Some(flag), down, trace);
    SingleRun(fuel, code[1], down, trace);
    SingleRun(fuel, code[0], store, trace);
    SeqAppend(fuel, [code[0]], [code[1]], store, trace);
    assert code == [code[0]] + [code[1]] && down[flag := Boolean(true)] == store[flag := Boolean(true)];
  }

  lemma RepeatReturns(n: I64, fuel: nat, env: Env, trace: Trace)
    requires env != [] && fuel > 0
    ensures ExecSeq(fuel, [RepeatReturn(Integer(n))], env, trace) == Result(Returned([Num(n)]), env, trace)
  {
    LiteralReturns(n, fuel - 1, Push(env), trace);
    assert Pop(Push(env)) == env;
    assert Exec(fuel, RepeatReturn(Integer(n)), env, trace) == Result(Returned([Num(n)]), env, trace);
  }

  /** The code of a return when no result slots are reserved. */
  function RaiseCode(flag: nat): HStmt { HBlock([HAssign(flag, HBool(true))]) }

  predicate Literal(value: Expr, h: HExpr) {
    (value.Integer? && h == HInteger(value.i)) || (value.Bool? && h == HBool(value.b))
  }

  lemma RepeatLowered(value: Expr, h: HExpr, c: Ctx) returns (d: Ctx)
    requires c.scopes != [] && c.fn.Some? && c.fn.value.rets == [] && c.retKinds.None? && Literal(value, h)
    ensures d == c.(retKinds := Some([InferKind(h, [])]))
    ensures LowerStmt(RepeatReturn(value), c)
         == Ok(Lowered(HRepeat([RaiseCode(c.fn.value.returned)], HBool(true), None), d))
  {
    var body := [Return([value])];
    assert !ContainsBreak(body[0]) && !BodyContainsBreak(body);
    var p := PushScope(EnterLoop(c, body));
    d := c.(retKinds := Some([InferKind(h, [])]));
    var q := p.(retKinds := d.retKinds);
    FirstReturn(value, h, p);
    LowerSeqOne(body[0], p, None);
    assert LowerExpr(Bool(true), q) == Ok(HBool(true));
    assert PopScope(q).scopes == c.scopes && LeaveLoop(PopScope(q)) == d;
  }

  lemma FirstReturn(value: Expr, h: HExpr, p: Ctx)
    requires p.scopes != [] && p.fn.Some? && p.fn.value.rets == [] && p.retKinds.None? && Literal(value, h)
    ensures LowerStmt(Return([value]), p)
         == Ok(Lowered(RaiseCode(p.fn.value.returned), p.(retKinds := Some([InferKind(h, [])]))))
  {
    var hs, up := [h], HAssign(p.fn.value.returned, HBool(true));
    assert LowerExprs([value][1..], p) == Ok([]) && [h] + [] == [h];
    assert LowerExprs([value], p) == Ok(hs);
    assert Kinds(hs, p.locals) == [InferKind(h, [])];
    assert RetAssigns([], hs) + [up] == [up];
  }

  /** Two such returns of different kinds have no slot to tag: `CompilerPanic`. */
  lemma RepeatPanics(c: Ctx, n: I64, b: bool)
    requires c.scopes != [] && c.retKinds.None?
    ensures LowerFunctionBody([RepeatReturn(Integer(n)), RepeatReturn(Bool(b))], c) == Err(CompilerPanic)
  {
    var s, t := RepeatReturn(Integer(n)), RepeatReturn(Bool(b));
    var body := [s, t];
    assert body[1..] == [t] && [t][1..] == [] && BodyReturnArity([t]) == 0 && BodyReturnArity(body) == 0;
    var c1 := EnterFunction(c, 0);
    assert c1.fn.value.rets == [];
    var d := RepeatLowered(Integer(n), HInteger(n), c1);
    RepeatWidens(b, d);
    assert LowerSeq([t], d, Some(|c.locals|)) == Err(CompilerPanic);
    assert LowerSeq(body, c1, Some(|c.locals|)) == Err(CompilerPanic);
  }

  lemma RepeatWidens(b: bool, c: Ctx)
    requires c.scopes != [] && c.fn.Some? && c.fn.value.rets == [] && c.retKinds == Some([NumberKind])
    ensures LowerStmt(RepeatReturn(Bool(b)), c) == Err(CompilerPanic)
  {
    var body := [Return([Bool(b)])];
    assert !ContainsBreak(body[0]) && !BodyContainsBreak(body);
    var p := PushScope(EnterLoop(c, body));
    assert LowerExprs([Bool(b)][1..], p) == Ok([]) && [HBool(b)] + [] == [HBool(b)];
    assert LowerExprs([Bool(b)], p) == Ok([HBool(b)]);
    assert Kinds([HBool(b)], p.locals) == [BoolKind];
    assert [NumberKind][0] != BoolKind && WidensBeyond(0, [NumberKind], [BoolKind]);
    assert LowerStmt(body[0], p) == Err(CompilerPanic);
    assert LowerSeq(body, p, None) == Err(CompilerPanic);
  }

  lemma RepeatRaises(flag: nat, fuel: nat, store: Store, trace: Trace)
    requires fuel > 0
    ensures HExec(fuel, HRepeat([RaiseCode(flag)], HBool(true), None), store, trace)
         == HResult(HNormal, store[flag := Boolean(true)], trace)
  {
    var up := HAssign(flag, HBool(true));
    SingleRun(fuel - 1, up, store, trace);
    SingleRun(fuel - 1, RaiseCode(flag), store, trace);
  }
}

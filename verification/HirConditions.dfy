/**
 The condition of a loop once its body has broken out.  The lowered loop consults its flag only behind its
 condition, so the condition is evaluated once more; the source does not do that.
 */
module HirConditions {
  import opened Wrappers
  import opened Int64
  import opened HirSyntax
  import opened HirSemantics
  import opened HirTraces
  import opened HirLower
  import opened HirContext
  import opened HirKinds
  import opened HirFragment
  import opened HirRelation
  import opened HirSteps
  import opened HirSimulation
  import opened HirFunctions

  /** The fragment, but for what it asks of a condition that is evaluated behind a `break`. */
  ghost predicate OpenLegal(s: Stmt, c1: Ctx, h: HStmt, later: seq<LocalInfo>) {
    && s.While? && h.HWhile? && h.breakId == Target(c1)
    && LoopLegal(s.body, c1, PushScope(c1), later)
    && h.body == LowerSeq(s.body, PushScope(c1), Target(c1)).value.hs
    && UserExpr(s.cond) && LowerExpr(s.cond, c1) == Ok(h.cond) && SafeExpr(s.cond, c1)
  }

  /** Where the source breaks out with a condition that would trap, the code traps; otherwise they match. */
  ghost predicate OpenMatches(s: Stmt, c1: Ctx, before: Store, r: Result, q: HResult)
    requires s.While?
  {
    if r.out.Broke? && Eval(s.cond, r.env).None? then q.out.HTrapped? && q.trace == r.trace
    else LoopMatches(c1, before, r, q)
  }

  /** What one iteration achieves: the condition has one value on both sides wherever it ends. */
  ghost predicate OpenRound(
      fuel: nat, s: Stmt, c1: Ctx, h: HStmt, env: Env, store: Store, trace: Trace, later: seq<LocalInfo>)
    requires s.While? && h.HWhile? && env != []
  {
    var r, q := ExecSeq(fuel, s.body, Push(env), trace), HExecSeq(fuel, h.body, store, trace);
    && Continues(c1, store, q.store, r, q)
    && (r.out.Normal? ==> At(c1, Pop(r.env), q.store, later))
    && (r.out.Normal? || r.out.Broke? ==> HEval(h.cond, q.store) == Eval(s.cond, Pop(r.env)))
  }

  lemma OpenIteration(
      fuel: nat, s: Stmt, c1: Ctx, h: HStmt, env: Env, store: Store, trace: Trace, later: seq<LocalInfo>)
    requires OpenLegal(s, c1, h, later) && At(c1, env, store, later)
    ensures env != [] && OpenRound(fuel, s, c1, h, env, store, trace, later)
  {
    AtPush(c1, env, store, later);
    SimIteration(fuel, s.body, c1, PushScope(c1), Push(env), store, trace, later);
    var r, q := ExecSeq(fuel, s.body, Push(env), trace), HExecSeq(fuel, h.body, store, trace);
    if r.out.Normal? || r.out.Broke? {
      ExprSim(s.cond, c1, Pop(r.env), q.store, later);
    }
  }

  /** An iteration that ends normally ends where the next one starts. */
  lemma OpenNext(
      fuel: nat, s: Stmt, c1: Ctx, h: HStmt, env: Env, store: Store, trace: Trace, later: seq<LocalInfo>)
    requires s.While? && h.HWhile? && env != [] && OpenRound(fuel, s, c1, h, env, store, trace, later)
    requires ExecSeq(fuel, s.body, Push(env), trace).out.Normal?
    ensures var r, q := ExecSeq(fuel, s.body, Push(env), trace), HExecSeq(fuel, h.body, store, trace);
            && Pop(r.env) != [] && q.trace == r.trace
            && At(c1, Pop(r.env), q.store, later) && HEval(h.cond, q.store) == Eval(s.cond, Pop(r.env))
  {}

  lemma OpenStep(
      fuel: nat, s: Stmt, c1: Ctx, h: HStmt, env: Env, store: Store, trace: Trace, later: seq<LocalInfo>)
    requires s.While? && h.HWhile? && h.breakId == Target(c1) && env != [] && fuel > 0 && Idle(c1, store)
    requires Eval(s.cond, env).Some? && Truthy(Eval(s.cond, env).value) && HEval(h.cond, store) == Eval(s.cond, env)
    requires OpenRound(fuel - 1, s, c1, h, env, store, trace, later)
    requires var r, q := ExecSeq(fuel - 1, s.body, Push(env), trace), HExecSeq(fuel - 1, h.body, store, trace);
             r.out.Normal? ==>
               OpenMatches(s, c1, q.store, ExecWhile(fuel - 1, s, Pop(r.env), r.trace),
                           HExecWhile(fuel - 1, h, q.store, r.trace))
    ensures OpenMatches(s, c1, store, ExecWhile(fuel, s, env, trace), HExecWhile(fuel, h, store, trace))
  {
    var r, q := ExecSeq(fuel - 1, s.body, Push(env), trace), HExecSeq(fuel - 1, h.body, store, trace);
    assert ExecBody(fuel - 1, s.body, env, trace) == r.(env := Pop(r.env));
    if r.out.Normal? {
      var rest, code := ExecWhile(fuel - 1, s, Pop(r.env), r.trace), HExecWhile(fuel - 1, h, q.store, q.trace);
      if LoopMatches(c1, q.store, rest, code) {
        LoopMatchesRest(c1, store, q.store, rest, code);
      }
    } else if r.out.ZeroStep? {
      HLoopExtends(fuel - 1, h, 0, 0, q.store, q.trace);
      PrefixTransitive(r.trace, q.trace, HExecWhile(fuel - 1, h, q.store, q.trace).trace);
    }
  }

  /** All iterations, given each. */
  lemma {:induction false} OpenRounds(
      fuel: nat, s: Stmt, c1: Ctx, h: HStmt, env: Env, store: Store, trace: Trace, later: seq<LocalInfo>)
    requires s.While? && h.HWhile? && h.breakId == Target(c1) && env != [] && At(c1, env, store, later)
    requires HEval(h.cond, store) == Eval(s.cond, env)
    requires forall f: nat, e: Env, st: Store, t: Trace {:trigger OpenRound(f, s, c1, h, e, st, t, later)}
               | f < fuel && e != [] && At(c1, e, st, later) :: OpenRound(f, s, c1, h, e, st, t, later)
    ensures OpenMatches(s, c1, store, ExecWhile(fuel, s, env, trace), HExecWhile(fuel, h, store, trace))
    decreases fuel
  {
    var v := Eval(s.cond, env);
    if v.Some? && Truthy(v.value) && fuel > 0 {
      assert OpenRound(fuel - 1, s, c1, h, env, store, trace, later);
      var r, q := ExecSeq(fuel - 1, s.body, Push(env), trace), HExecSeq(fuel - 1, h.body, store, trace);
      if r.out.Normal? {
        OpenNext(fuel - 1, s, c1, h, env, store, trace, later);
        OpenRounds(fuel - 1, s, c1, h, Pop(r.env), q.store, r.trace, later);
      }
      OpenStep(fuel, s, c1, h, env, store, trace, later);
    } else {
      WhileStops(fuel, s, c1, h, env, store, trace);
    }
  }

  lemma OpenLoop(fuel: nat, s: Stmt, c1: Ctx, h: HStmt, env: Env, store: Store, trace: Trace, later: seq<LocalInfo>)
    requires OpenLegal(s, c1, h, later) && At(c1, env, store, later)
    ensures env != []
    ensures OpenMatches(s, c1, store, ExecWhile(fuel, s, env, trace), HExecWhile(fuel, h, store, trace))
  {
    ExprSim(s.cond, c1, env, store, later);
    forall f: nat, e: Env, st: Store, t: Trace | f < fuel && e != [] && At(c1, e, st, later)
      ensures OpenRound(f, s, c1, h, e, st, t, later)
    {
      OpenIteration(f, s, c1, h, e, st, t, later);
    }
    OpenRounds(fuel, s, c1, h, env, store, trace, later);
  }

  /** How the code of a loop ends, given how the iterations of the source do. */
  predicate Ends(s: Stmt, r: Result, q: HResult)
    requires s.While?
  {
    && (r.out.Broke? && Eval(s.cond, r.env).None? ==> q.out.HTrapped? && q.trace == r.trace)
    && (r.out.Broke? && Eval(s.cond, r.env).Some? ==> q.out.HNormal? && q.trace == r.trace)
    && (!r.out.Broke? && !r.out.ZeroStep? ==> EndsAlike(r.out, q.out) && q.trace == r.trace)
  }

  /**
   A `while` whose body is in the fragment.  If the source breaks out of it where its condition would trap, the
   loop has ended normally in the source and the code traps.  In every other case, zero steps apart, the code ends
   like the source, having printed the same.
   */
  lemma ConditionRunsOn(
      fuel: nat, s: Stmt, c: Ctx, env: Env, store: Store, trace: Trace, later: seq<LocalInfo>)
    requires s.While? && WF(c) && UserStmt(s) && LowerStmt(s, c).Ok? && At(c, env, store, later)
    requires FragBody(s.body, EnterLoop(c, s.body), true) && SafeExpr(s.cond, EnterLoop(c, s.body))
    requires Within(LowerStmt(s, c).value.c.locals, later, RetSet(c))
    ensures env != []
    ensures var r, q := ExecWhile(fuel, s, env, trace), HExec(fuel, LowerStmt(s, c).value.h, store, trace);
            Exec(fuel, s, env, trace) == LoopEnd(r) && Ends(s, r, q)
  {
    var h := OpenIsLegal(s, c, later);
    OpenRun(fuel, s, c, h, env, store, trace, later);
  }

  lemma OpenRun(
      fuel: nat, s: Stmt, c: Ctx, h: HStmt, env: Env, store: Store, trace: Trace, later: seq<LocalInfo>)
    requires WF(c) && At(c, env, store, later) && s.While? && OpenLegal(s, EnterLoop(c, s.body), h, later)
    requires Within(EnterLoop(c, s.body).locals, later, RetSet(c))
    ensures env != []
    ensures Ends(s, ExecWhile(fuel, s, env, trace), HExec(fuel, WrapInit(h, Target(EnterLoop(c, s.body))), store, trace))
  {
    var mid := LoopOpens(fuel, s.body, c, h, env, store, trace, later);
    OpenLoop(fuel, s, EnterLoop(c, s.body), h, env, mid, trace, later);
    OpenEnds(s, EnterLoop(c, s.body), mid, ExecWhile(fuel, s, env, trace), HExecWhile(fuel, h, mid, trace));
  }

  lemma OpenIsLegal(s: Stmt, c: Ctx, later: seq<LocalInfo>) returns (h: HStmt)
    requires s.While? && WF(c) && UserStmt(s) && LowerStmt(s, c).Ok?
    requires FragBody(s.body, EnterLoop(c, s.body), true) && SafeExpr(s.cond, EnterLoop(c, s.body))
    requires Within(LowerStmt(s, c).value.c.locals, later, RetSet(c))
    ensures var c1 := EnterLoop(c, s.body);
            && OpenLegal(s, c1, h, later) && Within(c1.locals, later, RetSet(c))
            && LowerStmt(s, c).value.h == WrapInit(h, Target(c1))
  {
    var c1 := EnterLoop(c, s.body);
    assert LowerExpr(s.cond, c1).Ok? && LowerBody(s.body, c1).Ok?;
    PushLoopLegal(s.body, c, later);
    h := HWhile(LowerExpr(s.cond, c1).value, LowerBody(s.body, c1).value.hs, Target(c1));
  }

  lemma OpenEnds(s: Stmt, c1: Ctx, before: Store, r: Result, q: HResult)
    requires s.While? && OpenMatches(s, c1, before, r, q)
    ensures Ends(s, r, q)
  {}

  /**
   A loop that breaks out where its condition would trap: `while 1 // x do x = 0; break end` from x = 1, with the
   integer division of Lua.
   */
  lemma BreaksWhereItTraps(fuel: nat, trace: Trace)
    requires fuel > 0
    ensures var s := While(BinOp(FloorDivide, Integer(1), Ident("x")), [Assign("x", Integer(0)), Break]);
            var r := ExecWhile(fuel, s, [map["x" := Num(1)]], trace);
            r.out.Broke? && Eval(s.cond, r.env).None?
  {
    var s := While(BinOp(FloorDivide, Integer(1), Ident("x")), [Assign("x", Integer(0)), Break]);
    var e0, e1: Env := [map["x" := Num(1)]], [map["x" := Num(0)]];
    assert Eval(Integer(1), e0) == Some(Num(1)) && Eval(Ident("x"), e0) == Some(Num(1));
    assert Eval(s.cond, e0).Some? && Eval(s.cond, e0).value.Num?;
    ClearsAndBreaks(fuel - 1, trace);
    assert Eval(Integer(1), e1) == Some(Num(1)) && Eval(Ident("x"), e1) == Some(Num(0));
  }

  lemma ClearsAndBreaks(fuel: nat, trace: Trace)
    ensures ExecBody(fuel, [Assign("x", Integer(0)), Break], [map["x" := Num(1)]], trace)
         == Result(Broke, [map["x" := Num(0)]], trace)
  {
    var body := [Assign("x", Integer(0)), Break];
    var e0, e1: Env := [map["x" := Num(1)]], [map["x" := Num(0)]];
    assert Push(e0)[..1] == e0 && Push(e1)[..1] == e1 && Resolve(Push(e0), "x") == Some(Num(1));
    assert e0[0]["x" := Num(0)] == e1[0] && e0[0 := e1[0]] == e1;
    assert Update(Push(e0), "x", Num(0)) == Push(e1);
    assert Exec(fuel, body[0], Push(e0), trace) == Result(Normal, Push(e1), trace);
    assert body[1..][0] == Break && body[1..][1..] == [];
    assert ExecSeq(fuel, body[1..], Push(e1), trace) == Result(Broke, Push(e1), trace);
  }

  /**
   `repeat` likewise: once a `break` has raised the flag, the code traps exactly if the condition, in the slots as
   the body left them, does.
   */
  lemma RepeatConditionRunsOn(fuel: nat, h: HStmt, store: Store, trace: Trace)
    requires h.HRepeat? && fuel > 0
    requires var q := HExecSeq(fuel - 1, h.body, store, trace); q.out.HNormal? && FlagSet(h.breakId, q.store)
    ensures var q := HExecSeq(fuel - 1, h.body, store, trace);
            HExec(fuel, h, store, trace) == q.(out := if HEval(h.cond, q.store).None? then HTrapped else HNormal)
  {}
}

/**
 The simulation: lowered code does what its source does, through nested bodies, guards and loops.
 */
module HirSimulation {
  import opened Wrappers
  import opened Numerals
  import opened HirSyntax
  import opened HirSemantics
  import opened HirLower
  import opened HirContext
  import opened HirKinds
  import opened HirFragment
  import opened HirRelation
  import opened HirSteps
  import opened HirTraces

  // ----- Guards -----

  lemma GuardCond(flag: nat, b: bool, store: Store)
    requires Load(store, flag) == Boolean(b)
    ensures HEval(HUnaryOp(Not, HLocal(flag)), store) == Some(Boolean(!b))
  {
    assert HEval(HLocal(flag), store) == Some(Boolean(b));
  }

  /** A raised flag turns guarded code into a no-op. */
  lemma {:induction false} SkipGuarded(
      fuel: nat, ss: seq<Stmt>, c: Ctx, guard: Option<nat>, store: Store, trace: Trace)
    requires c.scopes != [] && LowerSeq(ss, c, guard).Ok? && FlagSet(guard, store)
    ensures HExecSeq(fuel, LowerSeq(ss, c, guard).value.hs, store, trace) == HResult(HNormal, store, trace)
    decreases |ss|
  {
    if ss != [] {
      var first := LowerStmt(ss[0], c).value;
      SkipGuarded(fuel, ss[1..], first.c, guard, store, trace);
      var h := WrapGuard(first.h, guard);
      GuardCond(guard.value, true, store);
      assert HExecArms(fuel, h, 1, store, trace) == HResult(HNormal, store, trace);
      assert HExec(fuel, h, store, trace) == HExecArms(fuel, h, 0, store, trace);
    }
  }

  /** A lowered flag makes the guard transparent. */
  lemma GuardRuns(fuel: nat, h: HStmt, guard: Option<nat>, store: Store, trace: Trace)
    requires guard.Some? ==> Load(store, guard.value) == Boolean(false)
    ensures HExec(fuel, WrapGuard(h, guard), store, trace) == HExec(fuel, h, store, trace)
  {
    SingleRun(fuel, h, store, trace);
    if guard.Some? {
      var g := WrapGuard(h, guard);
      GuardCond(guard.value, false, store);
      assert HExec(fuel, g, store, trace) == HExecArms(fuel, g, 0, store, trace);
    }
  }

  // ----- Sequences -----

  ghost predicate SeqLegal(ss: seq<Stmt>, c: Ctx, guard: Option<nat>, inLoop: bool, later: seq<LocalInfo>) {
    && WF(c) && Placed(c, inLoop)
    && UserStmts(ss) && LowerSeq(ss, c, guard).Ok? && FragSeq(ss, c, guard, inLoop)
    && Within(LowerSeq(ss, c, guard).value.c.locals, later, RetSet(c))
    && (c.fn.Some? && !inLoop ==> SeqYields(ss, |c.fn.value.rets|))
    && (guard == Target(c) || (guard.None? && OnlyLastEscapes(ss)))
  }

  ghost predicate SeqSimulates(
      fuel: nat, ss: seq<Stmt>, c: Ctx, guard: Option<nat>, inLoop: bool, env: Env, store: Store, trace: Trace)
    requires c.scopes != [] && env != [] && LowerSeq(ss, c, guard).Ok?
  {
    var l, r := LowerSeq(ss, c, guard).value, ExecSeq(fuel, ss, env, trace);
    && Matches(c, l.c.scopes, inLoop, store, r, HExecSeq(fuel, l.hs, store, trace))
    && (LeftEarly(r.out) ==> SeqEscapes(ss))
  }

  lemma PlacedFlow(c: Ctx, d: Ctx, inLoop: bool)
    requires Flow(c, d) && Placed(c, inLoop)
    ensures Placed(d, inLoop) && Target(d) == Target(c) && RetSet(d) == RetSet(c)
  {}

  lemma SeqLegalStep(ss: seq<Stmt>, c: Ctx, guard: Option<nat>, inLoop: bool, later: seq<LocalInfo>)
    requires ss != [] && SeqLegal(ss, c, guard, inLoop, later)
    ensures Legal(ss[0], c, inLoop, later)
    ensures SeqLegal(ss[1..], LowerStmt(ss[0], c).value.c, guard, inLoop, later)
    ensures Flow(c, LowerStmt(ss[0], c).value.c)
  {
    var d := LowerStmt(ss[0], c).value.c;
    LowerStmtFlow(ss[0], c);
    PlacedFlow(c, d, inLoop);
    LowerSeqFlow(ss[1..], d, guard);
    FlowWithin(d, LowerSeq(ss[1..], d, guard).value.c, later);
  }

  /** A step keeps every slot's kind. */
  lemma StmtTyped(fuel: nat, s: Stmt, c: Ctx, inLoop: bool, store: Store, trace: Trace, later: seq<LocalInfo>)
    requires Legal(s, c, inLoop, later) && StoreTyped(store, later, RetSet(c))
    ensures StoreTyped(HExec(fuel, LowerStmt(s, c).value.h, store, trace).store, later, RetSet(c))
  {
    LowerStmtKinded(s, c, later);
    RunKindSound(fuel, LowerStmt(s, c).value.h, later, RetSet(c), store, trace);
  }

  lemma SeqTyped(
      fuel: nat, ss: seq<Stmt>, c: Ctx, guard: Option<nat>, inLoop: bool, store: Store, trace: Trace,
      later: seq<LocalInfo>)
    requires SeqLegal(ss, c, guard, inLoop, later) && StoreTyped(store, later, RetSet(c))
    ensures StoreTyped(HExecSeq(fuel, LowerSeq(ss, c, guard).value.hs, store, trace).store, later, RetSet(c))
  {
    if guard.Some? {
      TargetSlot(c);
    }
    LowerSeqKinded(ss, c, guard, later);
    SeqKindSound(fuel, LowerSeq(ss, c, guard).value.hs, later, RetSet(c), store, trace);
  }

  /** The target flag is pinned, so it stays down while nothing is left early. */
  lemma IdleKept(c: Ctx, before: Store, after: Store)
    requires WF(c) && Idle(c, before) && Keep(c, false, before, after)
    ensures Idle(c, after)
  {
    if Target(c).Some? {
      var t := Target(c).value;
      TargetSlot(c);
      if UserSlot(c, t) {
        UserSlotInRange(c, t);
      }
      assert Pinned(c, false, t);
    }
  }

  lemma Advance(s: Stmt, c: Ctx, inLoop: bool, r: Result, q: HResult, store: Store, later: seq<LocalInfo>)
    requires Legal(s, c, inLoop, later) && Idle(c, store) && r.env != [] && r.out.Normal?
    requires Matches(c, LowerStmt(s, c).value.c.scopes, inLoop, store, r, q)
    requires StoreTyped(q.store, later, RetSet(c))
    ensures At(LowerStmt(s, c).value.c, r.env, q.store, later)
  {
    var d := LowerStmt(s, c).value.c;
    LowerStmtFlow(s, c);
    PlacedFlow(c, d, inLoop);
    IdleKept(c, store, q.store);
  }

  /** What the rest of a sequence achieves, seen from its beginning. */
  lemma MatchesRest(
      c: Ctx, d: Ctx, after: seq<map<string, nat>>, inLoop: bool, store: Store, mid: Store, r: Result, q: HResult)
    requires WF(c) && WF(d) && Flow(c, d) && Pop(d.scopes) == Pop(c.scopes) && r.env != []
    requires Keep(c, false, store, mid) && Matches(d, after, inLoop, mid, r, q)
    ensures Matches(c, after, inLoop, store, r, q)
  {
    FlowExtends(c, d);
    if r.out.Normal? || LeftEarly(r.out) {
      var left := LeftEarly(r.out);
      KeepExtends(c, d, left, mid, q.store);
      KeepTransitive(c, left, store, mid, q.store);
    }
  }

  lemma {:induction false} SimSeq(
      fuel: nat, ss: seq<Stmt>, c: Ctx, guard: Option<nat>, inLoop: bool, env: Env, store: Store, trace: Trace,
      later: seq<LocalInfo>)
    requires SeqLegal(ss, c, guard, inLoop, later) && At(c, env, store, later)
    ensures SeqSimulates(fuel, ss, c, guard, inLoop, env, store, trace)
    decreases fuel, ss, 0
  {
    if ss != [] {
      SeqLegalStep(ss, c, guard, inLoop, later);
      var first, r := LowerStmt(ss[0], c).value, Exec(fuel, ss[0], env, trace);
      var q := HExec(fuel, first.h, store, trace);
      SimStmt(fuel, ss[0], c, inLoop, env, store, trace, later);
      GuardRuns(fuel, first.h, guard, store, trace);
      if r.out.Normal? {
        StmtTyped(fuel, ss[0], c, inLoop, store, trace, later);
        Advance(ss[0], c, inLoop, r, q, store, later);
        SimSeq(fuel, ss[1..], first.c, guard, inLoop, r.env, q.store, r.trace, later);
        SimSeqGoesOn(fuel, ss, c, guard, inLoop, env, store, trace, later);
      } else if LeftEarly(r.out) {
        SimSeqLeaves(fuel, ss, c, guard, inLoop, env, store, trace, later);
      } else if r.out.ZeroStep? {
        SimSeqStops(fuel, ss, c, guard, env, store, trace);
      }
    }
  }

  /** The source stops at a zero step; whatever the code does next, it has printed as much. */
  lemma SimSeqStops(
      fuel: nat, ss: seq<Stmt>, c: Ctx, guard: Option<nat>, env: Env, store: Store, trace: Trace)
    requires ss != [] && c.scopes != [] && env != [] && LowerSeq(ss, c, guard).Ok?
    requires guard.Some? ==> Load(store, guard.value) == Boolean(false)
    requires Exec(fuel, ss[0], env, trace).out.ZeroStep?
    requires Exec(fuel, ss[0], env, trace).trace <= HExec(fuel, LowerStmt(ss[0], c).value.h, store, trace).trace
    ensures ExecSeq(fuel, ss, env, trace) == Exec(fuel, ss[0], env, trace)
    ensures ExecSeq(fuel, ss, env, trace).trace <= HExecSeq(fuel, LowerSeq(ss, c, guard).value.hs, store, trace).trace
  {
    var first := LowerStmt(ss[0], c).value;
    var q, code := HExec(fuel, first.h, store, trace), LowerSeq(ss, c, guard).value.hs;
    GuardRuns(fuel, first.h, guard, store, trace);
    HExecSeqExtends(fuel, code[1..], q.store, q.trace);
    PrefixTransitive(Exec(fuel, ss[0], env, trace).trace, q.trace, HExecSeq(fuel, code[1..], q.store, q.trace).trace);
  }

  lemma SimSeqGoesOn(
      fuel: nat, ss: seq<Stmt>, c: Ctx, guard: Option<nat>, inLoop: bool, env: Env, store: Store, trace: Trace,
      later: seq<LocalInfo>)
    requires ss != [] && SeqLegal(ss, c, guard, inLoop, later) && At(c, env, store, later)
    requires Exec(fuel, ss[0], env, trace).out.Normal? && Simulates(fuel, ss[0], c, inLoop, env, store, trace)
    requires var first, r := LowerStmt(ss[0], c).value, Exec(fuel, ss[0], env, trace);
             && first.c.scopes != []
             && SeqSimulates(fuel, ss[1..], first.c, guard, inLoop, r.env,
                             HExec(fuel, first.h, store, trace).store, r.trace)
    ensures SeqSimulates(fuel, ss, c, guard, inLoop, env, store, trace)
  {
    SeqLegalStep(ss, c, guard, inLoop, later);
    var first, r := LowerStmt(ss[0], c).value, Exec(fuel, ss[0], env, trace);
    var q := HExec(fuel, first.h, store, trace);
    StmtFrames(ss[0], c, inLoop);
    GuardRuns(fuel, first.h, guard, store, trace);
    var l := LowerSeq(ss[1..], first.c, guard).value;
    var r1, q1 := ExecSeq(fuel, ss[1..], r.env, r.trace), HExecSeq(fuel, l.hs, q.store, r.trace);
    MatchesRest(c, first.c, l.c.scopes, inLoop, store, q.store, r1, q1);
    assert LowerSeq(ss, c, guard).value.hs[1..] == l.hs;
  }

  lemma SimSeqLeaves(
      fuel: nat, ss: seq<Stmt>, c: Ctx, guard: Option<nat>, inLoop: bool, env: Env, store: Store, trace: Trace,
      later: seq<LocalInfo>)
    requires ss != [] && SeqLegal(ss, c, guard, inLoop, later) && At(c, env, store, later)
    requires LeftEarly(Exec(fuel, ss[0], env, trace).out) && Simulates(fuel, ss[0], c, inLoop, env, store, trace)
    ensures SeqSimulates(fuel, ss, c, guard, inLoop, env, store, trace)
  {
    var first := LowerStmt(ss[0], c).value;
    var q := HExec(fuel, first.h, store, trace);
    var code := LowerSeq(ss, c, guard).value.hs;
    var rest := LowerSeq(ss[1..], first.c, guard).value.hs;
    assert code[1..] == rest;
    GuardRuns(fuel, first.h, guard, store, trace);
    if guard == Target(c) {
      SkipGuarded(fuel, ss[1..], first.c, guard, q.store, q.trace);
    } else {
      assert |ss| == 1;
    }
    assert HExecSeq(fuel, code, store, trace) == q;
  }

  // ----- Bodies -----

  lemma KeepPush(c: Ctx, left: bool, before: Store, after: Store)
    requires WF(c) && Keep(PushScope(c), left, before, after)
    ensures Keep(c, left, before, after)
  {
    PushExtends(c);
    KeepExtends(c, PushScope(c), left, before, after);
  }

  /** A body in a scope of its own, lowered under `guard`, leaves the scopes as they were. */
  lemma {:induction false} SimBody(
      fuel: nat, ss: seq<Stmt>, c: Ctx, guard: Option<nat>, inLoop: bool, env: Env, store: Store, trace: Trace,
      later: seq<LocalInfo>)
    requires WF(c) && SeqLegal(ss, PushScope(c), guard, inLoop, later) && At(c, env, store, later)
    ensures Matches(c, c.scopes, inLoop, store, ExecBody(fuel, ss, env, trace),
                    HExecSeq(fuel, LowerSeq(ss, PushScope(c), guard).value.hs, store, trace))
    ensures LeftEarly(ExecBody(fuel, ss, env, trace).out) ==> SeqEscapes(ss)
    decreases fuel, ss, 1
  {
    var p := PushScope(c);
    RelPush(c.scopes, env, store);
    SimSeq(fuel, ss, p, guard, inLoop, Push(env), store, trace, later);
    SeqFrames(ss, p, guard, inLoop);
    var l, r := LowerSeq(ss, p, guard).value, ExecSeq(fuel, ss, Push(env), trace);
    var q := HExecSeq(fuel, l.hs, store, trace);
    if r.out.Normal? {
      RelPop(l.c.scopes, r.env, q.store);
      KeepPush(c, false, store, q.store);
    } else if LeftEarly(r.out) {
      RelPop(c.scopes, Pop(r.env), q.store);
      KeepPush(c, true, store, q.store);
    }
  }

  lemma BlockLegal(s: Stmt, c: Ctx, inLoop: bool, later: seq<LocalInfo>)
    requires s.Block? && Legal(s, c, inLoop, later)
    ensures SeqLegal(s.body, PushScope(c), None, inLoop, later)
  {
    PushWF(c);
  }

  // ----- Conditionals -----

  ghost predicate ArmsLegal(s: Stmt, k: nat, c: Ctx, inLoop: bool, later: seq<LocalInfo>)
    requires s.If? && k <= |s.arms|
  {
    && WF(c) && Placed(c, inLoop)
    && UserStmt(s) && LowerArms(s, k, c).Ok? && FragArms(s, k, c, inLoop)
    && LowerBody(s.elseBody, LowerArms(s, k, c).value.1).Ok?
    && FragBody(s.elseBody, LowerArms(s, k, c).value.1, inLoop)
    && Within(LowerBody(s.elseBody, LowerArms(s, k, c).value.1).value.c.locals, later, RetSet(c))
    && (c.fn.Some? && !inLoop ==> Yields(s, |c.fn.value.rets|))
  }

  lemma BodyLegal(ss: seq<Stmt>, c: Ctx, inLoop: bool, later: seq<LocalInfo>)
    requires WF(c) && Placed(c, inLoop) && UserStmts(ss) && LowerBody(ss, c).Ok? && FragBody(ss, c, inLoop)
    requires Within(LowerBody(ss, c).value.c.locals, later, RetSet(c))
    requires c.fn.Some? && !inLoop ==> SeqYields(ss, |c.fn.value.rets|)
    ensures SeqLegal(ss, PushScope(c), Target(c), inLoop, later)
  {
    PushWF(c);
  }

  lemma ArmsLegalStep(s: Stmt, k: nat, c: Ctx, inLoop: bool, later: seq<LocalInfo>)
    requires s.If? && k < |s.arms| && ArmsLegal(s, k, c, inLoop, later)
    ensures var b := LowerBody(s.arms[k].body, c).value.c;
            && Flow(c, b) && b.scopes == c.scopes
            && ArmsLegal(s, k + 1, b, inLoop, later)
            && Within(c.locals, later, RetSet(c)) && Within(b.locals, later, RetSet(c))
  {
    var b := LowerBody(s.arms[k].body, c).value.c;
    LowerBodyFlow(s.arms[k].body, c);
    PlacedFlow(c, b, inLoop);
    ArmFrames(s, k, c, inLoop);
    ArmsWithin(s, k + 1, b, inLoop, later);
    FlowWithin(c, b, later);
  }

  lemma ArmFrames(s: Stmt, k: nat, c: Ctx, inLoop: bool)
    requires c.scopes != [] && s.If? && k < |s.arms| && UserStmt(s) && LowerArms(s, k, c).Ok? && FragArms(s, k, c, inLoop)
    ensures LowerBody(s.arms[k].body, c).Ok? && LowerBody(s.arms[k].body, c).value.c.scopes == c.scopes
  {
    assert FragBody(s.arms[k].body, c, inLoop);
    SeqFrames(s.arms[k].body, PushScope(c), Target(c), inLoop);
  }

  lemma ArmLegal(s: Stmt, k: nat, c: Ctx, inLoop: bool, later: seq<LocalInfo>)
    requires s.If? && k < |s.arms| && ArmsLegal(s, k, c, inLoop, later)
    requires Within(LowerBody(s.arms[k].body, c).value.c.locals, later, RetSet(c))
    ensures SeqLegal(s.arms[k].body, PushScope(c), Target(c), inLoop, later)
  {
    BodyLegal(s.arms[k].body, c, inLoop, later);
  }

  lemma ArmsWithin(s: Stmt, k: nat, c: Ctx, inLoop: bool, later: seq<LocalInfo>)
    requires s.If? && k <= |s.arms| && ArmsLegal(s, k, c, inLoop, later)
    ensures Within(c.locals, later, RetSet(c))
  {
    var d := LowerArms(s, k, c).value.1;
    LowerArmsFlow(s, k, c);
    LowerBodyFlow(s.elseBody, d);
    FlowWithin(d, LowerBody(s.elseBody, d).value.c, later);
    FlowWithin(c, d, later);
  }

  lemma IfLegal(s: Stmt, c: Ctx, inLoop: bool, later: seq<LocalInfo>)
    requires s.If? && Legal(s, c, inLoop, later)
    ensures ArmsLegal(s, 0, c, inLoop, later)
  {}

  /** Later arms are lowered with more slots but the same scopes. */
  lemma AtFlow(c: Ctx, d: Ctx, inLoop: bool, env: Env, store: Store, later: seq<LocalInfo>)
    requires Flow(c, d) && Placed(c, inLoop) && d.scopes == c.scopes && At(c, env, store, later)
    ensures At(d, env, store, later)
  {
    PlacedFlow(c, d, inLoop);
  }

  lemma MatchesFlow(c: Ctx, d: Ctx, inLoop: bool, store: Store, r: Result, q: HResult)
    requires WF(c) && WF(d) && Flow(c, d) && d.scopes == c.scopes && r.env != []
    requires Matches(d, d.scopes, inLoop, store, r, q)
    ensures Matches(c, c.scopes, inLoop, store, r, q)
  {
    MatchesRest(c, d, d.scopes, inLoop, store, store, r, q);
  }

  lemma ArmEscapes(s: Stmt, k: nat)
    requires s.If? && k < |s.arms| && SeqEscapes(s.arms[k].body)
    ensures Escapes(s)
  {
    var j :| 0 <= j < |s.arms[k].body| && Escapes(s.arms[k].body[j]);
  }

  lemma {:induction false} SimArms(
      fuel: nat, s: Stmt, k: nat, c: Ctx, h: HStmt, inLoop: bool, env: Env, store: Store, trace: Trace,
      later: seq<LocalInfo>)
    requires s.If? && k <= |s.arms| && ArmsLegal(s, k, c, inLoop, later) && At(c, env, store, later)
    requires h.HIf? && |h.arms| == |s.arms| && h.arms[k..] == LowerArms(s, k, c).value.0
    requires h.elseBody == LowerBody(s.elseBody, LowerArms(s, k, c).value.1).value.hs
    ensures Matches(c, c.scopes, inLoop, store, ExecArms(fuel, s, k, env, trace), HExecArms(fuel, h, k, store, trace))
    ensures LeftEarly(ExecArms(fuel, s, k, env, trace).out) ==> Escapes(s)
    decreases fuel, s, 0, |s.arms| - k
  {
    hide LowerSeq, ExecSeq, ExecBody, HExecSeq, LowerExpr;
    if k == |s.arms| {
      BodyLegal(s.elseBody, c, inLoop, later);
      SimBody(fuel, s.elseBody, c, Target(c), inLoop, env, store, trace, later);
    } else {
      ArmsLegalStep(s, k, c, inLoop, later);
      ExprSim(s.arms[k].cond, c, env, store, later);
      var b := LowerBody(s.arms[k].body, c).value;
      ArmsTail(s, k, c, h);
      var v := Eval(s.arms[k].cond, env);
      if v.Some? && Truthy(v.value) {
        SimArm(fuel, s, k, c, inLoop, env, store, trace, later);
      } else if v.Some? {
        AtFlow(c, b.c, inLoop, env, store, later);
        SimArms(fuel, s, k + 1, b.c, h, inLoop, env, store, trace, later);
        MatchesFlow(c, b.c, inLoop, store, ExecArms(fuel, s, k, env, trace), HExecArms(fuel, h, k, store, trace));
      }
    }
  }

  /** The code of the `k`-th arm and of those behind it. */
  lemma ArmsTail(s: Stmt, k: nat, c: Ctx, h: HStmt)
    requires c.scopes != [] && s.If? && k < |s.arms| && LowerArms(s, k, c).Ok?
    requires h.HIf? && |h.arms| == |s.arms| && h.arms[k..] == LowerArms(s, k, c).value.0
    ensures var b := LowerBody(s.arms[k].body, c).value;
            && h.arms[k] == HArm(LowerExpr(s.arms[k].cond, c).value, b.hs)
            && LowerArms(s, k + 1, b.c).Ok? && h.arms[k + 1..] == LowerArms(s, k + 1, b.c).value.0
            && LowerArms(s, k + 1, b.c).value.1 == LowerArms(s, k, c).value.1
  {
    assert h.arms[k] == h.arms[k..][0];
    assert h.arms[k + 1..] == h.arms[k..][1..];
  }

  lemma {:induction false} SimArm(
      fuel: nat, s: Stmt, k: nat, c: Ctx, inLoop: bool, env: Env, store: Store, trace: Trace, later: seq<LocalInfo>)
    requires s.If? && k < |s.arms| && ArmsLegal(s, k, c, inLoop, later) && At(c, env, store, later)
    requires Within(LowerBody(s.arms[k].body, c).value.c.locals, later, RetSet(c))
    ensures env != []
    ensures var r := ExecBody(fuel, s.arms[k].body, env, trace);
            && Matches(c, c.scopes, inLoop, store, r,
                       HExecSeq(fuel, LowerBody(s.arms[k].body, c).value.hs, store, trace))
            && (LeftEarly(r.out) ==> Escapes(s))
    decreases fuel, s, 0, 0
  {
    ArmLegal(s, k, c, inLoop, later);
    SimBody(fuel, s.arms[k].body, c, Target(c), inLoop, env, store, trace, later);
    if LeftEarly(ExecBody(fuel, s.arms[k].body, env, trace).out) {
      ArmEscapes(s, k);
    }
  }

  // ----- Loops -----

  /** How the iterations of a loop end; `c1` is the context inside it. */
  ghost predicate LoopMatches(c1: Ctx, before: Store, r: Result, q: HResult) {
    && SameTrace(r, q)
    && match r.out
       case Normal => q.out.HNormal? && Rel(c1.scopes, r.env, q.store) && Keep(c1, true, before, q.store) && Idle(c1, q.store)
       case Broke =>
         q.out.HNormal? && Rel(c1.scopes, r.env, q.store) && Keep(c1, true, before, q.store) && FlagSet(Target(c1), q.store)
       case Returned(_) => false
       case Trapped => q.out.HTrapped?
       case ZeroStep => true
       case OutOfFuel => q.out.HOutOfFuel?
  }

  /** `p` is the context of a loop body and `b` the one it ends in. */
  ghost predicate LoopLegal(body: seq<Stmt>, c1: Ctx, p: Ctx, later: seq<LocalInfo>) {
    && WF(c1) && Placed(c1, true) && Within(c1.locals, later, RetSet(c1))
    && Extends(c1, p) && p.scopes != [] && Pop(p.scopes) == c1.scopes
    && SeqLegal(body, p, Target(c1), true, later)
  }

  /** What one run of a loop body, from context `p` to `b`, achieves for the loop. */
  ghost predicate Iterated(c1: Ctx, p: Ctx, b: Ctx, store: Store, r: Result, q: HResult)
    requires r.env != []
  {
    && SameTrace(r, q)
    && match r.out
       case Normal =>
         && q.out.HNormal? && Rel(c1.scopes, Pop(r.env), q.store) && Idle(c1, q.store) && Keep(c1, false, store, q.store)
         && Rel(b.scopes, r.env, q.store) && Keep(p, false, store, q.store)
       case Broke =>
         && q.out.HNormal? && Rel(c1.scopes, Pop(r.env), q.store) && FlagSet(Target(c1), q.store)
         && Keep(c1, true, store, q.store) && Keep(p, true, store, q.store)
       case Returned(_) => false
       case Trapped => q.out.HTrapped?
       case ZeroStep => true
       case OutOfFuel => q.out.HOutOfFuel?
  }

  /** After one run of the body. */
  lemma IterationDone(
      body: seq<Stmt>, c1: Ctx, p: Ctx, store: Store, r: Result, q: HResult, later: seq<LocalInfo>)
    requires LoopLegal(body, c1, p, later) && Idle(c1, store) && r.env != []
    requires Matches(p, LowerSeq(body, p, Target(c1)).value.c.scopes, true, store, r, q)
    ensures Iterated(c1, p, LowerSeq(body, p, Target(c1)).value.c, store, r, q)
  {
    var b := LowerSeq(body, p, Target(c1)).value.c;
    SeqFrames(body, p, Target(c1), true);
    if r.out.Normal? {
      RelPop(b.scopes, r.env, q.store);
      KeepExtends(c1, p, false, store, q.store);
      IdleKept(c1, store, q.store);
    } else if r.out.Broke? {
      KeepExtends(c1, p, true, store, q.store);
    }
  }

  /** Source and code run the body once. */
  lemma {:induction false} SimIteration(
      fuel: nat, body: seq<Stmt>, c1: Ctx, p: Ctx, env: Env, store: Store, trace: Trace,
      later: seq<LocalInfo>)
    requires LoopLegal(body, c1, p, later) && Idle(c1, store) && At(p, env, store, later)
    ensures var l := LowerSeq(body, p, Target(c1)).value;
            var r, q := ExecSeq(fuel, body, env, trace), HExecSeq(fuel, l.hs, store, trace);
            && Iterated(c1, p, l.c, store, r, q)
            && StoreTyped(q.store, later, RetSet(c1))
    decreases fuel, body, 1
  {
    SimSeq(fuel, body, p, Target(c1), true, env, store, trace, later);
    SeqTyped(fuel, body, p, Target(c1), true, store, trace, later);
    var l := LowerSeq(body, p, Target(c1)).value;
    IterationDone(body, c1, p, store, ExecSeq(fuel, body, env, trace), HExecSeq(fuel, l.hs, store, trace), later);
  }

  /** One more iteration before the rest of the loop. */
  lemma LoopMatchesRest(c1: Ctx, store: Store, mid: Store, r: Result, q: HResult)
    requires Keep(c1, false, store, mid) && LoopMatches(c1, mid, r, q)
    ensures LoopMatches(c1, store, r, q)
  {
    if r.out.Normal? || r.out.Broke? {
      KeepTransitive(c1, true, store, mid, q.store);
    }
  }

  lemma KeepWeaken(c: Ctx, before: Store, after: Store)
    requires Keep(c, false, before, after)
    ensures Keep(c, true, before, after)
  {
    forall j: nat | Pinned(c, true, j) ensures Load(after, j) == Load(before, j) {
      assert Pinned(c, false, j);
    }
  }

  lemma TotalLater(e: Expr, c: Ctx, store: Store, later: seq<LocalInfo>)
    requires WF(c) && UserExpr(e) && LowerExpr(e, c).Ok? && TotalExpr(LowerExpr(e, c).value, c.locals)
    requires Within(c.locals, later, RetSet(c)) && StoreTyped(store, later, RetSet(c))
    ensures HEval(LowerExpr(e, c).value, store).Some?
  {
    LowerExprKinded(e, c);
    assert StoreTyped(store, c.locals, RetSet(c));
    TotalSound(LowerExpr(e, c).value, c.locals, RetSet(c), store);
  }

  /** What one iteration, ending in `next`, achieves for the loop. */
  ghost predicate Continues(c1: Ctx, before: Store, next: Store, r: Result, q: HResult)
    requires r.env != []
  {
    && SameTrace(r, q)
    && match r.out
       case Normal =>
         q.out.HNormal? && Rel(c1.scopes, Pop(r.env), next) && Idle(c1, next) && Keep(c1, false, before, next)
       case Broke =>
         q.out.HNormal? && Rel(c1.scopes, Pop(r.env), next) && FlagSet(Target(c1), next) && Keep(c1, true, before, next)
       case Returned(_) => false
       case Trapped => q.out.HTrapped?
       case ZeroStep => true
       case OutOfFuel => q.out.HOutOfFuel?
  }

  lemma AtPush(c1: Ctx, env: Env, store: Store, later: seq<LocalInfo>)
    requires At(c1, env, store, later)
    ensures At(PushScope(c1), Push(env), store, later)
  {
    RelPush(c1.scopes, env, store);
  }

  ghost predicate WhileLegal(s: Stmt, c1: Ctx, h: HStmt, later: seq<LocalInfo>) {
    && s.While? && h.HWhile? && h.breakId == Target(c1)
    && LoopLegal(s.body, c1, PushScope(c1), later)
    && h.body == LowerSeq(s.body, PushScope(c1), Target(c1)).value.hs
    && UserExpr(s.cond) && LowerExpr(s.cond, c1) == Ok(h.cond) && SafeExpr(s.cond, c1)
    && (Target(c1).Some? ==> TotalExpr(h.cond, c1.locals))
  }

  /** What one iteration achieves. */
  ghost predicate WhileRound(
      fuel: nat, s: Stmt, c1: Ctx, h: HStmt, env: Env, store: Store, trace: Trace, later: seq<LocalInfo>)
    requires s.While? && h.HWhile? && env != []
  {
    var r, q := ExecSeq(fuel, s.body, Push(env), trace), HExecSeq(fuel, h.body, store, trace);
    && Continues(c1, store, q.store, r, q)
    && (r.out.Normal? ==> At(c1, Pop(r.env), q.store, later) && HEval(h.cond, q.store) == Eval(s.cond, Pop(r.env)))
    && (r.out.Broke? ==> HEval(h.cond, q.store).Some?)
  }

  lemma {:induction false} WhileIteration(
      fuel: nat, s: Stmt, c1: Ctx, h: HStmt, env: Env, store: Store, trace: Trace, later: seq<LocalInfo>)
    requires WhileLegal(s, c1, h, later) && At(c1, env, store, later)
    ensures env != [] && WhileRound(fuel, s, c1, h, env, store, trace, later)
    decreases fuel, s, 0
  {
    AtPush(c1, env, store, later);
    SimIteration(fuel, s.body, c1, PushScope(c1), Push(env), store, trace, later);
    var r, q := ExecSeq(fuel, s.body, Push(env), trace), HExecSeq(fuel, h.body, store, trace);
    if r.out.Normal? {
      ExprSim(s.cond, c1, Pop(r.env), q.store, later);
    } else if r.out.Broke? {
      TotalLater(s.cond, c1, q.store, later);
    }
  }

  /** All iterations, given each. */
  lemma {:induction false} WhileRounds(
      fuel: nat, s: Stmt, c1: Ctx, h: HStmt, env: Env, store: Store, trace: Trace, later: seq<LocalInfo>)
    requires s.While? && h.HWhile? && h.breakId == Target(c1) && env != [] && At(c1, env, store, later)
    requires HEval(h.cond, store) == Eval(s.cond, env)
    requires forall f: nat, e: Env, st: Store, t: Trace {:trigger WhileRound(f, s, c1, h, e, st, t, later)}
               | f < fuel && e != [] && At(c1, e, st, later) :: WhileRound(f, s, c1, h, e, st, t, later)
    ensures LoopMatches(c1, store, ExecWhile(fuel, s, env, trace), HExecWhile(fuel, h, store, trace))
    decreases fuel
  {
    var v := Eval(s.cond, env);
    if v.Some? && Truthy(v.value) && fuel > 0 {
      assert WhileRound(fuel - 1, s, c1, h, env, store, trace, later);
      var r, q := ExecSeq(fuel - 1, s.body, Push(env), trace), HExecSeq(fuel - 1, h.body, store, trace);
      if r.out.Normal? {
        WhileNext(fuel - 1, s, c1, h, env, store, trace, later);
        WhileRounds(fuel - 1, s, c1, h, Pop(r.env), q.store, r.trace, later);
      }
      WhileStep(fuel, s, c1, h, env, store, trace, later);
    } else {
      WhileStops(fuel, s, c1, h, env, store, trace);
    }
  }

  /** An iteration that ends normally ends where the next one starts. */
  lemma WhileNext(
      fuel: nat, s: Stmt, c1: Ctx, h: HStmt, env: Env, store: Store, trace: Trace, later: seq<LocalInfo>)
    requires s.While? && h.HWhile? && env != [] && WhileRound(fuel, s, c1, h, env, store, trace, later)
    requires ExecSeq(fuel, s.body, Push(env), trace).out.Normal?
    ensures var r, q := ExecSeq(fuel, s.body, Push(env), trace), HExecSeq(fuel, h.body, store, trace);
            && Pop(r.env) != [] && q.trace == r.trace
            && At(c1, Pop(r.env), q.store, later) && HEval(h.cond, q.store) == Eval(s.cond, Pop(r.env))
  {}

  lemma WhileStops(fuel: nat, s: Stmt, c1: Ctx, h: HStmt, env: Env, store: Store, trace: Trace)
    requires s.While? && h.HWhile? && h.breakId == Target(c1) && env != []
    requires Rel(c1.scopes, env, store) && Idle(c1, store) && HEval(h.cond, store) == Eval(s.cond, env)
    requires fuel == 0 || Eval(s.cond, env).None? || !Truthy(Eval(s.cond, env).value)
    ensures LoopMatches(c1, store, ExecWhile(fuel, s, env, trace), HExecWhile(fuel, h, store, trace))
  {}

  lemma {:induction false} SimWhile(
      fuel: nat, s: Stmt, c1: Ctx, h: HStmt, env: Env, store: Store, trace: Trace, later: seq<LocalInfo>)
    requires WhileLegal(s, c1, h, later) && At(c1, env, store, later)
    ensures LoopMatches(c1, store, ExecWhile(fuel, s, env, trace), HExecWhile(fuel, h, store, trace))
    decreases fuel, s, 1
  {
    ExprSim(s.cond, c1, env, store, later);
    forall f: nat, e: Env, st: Store, t: Trace | f < fuel && e != [] && At(c1, e, st, later)
      ensures WhileRound(f, s, c1, h, e, st, t, later)
    {
      WhileIteration(f, s, c1, h, e, st, t, later);
    }
    WhileRounds(fuel, s, c1, h, env, store, trace, later);
  }

  lemma WhileStep(
      fuel: nat, s: Stmt, c1: Ctx, h: HStmt, env: Env, store: Store, trace: Trace, later: seq<LocalInfo>)
    requires s.While? && h.HWhile? && h.breakId == Target(c1) && env != [] && fuel > 0 && Idle(c1, store)
    requires Eval(s.cond, env).Some? && Truthy(Eval(s.cond, env).value) && HEval(h.cond, store) == Eval(s.cond, env)
    requires WhileRound(fuel - 1, s, c1, h, env, store, trace, later)
    requires var r, q := ExecSeq(fuel - 1, s.body, Push(env), trace), HExecSeq(fuel - 1, h.body, store, trace);
             r.out.Normal? ==>
               LoopMatches(c1, q.store, ExecWhile(fuel - 1, s, Pop(r.env), r.trace),
                           HExecWhile(fuel - 1, h, q.store, r.trace))
    ensures LoopMatches(c1, store, ExecWhile(fuel, s, env, trace), HExecWhile(fuel, h, store, trace))
  {
    var r, q := ExecSeq(fuel - 1, s.body, Push(env), trace), HExecSeq(fuel - 1, h.body, store, trace);
    assert ExecBody(fuel - 1, s.body, env, trace) == r.(env := Pop(r.env));
    if r.out.Normal? {
      LoopMatchesRest(c1, store, q.store, ExecWhile(fuel - 1, s, Pop(r.env), r.trace),
                      HExecWhile(fuel - 1, h, q.store, q.trace));
    } else if r.out.ZeroStep? {
      HLoopExtends(fuel - 1, h, 0, 0, q.store, q.trace);
      PrefixTransitive(r.trace, q.trace, HExecWhile(fuel - 1, h, q.store, q.trace).trace);
    }
  }

  ghost predicate RepeatLegal(s: Stmt, c1: Ctx, h: HStmt, later: seq<LocalInfo>) {
    && s.Repeat? && h.HRepeat? && h.breakId == Target(c1)
    && LoopLegal(s.body, c1, PushScope(c1), later)
    && h.body == LowerSeq(s.body, PushScope(c1), Target(c1)).value.hs
    && var b := LowerSeq(s.body, PushScope(c1), Target(c1)).value.c;
    && WF(b) && RetSet(b) == RetSet(c1)
    && UserExpr(s.cond) && LowerExpr(s.cond, b) == Ok(h.cond) && SafeExpr(s.cond, b)
    && (Target(c1).Some? ==> TotalExpr(h.cond, b.locals))
  }

  /** What one iteration achieves. */
  ghost predicate RepeatRound(
      fuel: nat, s: Stmt, c1: Ctx, h: HStmt, env: Env, store: Store, trace: Trace, later: seq<LocalInfo>)
    requires s.Repeat? && h.HRepeat? && env != []
  {
    var r, q := ExecSeq(fuel, s.body, Push(env), trace), HExecSeq(fuel, h.body, store, trace);
    && Continues(c1, store, q.store, r, q)
    && (r.out.Normal? ==> At(c1, Pop(r.env), q.store, later) && HEval(h.cond, q.store) == Eval(s.cond, r.env))
    && (r.out.Broke? ==> HEval(h.cond, q.store).Some?)
  }

  lemma {:induction false} RepeatIteration(
      fuel: nat, s: Stmt, c1: Ctx, h: HStmt, env: Env, store: Store, trace: Trace, later: seq<LocalInfo>)
    requires RepeatLegal(s, c1, h, later) && At(c1, env, store, later)
    ensures env != [] && RepeatRound(fuel, s, c1, h, env, store, trace, later)
    decreases fuel, s, 0
  {
    AtPush(c1, env, store, later);
    SimIteration(fuel, s.body, c1, PushScope(c1), Push(env), store, trace, later);
    RepeatCond(s, c1, h, store, ExecSeq(fuel, s.body, Push(env), trace), HExecSeq(fuel, h.body, store, trace), later);
  }

  /** The condition of `repeat` is lowered where the body ends. */
  lemma RepeatCond(s: Stmt, c1: Ctx, h: HStmt, store: Store, r: Result, q: HResult, later: seq<LocalInfo>)
    requires RepeatLegal(s, c1, h, later) && r.env != [] && StoreTyped(q.store, later, RetSet(c1))
    requires Iterated(c1, PushScope(c1), LowerSeq(s.body, PushScope(c1), Target(c1)).value.c, store, r, q)
    ensures r.out.Normal? ==> HEval(h.cond, q.store) == Eval(s.cond, r.env)
    ensures r.out.Broke? ==> HEval(h.cond, q.store).Some?
  {
    var b := LowerSeq(s.body, PushScope(c1), Target(c1)).value.c;
    if r.out.Normal? {
      ExprSim(s.cond, b, r.env, q.store, later);
    } else if r.out.Broke? {
      TotalLater(s.cond, b, q.store, later);
    }
  }

  /** All iterations, given each. */
  lemma {:induction false} RepeatRounds(
      fuel: nat, s: Stmt, c1: Ctx, h: HStmt, env: Env, store: Store, trace: Trace, later: seq<LocalInfo>)
    requires s.Repeat? && h.HRepeat? && h.breakId == Target(c1) && env != [] && At(c1, env, store, later)
    requires forall f: nat, e: Env, st: Store, t: Trace {:trigger RepeatRound(f, s, c1, h, e, st, t, later)}
               | f < fuel && e != [] && At(c1, e, st, later) :: RepeatRound(f, s, c1, h, e, st, t, later)
    ensures LoopMatches(c1, store, ExecRepeat(fuel, s, env, trace), HExecRepeat(fuel, h, store, trace))
    decreases fuel
  {
    if fuel > 0 {
      assert RepeatRound(fuel - 1, s, c1, h, env, store, trace, later);
      var r, q := ExecSeq(fuel - 1, s.body, Push(env), trace), HExecSeq(fuel - 1, h.body, store, trace);
      if r.out.Normal? && Eval(s.cond, r.env).Some? && !Truthy(Eval(s.cond, r.env).value) {
        RepeatRounds(fuel - 1, s, c1, h, Pop(r.env), q.store, q.trace, later);
      }
      RepeatStep(fuel, s, c1, h, env, store, trace);
    }
  }

  lemma {:induction false} SimRepeat(
      fuel: nat, s: Stmt, c1: Ctx, h: HStmt, env: Env, store: Store, trace: Trace, later: seq<LocalInfo>)
    requires RepeatLegal(s, c1, h, later) && At(c1, env, store, later)
    ensures LoopMatches(c1, store, ExecRepeat(fuel, s, env, trace), HExecRepeat(fuel, h, store, trace))
    decreases fuel, s, 1
  {
    forall f: nat, e: Env, st: Store, t: Trace | f < fuel && e != [] && At(c1, e, st, later)
      ensures RepeatRound(f, s, c1, h, e, st, t, later)
    {
      RepeatIteration(f, s, c1, h, e, st, t, later);
    }
    RepeatRounds(fuel, s, c1, h, env, store, trace, later);
  }

  lemma RepeatStep(fuel: nat, s: Stmt, c1: Ctx, h: HStmt, env: Env, store: Store, trace: Trace)
    requires s.Repeat? && h.HRepeat? && h.breakId == Target(c1) && env != [] && fuel > 0
    requires var r, q := ExecSeq(fuel - 1, s.body, Push(env), trace), HExecSeq(fuel - 1, h.body, store, trace);
             && Continues(c1, store, q.store, r, q)
             && (r.out.Normal? ==> HEval(h.cond, q.store) == Eval(s.cond, r.env))
             && (r.out.Normal? && Eval(s.cond, r.env).Some? && !Truthy(Eval(s.cond, r.env).value) ==>
                   LoopMatches(c1, q.store, ExecRepeat(fuel - 1, s, Pop(r.env), r.trace),
                               HExecRepeat(fuel - 1, h, q.store, q.trace)))
             && (r.out.Broke? ==> HEval(h.cond, q.store).Some?)
    ensures LoopMatches(c1, store, ExecRepeat(fuel, s, env, trace), HExecRepeat(fuel, h, store, trace))
  {
    var r, q := ExecSeq(fuel - 1, s.body, Push(env), trace), HExecSeq(fuel - 1, h.body, store, trace);
    if r.out.Normal? {
      KeepWeaken(c1, store, q.store);
      if Eval(s.cond, r.env).Some? && !Truthy(Eval(s.cond, r.env).value) {
        LoopMatchesRest(c1, store, q.store, ExecRepeat(fuel - 1, s, Pop(r.env), r.trace),
                        HExecRepeat(fuel - 1, h, q.store, q.trace));
      }
    } else if r.out.ZeroStep? {
      HLoopExtends(fuel - 1, h, 0, 0, q.store, q.trace);
      PrefixTransitive(r.trace, q.trace, HExecRepeat(fuel - 1, h, q.store, q.trace).trace);
    }
  }

  ghost predicate ForLegal(s: Stmt, c1: Ctx, h: HStmt, later: seq<LocalInfo>) {
    && s.ForNumeric? && h.HFor? && h.breakId == Target(c1) && h.varId == |c1.locals|
    && UserName(s.loopVar)
    && LoopLegal(s.body, c1, EnterFor(c1, s.loopVar), later)
    && h.body == LowerSeq(s.body, EnterFor(c1, s.loopVar), Target(c1)).value.hs
  }

  /** The loop variable is read-only, so the body leaves its slot alone. */
  lemma ForVarKept(c1: Ctx, v: string, left: bool, before: Store, after: Store)
    requires WF(c1) && WF(EnterFor(c1, v)) && Keep(EnterFor(c1, v), left, before, after)
    ensures Load(after, |c1.locals|) == Load(before, |c1.locals|)
  {
    var p := EnterFor(c1, v);
    assert ExitSlots(p) <= Hidden(c1) by {
      if Target(c1).Some? {
        TargetSlot(c1);
      }
    }
    assert Pinned(p, left, |c1.locals|);
  }

  lemma EnterIteration(s: Stmt, c1: Ctx, h: HStmt, env: Env, store: Store, i: int, later: seq<LocalInfo>)
    requires ForLegal(s, c1, h, later) && At(c1, env, store, later) && Load(store, h.varId) == Num(i)
    ensures At(EnterFor(c1, s.loopVar), Bind(Push(env), s.loopVar, Num(i)), store, later)
  {
    RelPush(c1.scopes, env, store);
    BindRel(PushScope(c1), s.loopVar, NumberKind, Push(env), Num(i), store);
  }

  /** Writing the counter is a fresh write. */
  lemma WriteCounter(s: Stmt, c1: Ctx, h: HStmt, env: Env, store: Store, n: int, later: seq<LocalInfo>)
    requires ForLegal(s, c1, h, later) && At(c1, env, store, later)
    ensures At(c1, env, store[h.varId := Num(n)], later) && Keep(c1, false, store, store[h.varId := Num(n)])
  {
    var next := store[h.varId := Num(n)];
    FreshWrites(c1, env, store, next);
    IdleKept(c1, store, next);
    var p := EnterFor(c1, s.loopVar);
    LowerSeqFlow(s.body, p, Target(c1));
    FlowWithin(p, LowerSeq(s.body, p, Target(c1)).value.c, later);
    assert p.locals[|c1.locals|].kind == NumberKind;
  }

  /** What one iteration from `i`, ending in `r` and `q`, achieves. */
  ghost predicate Advances(
      c1: Ctx, h: HStmt, i: int, step: int, before: Store, r: Result, q: HResult, later: seq<LocalInfo>)
    requires h.HFor? && r.env != []
  {
    var next := q.store[h.varId := Num(i + step)];
    && Continues(c1, before, next, r, q)
    && (r.out.Normal? ==> At(c1, Pop(r.env), next, later))
    && (r.out.Normal? || r.out.Broke? ==> Load(q.store, h.varId) == Num(i))
  }

  ghost predicate ForRound(
      fuel: nat, s: Stmt, c1: Ctx, h: HStmt, i: int, step: int, env: Env, store: Store, trace: Trace,
      later: seq<LocalInfo>)
    requires s.ForNumeric? && h.HFor? && env != []
  {
    Advances(c1, h, i, step, store, ExecSeq(fuel, s.body, Bind(Push(env), s.loopVar, Num(i)), trace),
             HExecSeq(fuel, h.body, store, trace), later)
  }

  lemma {:induction false} ForIteration(
      fuel: nat, s: Stmt, c1: Ctx, h: HStmt, i: int, step: int, env: Env, store: Store, trace: Trace,
      later: seq<LocalInfo>)
    requires ForLegal(s, c1, h, later) && At(c1, env, store, later) && Load(store, h.varId) == Num(i)
    ensures env != [] && ForRound(fuel, s, c1, h, i, step, env, store, trace, later)
    decreases fuel, s, 0
  {
    var env1 := Bind(Push(env), s.loopVar, Num(i));
    EnterIteration(s, c1, h, env, store, i, later);
    SimIteration(fuel, s.body, c1, EnterFor(c1, s.loopVar), env1, store, trace, later);
    ForAdvance(s, c1, h, i, step, store, ExecSeq(fuel, s.body, env1, trace), HExecSeq(fuel, h.body, store, trace), later);
  }

  /** Between two iterations: the body has left the counter alone, and stepping it disturbs nothing. */
  lemma ForAdvance(
      s: Stmt, c1: Ctx, h: HStmt, i: int, step: int, store: Store, r: Result, q: HResult, later: seq<LocalInfo>)
    requires ForLegal(s, c1, h, later) && r.env != [] && StoreTyped(q.store, later, RetSet(c1))
    requires Load(store, h.varId) == Num(i)
    requires Iterated(c1, EnterFor(c1, s.loopVar),
                      LowerSeq(s.body, EnterFor(c1, s.loopVar), Target(c1)).value.c, store, r, q)
    ensures Advances(c1, h, i, step, store, r, q, later)
  {
    var next := q.store[h.varId := Num(i + step)];
    if r.out.Normal? {
      ForVarKept(c1, s.loopVar, false, store, q.store);
      WriteCounter(s, c1, h, Pop(r.env), q.store, i + step, later);
      KeepTransitive(c1, false, store, q.store, next);
    } else if r.out.Broke? {
      ForVarKept(c1, s.loopVar, true, store, q.store);
      BreakFor(c1, Pop(r.env), store, q.store, next);
    }
  }

  /** All iterations, given each. */
  lemma {:induction false} ForRounds(
      fuel: nat, s: Stmt, c1: Ctx, h: HStmt, i: int, stop: int, step: int, env: Env, store: Store, trace: Trace,
      later: seq<LocalInfo>)
    requires s.ForNumeric? && h.HFor? && h.breakId == Target(c1) && env != []
    requires At(c1, env, store, later) && Load(store, h.varId) == Num(i)
    requires forall f: nat, j: int, e: Env, st: Store, t: Trace {:trigger ForRound(f, s, c1, h, j, step, e, st, t, later)}
               | f < fuel && e != [] && At(c1, e, st, later) && Load(st, h.varId) == Num(j) ::
               ForRound(f, s, c1, h, j, step, e, st, t, later)
    ensures LoopMatches(c1, store, ExecFor(fuel, s, i, stop, step, env, trace),
                        HExecFor(fuel, h, stop, step, store, trace))
    decreases fuel
  {
    if ForGoesOn(i, stop, step) && fuel > 0 {
      assert ForRound(fuel - 1, s, c1, h, i, step, env, store, trace, later);
      var r := ExecSeq(fuel - 1, s.body, Bind(Push(env), s.loopVar, Num(i)), trace);
      var q := HExecSeq(fuel - 1, h.body, store, trace);
      if r.out.Normal? {
        ForRounds(fuel - 1, s, c1, h, i + step, stop, step, Pop(r.env), q.store[h.varId := Num(i + step)], q.trace, later);
      }
      ForStep(fuel, s, c1, h, i, stop, step, env, store, trace);
    }
  }

  lemma {:induction false} SimFor(
      fuel: nat, s: Stmt, c1: Ctx, h: HStmt, i: int, stop: int, step: int, env: Env, store: Store, trace: Trace,
      later: seq<LocalInfo>)
    requires ForLegal(s, c1, h, later) && At(c1, env, store, later) && Load(store, h.varId) == Num(i)
    ensures LoopMatches(c1, store, ExecFor(fuel, s, i, stop, step, env, trace),
                        HExecFor(fuel, h, stop, step, store, trace))
    decreases fuel, s, 1
  {
    forall f: nat, j: int, e: Env, st: Store, t: Trace
      | f < fuel && e != [] && At(c1, e, st, later) && Load(st, h.varId) == Num(j)
      ensures ForRound(f, s, c1, h, j, step, e, st, t, later)
    {
      ForIteration(f, s, c1, h, j, step, e, st, t, later);
    }
    ForRounds(fuel, s, c1, h, i, stop, step, env, store, trace, later);
  }

  lemma ForStep(
      fuel: nat, s: Stmt, c1: Ctx, h: HStmt, i: int, stop: int, step: int, env: Env, store: Store, trace: Trace)
    requires s.ForNumeric? && h.HFor? && h.breakId == Target(c1) && env != [] && fuel > 0 && Idle(c1, store)
    requires Load(store, h.varId) == Num(i) && ForGoesOn(i, stop, step)
    requires var env1 := Bind(Push(env), s.loopVar, Num(i));
             var r, q := ExecSeq(fuel - 1, s.body, env1, trace), HExecSeq(fuel - 1, h.body, store, trace);
             var next := q.store[h.varId := Num(i + step)];
             && Continues(c1, store, next, r, q)
             && (r.out.Normal? || r.out.Broke? ==> Load(q.store, h.varId) == Num(i))
             && (r.out.Normal? ==>
                   LoopMatches(c1, next, ExecFor(fuel - 1, s, i + step, stop, step, Pop(r.env), r.trace),
                               HExecFor(fuel - 1, h, stop, step, next, q.trace)))
    ensures LoopMatches(c1, store, ExecFor(fuel, s, i, stop, step, env, trace),
                        HExecFor(fuel, h, stop, step, store, trace))
  {
    var env1 := Bind(Push(env), s.loopVar, Num(i));
    var r, q := ExecSeq(fuel - 1, s.body, env1, trace), HExecSeq(fuel - 1, h.body, store, trace);
    var next := q.store[h.varId := Num(i + step)];
    if r.out.Normal? {
      LoopMatchesRest(c1, store, next, ExecFor(fuel - 1, s, i + step, stop, step, Pop(r.env), r.trace),
                      HExecFor(fuel - 1, h, stop, step, next, q.trace));
    } else if r.out.ZeroStep? && Load(q.store, h.varId).Num? {
      var on := q.store[h.varId := Num(Load(q.store, h.varId).n + step)];
      HLoopExtends(fuel - 1, h, stop, step, on, q.trace);
      PrefixTransitive(r.trace, q.trace, HExecFor(fuel - 1, h, stop, step, on, q.trace).trace);
    }
  }

  lemma BreakFor(c1: Ctx, env: Env, store: Store, mid: Store, next: Store)
    requires WF(c1) && Rel(c1.scopes, env, mid) && Keep(c1, true, store, mid) && FlagSet(Target(c1), mid)
    requires forall j: nat | j < |c1.locals| :: Load(next, j) == Load(mid, j)
    ensures Rel(c1.scopes, env, next) && Keep(c1, true, store, next) && FlagSet(Target(c1), next)
  {
    FreshWrites(c1, env, mid, next);
    TargetSlot(c1);
  }

  // ----- Entering and leaving a loop -----

  function Cleared(flag: Option<nat>, store: Store): Store {
    if flag.Some? then store[flag.value := Boolean(false)] else store
  }

  lemma WrapInitRuns(fuel: nat, h: HStmt, flag: Option<nat>, store: Store, trace: Trace)
    ensures HExec(fuel, WrapInit(h, flag), store, trace) == HExec(fuel, h, Cleared(flag, store), trace)
  {
    if flag.Some? {
      var code := [HLocalInit(flag.value, HBool(false)), h];
      assert code[1..] == [h];
      assert HExec(fuel, code[0], store, trace) == HResult(HNormal, Cleared(flag, store), trace);
      SingleRun(fuel, h, Cleared(flag, store), trace);
    }
  }

  lemma EnterLoopPlaced(c: Ctx, body: seq<Stmt>)
    requires WF(c)
    ensures var c1 := EnterLoop(c, body);
            WF(c1) && Placed(c1, true) && RetSet(c1) == RetSet(c) && (Target(c1).Some? ==> Target(c1).value == |c.locals|)
  {
    EnterLoopWF(c, body);
    assert |c.locals| !in Hidden(c);
  }

  lemma EnterLoopAt(c: Ctx, body: seq<Stmt>, env: Env, store: Store, later: seq<LocalInfo>)
    requires WF(c) && At(c, env, store, later) && Within(EnterLoop(c, body).locals, later, RetSet(c))
    ensures At(EnterLoop(c, body), env, Cleared(Target(EnterLoop(c, body)), store), later)
    ensures Rel(c.scopes, env, Cleared(Target(EnterLoop(c, body)), store))
    ensures forall j: nat | j < |c.locals| :: Load(Cleared(Target(EnterLoop(c, body)), store), j) == Load(store, j)
  {
    EnterLoopPlaced(c, body);
    var c1 := EnterLoop(c, body);
    var next := Cleared(Target(c1), store);
    FreshWrites(c, env, store, next);
    if Target(c1).Some? {
      TargetSlot(c1);
      EnterLoopWF(c, body);
      var name := BROKEN_PREFIX + Decimal(|c.locals|);
      assert !UserName(name);
      HiddenBindRel(c, name, BoolKind, env, next);
    }
  }

  /** The flag is cleared, and the loop starts where its statement does. */
  lemma LoopOpens(
      fuel: nat, body: seq<Stmt>, c: Ctx, h: HStmt, env: Env, store: Store, trace: Trace, later: seq<LocalInfo>)
      returns (mid: Store)
    requires WF(c) && At(c, env, store, later) && Within(EnterLoop(c, body).locals, later, RetSet(c))
    ensures At(EnterLoop(c, body), env, mid, later) && Rel(c.scopes, env, mid)
    ensures HExec(fuel, WrapInit(h, Target(EnterLoop(c, body))), store, trace) == HExec(fuel, h, mid, trace)
    ensures forall j: nat | j < |c.locals| :: Load(mid, j) == Load(store, j)
  {
    var flag := Target(EnterLoop(c, body));
    mid := Cleared(flag, store);
    EnterLoopAt(c, body, env, store, later);
    WrapInitRuns(fuel, h, flag, store, trace);
  }

  /** Seen from outside, a loop keeps all but the writable variables. */
  lemma KeepLoop(c: Ctx, body: seq<Stmt>, before: Store, mid: Store, after: Store)
    requires WF(c) && Keep(EnterLoop(c, body), true, mid, after)
    requires forall j: nat | j < |c.locals| :: Load(mid, j) == Load(before, j)
    ensures Keep(c, false, before, after)
  {
    var c1 := EnterLoop(c, body);
    EnterLoopWF(c, body);
    EnterLoopPlaced(c, body);
    forall j: nat | Pinned(c, false, j)
      ensures Load(after, j) == Load(before, j)
    {
      assert UserSlot(c1, j) ==> UserSlot(c, j);
      assert Pinned(c1, true, j);
    }
  }

  predicate IsLoop(s: Stmt) { s.While? || s.Repeat? || s.ForNumeric? }

  /** The iterations of a loop statement. */
  function LoopRun(fuel: nat, s: Stmt, env: Env, trace: Trace): Result
    requires env != [] && IsLoop(s)
  {
    match s
    case While(_, _) => ExecWhile(fuel, s, env, trace)
    case Repeat(_, _) => ExecRepeat(fuel, s, env, trace)
    case ForNumeric(_, _, _, _, _) => ForRun(fuel, s, env, trace)
  }

  /** The code of a loop statement, from `store` on, does what its iterations do from `start` on. */
  ghost predicate LoopSimulates(fuel: nat, s: Stmt, c: Ctx, env: Env, store: Store, start: Store, trace: Trace)
    requires IsLoop(s) && c.scopes != [] && LowerStmt(s, c).Ok? && env != []
  {
    var l, c1 := LowerStmt(s, c).value, EnterLoop(c, s.body);
    && LoopMatches(c1, start, LoopRun(fuel, s, env, trace), HExec(fuel, l.h, store, trace))
    && l.c.scopes == c1.scopes
    && forall j: nat | j < |c.locals| :: Load(start, j) == Load(store, j)
  }

  lemma LoopDone(
      fuel: nat, s: Stmt, c: Ctx, inLoop: bool, env: Env, store: Store, start: Store, trace: Trace)
    requires WF(c) && IsLoop(s) && LowerStmt(s, c).Ok? && env != [] && LoopSimulates(fuel, s, c, env, store, start, trace)
    ensures var l := LowerStmt(s, c).value;
            Matches(c, l.c.scopes, inLoop, store, Exec(fuel, s, env, trace), HExec(fuel, l.h, store, trace))
    ensures !LeftEarly(Exec(fuel, s, env, trace).out)
  {
    var r, q := LoopRun(fuel, s, env, trace), HExec(fuel, LowerStmt(s, c).value.h, store, trace);
    assert Exec(fuel, s, env, trace) == LoopEnd(r);
    if r.out.Normal? || r.out.Broke? {
      KeepLoop(c, s.body, store, start, q.store);
    }
  }

  lemma PushLoopLegal(body: seq<Stmt>, c: Ctx, later: seq<LocalInfo>)
    requires WF(c) && UserStmts(body)
    requires var c1 := EnterLoop(c, body);
             var l := LowerSeq(body, PushScope(c1), Target(c1));
             && l.Ok? && FragSeq(body, PushScope(c1), Target(c1), true)
             && Within(l.value.c.locals, later, RetSet(c))
    ensures var c1 := EnterLoop(c, body);
            && LoopLegal(body, c1, PushScope(c1), later)
            && Within(c1.locals, later, RetSet(c)) && RetSet(c1) == RetSet(c)
            && Pop(LowerSeq(body, PushScope(c1), Target(c1)).value.c.scopes) == c1.scopes
  {
    var c1 := EnterLoop(c, body);
    var p := PushScope(c1);
    EnterLoopPlaced(c, body);
    PushWF(c1);
    PushExtends(c1);
    LowerSeqFlow(body, p, Target(c1));
    FlowWithin(p, LowerSeq(body, p, Target(c1)).value.c, later);
    SeqFrames(body, p, Target(c1), true);
  }

  lemma WhileIsLegal(s: Stmt, c: Ctx, inLoop: bool, later: seq<LocalInfo>) returns (h: HStmt)
    requires s.While? && Legal(s, c, inLoop, later)
    ensures var c1 := EnterLoop(c, s.body);
            && WF(c) && WhileLegal(s, c1, h, later) && Within(c1.locals, later, RetSet(c))
            && LowerStmt(s, c).value.h == WrapInit(h, Target(c1)) && LowerStmt(s, c).value.c.scopes == c1.scopes
  {
    var c1 := EnterLoop(c, s.body);
    assert LowerExpr(s.cond, c1).Ok? && LowerBody(s.body, c1).Ok?;
    assert FragBody(s.body, c1, true);
    PushLoopLegal(s.body, c, later);
    EnterLoopWF(c, s.body);
    h := HWhile(LowerExpr(s.cond, c1).value, LowerBody(s.body, c1).value.hs, Target(c1));
  }

  lemma RepeatIsLegal(s: Stmt, c: Ctx, inLoop: bool, later: seq<LocalInfo>) returns (h: HStmt)
    requires s.Repeat? && Legal(s, c, inLoop, later)
    ensures var c1 := EnterLoop(c, s.body);
            && WF(c) && RepeatLegal(s, c1, h, later) && Within(c1.locals, later, RetSet(c))
            && LowerStmt(s, c).value.h == WrapInit(h, Target(c1)) && LowerStmt(s, c).value.c.scopes == c1.scopes
  {
    var c1 := EnterLoop(c, s.body);
    var b := LowerSeq(s.body, PushScope(c1), Target(c1)).value;
    PushLoopLegal(s.body, c, later);
    EnterLoopWF(c, s.body);
    LowerSeqFlow(s.body, PushScope(c1), Target(c1));
    PlacedFlow(PushScope(c1), b.c, true);
    h := HRepeat(b.hs, LowerExpr(s.cond, b.c).value, Target(c1));
  }

  lemma ForLoopLegal(body: seq<Stmt>, c: Ctx, v: string, later: seq<LocalInfo>)
    requires WF(c) && UserStmts(body) && UserName(v)
    requires var c1 := EnterLoop(c, body);
             var l := LowerSeq(body, EnterFor(c1, v), Target(c1));
             && l.Ok? && FragSeq(body, EnterFor(c1, v), Target(c1), true)
             && Within(l.value.c.locals, later, RetSet(c))
    ensures var c1 := EnterLoop(c, body);
            && LoopLegal(body, c1, EnterFor(c1, v), later)
            && Within(c1.locals, later, RetSet(c)) && RetSet(c1) == RetSet(c)
            && Pop(LowerSeq(body, EnterFor(c1, v), Target(c1)).value.c.scopes) == c1.scopes
  {
    var c1 := EnterLoop(c, body);
    var p := EnterFor(c1, v);
    EnterLoopPlaced(c, body);
    EnterForWF(c1, v);
    ForExtends(c1, v);
    LowerSeqFlow(body, p, Target(c1));
    FlowWithin(p, LowerSeq(body, p, Target(c1)).value.c, later);
    SeqFrames(body, p, Target(c1), true);
  }

  lemma ForIsLegal(s: Stmt, c: Ctx, inLoop: bool, later: seq<LocalInfo>, hs: seq<HExpr>) returns (h: HStmt)
    requires s.ForNumeric? && Legal(s, c, inLoop, later)
    requires hs == LowerExprs(Bounds(s), c).value
    ensures var c1 := EnterLoop(c, s.body);
            && WF(c) && ForLegal(s, c1, h, later) && [h.start, h.stop, h.step] == hs
            && Within(c1.locals, later, RetSet(c)) && RetSet(c1) == RetSet(c)
            && LowerStmt(s, c).value.h == WrapInit(h, Target(c1)) && LowerStmt(s, c).value.c.scopes == c1.scopes
  {
    var c1 := EnterLoop(c, s.body);
    var b := LowerSeq(s.body, EnterFor(c1, s.loopVar), Target(c1)).value;
    ForLoopLegal(s.body, c, s.loopVar, later);
    h := HFor(|c1.locals|, hs[0], hs[1], hs[2], b.hs, Target(c1));
  }

  lemma {:induction false} SimWhileRun(
      fuel: nat, s: Stmt, c: Ctx, h: HStmt, env: Env, store: Store, trace: Trace, later: seq<LocalInfo>)
      returns (mid: Store)
    requires WF(c) && At(c, env, store, later) && s.While? && WhileLegal(s, EnterLoop(c, s.body), h, later)
    requires Within(EnterLoop(c, s.body).locals, later, RetSet(c))
    ensures var c1 := EnterLoop(c, s.body);
            LoopMatches(c1, mid, ExecWhile(fuel, s, env, trace), HExec(fuel, WrapInit(h, Target(c1)), store, trace))
    ensures forall j: nat | j < |c.locals| :: Load(mid, j) == Load(store, j)
    decreases fuel, s, 2
  {
    mid := LoopOpens(fuel, s.body, c, h, env, store, trace, later);
    SimWhile(fuel, s, EnterLoop(c, s.body), h, env, mid, trace, later);
  }

  lemma {:induction false} SimWhileLoop(
      fuel: nat, s: Stmt, c: Ctx, inLoop: bool, env: Env, store: Store, trace: Trace, later: seq<LocalInfo>)
      returns (mid: Store)
    requires s.While? && Legal(s, c, inLoop, later) && At(c, env, store, later)
    ensures env != [] && LoopSimulates(fuel, s, c, env, store, mid, trace)
    decreases fuel, s, 3
  {
    var h := WhileIsLegal(s, c, inLoop, later);
    mid := SimWhileRun(fuel, s, c, h, env, store, trace, later);
  }

  lemma {:induction false} SimRepeatRun(
      fuel: nat, s: Stmt, c: Ctx, h: HStmt, env: Env, store: Store, trace: Trace, later: seq<LocalInfo>)
      returns (mid: Store)
    requires WF(c) && At(c, env, store, later) && s.Repeat? && RepeatLegal(s, EnterLoop(c, s.body), h, later)
    requires Within(EnterLoop(c, s.body).locals, later, RetSet(c))
    ensures var c1 := EnterLoop(c, s.body);
            LoopMatches(c1, mid, ExecRepeat(fuel, s, env, trace), HExec(fuel, WrapInit(h, Target(c1)), store, trace))
    ensures forall j: nat | j < |c.locals| :: Load(mid, j) == Load(store, j)
    decreases fuel, s, 2
  {
    mid := LoopOpens(fuel, s.body, c, h, env, store, trace, later);
    SimRepeat(fuel, s, EnterLoop(c, s.body), h, env, mid, trace, later);
  }

  lemma {:induction false} SimRepeatLoop(
      fuel: nat, s: Stmt, c: Ctx, inLoop: bool, env: Env, store: Store, trace: Trace, later: seq<LocalInfo>)
      returns (mid: Store)
    requires s.Repeat? && Legal(s, c, inLoop, later) && At(c, env, store, later)
    ensures env != [] && LoopSimulates(fuel, s, c, env, store, mid, trace)
    decreases fuel, s, 3
  {
    var h := RepeatIsLegal(s, c, inLoop, later);
    mid := SimRepeatRun(fuel, s, c, h, env, store, trace, later);
  }

  predicate AllNumbers(vs: Option<seq<Value>>)
    requires vs.Some? ==> |vs.value| == 3
  {
    vs.Some? && vs.value[0].Num? && vs.value[1].Num? && vs.value[2].Num?
  }

  /** The bounds are evaluated once, and the counter starts at the first. */
  lemma ForOpens(fuel: nat, s: Stmt, h: HStmt, env: Env, store: Store, trace: Trace)
    requires s.ForNumeric? && h.HFor? && env != []
    requires HEvalAll([h.start, h.stop, h.step], store) == EvalAll(Bounds(s), env)
    ensures var vs := EvalAll(Bounds(s), env);
            var r, q := ForRun(fuel, s, env, trace), HExec(fuel, h, store, trace);
            if !AllNumbers(vs) then r == Result(Trapped, env, trace) && q == HResult(HTrapped, store, trace)
            else
              && q == HExecFor(fuel, h, vs.value[1].n, vs.value[2].n, store[h.varId := vs.value[0]], trace)
              && r == if vs.value[2].n == 0 then Result(ZeroStep, env, trace)
                      else ExecFor(fuel, s, vs.value[0].n, vs.value[1].n, vs.value[2].n, env, trace)
  {}

  lemma {:induction false} SimForRun(
      fuel: nat, s: Stmt, c: Ctx, h: HStmt, env: Env, mid: Store, trace: Trace, later: seq<LocalInfo>)
      returns (start: Store)
    requires c.scopes != [] && env != [] && s.ForNumeric? && ForLegal(s, EnterLoop(c, s.body), h, later)
    requires At(EnterLoop(c, s.body), env, mid, later)
    requires HEvalAll([h.start, h.stop, h.step], mid) == EvalAll(Bounds(s), env)
    ensures LoopMatches(EnterLoop(c, s.body), start, ForRun(fuel, s, env, trace), HExec(fuel, h, mid, trace))
    ensures forall j: nat | j < h.varId :: Load(start, j) == Load(mid, j)
    decreases fuel, s, 2
  {
    var c1, vs := EnterLoop(c, s.body), EvalAll(Bounds(s), env);
    ForOpens(fuel, s, h, env, mid, trace);
    start := mid;
    if AllNumbers(vs) && vs.value[2].n == 0 {
      HExecExtends(fuel, h, mid, trace);
    } else if AllNumbers(vs) {
      var i, stop, step := vs.value[0].n, vs.value[1].n, vs.value[2].n;
      WriteCounter(s, c1, h, env, mid, i, later);
      start := mid[h.varId := Num(i)];
      SimFor(fuel, s, c1, h, i, stop, step, env, start, trace, later);
    }
  }

  lemma {:induction false} SimForLoop(
      fuel: nat, s: Stmt, c: Ctx, inLoop: bool, env: Env, store: Store, trace: Trace, later: seq<LocalInfo>)
      returns (start: Store)
    requires s.ForNumeric? && Legal(s, c, inLoop, later) && At(c, env, store, later)
    ensures env != [] && LoopSimulates(fuel, s, c, env, store, start, trace)
    decreases fuel, s, 3
  {
    var h := ForIsLegal(s, c, inLoop, later, LowerExprs(Bounds(s), c).value);
    var mid := LoopOpens(fuel, s.body, c, h, env, store, trace, later);
    ForBounds(s, c, inLoop, h, env, mid, later);
    start := SimForRun(fuel, s, c, h, env, mid, trace, later);
  }

  lemma ForBounds(s: Stmt, c: Ctx, inLoop: bool, h: HStmt, env: Env, store: Store, later: seq<LocalInfo>)
    requires s.ForNumeric? && Legal(s, c, inLoop, later) && h.HFor?
    requires Rel(c.scopes, env, store) && StoreTyped(store, later, RetSet(c))
    requires [h.start, h.stop, h.step] == LowerExprs(Bounds(s), c).value
    ensures HEvalAll([h.start, h.stop, h.step], store) == EvalAll(Bounds(s), env)
  {
    LegalWithin(s, c, inLoop, later);
    ExprsSim(Bounds(s), c, env, store, later);
  }

  /** Loop by loop: the flag that ends it, its condition and its iterations. */
  lemma {:induction false} SimLoop(
      fuel: nat, s: Stmt, c: Ctx, inLoop: bool, env: Env, store: Store, trace: Trace, later: seq<LocalInfo>)
      returns (start: Store)
    requires IsLoop(s) && Legal(s, c, inLoop, later) && At(c, env, store, later)
    ensures env != [] && LoopSimulates(fuel, s, c, env, store, start, trace)
    decreases fuel, s, 4
  {
    match s
    case While(_, _) => start := SimWhileLoop(fuel, s, c, inLoop, env, store, trace, later);
    case Repeat(_, _) => start := SimRepeatLoop(fuel, s, c, inLoop, env, store, trace, later);
    case ForNumeric(_, _, _, _, _) => start := SimForLoop(fuel, s, c, inLoop, env, store, trace, later);
  }

  lemma {:induction false} SimLoopStmt(
      fuel: nat, s: Stmt, c: Ctx, inLoop: bool, env: Env, store: Store, trace: Trace, later: seq<LocalInfo>)
    requires IsLoop(s) && Legal(s, c, inLoop, later) && At(c, env, store, later)
    ensures Simulates(fuel, s, c, inLoop, env, store, trace)
    decreases fuel, s, 5
  {
    var start := SimLoop(fuel, s, c, inLoop, env, store, trace, later);
    LoopDone(fuel, s, c, inLoop, env, store, start, trace);
  }

  // ----- Every statement -----

  /** Code of the fragment does what its source does, iteration for iteration. */
  lemma {:induction false} SimStmt(
      fuel: nat, s: Stmt, c: Ctx, inLoop: bool, env: Env, store: Store, trace: Trace, later: seq<LocalInfo>)
    requires Legal(s, c, inLoop, later) && At(c, env, store, later)
    ensures Simulates(fuel, s, c, inLoop, env, store, trace)
    decreases fuel, s, 6
  {
    match s
    case Local(_, _) => SimLocal(fuel, s, c, inLoop, env, store, trace, later);
    case LocalMulti(_, _) => SimLocalMulti(fuel, s, c, inLoop, env, store, trace, later);
    case Assign(_, _) => SimAssign(fuel, s, c, inLoop, env, store, trace, later);
    case AssignMulti(_, _) => SimAssignMulti(fuel, s, c, inLoop, env, store, trace, later);
    case Block(body) =>
      BlockLegal(s, c, inLoop, later);
      StmtFrames(s, c, inLoop);
      SimBody(fuel, body, c, None, inLoop, env, store, trace, later);
    case If(_, _) => SimIfStmt(fuel, s, c, inLoop, env, store, trace, later);
    case While(_, _) => SimLoopStmt(fuel, s, c, inLoop, env, store, trace, later);
    case Repeat(_, _) => SimLoopStmt(fuel, s, c, inLoop, env, store, trace, later);
    case ForNumeric(_, _, _, _, _) => SimLoopStmt(fuel, s, c, inLoop, env, store, trace, later);
    case Break => SimBreak(fuel, s, c, inLoop, env, store, trace, later);
    case Return(_) => SimReturn(fuel, s, c, inLoop, env, store, trace, later);
    case Print(_) => SimPrint(fuel, s, c, inLoop, env, store, trace, later);
  }

  lemma {:induction false} SimIfStmt(
      fuel: nat, s: Stmt, c: Ctx, inLoop: bool, env: Env, store: Store, trace: Trace, later: seq<LocalInfo>)
    requires s.If? && Legal(s, c, inLoop, later) && At(c, env, store, later)
    ensures Simulates(fuel, s, c, inLoop, env, store, trace)
    decreases fuel, s, 2
  {
    IfLegal(s, c, inLoop, later);
    StmtFrames(s, c, inLoop);
    var h := LowerStmt(s, c).value.h;
    assert h.arms[0..] == h.arms;
    SimArms(fuel, s, 0, c, h, inLoop, env, store, trace, later);
  }
}

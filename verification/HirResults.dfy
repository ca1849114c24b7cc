/**
 What lowered code writes, and what follows from it: a read-only slot is never written, and each result slot
 of a function, which in the finished table has the kind of every `return` or is tagged, holds a value of
 its kind after any run.
 */
module HirResults {
  import opened Wrappers
  import opened HirSyntax
  import opened HirSemantics
  import opened HirLower
  import opened HirContext
  import opened HirKinds
  import opened HirRelation
  import opened HirFunctions
  import opened HirRecords

  // ----- What lowered code writes -----

  /**
   A write of code lowered in `c`: to a new slot, a flag, a writable variable, or a result slot, and then,
   if the kinds are `settled` in `later`, of a value whose kind that slot accepts.
   */
  ghost predicate AllowedWrite(c: Ctx, later: seq<LocalInfo>, settled: bool, id: nat, v: HExpr) {
    id < |c.locals| ==>
      if id in RetSet(c) then settled ==> Accepts(later, id, InferKind(v, later))
      else id in Hidden(c) || id !in c.readonly
  }

  ghost predicate AllowedStmt(h: HStmt, c: Ctx, later: seq<LocalInfo>, settled: bool) {
    match h
    case HLocalInit(id, v) => AllowedWrite(c, later, settled, id, v)
    case HAssign(id, v) => AllowedWrite(c, later, settled, id, v)
    case HBlock(body) => AllowedStmts(body, c, later, settled)
    case HIf(arms, elseBody) =>
      && (forall k | 0 <= k < |arms| :: AllowedStmts(arms[k].body, c, later, settled))
      && AllowedStmts(elseBody, c, later, settled)
    case HWhile(_, body, _) => AllowedStmts(body, c, later, settled)
    case HRepeat(body, _, _) => AllowedStmts(body, c, later, settled)
    case HFor(id, start, _, _, body, _) => AllowedWrite(c, later, settled, id, start) && AllowedStmts(body, c, later, settled)
    case HPrint(_) => true
  }

  ghost predicate AllowedStmts(hs: seq<HStmt>, c: Ctx, later: seq<LocalInfo>, settled: bool) {
    forall k | 0 <= k < |hs| :: AllowedStmt(hs[k], c, later, settled)
  }

  /** `d` hides no more of the slots of `c` than `c` does, and lets no more of them be written. */
  ghost predicate Stricter(c: Ctx, d: Ctx) {
    && |c.locals| <= |d.locals| && c.readonly <= d.readonly && RetSet(d) == RetSet(c)
    && forall j: nat | j < |c.locals| && j in Hidden(d) :: j in Hidden(c)
  }

  lemma {:induction false} AllowedOutside(h: HStmt, c: Ctx, d: Ctx, later: seq<LocalInfo>, settled: bool)
    requires Stricter(c, d) && AllowedStmt(h, d, later, settled)
    ensures AllowedStmt(h, c, later, settled)
    decreases h
  {
    match h
    case HBlock(body) => AllAllowedOutside(body, c, d, later, settled);
    case HIf(arms, elseBody) =>
      forall k | 0 <= k < |arms| ensures AllowedStmts(arms[k].body, c, later, settled) {
        AllAllowedOutside(arms[k].body, c, d, later, settled);
      }
      AllAllowedOutside(elseBody, c, d, later, settled);
    case HWhile(_, body, _) => AllAllowedOutside(body, c, d, later, settled);
    case HRepeat(body, _, _) => AllAllowedOutside(body, c, d, later, settled);
    case HFor(_, _, _, _, body, _) => AllAllowedOutside(body, c, d, later, settled);
    case _ =>
  }

  lemma {:induction false} AllAllowedOutside(hs: seq<HStmt>, c: Ctx, d: Ctx, later: seq<LocalInfo>, settled: bool)
    requires Stricter(c, d) && AllowedStmts(hs, d, later, settled)
    ensures AllowedStmts(hs, c, later, settled)
    decreases hs
  {
    forall k | 0 <= k < |hs| ensures AllowedStmt(hs[k], c, later, settled) {
      AllowedOutside(hs[k], c, d, later, settled);
    }
  }

  lemma FlowStricter(c: Ctx, d: Ctx)
    requires WF(c) && Flow(c, d)
    ensures Stricter(c, d)
  {}

  lemma LoopStricter(c: Ctx, body: seq<Stmt>)
    requires WF(c)
    ensures WF(EnterLoop(c, body)) && Stricter(c, EnterLoop(c, body))
  {
    EnterLoopWF(c, body);
  }

  // ----- Lowered code is allowed -----

  /** If kinds are settled, `later` is a table that `c` can end in. */
  ghost predicate Ends(c: Ctx, later: seq<LocalInfo>, settled: bool) {
    settled ==> Within(c.locals, later, RetSet(c)) && Settled(c, later)
  }

  lemma EndsEarlier(c: Ctx, d: Ctx, later: seq<LocalInfo>, settled: bool)
    requires Flow(c, d) && Rises(c, d) && Ends(d, later, settled)
    ensures Ends(c, later, settled)
  {
    if settled {
      FlowWithin(c, d, later);
      SettledEarlier(c, d, later);
    }
  }

  lemma InitsAllowed(hs: seq<HExpr>, c: Ctx, later: seq<LocalInfo>, settled: bool)
    ensures AllowedStmts(Inits(hs, |c.locals|), c, later, settled)
  {}

  lemma TargetAllowed(name: string, value: HExpr, c: Ctx, later: seq<LocalInfo>, settled: bool)
    requires WF(c) && UserName(name) && LowerAssignTarget(name, value, c).Ok?
    ensures AllowedStmt(LowerAssignTarget(name, value, c).value.h, c, later, settled)
  {
    if Resolve<nat>(c.scopes, name).Some? {
      ResolveUser(c, name);
    }
  }

  lemma {:induction false} TargetsAllowed(names: seq<string>, first: nat, c: Ctx, later: seq<LocalInfo>, settled: bool)
    requires WF(c) && UserNames(names) && LowerTargets(names, first, c).Ok?
    ensures AllowedStmts(LowerTargets(names, first, c).value.hs, c, later, settled)
    decreases |names|
  {
    if names != [] {
      var a := LowerAssignTarget(names[0], HLocal(first), c).value;
      TargetAllowed(names[0], HLocal(first), c, later, settled);
      TargetFlow(names[0], HLocal(first), c);
      TargetsAllowed(names[1..], first + 1, a.c, later, settled);
      FlowStricter(c, a.c);
      AllAllowedOutside(LowerTargets(names[1..], first + 1, a.c).value.hs, c, a.c, later, settled);
    }
  }

  lemma AssignMultiAllowed(s: Stmt, c: Ctx, later: seq<LocalInfo>, settled: bool)
    requires WF(c) && UserStmt(s) && s.AssignMulti? && LowerStmt(s, c).Ok?
    ensures AllowedStmt(LowerStmt(s, c).value.h, c, later, settled)
  {
    var hs := LowerExprs(s.values, c).value;
    var d := DeclareTemps(c, hs);
    DeclareTempsFlow(c, hs);
    FlowStricter(c, d);
    InitsAllowed(hs, c, later, settled);
    TargetsAllowed(s.names, |c.locals|, d, later, settled);
    AllAllowedOutside(LowerTargets(s.names, |c.locals|, d).value.hs, c, d, later, settled);
  }

  lemma {:induction false} RetAssignsAllowed(
      rets: seq<nat>, hs: seq<HExpr>, c: Ctx, later: seq<LocalInfo>, settled: bool)
    requires forall r | r in rets :: r in RetSet(c)
    requires settled ==> forall i | 0 <= i < |rets| && i < |hs| :: Accepts(later, rets[i], InferKind(hs[i], later))
    ensures AllowedStmts(RetAssigns(rets, hs), c, later, settled)
    decreases |hs|
  {
    if rets != [] && hs != [] {
      forall i | 0 <= i < |rets[1..]| && i < |hs[1..]| && settled
        ensures Accepts(later, rets[1..][i], InferKind(hs[1..][i], later))
      {
        assert Accepts(later, rets[i + 1], InferKind(hs[i + 1], later));
      }
      RetAssignsAllowed(rets[1..], hs[1..], c, later, settled);
    }
  }

  lemma ReturnAllowed(values: seq<Expr>, c: Ctx, later: seq<LocalInfo>, settled: bool)
    requires WF(c) && UserExprs(values) && LowerExprs(values, c).Ok? && LowerReturn(LowerExprs(values, c).value, c).Ok?
    requires Ends(LowerReturn(LowerExprs(values, c).value, c).value.c, later, settled)
    ensures AllowedStmt(LowerReturn(LowerExprs(values, c).value, c).value.h, c, later, settled)
  {
    var hs := LowerExprs(values, c).value;
    var d, slots := LowerReturn(hs, c).value.c, c.fn.value;
    ReturnRecords(hs, c);
    ReturnFlow(hs, c);
    if settled {
      FlowWithin(c, d, later);
      LowerExprsLater(values, c, later);
      forall i | 0 <= i < |slots.rets| && i < |hs|
        ensures Accepts(later, slots.rets[i], InferKind(hs[i], later))
      {
        assert Accepts(later, slots.rets[i], d.retKinds.value[i]);
      }
    }
    RetAssignsAllowed(slots.rets, hs, c, later, settled);
    assert slots.returned in Hidden(c) && slots.returned !in RetSet(c);
  }

  lemma WrapGuardAllowed(h: HStmt, guard: Option<nat>, c: Ctx, later: seq<LocalInfo>, settled: bool)
    requires AllowedStmt(h, c, later, settled)
    ensures AllowedStmt(WrapGuard(h, guard), c, later, settled)
  {
    if guard.Some? {
      var arm := HArm(HUnaryOp(Not, HLocal(guard.value)), [h]);
      assert AllowedStmts(arm.body, c, later, settled);
    }
  }

  lemma WrapInitAllowed(h: HStmt, flag: Option<nat>, c: Ctx, later: seq<LocalInfo>, settled: bool)
    requires AllowedStmt(h, c, later, settled) && (flag.Some? ==> flag.value >= |c.locals|)
    ensures AllowedStmt(WrapInit(h, flag), c, later, settled)
  {
    if flag.Some? {
      assert AllowedStmts([HLocalInit(flag.value, HBool(false)), h], c, later, settled);
    }
  }

  lemma {:induction false} StmtAllowed(s: Stmt, c: Ctx, later: seq<LocalInfo>, settled: bool)
    requires WF(c) && UserStmt(s) && LowerStmt(s, c).Ok? && Ends(LowerStmt(s, c).value.c, later, settled)
    ensures AllowedStmt(LowerStmt(s, c).value.h, c, later, settled)
    decreases s, 1
  {
    match s
    case LocalMulti(names, values) => InitsAllowed(LowerExprs(values, c).value, c, later, settled);
    case Assign(name, value) => TargetAllowed(name, LowerExpr(value, c).value, c, later, settled);
    case AssignMulti(_, _) => AssignMultiAllowed(s, c, later, settled);
    case Block(body) =>
      PushWF(c);
      var p := PushScope(c);
      SeqAllowed(body, p, None, later, settled);
      AllAllowedOutside(LowerSeq(body, p, None).value.hs, c, p, later, settled);
    case If(_, _) => IfAllowed(s, c, later, settled);
    case While(_, _) => WhileAllowed(s, c, later, settled);
    case Repeat(_, _) => RepeatAllowed(s, c, later, settled);
    case ForNumeric(_, _, _, _, _) => ForAllowed(s, c, later, settled);
    case Break => TargetSlot(c);
    case Return(values) => ReturnAllowed(values, c, later, settled);
    case _ =>
  }

  lemma {:induction false} IfAllowed(s: Stmt, c: Ctx, later: seq<LocalInfo>, settled: bool)
    requires WF(c) && s.If? && UserStmt(s) && LowerStmt(s, c).Ok? && Ends(LowerStmt(s, c).value.c, later, settled)
    ensures AllowedStmt(LowerStmt(s, c).value.h, c, later, settled)
    decreases s, 0, |s.arms| + 1
  {
    var a := LowerArms(s, 0, c).value;
    LowerArmsFlow(s, 0, c);
    BodyAllowed(s.elseBody, a.1, later, settled);
    LowerBodyFlow(s.elseBody, a.1);
    BodyRecords(s.elseBody, a.1);
    EndsEarlier(a.1, LowerBody(s.elseBody, a.1).value.c, later, settled);
    ArmsAllowed(s, 0, c, later, settled);
    FlowStricter(c, a.1);
    AllAllowedOutside(LowerBody(s.elseBody, a.1).value.hs, c, a.1, later, settled);
  }

  lemma {:induction false} WhileAllowed(s: Stmt, c: Ctx, later: seq<LocalInfo>, settled: bool)
    requires WF(c) && s.While? && UserStmt(s) && LowerStmt(s, c).Ok? && Ends(LowerStmt(s, c).value.c, later, settled)
    ensures AllowedStmt(LowerStmt(s, c).value.h, c, later, settled)
    decreases s, 0, 0
  {
    var c1 := EnterLoop(c, s.body);
    LoopStricter(c, s.body);
    assert LowerBody(s.body, c1).Ok?;
    var b := LowerBody(s.body, c1).value;
    LowerBodyFlow(s.body, c1);
    BodyAllowed(s.body, c1, later, settled);
    AllAllowedOutside(b.hs, c, c1, later, settled);
    EnterLoopWF(c, s.body);
    WrapInitAllowed(HWhile(LowerExpr(s.cond, c1).value, b.hs, Target(c1)), Target(c1), c, later, settled);
  }

  lemma {:induction false} RepeatAllowed(s: Stmt, c: Ctx, later: seq<LocalInfo>, settled: bool)
    requires WF(c) && s.Repeat? && UserStmt(s) && LowerStmt(s, c).Ok? && Ends(LowerStmt(s, c).value.c, later, settled)
    ensures AllowedStmt(LowerStmt(s, c).value.h, c, later, settled)
    decreases s, 0, 0
  {
    var c1 := EnterLoop(c, s.body);
    var p := PushScope(c1);
    LoopStricter(c, s.body);
    PushWF(c1);
    var b := LowerSeq(s.body, p, Target(c1)).value;
    LowerSeqFlow(s.body, p, Target(c1));
    SeqAllowed(s.body, p, Target(c1), later, settled);
    AllAllowedOutside(b.hs, c, p, later, settled);
    EnterLoopWF(c, s.body);
    WrapInitAllowed(HRepeat(b.hs, LowerExpr(s.cond, b.c).value, Target(c1)), Target(c1), c, later, settled);
  }

  lemma {:induction false} ForAllowed(s: Stmt, c: Ctx, later: seq<LocalInfo>, settled: bool)
    requires WF(c) && s.ForNumeric? && UserStmt(s) && LowerStmt(s, c).Ok? && Ends(LowerStmt(s, c).value.c, later, settled)
    ensures AllowedStmt(LowerStmt(s, c).value.h, c, later, settled)
    decreases s, 0, 0
  {
    var c1 := EnterLoop(c, s.body);
    var p, hs := EnterFor(c1, s.loopVar), LowerExprs(Bounds(s), c).value;
    LoopStricter(c, s.body);
    EnterForWF(c1, s.loopVar);
    var b := LowerSeq(s.body, p, Target(c1)).value;
    LowerSeqFlow(s.body, p, Target(c1));
    SeqAllowed(s.body, p, Target(c1), later, settled);
    AllAllowedOutside(b.hs, c, p, later, settled);
    EnterLoopWF(c, s.body);
    WrapInitAllowed(HFor(|c1.locals|, hs[0], hs[1], hs[2], b.hs, Target(c1)), Target(c1), c, later, settled);
  }

  lemma {:induction false} SeqAllowed(ss: seq<Stmt>, c: Ctx, guard: Option<nat>, later: seq<LocalInfo>, settled: bool)
    requires WF(c) && UserStmts(ss) && LowerSeq(ss, c, guard).Ok? && Ends(LowerSeq(ss, c, guard).value.c, later, settled)
    ensures AllowedStmts(LowerSeq(ss, c, guard).value.hs, c, later, settled)
    decreases ss, 0, 0
  {
    if ss != [] {
      var first := LowerStmt(ss[0], c).value;
      var rest := LowerSeq(ss[1..], first.c, guard).value;
      LowerStmtFlow(ss[0], c);
      LowerSeqFlow(ss[1..], first.c, guard);
      SeqRecords(ss[1..], first.c, guard);
      EndsEarlier(first.c, rest.c, later, settled);
      StmtAllowed(ss[0], c, later, settled);
      WrapGuardAllowed(first.h, guard, c, later, settled);
      SeqAllowed(ss[1..], first.c, guard, later, settled);
      FlowStricter(c, first.c);
      AllAllowedOutside(rest.hs, c, first.c, later, settled);
    }
  }

  lemma {:induction false} BodyAllowed(ss: seq<Stmt>, c: Ctx, later: seq<LocalInfo>, settled: bool)
    requires WF(c) && UserStmts(ss) && LowerBody(ss, c).Ok? && Ends(LowerBody(ss, c).value.c, later, settled)
    ensures AllowedStmts(LowerBody(ss, c).value.hs, c, later, settled)
    decreases ss, 1, 0
  {
    PushWF(c);
    SeqAllowed(ss, PushScope(c), Target(c), later, settled);
    AllAllowedOutside(LowerBody(ss, c).value.hs, c, PushScope(c), later, settled);
  }

  lemma {:induction false} ArmsAllowed(s: Stmt, k: nat, c: Ctx, later: seq<LocalInfo>, settled: bool)
    requires WF(c) && s.If? && k <= |s.arms| && UserStmt(s) && LowerArms(s, k, c).Ok?
    requires Ends(LowerArms(s, k, c).value.1, later, settled)
    ensures forall a | a in LowerArms(s, k, c).value.0 :: AllowedStmts(a.body, c, later, settled)
    decreases s, 0, |s.arms| - k
  {
    if k < |s.arms| {
      var b := LowerBody(s.arms[k].body, c).value;
      var rest := LowerArms(s, k + 1, b.c).value;
      LowerBodyFlow(s.arms[k].body, c);
      LowerArmsFlow(s, k + 1, b.c);
      ArmsRecord(s, k + 1, b.c);
      EndsEarlier(b.c, rest.1, later, settled);
      BodyAllowed(s.arms[k].body, c, later, settled);
      ArmsAllowed(s, k + 1, b.c, later, settled);
      FlowStricter(c, b.c);
      forall a | a in rest.0 ensures AllowedStmts(a.body, c, later, settled) {
        AllAllowedOutside(a.body, c, b.c, later, settled);
      }
    }
  }

  // ----- Runs of allowed code -----

  /** A read-only slot in sight, other than a hidden one, is never written. */
  ghost predicate Spared(c: Ctx, x: nat) { x < |c.locals| && x in c.readonly && x !in Hidden(c) }

  lemma {:induction false} RunSpares(
      fuel: nat, h: HStmt, c: Ctx, later: seq<LocalInfo>, settled: bool, x: nat, store: Store, trace: Trace)
    requires AllowedStmt(h, c, later, settled) && Spared(c, x)
    ensures Load(HExec(fuel, h, store, trace).store, x) == Load(store, x)
    decreases fuel, h, 1
  {
    assert RetSet(c) <= Hidden(c);
    match h
    case HBlock(body) => SeqSpares(fuel, body, c, later, settled, x, store, trace);
    case HIf(_, _) => ArmsSpare(fuel, h, 0, c, later, settled, x, store, trace);
    case HWhile(_, _, _) => LoopSpares(fuel, h, 0, 0, c, later, settled, x, store, trace);
    case HRepeat(_, _, _) => LoopSpares(fuel, h, 0, 0, c, later, settled, x, store, trace);
    case HFor(id, start, stop, step, _, _) =>
      var vs := HEvalAll([start, stop, step], store);
      if vs.Some? && vs.value[0].Num? && vs.value[1].Num? && vs.value[2].Num? {
        LoopSpares(fuel, h, vs.value[1].n, vs.value[2].n, c, later, settled, x, store[id := vs.value[0]], trace);
      }
    case _ =>
  }

  lemma {:induction false} SeqSpares(
      fuel: nat, hs: seq<HStmt>, c: Ctx, later: seq<LocalInfo>, settled: bool, x: nat, store: Store, trace: Trace)
    requires AllowedStmts(hs, c, later, settled) && Spared(c, x)
    ensures Load(HExecSeq(fuel, hs, store, trace).store, x) == Load(store, x)
    decreases fuel, hs, 0
  {
    if hs != [] {
      var q := HExec(fuel, hs[0], store, trace);
      RunSpares(fuel, hs[0], c, later, settled, x, store, trace);
      SeqSpares(fuel, hs[1..], c, later, settled, x, q.store, q.trace);
    }
  }

  lemma {:induction false} ArmsSpare(
      fuel: nat, h: HStmt, k: nat, c: Ctx, later: seq<LocalInfo>, settled: bool, x: nat, store: Store, trace: Trace)
    requires h.HIf? && k <= |h.arms| && AllowedStmt(h, c, later, settled) && Spared(c, x)
    ensures Load(HExecArms(fuel, h, k, store, trace).store, x) == Load(store, x)
    decreases fuel, h, 0, |h.arms| - k
  {
    if k == |h.arms| {
      SeqSpares(fuel, h.elseBody, c, later, settled, x, store, trace);
    } else {
      SeqSpares(fuel, h.arms[k].body, c, later, settled, x, store, trace);
      ArmsSpare(fuel, h, k + 1, c, later, settled, x, store, trace);
    }
  }

  lemma {:induction false} LoopSpares(
      fuel: nat, h: HStmt, stop: int, step: int, c: Ctx, later: seq<LocalInfo>, settled: bool, x: nat,
      store: Store, trace: Trace)
    requires h.HWhile? || h.HRepeat? || h.HFor?
    requires AllowedStmt(h, c, later, settled) && Spared(c, x)
    ensures h.HWhile? ==> Load(HExecWhile(fuel, h, store, trace).store, x) == Load(store, x)
    ensures h.HRepeat? ==> Load(HExecRepeat(fuel, h, store, trace).store, x) == Load(store, x)
    ensures h.HFor? ==> Load(HExecFor(fuel, h, stop, step, store, trace).store, x) == Load(store, x)
    decreases fuel, h, 0
  {
    assert RetSet(c) <= Hidden(c);
    if fuel > 0 {
      var q := HExecSeq(fuel - 1, h.body, store, trace);
      SeqSpares(fuel - 1, h.body, c, later, settled, x, store, trace);
      if h.HFor? {
        var j := Load(q.store, h.varId);
        if j.Num? {
          LoopSpares(fuel - 1, h, stop, step, c, later, settled, x, q.store[h.varId := Num(j.n + step)], q.trace);
        }
      } else {
        LoopSpares(fuel - 1, h, stop, step, c, later, settled, x, q.store, q.trace);
      }
    }
  }

  /** Each result slot in sight is tagged or holds a value of its kind. */
  ghost predicate ResultsTyped(c: Ctx, later: seq<LocalInfo>, store: Store) {
    forall j | j in RetSet(c) :: j < |c.locals| && Accepts(later, j, KindOf(Load(store, j)))
  }

  lemma ResultWrite(c: Ctx, later: seq<LocalInfo>, id: nat, value: HExpr, store: Store, trace: Trace)
    requires AllowedWrite(c, later, true, id, value) && KindedExpr(value, later, RetSet(c))
    requires StoreTyped(store, later, RetSet(c)) && ResultsTyped(c, later, store)
    ensures ResultsTyped(c, later, HStore(id, value, store, trace).store)
  {
    ExprKindSound(value, later, RetSet(c), store);
  }

  /** Runs leave values of their kinds in the result slots. */
  lemma {:induction false} RunResults(fuel: nat, h: HStmt, c: Ctx, later: seq<LocalInfo>, store: Store, trace: Trace)
    requires AllowedStmt(h, c, later, true) && KindedStmt(h, later, RetSet(c))
    requires StoreTyped(store, later, RetSet(c)) && ResultsTyped(c, later, store)
    ensures ResultsTyped(c, later, HExec(fuel, h, store, trace).store)
    decreases fuel, h, 1
  {
    match h
    case HLocalInit(id, value) => ResultWrite(c, later, id, value, store, trace);
    case HAssign(id, value) => ResultWrite(c, later, id, value, store, trace);
    case HBlock(body) => SeqResults(fuel, body, c, later, store, trace);
    case HIf(_, _) => ArmsResults(fuel, h, 0, c, later, store, trace);
    case HWhile(_, _, _) => LoopResults(fuel, h, 0, 0, c, later, store, trace);
    case HRepeat(_, _, _) => LoopResults(fuel, h, 0, 0, c, later, store, trace);
    case HFor(id, start, stop, step, _, _) =>
      var vs := HEvalAll([start, stop, step], store);
      if vs.Some? && vs.value[0].Num? && vs.value[1].Num? && vs.value[2].Num? {
        LoopResults(fuel, h, vs.value[1].n, vs.value[2].n, c, later, store[id := vs.value[0]], trace);
      }
    case HPrint(_) =>
  }

  lemma {:induction false} SeqResults(fuel: nat, hs: seq<HStmt>, c: Ctx, later: seq<LocalInfo>, store: Store, trace: Trace)
    requires AllowedStmts(hs, c, later, true) && KindedStmts(hs, later, RetSet(c))
    requires StoreTyped(store, later, RetSet(c)) && ResultsTyped(c, later, store)
    ensures ResultsTyped(c, later, HExecSeq(fuel, hs, store, trace).store)
    decreases fuel, hs, 0
  {
    if hs != [] {
      var q := HExec(fuel, hs[0], store, trace);
      RunResults(fuel, hs[0], c, later, store, trace);
      RunKindSound(fuel, hs[0], later, RetSet(c), store, trace);
      SeqResults(fuel, hs[1..], c, later, q.store, q.trace);
    }
  }

  lemma {:induction false} ArmsResults(
      fuel: nat, h: HStmt, k: nat, c: Ctx, later: seq<LocalInfo>, store: Store, trace: Trace)
    requires h.HIf? && k <= |h.arms| && AllowedStmt(h, c, later, true) && KindedStmt(h, later, RetSet(c))
    requires StoreTyped(store, later, RetSet(c)) && ResultsTyped(c, later, store)
    ensures ResultsTyped(c, later, HExecArms(fuel, h, k, store, trace).store)
    decreases fuel, h, 0, |h.arms| - k
  {
    if k == |h.arms| {
      SeqResults(fuel, h.elseBody, c, later, store, trace);
    } else {
      SeqResults(fuel, h.arms[k].body, c, later, store, trace);
      ArmsResults(fuel, h, k + 1, c, later, store, trace);
    }
  }

  lemma {:induction false} LoopResults(
      fuel: nat, h: HStmt, stop: int, step: int, c: Ctx, later: seq<LocalInfo>, store: Store, trace: Trace)
    requires h.HWhile? || h.HRepeat? || h.HFor?
    requires AllowedStmt(h, c, later, true) && KindedStmt(h, later, RetSet(c))
    requires StoreTyped(store, later, RetSet(c)) && ResultsTyped(c, later, store)
    ensures h.HWhile? ==> ResultsTyped(c, later, HExecWhile(fuel, h, store, trace).store)
    ensures h.HRepeat? ==> ResultsTyped(c, later, HExecRepeat(fuel, h, store, trace).store)
    ensures h.HFor? ==> ResultsTyped(c, later, HExecFor(fuel, h, stop, step, store, trace).store)
    decreases fuel, h, 0
  {
    if fuel > 0 {
      var q := HExecSeq(fuel - 1, h.body, store, trace);
      SeqResults(fuel - 1, h.body, c, later, store, trace);
      SeqKindSound(fuel - 1, h.body, later, RetSet(c), store, trace);
      if h.HFor? {
        var j := Load(q.store, h.varId);
        if j.Num? {
          LoopResults(fuel - 1, h, stop, step, c, later, q.store[h.varId := Num(j.n + step)], q.trace);
        }
      } else {
        LoopResults(fuel - 1, h, stop, step, c, later, q.store, q.trace);
      }
    }
  }

  // ----- Function bodies -----

  /** Every slot, result slots included, is tagged or holds a value of its kind. */
  ghost predicate AllTyped(store: Store, locals: seq<LocalInfo>) {
    forall j: nat | j < |locals| :: Accepts(locals, j, KindOf(Load(store, j)))
  }

  /** The source's view of a one-frame context: each user name with the content of its slot. */
  ghost function Seen(scope: map<string, nat>, store: Store): Env {
    [map n | n in scope && UserName(n) :: Load(store, scope[n])]
  }

  /** The slots of a function body, whatever its parameters. */
  lemma FunctionContext(params: seq<LocalInfo>, arity: nat, store: Store)
    ensures var c := DeclareParams(EMPTY_CTX, params);
            var d := EnterFunction(c, arity);
            && WF(d) && d.retKinds.None? && d.fn.Some?
            && (forall k | 0 <= k < |d.fn.value.rets| :: d.fn.value.rets[k] == d.fn.value.returned + 1 + k)
  {
    var c := DeclareParams(EMPTY_CTX, params);
    EmptyCtxWF();
    DeclareParamsWF(EMPTY_CTX, params);
    assert |c.scopes| == 1;
    EnterFunctionWF(c, arity, Seen(c.scopes[0], store), store);
  }

  /** The prologue leaves defaults, which are of the kinds of their slots. */
  lemma PreparedResults(c1: Ctx, locals: seq<LocalInfo>, store: Store, mid: Store)
    requires WF(c1) && c1.fn.Some? && |c1.locals| <= |locals| && Prepared(c1.fn.value, locals, mid)
    requires c1.fn.value.returned < |locals| && locals[c1.fn.value.returned].kind == BoolKind
    requires StoreTyped(store, locals, RetSet(c1))
    requires forall j: nat | j != c1.fn.value.returned && j !in c1.fn.value.rets :: Load(mid, j) == Load(store, j)
    ensures StoreTyped(mid, locals, RetSet(c1)) && ResultsTyped(c1, locals, mid)
  {
    forall j | j in RetSet(c1)
      ensures j < |c1.locals| && Accepts(locals, j, KindOf(Load(mid, j)))
    {
      assert j in Hidden(c1);
      var k :| 0 <= k < |c1.fn.value.rets| && c1.fn.value.rets[k] == j;
      assert Load(mid, c1.fn.value.rets[k]) == DefaultValue(InferKind(HLocal(j), locals));
    }
  }

  lemma BodyKindSound(body: seq<Stmt>, fuel: nat, c1: Ctx, mid: Store, trace: Trace)
    requires WF(c1) && c1.fn.Some? && c1.retKinds.None? && UserStmts(body)
    requires LowerSeq(body, c1, Some(c1.fn.value.returned)).Ok?
    requires var b := LowerSeq(body, c1, Some(c1.fn.value.returned)).value;
             StoreTyped(mid, b.c.locals, RetSet(c1)) && ResultsTyped(c1, b.c.locals, mid)
    ensures var b := LowerSeq(body, c1, Some(c1.fn.value.returned)).value;
            AllTyped(HExecSeq(fuel, b.hs, mid, trace).store, b.c.locals)
  {
    var guard := Some(c1.fn.value.returned);
    var b := LowerSeq(body, c1, guard).value;
    var later := b.c.locals;
    assert c1.fn.value.returned in Hidden(c1) && c1.fn.value.returned !in RetSet(c1);
    LowerSeqFlow(body, c1, guard);
    SeqRecords(body, c1, guard);
    assert RetSet(b.c) == RetSet(c1);
    LowerSeqKinded(body, c1, guard, later);
    SeqAllowed(body, c1, guard, later, true);
    SeqResults(fuel, b.hs, c1, later, mid, trace);
    SeqKindSound(fuel, b.hs, later, RetSet(c1), mid, trace);
  }

  /**
   Kind soundness of a function body, in the fragment or not: however long its code runs and however it
   ends, every slot, each result slot included, is tagged or holds a value of its final kind.
   */
  lemma FunctionKindSound(params: seq<LocalInfo>, body: seq<Stmt>, fuel: nat, store: Store, trace: Trace)
    requires UserStmts(body)
    requires var c := DeclareParams(EMPTY_CTX, params);
             LowerFunctionBody(body, c).Ok?
             && StoreTyped(store, LowerFunctionBody(body, c).value.c.locals, RetSet(EnterFunction(c, BodyReturnArity(body))))
    ensures var l := LowerFunctionBody(body, DeclareParams(EMPTY_CTX, params)).value;
            AllTyped(HExecSeq(fuel, l.hs, store, trace).store, l.c.locals)
  {
    var c1 := EnterFunction(DeclareParams(EMPTY_CTX, params), BodyReturnArity(body));
    FunctionContext(params, BodyReturnArity(body), store);
    FunctionRun(body, fuel, c1, store, trace);
  }

  lemma FunctionRun(body: seq<Stmt>, fuel: nat, c1: Ctx, store: Store, trace: Trace)
    requires WF(c1) && c1.retKinds.None? && c1.fn.Some? && UserStmts(body)
    requires forall k | 0 <= k < |c1.fn.value.rets| :: c1.fn.value.rets[k] == c1.fn.value.returned + 1 + k
    requires LowerSeq(body, c1, Some(c1.fn.value.returned)).Ok?
    requires StoreTyped(store, LowerSeq(body, c1, Some(c1.fn.value.returned)).value.c.locals, RetSet(c1))
    ensures var slots, b := c1.fn.value, LowerSeq(body, c1, Some(c1.fn.value.returned)).value;
            var code := [HLocalInit(slots.returned, HBool(false))] + DefaultInits(slots.rets, b.c.locals) + b.hs;
            AllTyped(HExecSeq(fuel, code, store, trace).store, b.c.locals)
  {
    var slots, b := c1.fn.value, LowerSeq(body, c1, Some(c1.fn.value.returned)).value;
    var prologue := [HLocalInit(slots.returned, HBool(false))] + DefaultInits(slots.rets, b.c.locals);
    var mid := PrologueRuns(fuel, slots.returned, slots.rets, b.c.locals, store, trace);
    SeqAppend(fuel, prologue, b.hs, store, trace);
    LowerSeqFlow(body, c1, Some(slots.returned));
    assert slots.returned in Hidden(c1) && slots.returned !in RetSet(c1);
    PreparedResults(c1, b.c.locals, store, mid);
    BodyKindSound(body, fuel, c1, mid, trace);
  }
}

/**
 Kind soundness of the lowered code: every slot holds a value of its declared kind throughout every run,
 and every expression traps or yields a value of its inferred kind.  The result slots of a function, whose
 kind is settled only as its `return` statements are met, are free here; `HirResults` settles them.
 */
module HirKinds {
  import opened Wrappers
  import opened Int64
  import opened Numerals
  import opened HirSyntax
  import opened HirSemantics
  import opened HirLower
  import opened HirContext

  function KindOf(v: Value): Kind {
    match v
    case Num(_) => NumberKind
    case Boolean(_) => BoolKind
    case NilValue => NilKind
  }

  /** Slots are in range and `and`/`or` have operands of one kind. */
  predicate KindedExpr(h: HExpr, locals: seq<LocalInfo>, free: set<nat>) {
    match h
    case HLocal(id) => id < |locals| && id !in free
    case HBinOp(op, lhs, rhs) =>
      && KindedExpr(lhs, locals, free) && KindedExpr(rhs, locals, free)
      && (op.And? || op.Or? ==> InferKind(lhs, locals) == InferKind(rhs, locals))
    case HUnaryOp(_, operand) => KindedExpr(operand, locals, free)
    case _ => true
  }

  predicate KindedExprs(hs: seq<HExpr>, locals: seq<LocalInfo>, free: set<nat>) {
    forall k | 0 <= k < |hs| :: KindedExpr(hs[k], locals, free)
  }

  /** A write stores a value of the slot's kind. */
  predicate KindedWrite(id: nat, value: HExpr, locals: seq<LocalInfo>, free: set<nat>) {
    && KindedExpr(value, locals, free)
    && (id !in free ==> id < |locals| && InferKind(value, locals) == locals[id].kind)
  }

  predicate KindedStmt(h: HStmt, locals: seq<LocalInfo>, free: set<nat>) {
    match h
    case HLocalInit(id, value) => KindedWrite(id, value, locals, free)
    case HAssign(id, value) => KindedWrite(id, value, locals, free)
    case HBlock(body) => KindedStmts(body, locals, free)
    case HIf(arms, elseBody) =>
      && (forall k | 0 <= k < |arms| ::
            KindedExpr(arms[k].cond, locals, free) && KindedStmts(arms[k].body, locals, free))
      && KindedStmts(elseBody, locals, free)
    case HWhile(cond, body, _) => KindedExpr(cond, locals, free) && KindedStmts(body, locals, free)
    case HRepeat(body, cond, _) => KindedExpr(cond, locals, free) && KindedStmts(body, locals, free)
    case HFor(id, start, stop, step, body, _) =>
      && id < |locals| && id !in free && locals[id].kind == NumberKind
      && KindedExprs([start, stop, step], locals, free)
      && KindedStmts(body, locals, free)
    case HPrint(args) => KindedExprs(args, locals, free)
  }

  predicate KindedStmts(hs: seq<HStmt>, locals: seq<LocalInfo>, free: set<nat>) {
    forall k | 0 <= k < |hs| :: KindedStmt(hs[k], locals, free)
  }

  /** Every slot that is not free holds a value of its kind. */
  ghost predicate StoreTyped(store: Store, locals: seq<LocalInfo>, free: set<nat>) {
    forall j: nat | j < |locals| && j !in free :: KindOf(Load(store, j)) == locals[j].kind
  }

  /** An expression traps or evaluates to a value of its inferred kind. */
  lemma {:induction false} ExprKindSound(h: HExpr, locals: seq<LocalInfo>, free: set<nat>, store: Store)
    requires KindedExpr(h, locals, free) && StoreTyped(store, locals, free)
    ensures var r := HEval(h, store); r.Some? ==> KindOf(r.value) == InferKind(h, locals)
  {
    match h
    case HBinOp(op, lhs, rhs) =>
      ExprKindSound(lhs, locals, free, store);
      ExprKindSound(rhs, locals, free, store);
    case HUnaryOp(op, operand) => ExprKindSound(operand, locals, free, store);
    case _ =>
  }

  /** Folding an equality of different kinds, or of two nils, agrees with evaluating it exactly when neither operand traps. */
  lemma EqualityFoldExact(op: BinOp, l: HExpr, r: HExpr, locals: seq<LocalInfo>, free: set<nat>, store: Store)
    requires (op.Eq? || op.Ne?) && KindedExpr(l, locals, free) && KindedExpr(r, locals, free)
    requires StoreTyped(store, locals, free) && FoldsEquality(InferKind(l, locals), InferKind(r, locals))
    ensures HEval(LowerBinOp(op, l, r, locals).value, store) == HEval(HBinOp(op, l, r), store)
       <==> HEval(l, store).Some? && HEval(r, store).Some?
  {
    ExprKindSound(l, locals, free, store);
    ExprKindSound(r, locals, free, store);
  }

  // ----- Runs preserve kinds -----

  lemma WriteKindSound(id: nat, value: HExpr, locals: seq<LocalInfo>, free: set<nat>, store: Store, trace: Trace)
    requires KindedWrite(id, value, locals, free) && StoreTyped(store, locals, free)
    ensures StoreTyped(HStore(id, value, store, trace).store, locals, free)
  {
    ExprKindSound(value, locals, free, store);
  }

  /** However a run of the lowered code ends, it leaves every slot with a value of its kind. */
  lemma {:induction false} RunKindSound(
      fuel: nat, h: HStmt, locals: seq<LocalInfo>, free: set<nat>, store: Store, trace: Trace)
    requires KindedStmt(h, locals, free) && StoreTyped(store, locals, free)
    ensures StoreTyped(HExec(fuel, h, store, trace).store, locals, free)
    decreases fuel, h, 1
  {
    match h
    case HLocalInit(id, value) => WriteKindSound(id, value, locals, free, store, trace);
    case HAssign(id, value) => WriteKindSound(id, value, locals, free, store, trace);
    case HBlock(body) => SeqKindSound(fuel, body, locals, free, store, trace);
    case HIf(_, _) => ArmsKindSound(fuel, h, 0, locals, free, store, trace);
    case HWhile(_, _, _) => LoopKindSound(fuel, h, 0, 0, locals, free, store, trace);
    case HRepeat(_, _, _) => LoopKindSound(fuel, h, 0, 0, locals, free, store, trace);
    case HFor(id, start, stop, step, _, _) =>
      var vs := HEvalAll([start, stop, step], store);
      if vs.Some? && vs.value[0].Num? && vs.value[1].Num? && vs.value[2].Num? {
        LoopKindSound(fuel, h, vs.value[1].n, vs.value[2].n, locals, free, store[id := vs.value[0]], trace);
      }
    case HPrint(_) =>
  }

  lemma {:induction false} SeqKindSound(
      fuel: nat, hs: seq<HStmt>, locals: seq<LocalInfo>, free: set<nat>, store: Store, trace: Trace)
    requires KindedStmts(hs, locals, free) && StoreTyped(store, locals, free)
    ensures StoreTyped(HExecSeq(fuel, hs, store, trace).store, locals, free)
    decreases fuel, hs, 0
  {
    if hs != [] {
      var r := HExec(fuel, hs[0], store, trace);
      RunKindSound(fuel, hs[0], locals, free, store, trace);
      SeqKindSound(fuel, hs[1..], locals, free, r.store, r.trace);
    }
  }

  lemma {:induction false} ArmsKindSound(
      fuel: nat, h: HStmt, k: nat, locals: seq<LocalInfo>, free: set<nat>, store: Store, trace: Trace)
    requires h.HIf? && k <= |h.arms| && KindedStmt(h, locals, free) && StoreTyped(store, locals, free)
    ensures StoreTyped(HExecArms(fuel, h, k, store, trace).store, locals, free)
    decreases fuel, h, 0, |h.arms| - k
  {
    if k == |h.arms| {
      SeqKindSound(fuel, h.elseBody, locals, free, store, trace);
    } else {
      SeqKindSound(fuel, h.arms[k].body, locals, free, store, trace);
      ArmsKindSound(fuel, h, k + 1, locals, free, store, trace);
    }
  }

  lemma {:induction false} LoopKindSound(
      fuel: nat, h: HStmt, stop: int, step: int, locals: seq<LocalInfo>, free: set<nat>, store: Store, trace: Trace)
    requires h.HWhile? || h.HRepeat? || h.HFor?
    requires KindedStmt(h, locals, free) && StoreTyped(store, locals, free)
    ensures h.HWhile? ==> StoreTyped(HExecWhile(fuel, h, store, trace).store, locals, free)
    ensures h.HRepeat? ==> StoreTyped(HExecRepeat(fuel, h, store, trace).store, locals, free)
    ensures h.HFor? ==> StoreTyped(HExecFor(fuel, h, stop, step, store, trace).store, locals, free)
    decreases fuel, h, 0
  {
    if fuel > 0 {
      var r := HExecSeq(fuel - 1, h.body, store, trace);
      SeqKindSound(fuel - 1, h.body, locals, free, store, trace);
      if h.HFor? {
        var j := Load(r.store, h.varId);
        if j.Num? {
          LoopKindSound(fuel - 1, h, stop, step, locals, free, r.store[h.varId := Num(j.n + step)], r.trace);
        }
      } else {
        LoopKindSound(fuel - 1, h, stop, step, locals, free, r.store, r.trace);
      }
    }
  }

  // ----- Lowering produces kinded code -----

  /** `later` is what `locals` may have become by the end of the lowering. */
  ghost predicate Within(locals: seq<LocalInfo>, later: seq<LocalInfo>, free: set<nat>) {
    && |locals| <= |later|
    && forall j: nat | j < |locals| && j !in free :: later[j] == locals[j]
  }

  lemma FlowWithin(c: Ctx, d: Ctx, later: seq<LocalInfo>)
    requires Flow(c, d) && Within(d.locals, later, RetSet(c))
    ensures Within(c.locals, later, RetSet(c)) && RetSet(d) == RetSet(c)
  {}

  lemma {:induction false} InferWithin(h: HExpr, locals: seq<LocalInfo>, later: seq<LocalInfo>, free: set<nat>)
    requires KindedExpr(h, locals, free) && Within(locals, later, free)
    ensures KindedExpr(h, later, free) && InferKind(h, later) == InferKind(h, locals)
  {
    match h
    case HBinOp(op, lhs, rhs) =>
      InferWithin(lhs, locals, later, free);
      InferWithin(rhs, locals, later, free);
    case HUnaryOp(op, operand) => InferWithin(operand, locals, later, free);
    case _ =>
  }

  lemma {:induction false} ResolveFinds<T>(frames: seq<map<string, T>>, name: string)
    ensures match Resolve(frames, name)
      case None => forall f | 0 <= f < |frames| :: name !in frames[f]
      case Some(v) => exists f :: 0 <= f < |frames| && name in frames[f] && frames[f][name] == v
  {
    if frames != [] && name !in frames[|frames| - 1] {
      ResolveFinds(frames[..|frames| - 1], name);
    }
  }

  /** A resolved user name is a user slot. */
  lemma ResolveUser(c: Ctx, name: string)
    requires WF(c) && UserName(name) && Resolve<nat>(c.scopes, name).Some?
    ensures var id := Resolve<nat>(c.scopes, name).value;
            id < |c.locals| && id !in Hidden(c) && exists f :: Names(c, f, name) && c.scopes[f][name] == id
  {
    ResolveFinds<nat>(c.scopes, name);
    var f :| 0 <= f < |c.scopes| && name in c.scopes[f] && c.scopes[f][name] == Resolve<nat>(c.scopes, name).value;
    assert Names(c, f, name);
  }

  lemma {:induction false} LowerExprKinded(e: Expr, c: Ctx)
    requires WF(c) && UserExpr(e) && LowerExpr(e, c).Ok?
    ensures KindedExpr(LowerExpr(e, c).value, c.locals, RetSet(c))
  {
    match e
    case Ident(name) => ResolveUser(c, name);
    case BinOp(op, lhs, rhs) =>
      LowerExprKinded(lhs, c);
      LowerExprKinded(rhs, c);
    case UnaryOp(_, operand) => LowerExprKinded(operand, c);
    case _ =>
  }

  lemma {:induction false} LowerExprsKinded(es: seq<Expr>, c: Ctx)
    requires WF(c) && UserExprs(es) && LowerExprs(es, c).Ok?
    ensures KindedExprs(LowerExprs(es, c).value, c.locals, RetSet(c))
  {
    if es != [] {
      LowerExprKinded(es[0], c);
      LowerExprsKinded(es[1..], c);
    }
  }

  /** The code of an expression, as the finished table of locals sees it. */
  lemma LowerExprLater(e: Expr, c: Ctx, later: seq<LocalInfo>)
    requires WF(c) && UserExpr(e) && LowerExpr(e, c).Ok? && Within(c.locals, later, RetSet(c))
    ensures var h := LowerExpr(e, c).value;
            KindedExpr(h, later, RetSet(c)) && InferKind(h, later) == InferKind(h, c.locals)
  {
    LowerExprKinded(e, c);
    InferWithin(LowerExpr(e, c).value, c.locals, later, RetSet(c));
  }

  lemma LowerExprsLater(es: seq<Expr>, c: Ctx, later: seq<LocalInfo>)
    requires WF(c) && UserExprs(es) && LowerExprs(es, c).Ok? && Within(c.locals, later, RetSet(c))
    ensures var hs := LowerExprs(es, c).value;
            && KindedExprs(hs, later, RetSet(c))
            && forall k | 0 <= k < |hs| :: InferKind(hs[k], later) == InferKind(hs[k], c.locals)
  {
    LowerExprsKinded(es, c);
    var hs := LowerExprs(es, c).value;
    forall k | 0 <= k < |hs|
      ensures KindedExpr(hs[k], later, RetSet(c)) && InferKind(hs[k], later) == InferKind(hs[k], c.locals)
    {
      InferWithin(hs[k], c.locals, later, RetSet(c));
    }
  }

  /** A slot just declared is no result slot, so it keeps its kind. */
  lemma FreshKept(c: Ctx, d: Ctx, e: Ctx)
    requires WF(c) && Flow(c, d) && Flow(d, e) && |d.locals| > |c.locals|
    ensures e.locals[|c.locals|] == d.locals[|c.locals|]
  {
    assert |c.locals| !in Hidden(c);
    assert RetSet(d) == RetSet(c);
  }

  /** Slots declared for values have the kinds of those values. */
  lemma {:induction false} DeclareAllKinds(c: Ctx, names: seq<string>, hs: seq<HExpr>)
    requires WF(c) && |names| == |hs| && KindedExprs(hs, c.locals, RetSet(c))
    ensures var d := DeclareAll(c, names, hs);
            |d.locals| == |c.locals| + |hs| &&
            forall k | 0 <= k < |hs| :: d.locals[|c.locals| + k].kind == InferKind(hs[k], c.locals)
    decreases |names|
  {
    if names != [] {
      var d := Declare(c, names[0], InferKind(hs[0], c.locals));
      DeclareFlow(c, names[0], InferKind(hs[0], c.locals));
      forall k | 0 <= k < |hs|
        ensures KindedExpr(hs[k], d.locals, RetSet(c)) && InferKind(hs[k], d.locals) == InferKind(hs[k], c.locals)
      {
        InferWithin(hs[k], c.locals, d.locals, RetSet(c));
      }
      DeclareAllFlow(d, names[1..], hs[1..]);
      DeclareAllKinds(d, names[1..], hs[1..]);
      var e := DeclareAll(d, names[1..], hs[1..]);
      FreshKept(c, d, e);
      forall k | 0 <= k < |hs|
        ensures e.locals[|c.locals| + k].kind == InferKind(hs[k], c.locals)
      {
        if k > 0 {
          assert hs[1..][k - 1] == hs[k] && e.locals[|d.locals| + (k - 1)].kind == InferKind(hs[k], d.locals);
        }
      }
    }
  }

  lemma {:induction false} DeclareTempsKinds(c: Ctx, hs: seq<HExpr>)
    requires WF(c) && KindedExprs(hs, c.locals, RetSet(c))
    ensures var d := DeclareTemps(c, hs);
            |d.locals| == |c.locals| + |hs| &&
            forall k | 0 <= k < |hs| :: d.locals[|c.locals| + k].kind == InferKind(hs[k], c.locals)
    decreases |hs|
  {
    if hs != [] {
      var name, kind := TMP_PREFIX + Decimal(|c.locals|), InferKind(hs[0], c.locals);
      var d := Declare(c, name, kind);
      DeclareFlow(c, name, kind);
      forall k | 0 <= k < |hs|
        ensures KindedExpr(hs[k], d.locals, RetSet(c)) && InferKind(hs[k], d.locals) == InferKind(hs[k], c.locals)
      {
        InferWithin(hs[k], c.locals, d.locals, RetSet(c));
      }
      DeclareTempsFlow(d, hs[1..]);
      DeclareTempsKinds(d, hs[1..]);
      var e := DeclareTemps(d, hs[1..]);
      assert |c.locals| !in Hidden(c) && d.locals[|c.locals|].kind == kind;
      FreshKept(c, d, e);
      forall k | 0 <= k < |hs|
        ensures e.locals[|c.locals| + k].kind == InferKind(hs[k], c.locals)
      {
        if k > 0 {
          assert hs[1..][k - 1] == hs[k] && e.locals[|d.locals| + (k - 1)].kind == InferKind(hs[k], d.locals);
        }
      }
    }
  }

  lemma InitsKinded(hs: seq<HExpr>, c: Ctx, d: Ctx, later: seq<LocalInfo>)
    requires WF(c) && WF(d) && Flow(c, d) && Within(d.locals, later, RetSet(c)) && KindedExprs(hs, c.locals, RetSet(c))
    requires |d.locals| >= |c.locals| + |hs|
    requires forall k | 0 <= k < |hs| :: d.locals[|c.locals| + k].kind == InferKind(hs[k], c.locals)
    ensures KindedStmts(Inits(hs, |c.locals|), later, RetSet(c))
  {
    FlowWithin(c, d, later);
    forall k | 0 <= k < |hs|
      ensures KindedStmt(Inits(hs, |c.locals|)[k], later, RetSet(c))
    {
      InferWithin(hs[k], c.locals, later, RetSet(c));
      assert RetSet(c) <= Hidden(c);
    }
  }

  lemma AssignTargetKinded(name: string, value: HExpr, c: Ctx, d: Ctx, later: seq<LocalInfo>)
    requires WF(c) && UserName(name) && KindedExpr(value, c.locals, RetSet(c))
    requires LowerAssignTarget(name, value, c).Ok? && d == LowerAssignTarget(name, value, c).value.c
    requires Within(c.locals, later, RetSet(c)) && Within(d.locals, later, RetSet(c))
    ensures KindedStmt(LowerAssignTarget(name, value, c).value.h, later, RetSet(c))
  {
    InferWithin(value, c.locals, later, RetSet(c));
    if Resolve<nat>(c.scopes, name).Some? {
      ResolveUser(c, name);
    } else {
      assert |c.locals| !in Hidden(c);
    }
  }

  lemma TargetsCons(names: seq<string>, first: nat, c: Ctx)
    requires c.scopes != [] && names != [] && LowerTargets(names, first, c).Ok?
    ensures LowerAssignTarget(names[0], HLocal(first), c).Ok?
    ensures var a := LowerAssignTarget(names[0], HLocal(first), c).value;
            && LowerTargets(names[1..], first + 1, a.c).Ok?
            && LowerTargets(names, first, c).value.hs == [a.h] + LowerTargets(names[1..], first + 1, a.c).value.hs
            && LowerTargets(names, first, c).value.c == LowerTargets(names[1..], first + 1, a.c).value.c
  {}

  lemma TargetsStep(names: seq<string>, first: nat, c: Ctx, later: seq<LocalInfo>)
    requires WF(c) && names != [] && LowerTargets(names, first, c).Ok?
    requires Within(LowerTargets(names, first, c).value.c.locals, later, RetSet(c))
    ensures var d := LowerAssignTarget(names[0], HLocal(first), c).value.c;
            && WF(d) && RetSet(d) == RetSet(c) && |c.locals| <= |d.locals|
            && Within(c.locals, later, RetSet(c)) && Within(d.locals, later, RetSet(c))
  {
    var d := LowerAssignTarget(names[0], HLocal(first), c).value.c;
    TargetFlow(names[0], HLocal(first), c);
    TargetsFlow(names[1..], first + 1, d);
    FlowWithin(d, LowerTargets(names[1..], first + 1, d).value.c, later);
    FlowWithin(c, d, later);
  }

  lemma KindedCons(h: HStmt, hs: seq<HStmt>, later: seq<LocalInfo>, free: set<nat>)
    requires KindedStmt(h, later, free) && KindedStmts(hs, later, free)
    ensures KindedStmts([h] + hs, later, free)
  {}

  lemma {:induction false} TargetsKinded(names: seq<string>, first: nat, c: Ctx, later: seq<LocalInfo>)
    requires WF(c) && UserNames(names) && LowerTargets(names, first, c).Ok?
    requires first + |names| <= |c.locals| && forall r | r in RetSet(c) :: r < first
    requires Within(LowerTargets(names, first, c).value.c.locals, later, RetSet(c))
    ensures KindedStmts(LowerTargets(names, first, c).value.hs, later, RetSet(c))
    decreases |names|
  {
    if names != [] {
      var a := LowerAssignTarget(names[0], HLocal(first), c).value;
      TargetsCons(names, first, c);
      TargetsStep(names, first, c, later);
      AssignTargetKinded(names[0], HLocal(first), c, a.c, later);
      TargetsKinded(names[1..], first + 1, a.c, later);
      KindedCons(a.h, LowerTargets(names[1..], first + 1, a.c).value.hs, later, RetSet(c));
    }
  }

  lemma {:induction false} RetAssignsKinded(rets: seq<nat>, hs: seq<HExpr>, later: seq<LocalInfo>, free: set<nat>)
    requires KindedExprs(hs, later, free) && forall r | r in rets :: r in free
    ensures KindedStmts(RetAssigns(rets, hs), later, free)
    decreases |hs|
  {
    if rets != [] && hs != [] {
      RetAssignsKinded(rets[1..], hs[1..], later, free);
    }
  }

  lemma ReturnKinded(hs: seq<HExpr>, c: Ctx, later: seq<LocalInfo>)
    requires WF(c) && LowerReturn(hs, c).Ok? && KindedExprs(hs, later, RetSet(c)) && Within(c.locals, later, RetSet(c))
    ensures KindedStmt(LowerReturn(hs, c).value.h, later, RetSet(c))
  {
    var slots := c.fn.value;
    RetAssignsKinded(slots.rets, hs, later, RetSet(c));
    assert slots.returned in Hidden(c);
  }

  lemma WrapGuardKinded(h: HStmt, guard: Option<nat>, later: seq<LocalInfo>, free: set<nat>)
    requires KindedStmt(h, later, free)
    requires guard.Some? ==> guard.value < |later| && guard.value !in free
    ensures KindedStmt(WrapGuard(h, guard), later, free)
  {
    if guard.Some? {
      var arm := HArm(HUnaryOp(Not, HLocal(guard.value)), [h]);
      assert KindedExpr(arm.cond, later, free) && KindedStmts(arm.body, later, free);
    }
  }

  /** The target flag of a well-formed context is a boolean slot outside the result slots. */
  lemma TargetSlot(c: Ctx)
    requires WF(c) && Target(c).Some?
    ensures Target(c).value < |c.locals| && Target(c).value in Flags(c) && Target(c).value !in RetSet(c)
    ensures c.locals[Target(c).value].kind == BoolKind
  {
    assert Target(c) in c.targets;
    assert Target(c).value in Hidden(c);
  }

  lemma WrapInitKinded(h: HStmt, flag: Option<nat>, later: seq<LocalInfo>, free: set<nat>)
    requires KindedStmt(h, later, free)
    requires flag.Some? ==> flag.value < |later| && later[flag.value].kind == BoolKind
    ensures KindedStmt(WrapInit(h, flag), later, free)
  {
    if flag.Some? {
      var code := [HLocalInit(flag.value, HBool(false)), h];
      assert KindedStmts(code, later, free);
    }
  }

  /** Lowered statements are kinded, as the finished table of locals sees them. */
  lemma {:induction false} LowerStmtKinded(s: Stmt, c: Ctx, later: seq<LocalInfo>)
    requires WF(c) && UserStmt(s) && LowerStmt(s, c).Ok? && Within(LowerStmt(s, c).value.c.locals, later, RetSet(c))
    ensures KindedStmt(LowerStmt(s, c).value.h, later, RetSet(c))
    decreases s, 1
  {
    var d := LowerStmt(s, c).value.c;
    LowerStmtFlow(s, c);
    FlowWithin(c, d, later);
    match s
    case Local(name, value) =>
      LowerExprLater(value, c, later);
      assert |c.locals| !in Hidden(c);
    case LocalMulti(names, values) =>
      var hs := LowerExprs(values, c).value;
      LowerExprsKinded(values, c);
      DeclareAllKinds(c, names, hs);
      InitsKinded(hs, c, d, later);
    case Assign(name, value) =>
      LowerExprKinded(value, c);
      AssignTargetKinded(name, LowerExpr(value, c).value, c, d, later);
    case AssignMulti(names, values) => AssignMultiKinded(s, c, later);
    case Block(body) =>
      PushWF(c);
      LowerSeqKinded(body, PushScope(c), None, later);
    case If(arms, elseBody) => IfKinded(s, c, later);
    case While(_, _) => WhileKinded(s, c, later);
    case Repeat(_, _) => RepeatKinded(s, c, later);
    case ForNumeric(_, _, _, _, _) => ForKinded(s, c, later);
    case Break => TargetSlot(c);
    case Return(values) =>
      LowerExprsLater(values, c, later);
      ReturnKinded(LowerExprs(values, c).value, c, later);
    case Print(args) => LowerExprsLater(args, c, later);
  }

  lemma AssignMultiKinded(s: Stmt, c: Ctx, later: seq<LocalInfo>)
    requires WF(c) && s.AssignMulti? && UserStmt(s) && LowerStmt(s, c).Ok?
    requires Within(LowerStmt(s, c).value.c.locals, later, RetSet(c))
    ensures KindedStmt(LowerStmt(s, c).value.h, later, RetSet(c))
  {
    var hs := LowerExprs(s.values, c).value;
    var d := DeclareTemps(c, hs);
    LowerExprsKinded(s.values, c);
    DeclareTempsFlow(c, hs);
    DeclareTempsKinds(c, hs);
    TargetsFlow(s.names, |c.locals|, d);
    var moves := LowerTargets(s.names, |c.locals|, d).value;
    FlowWithin(d, moves.c, later);
    InitsKinded(hs, c, d, later);
    assert RetSet(c) <= Hidden(c);
    TargetsKinded(s.names, |c.locals|, d, later);
  }

  lemma {:induction false} IfKinded(s: Stmt, c: Ctx, later: seq<LocalInfo>)
    requires WF(c) && s.If? && UserStmt(s) && LowerStmt(s, c).Ok?
    requires Within(LowerStmt(s, c).value.c.locals, later, RetSet(c))
    ensures KindedStmt(LowerStmt(s, c).value.h, later, RetSet(c))
    decreases s, 0, |s.arms| + 1
  {
    var a := LowerArms(s, 0, c).value;
    LowerArmsFlow(s, 0, c);
    LowerBodyFlow(s.elseBody, a.1);
    FlowWithin(a.1, LowerBody(s.elseBody, a.1).value.c, later);
    LowerArmsKinded(s, 0, c, later);
    LowerBodyKinded(s.elseBody, a.1, later);
  }

  lemma {:induction false} WhileKinded(s: Stmt, c: Ctx, later: seq<LocalInfo>)
    requires WF(c) && s.While? && UserStmt(s) && LowerStmt(s, c).Ok?
    requires Within(LowerStmt(s, c).value.c.locals, later, RetSet(c))
    ensures KindedStmt(LowerStmt(s, c).value.h, later, RetSet(c))
    decreases s, 0, 0
  {
    var c1 := EnterLoop(c, s.body);
    EnterLoopWF(c, s.body);
    LowerBodyFlow(s.body, c1);
    FlowWithin(c1, LowerBody(s.body, c1).value.c, later);
    LowerExprLater(s.cond, c1, later);
    LowerBodyKinded(s.body, c1, later);
    if Target(c1).Some? {
      TargetSlot(c1);
    }
    var loop := HWhile(LowerExpr(s.cond, c1).value, LowerBody(s.body, c1).value.hs, Target(c1));
    WrapInitKinded(loop, Target(c1), later, RetSet(c));
  }

  lemma {:induction false} RepeatKinded(s: Stmt, c: Ctx, later: seq<LocalInfo>)
    requires WF(c) && s.Repeat? && UserStmt(s) && LowerStmt(s, c).Ok?
    requires Within(LowerStmt(s, c).value.c.locals, later, RetSet(c))
    ensures KindedStmt(LowerStmt(s, c).value.h, later, RetSet(c))
    decreases s, 0, 0
  {
    var c1 := EnterLoop(c, s.body);
    EnterLoopWF(c, s.body);
    PushWF(c1);
    var p := PushScope(c1);
    var b := LowerSeq(s.body, p, Target(c1)).value;
    LowerSeqFlow(s.body, p, Target(c1));
    FlowWithin(p, b.c, later);
    if Target(c1).Some? {
      TargetSlot(c1);
    }
    LowerSeqKinded(s.body, p, Target(c1), later);
    LowerExprLater(s.cond, b.c, later);
    WrapInitKinded(HRepeat(b.hs, LowerExpr(s.cond, b.c).value, Target(c1)), Target(c1), later, RetSet(c));
  }

  lemma {:induction false} ForKinded(s: Stmt, c: Ctx, later: seq<LocalInfo>)
    requires WF(c) && s.ForNumeric? && UserStmt(s) && LowerStmt(s, c).Ok?
    requires Within(LowerStmt(s, c).value.c.locals, later, RetSet(c))
    ensures KindedStmt(LowerStmt(s, c).value.h, later, RetSet(c))
    decreases s, 0, 0
  {
    hide LowerExpr, LowerSeq;
    var bounds := Bounds(s);
    var c1 := EnterLoop(c, s.body);
    var p, id, flag := EnterFor(c1, s.loopVar), |c1.locals|, Target(c1);
    var b := LowerSeq(s.body, p, flag).value;
    ForSlots(s, c, later);
    LowerExprsLater(bounds, c, later);
    LowerSeqKinded(s.body, p, flag, later);
    var hs := LowerExprs(bounds, c).value;
    assert [hs[0], hs[1], hs[2]] == hs;
    assert KindedStmt(HFor(id, hs[0], hs[1], hs[2], b.hs, flag), later, RetSet(c));
    WrapInitKinded(HFor(id, hs[0], hs[1], hs[2], b.hs, flag), flag, later, RetSet(c));
  }

  lemma ForSlots(s: Stmt, c: Ctx, later: seq<LocalInfo>)
    requires WF(c) && s.ForNumeric? && UserStmt(s) && LowerStmt(s, c).Ok?
    requires Within(LowerStmt(s, c).value.c.locals, later, RetSet(c))
    ensures var c1 := EnterLoop(c, s.body);
            var p, id, flag := EnterFor(c1, s.loopVar), |c1.locals|, Target(c1);
            && WF(p) && RetSet(p) == RetSet(c) && id < |p.locals|
            && Within(c.locals, later, RetSet(c)) && Within(p.locals, later, RetSet(c))
            && id !in RetSet(c) && p.locals[id].kind == NumberKind
            && (flag.Some? ==> flag.value < id && flag.value !in RetSet(c) && later[flag.value].kind == BoolKind)
  {
    var c1 := EnterLoop(c, s.body);
    EnterLoopWF(c, s.body);
    EnterForWF(c1, s.loopVar);
    var p, id := EnterFor(c1, s.loopVar), |c1.locals|;
    LowerSeqFlow(s.body, p, Target(c1));
    FlowWithin(p, LowerSeq(s.body, p, Target(c1)).value.c, later);
    LowerStmtFlow(s, c);
    FlowWithin(c, LowerStmt(s, c).value.c, later);
    assert id !in Hidden(c1);
    if Target(c1).Some? {
      TargetSlot(c1);
    }
  }

  lemma {:induction false} LowerSeqKinded(ss: seq<Stmt>, c: Ctx, guard: Option<nat>, later: seq<LocalInfo>)
    requires WF(c) && UserStmts(ss) && LowerSeq(ss, c, guard).Ok?
    requires Within(LowerSeq(ss, c, guard).value.c.locals, later, RetSet(c))
    requires guard.Some? ==> guard.value < |c.locals| && guard.value !in RetSet(c)
    ensures KindedStmts(LowerSeq(ss, c, guard).value.hs, later, RetSet(c))
    decreases ss, 0, 0
  {
    if ss != [] {
      var first := LowerStmt(ss[0], c).value;
      assert WF(first.c) && RetSet(first.c) == RetSet(c) && |c.locals| <= |first.c.locals| <= |later|
             && Within(first.c.locals, later, RetSet(c)) by {
        LowerStmtFlow(ss[0], c);
        LowerSeqFlow(ss[1..], first.c, guard);
        FlowWithin(first.c, LowerSeq(ss[1..], first.c, guard).value.c, later);
      }
      LowerStmtKinded(ss[0], c, later);
      WrapGuardKinded(first.h, guard, later, RetSet(c));
      LowerSeqKinded(ss[1..], first.c, guard, later);
    }
  }

  lemma {:induction false} LowerBodyKinded(ss: seq<Stmt>, c: Ctx, later: seq<LocalInfo>)
    requires WF(c) && UserStmts(ss) && LowerBody(ss, c).Ok?
    requires Within(LowerBody(ss, c).value.c.locals, later, RetSet(c))
    ensures KindedStmts(LowerBody(ss, c).value.hs, later, RetSet(c))
    decreases ss, 1, 0
  {
    PushWF(c);
    if Target(c).Some? {
      TargetSlot(c);
    }
    LowerSeqKinded(ss, PushScope(c), Target(c), later);
  }

  lemma {:induction false} LowerArmsKinded(s: Stmt, k: nat, c: Ctx, later: seq<LocalInfo>)
    requires WF(c) && s.If? && k <= |s.arms| && UserStmt(s) && LowerArms(s, k, c).Ok?
    requires Within(LowerArms(s, k, c).value.1.locals, later, RetSet(c))
    ensures forall a | a in LowerArms(s, k, c).value.0 ::
              KindedExpr(a.cond, later, RetSet(c)) && KindedStmts(a.body, later, RetSet(c))
    decreases s, 0, |s.arms| - k
  {
    if k < |s.arms| {
      var b := LowerBody(s.arms[k].body, c).value;
      assert WF(b.c) && RetSet(b.c) == RetSet(c) && Within(b.c.locals, later, RetSet(c))
             && Within(c.locals, later, RetSet(c)) by {
        LowerBodyFlow(s.arms[k].body, c);
        LowerArmsFlow(s, k + 1, b.c);
        FlowWithin(b.c, LowerArms(s, k + 1, b.c).value.1, later);
        FlowWithin(c, b.c, later);
      }
      LowerExprLater(s.arms[k].cond, c, later);
      LowerBodyKinded(s.arms[k].body, c, later);
      LowerArmsKinded(s, k + 1, b.c, later);
    }
  }

  lemma EmptyCtxWF()
    ensures WF(EMPTY_CTX)
  {}

  /**
   Kind soundness of a chunk: from slots holding values of their kinds, however long its code runs and
   however it ends, they hold such values still.
   */
  lemma ChunkKindSound(chunk: seq<Stmt>, fuel: nat, store: Store, trace: Trace)
    requires UserStmts(chunk) && LowerChunk(chunk).Ok?
    requires StoreTyped(store, LowerChunk(chunk).value.c.locals, {})
    ensures StoreTyped(HExecSeq(fuel, LowerChunk(chunk).value.hs, store, trace).store,
                       LowerChunk(chunk).value.c.locals, {})
  {
    EmptyCtxWF();
    var l := LowerChunk(chunk).value;
    LowerSeqKinded(chunk, EMPTY_CTX, None, l.c.locals);
    SeqKindSound(fuel, l.hs, l.c.locals, {}, store, trace);
  }
}

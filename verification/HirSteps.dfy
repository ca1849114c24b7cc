/**
 One statement of the source against its code, for the statements without a body: what the simulation
 relates, and that each of these steps keeps it.
 */
module HirSteps {
  import opened Wrappers
  import opened Numerals
  import opened HirSyntax
  import opened HirSemantics
  import opened HirLower
  import opened HirContext
  import opened HirKinds
  import opened HirFragment
  import opened HirRelation

  // ----- What code leaves alone -----

  /** The slots written when a body is left early: its flag, and the results if it is a function's. */
  ghost function ExitSlots(c: Ctx): set<nat> {
    (if Target(c).Some? then {Target(c).value} else {}) +
    (if c.fn.Some? && Target(c) == Some(c.fn.value.returned) then RetSet(c) else {})
  }

  /** A slot of `c` that is neither a writable variable nor, when the code is `left` early, an exit slot. */
  ghost predicate Pinned(c: Ctx, left: bool, j: nat) {
    && j < |c.locals|
    && (UserSlot(c, j) ==> j in c.readonly)
    && (left ==> j !in ExitSlots(c))
  }

  ghost predicate Keep(c: Ctx, left: bool, before: Store, after: Store) {
    forall j: nat {:trigger Pinned(c, left, j)} | Pinned(c, left, j) :: Load(after, j) == Load(before, j)
  }

  /** `d` is `c` with more slots; names of `d` for slots of `c` are names of `c`. */
  ghost predicate Extends(c: Ctx, d: Ctx) {
    && |c.locals| <= |d.locals|
    && d.targets == c.targets && d.fn == c.fn && c.readonly <= d.readonly
    && forall j: nat {:trigger UserSlot(d, j)} | j < |c.locals| && UserSlot(d, j) :: UserSlot(c, j)
  }

  lemma FlowExtends(c: Ctx, d: Ctx)
    requires Flow(c, d)
    ensures Extends(c, d)
  {
    forall j: nat | j < |c.locals| && UserSlot(d, j)
      ensures UserSlot(c, j)
    {
      var f, n :| Names(d, f, n) && d.scopes[f][n] == j;
      assert Names(c, f, n);
    }
  }

  lemma PushExtends(c: Ctx)
    requires WF(c)
    ensures Extends(c, PushScope(c))
  {
    PushWF(c);
    var d := PushScope(c);
    forall j: nat | j < |c.locals| && UserSlot(d, j)
      ensures UserSlot(c, j)
    {
      var f, n :| Names(d, f, n) && d.scopes[f][n] == j;
      assert Names(c, f, n);
    }
  }

  lemma ForExtends(c: Ctx, v: string)
    requires WF(c) && UserName(v)
    ensures Extends(c, EnterFor(c, v))
  {
    EnterForWF(c, v);
    PushExtends(c);
    var p, e := PushScope(c), EnterFor(c, v);
    forall j: nat | j < |c.locals| && UserSlot(e, j)
      ensures UserSlot(c, j)
    {
      var f, n :| Names(e, f, n) && e.scopes[f][n] == j;
      assert Names(p, f, n) && p.scopes[f][n] == j;
      assert UserSlot(p, j);
    }
  }

  lemma KeepExtends(c: Ctx, d: Ctx, left: bool, before: Store, after: Store)
    requires Extends(c, d) && Keep(d, left, before, after)
    ensures Keep(c, left, before, after)
  {
    assert ExitSlots(d) == ExitSlots(c);
    forall j: nat | Pinned(c, left, j)
      ensures Load(after, j) == Load(before, j)
    {
      assert Pinned(d, left, j);
    }
  }

  lemma KeepTransitive(c: Ctx, left: bool, s0: Store, s1: Store, s2: Store)
    requires Keep(c, false, s0, s1) && Keep(c, left, s1, s2)
    ensures Keep(c, left, s0, s2)
  {
    forall j: nat | Pinned(c, left, j)
      ensures Load(s2, j) == Load(s0, j)
    {
      assert Pinned(c, false, j);
    }
  }

  /** Writes above the slots of `c` concern nothing of `c`. */
  lemma FreshWrites(c: Ctx, env: Env, store: Store, later: Store)
    requires WF(c) && Rel(c.scopes, env, store)
    requires forall j: nat | j < |c.locals| :: Load(later, j) == Load(store, j)
    ensures Rel(c.scopes, env, later) && Keep(c, false, store, later)
  {
    forall j: nat | UserSlot(c, j) ensures j < |c.locals| {
      UserSlotInRange(c, j);
    }
    RelStore(c, env, store, later);
  }

  // ----- Where the code stands -----

  /** Inside a loop the target is the loop's; elsewhere it is the function's, if any. */
  ghost predicate Placed(c: Ctx, inLoop: bool) {
    if inLoop then c.targets != [] && (Target(c).Some? ==> Target(c).value !in FnSet(c))
    else Target(c) == if c.fn.Some? then Some(c.fn.value.returned) else None
  }

  /** Every `return` of `s` gives `n` results; loops are not searched. */
  predicate Yields(s: Stmt, n: nat) {
    match s
    case Return(values) => |values| == n
    case Block(body) => SeqYields(body, n)
    case If(arms, elseBody) => (forall k | 0 <= k < |arms| :: SeqYields(arms[k].body, n)) && SeqYields(elseBody, n)
    case _ => true
  }

  predicate SeqYields(ss: seq<Stmt>, n: nat) { forall k | 0 <= k < |ss| :: Yields(ss[k], n) }

  /** No flag has been raised. */
  ghost predicate Idle(c: Ctx, store: Store) {
    Target(c).Some? ==> Load(store, Target(c).value) == Boolean(false)
  }

  /** The two sides agree before a step; `later` is the finished table of locals. */
  ghost predicate At(c: Ctx, env: Env, store: Store, later: seq<LocalInfo>) {
    && Rel(c.scopes, env, store)
    && Idle(c, store)
    && StoreTyped(store, later, RetSet(c))
  }

  /** `s` may be lowered in `c` and run with its code. */
  ghost predicate Legal(s: Stmt, c: Ctx, inLoop: bool, later: seq<LocalInfo>) {
    && WF(c) && Placed(c, inLoop)
    && UserStmt(s) && LowerStmt(s, c).Ok? && FragStmt(s, c, inLoop)
    && Within(LowerStmt(s, c).value.c.locals, later, RetSet(c))
    && (c.fn.Some? && !inLoop ==> Yields(s, |c.fn.value.rets|))
  }

  // ----- What holds after a step -----

  /** The result slots hold the values of the `return`. */
  ghost predicate HoldsResults(c: Ctx, values: seq<Value>, store: Store) {
    && c.fn.Some? && |values| == |c.fn.value.rets|
    && forall k | 0 <= k < |values| :: Load(store, c.fn.value.rets[k]) == values[k]
  }

  /** Left early: the flag is up, and outside the innermost frame the two sides agree. */
  ghost predicate Left(c: Ctx, before: Store, r: Result, q: HResult)
    requires c.scopes != [] && r.env != []
  {
    && q.out.HNormal? && FlagSet(Target(c), q.store)
    && Keep(c, true, before, q.store)
    && Rel(Pop(c.scopes), Pop(r.env), q.store)
  }

  /** The same values are printed; behind a zero step, which the code does not notice, it may print more. */
  predicate SameTrace(r: Result, q: HResult) { if r.out.ZeroStep? then r.trace <= q.trace else q.trace == r.trace }

  /** The code ends as the source does, with the same trace; `after` are the scopes it leaves. */
  ghost predicate Matches(
      c: Ctx, after: seq<map<string, nat>>, inLoop: bool, before: Store, r: Result, q: HResult)
    requires c.scopes != [] && r.env != []
  {
    && SameTrace(r, q)
    && match r.out
       case Normal => q.out.HNormal? && Rel(after, r.env, q.store) && Keep(c, false, before, q.store)
       case Broke => inLoop && Left(c, before, r, q)
       case Returned(values) => !inLoop && Left(c, before, r, q) && HoldsResults(c, values, q.store)
       case Trapped => q.out.HTrapped?
       case ZeroStep => true
       case OutOfFuel => q.out.HOutOfFuel?
  }

  predicate LeftEarly(out: Outcome) { out.Broke? || out.Returned? }

  ghost predicate Simulates(fuel: nat, s: Stmt, c: Ctx, inLoop: bool, env: Env, store: Store, trace: Trace)
    requires c.scopes != [] && env != [] && LowerStmt(s, c).Ok?
  {
    var l, r := LowerStmt(s, c).value, Exec(fuel, s, env, trace);
    && Matches(c, l.c.scopes, inLoop, store, r, HExec(fuel, l.h, store, trace))
    && (LeftEarly(r.out) ==> Escapes(s))
  }

  // ----- Statements without a body -----

  lemma LegalWithin(s: Stmt, c: Ctx, inLoop: bool, later: seq<LocalInfo>)
    requires Legal(s, c, inLoop, later)
    ensures Within(c.locals, later, RetSet(c))
  {
    LowerStmtFlow(s, c);
    FlowWithin(c, LowerStmt(s, c).value.c, later);
  }

  lemma SimLocal(fuel: nat, s: Stmt, c: Ctx, inLoop: bool, env: Env, store: Store, trace: Trace, later: seq<LocalInfo>)
    requires s.Local? && Legal(s, c, inLoop, later) && At(c, env, store, later)
    ensures Simulates(fuel, s, c, inLoop, env, store, trace)
  {
    LegalWithin(s, c, inLoop, later);
    ExprSim(s.value, c, env, store, later);
    var h := LowerExpr(s.value, c).value;
    if HEval(h, store).Some? {
      var v := HEval(h, store).value;
      var next := store[|c.locals| := v];
      FreshWrites(c, env, store, next);
      BindRel(c, s.name, InferKind(h, c.locals), env, v, next);
    }
  }

  lemma SimLocalMulti(
      fuel: nat, s: Stmt, c: Ctx, inLoop: bool, env: Env, store: Store, trace: Trace, later: seq<LocalInfo>)
    requires s.LocalMulti? && Legal(s, c, inLoop, later) && At(c, env, store, later)
    ensures Simulates(fuel, s, c, inLoop, env, store, trace)
  {
    var hs, code := LowerExprs(s.values, c).value, LowerStmt(s, c).value.h;
    LegalWithin(s, c, inLoop, later);
    ExprsSim(s.values, c, env, store, later);
    LowerExprsKinded(s.values, c);
    InitsRun(fuel, hs, |c.locals|, c.locals, RetSet(c), store, trace);
    assert HExec(fuel, code, store, trace) == HExecSeq(fuel, code.body, store, trace);
    var q, vs := HExecSeq(fuel, code.body, store, trace), HEvalAll(hs, store);
    if vs.Some? {
      FreshWrites(c, env, store, q.store);
      DeclareAllRel(c, s.names, hs, env, vs.value, q.store);
    }
  }

  lemma SimAssign(fuel: nat, s: Stmt, c: Ctx, inLoop: bool, env: Env, store: Store, trace: Trace, later: seq<LocalInfo>)
    requires s.Assign? && Legal(s, c, inLoop, later) && At(c, env, store, later)
    ensures Simulates(fuel, s, c, inLoop, env, store, trace)
  {
    LegalWithin(s, c, inLoop, later);
    ExprSim(s.value, c, env, store, later);
    var h := LowerExpr(s.value, c).value;
    TargetCode(s.name, h, c);
    if HEval(h, store).Some? {
      AssignStore(c, env, store, s.name, HEval(h, store).value);
    }
  }

  lemma AssignStore(c: Ctx, env: Env, store: Store, name: string, v: Value)
    requires WF(c) && Rel(c.scopes, env, store) && UserName(name) && Declared(c, name) && SlotOf(c, name) !in c.readonly
    ensures env != [] && Rel(c.scopes, AssignName(env, name, v), store[SlotOf(c, name) := v])
    ensures Keep(c, false, store, store[SlotOf(c, name) := v])
  {
    UpdateRel(c, env, store, name, v);
    ResolveUserSlot(c, name);
  }

  /** Temporaries carry no user name. */
  lemma {:induction false} TempsUserSlots(c: Ctx, hs: seq<HExpr>)
    requires WF(c)
    ensures forall j: nat | UserSlot(DeclareTemps(c, hs), j) :: UserSlot(c, j)
    decreases |hs|
  {
    if hs != [] {
      var tmp, kind := TMP_PREFIX + Decimal(|c.locals|), InferKind(hs[0], c.locals);
      assert !UserName(tmp);
      DeclareFlow(c, tmp, kind);
      TempsUserSlots(Declare(c, tmp, kind), hs[1..]);
      HiddenUserSlots(c, tmp, kind);
    }
  }

  lemma HiddenUserSlots(c: Ctx, name: string, kind: Kind)
    requires c.scopes != [] && !UserName(name)
    ensures forall j: nat | UserSlot(Declare(c, name, kind), j) :: UserSlot(c, j)
  {
    var d := Declare(c, name, kind);
    HiddenNames(c, name, kind);
    forall j: nat | UserSlot(d, j)
      ensures UserSlot(c, j)
    {
      var f, n :| Names(d, f, n) && d.scopes[f][n] == j;
      assert Names(c, f, n) && c.scopes[f][n] == j;
    }
  }

  lemma TempsBelow(c: Ctx, hs: seq<HExpr>)
    requires WF(c)
    ensures UserBelow(DeclareTemps(c, hs), |c.locals|)
  {
    TempsUserSlots(c, hs);
    forall j: nat | UserSlot(DeclareTemps(c, hs), j) ensures j < |c.locals| {
      UserSlotInRange(c, j);
    }
  }

  lemma SimAssignMulti(
      fuel: nat, s: Stmt, c: Ctx, inLoop: bool, env: Env, store: Store, trace: Trace, later: seq<LocalInfo>)
    requires s.AssignMulti? && Legal(s, c, inLoop, later) && At(c, env, store, later)
    ensures Simulates(fuel, s, c, inLoop, env, store, trace)
  {
    var hs, code := LowerExprs(s.values, c).value, LowerStmt(s, c).value.h;
    var first := |c.locals|;
    var d := DeclareTemps(c, hs);
    var moves := LowerTargets(s.names, first, d).value;
    LegalWithin(s, c, inLoop, later);
    ExprsSim(s.values, c, env, store, later);
    LowerExprsKinded(s.values, c);
    InitsRun(fuel, hs, first, c.locals, RetSet(c), store, trace);
    SeqAppend(fuel, Inits(hs, first), moves.hs, store, trace);
    assert HExec(fuel, code, store, trace) == HExecSeq(fuel, Inits(hs, first) + moves.hs, store, trace);
    var q, vs := HExecSeq(fuel, Inits(hs, first), store, trace), HEvalAll(hs, store);
    if vs.Some? {
      FreshWrites(c, env, store, q.store);
      SimMoves(fuel, s.names, hs, c, env, vs.value, q.store, trace);
      KeepTransitive(c, false, store, q.store, HExecSeq(fuel, moves.hs, q.store, trace).store);
    }
  }

  /** The second half of a parallel assignment. */
  lemma SimMoves(
      fuel: nat, names: seq<string>, hs: seq<HExpr>, c: Ctx, env: Env, vs: seq<Value>, store: Store, trace: Trace)
    requires WF(c) && UserNames(names) && |names| == |hs| == |vs|
    requires forall k | 0 <= k < |names| :: Declared(c, names[k])
    requires LowerTargets(names, |c.locals|, DeclareTemps(c, hs)).Ok?
    requires Rel(c.scopes, env, store) && HoldsFrom(store, |c.locals|, vs)
    ensures var moves := LowerTargets(names, |c.locals|, DeclareTemps(c, hs)).value;
            var q := HExecSeq(fuel, moves.hs, store, trace);
            && q.out.HNormal? && q.trace == trace
            && env != [] && Rel(moves.c.scopes, AssignAll(env, names, vs), q.store) && Keep(c, false, store, q.store)
  {
    var first, d := |c.locals|, DeclareTemps(c, hs);
    DeclareTempsFlow(c, hs);
    DeclareTempsFrames(c, hs);
    DeclareTempsRel(c, hs, env, store);
    TempsBelow(c, hs);
    forall k | 0 <= k < |names| ensures Declared(d, names[k]) {
      assert UserName(names[k]) && Declared(c, names[k]);
    }
    TargetsFrames(names, first, d);
    TargetsRun(fuel, names, first, d, store, trace);
    MoveAllKeeps(d, names, first, store);
    MoveAllRel(d, names, first, env, vs, store);
    assert Keep(d, false, store, MoveAll(store, d, names, first));
    FlowExtends(c, d);
    KeepExtends(c, d, false, store, MoveAll(store, d, names, first));
  }

  /** Raising the flag, and nothing else that is pinned. */
  lemma LeaveRel(c: Ctx, env: Env, store: Store, q: HResult, r: Result)
    requires WF(c) && Rel(c.scopes, env, store) && r.env == env && env != [] && Target(c).Some?
    requires q.out.HNormal? && Load(q.store, Target(c).value) == Boolean(true)
    requires forall j: nat | j !in ExitSlots(c) :: Load(q.store, j) == Load(store, j)
    ensures Left(c, store, r, q)
  {
    TargetSlot(c);
    forall j: nat | UserSlot(c, j) ensures Load(q.store, j) == Load(store, j) {
      UserSlotInRange(c, j);
    }
    RelStore(c, env, store, q.store);
    RelPop(c.scopes, env, q.store);
  }

  lemma SimBreak(fuel: nat, s: Stmt, c: Ctx, inLoop: bool, env: Env, store: Store, trace: Trace, later: seq<LocalInfo>)
    requires s.Break? && Legal(s, c, inLoop, later) && At(c, env, store, later)
    ensures Simulates(fuel, s, c, inLoop, env, store, trace)
  {
    var h := LowerStmt(s, c).value.h;
    assert HExec(fuel, h, store, trace) == HResult(HNormal, store[Target(c).value := Boolean(true)], trace);
    LeaveRel(c, env, store, HExec(fuel, h, store, trace), Exec(fuel, s, env, trace));
  }

  lemma SimReturn(fuel: nat, s: Stmt, c: Ctx, inLoop: bool, env: Env, store: Store, trace: Trace, later: seq<LocalInfo>)
    requires s.Return? && Legal(s, c, inLoop, later) && At(c, env, store, later)
    ensures Simulates(fuel, s, c, inLoop, env, store, trace)
  {
    var hs, code := LowerExprs(s.values, c).value, LowerStmt(s, c).value.h;
    LegalWithin(s, c, inLoop, later);
    ExprsSim(s.values, c, env, store, later);
    LowerExprsKinded(s.values, c);
    ReturnRun(fuel, hs, c, store, trace);
    if HEvalAll(hs, store).Some? {
      assert ExitSlots(c) == FnSet(c);
      LeaveRel(c, env, store, HExec(fuel, code, store, trace), Exec(fuel, s, env, trace));
    }
  }

  lemma ReturnRun(fuel: nat, hs: seq<HExpr>, c: Ctx, store: Store, trace: Trace)
    requires WF(c) && c.fn.Some?
    requires KindedExprs(hs, c.locals, RetSet(c)) && |hs| == |c.fn.value.rets|
    ensures var q, vs := HExec(fuel, ReturnCode(c.fn.value, hs), store, trace), HEvalAll(hs, store);
            && q.trace == trace
            && (vs.None? ==> q.out.HTrapped? && Load(q.store, c.fn.value.returned) == Load(store, c.fn.value.returned))
            && (vs.Some? ==>
                  && q.out.HNormal? && HoldsResults(c, vs.value, q.store)
                  && Load(q.store, c.fn.value.returned) == Boolean(true))
            && (forall j: nat | j !in FnSet(c) :: Load(q.store, j) == Load(store, j))
  {
    var rets, returned := c.fn.value.rets, c.fn.value.returned;
    var first, last := RetAssigns(rets, hs), [HAssign(returned, HBool(true))];
    RetAssignsRun(fuel, rets, hs, c.locals, RetSet(c), store, trace);
    SeqAppend(fuel, first, last, store, trace);
    assert HExec(fuel, ReturnCode(c.fn.value, hs), store, trace) == HExecSeq(fuel, first + last, store, trace);
    var q := HExecSeq(fuel, first, store, trace);
    if q.out.HNormal? {
      SingleRun(fuel, last[0], q.store, q.trace);
    }
  }

  lemma SingleRun(fuel: nat, h: HStmt, store: Store, trace: Trace)
    ensures HExecSeq(fuel, [h], store, trace) == HExec(fuel, h, store, trace)
  {
    var r := HExec(fuel, h, store, trace);
    assert HExecSeq(fuel, [h][1..], r.store, r.trace) == HResult(HNormal, r.store, r.trace);
  }

  lemma SimPrint(fuel: nat, s: Stmt, c: Ctx, inLoop: bool, env: Env, store: Store, trace: Trace, later: seq<LocalInfo>)
    requires s.Print? && Legal(s, c, inLoop, later) && At(c, env, store, later)
    ensures Simulates(fuel, s, c, inLoop, env, store, trace)
  {
    LegalWithin(s, c, inLoop, later);
    ExprsSim(s.args, c, env, store, later);
  }
}

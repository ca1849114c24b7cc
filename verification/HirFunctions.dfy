/**
 Whole programs: what the lowering of a chunk and of a function body preserves.
 */
module HirFunctions {
  import opened Wrappers
  import opened Numerals
  import opened HirSyntax
  import opened HirSemantics
  import opened HirLower
  import opened HirContext
  import opened HirKinds
  import opened HirFragment
  import opened HirRelation
  import opened HirSteps
  import opened HirSimulation

  // ----- Chunks -----

  /**
   Both sides end alike: normally, in a trap, or still running when the iterations allowed are spent.  The
   code has nothing like the error of a zero step.
   */
  predicate EndsAlike(r: Outcome, q: HOutcome) {
    match q
    case HNormal => r.Normal? || r.Broke? || r.Returned?
    case HTrapped => r.Trapped?
    case HOutOfFuel => r.OutOfFuel?
  }

  /** A chunk and its code print the same, end alike and agree on every variable; `after` are its final scopes. */
  ghost predicate Agree(after: seq<map<string, nat>>, r: Result, q: HResult) {
    && q.trace == r.trace && EndsAlike(r.out, q.out)
    && !r.out.Broke? && !r.out.Returned?
    && (r.out.Normal? ==> Rel(after, r.env, q.store))
  }

  /**
   A chunk of the fragment and its flat-slot code agree, after the same number of iterations, unless the source
   stops at a zero step; if it does, the code has at least printed as much.
   */
  lemma ChunkCorrect(chunk: seq<Stmt>, fuel: nat, store: Store, trace: Trace)
    requires UserStmts(chunk) && LowerChunk(chunk).Ok? && FragSeq(chunk, EMPTY_CTX, None, false)
    requires StoreTyped(store, LowerChunk(chunk).value.c.locals, {})
    ensures var l := LowerChunk(chunk).value;
            var r, q := ExecSeq(fuel, chunk, [map[]], trace), HExecSeq(fuel, l.hs, store, trace);
            (r.out.ZeroStep? || Agree(l.c.scopes, r, q)) && r.trace <= q.trace
  {
    var l := LowerChunk(chunk).value;
    EmptyCtxWF();
    SimSeq(fuel, chunk, EMPTY_CTX, None, false, [map[]], store, trace, l.c.locals);
  }

  // ----- Loops and their flags -----

  /** When a loop is over, its flag is up exactly if a `break` ended it, unless the source stops at a zero step. */
  lemma FlagTellsBreak(
      fuel: nat, s: Stmt, c: Ctx, inLoop: bool, env: Env, store: Store, trace: Trace, later: seq<LocalInfo>)
    requires IsLoop(s) && BodyContainsBreak(s.body)
    requires Legal(s, c, inLoop, later) && At(c, env, store, later)
    requires HExec(fuel, LowerStmt(s, c).value.h, store, trace).out.HNormal?
    ensures LoopRun(fuel, s, env, trace).out.ZeroStep? ||
            Load(HExec(fuel, LowerStmt(s, c).value.h, store, trace).store, |c.locals|)
            == Boolean(LoopRun(fuel, s, env, trace).out.Broke?)
  {
    EnterLoopWF(c, s.body);
    var _ := SimLoop(fuel, s, c, inLoop, env, store, trace, later);
  }

  // ----- Every return has the same number of results -----

  /** Every `return` in `s`, loops included, gives `n` results. */
  predicate Returns(s: Stmt, n: nat) {
    match s
    case Return(values) => |values| == n
    case Block(body) => SeqReturns(body, n)
    case If(arms, elseBody) => (forall k | 0 <= k < |arms| :: SeqReturns(arms[k].body, n)) && SeqReturns(elseBody, n)
    case While(_, body) => SeqReturns(body, n)
    case Repeat(body, _) => SeqReturns(body, n)
    case ForNumeric(_, _, _, _, body) => SeqReturns(body, n)
    case _ => true
  }

  predicate SeqReturns(ss: seq<Stmt>, n: nat) { forall k | 0 <= k < |ss| :: Returns(ss[k], n) }

  /** The returns met so far agree on `n` results. */
  predicate Agrees(c: Ctx, n: nat) { c.retKinds.Some? ==> |c.retKinds.value| == n }

  /** `d` is `c` with more slots and perhaps other scopes. */
  ghost predicate Grows(c: Ctx, d: Ctx) {
    && |c.locals| <= |d.locals| && (forall j | 0 <= j < |c.locals| :: d.locals[j] == c.locals[j])
    && d.retKinds == c.retKinds && d.fn == c.fn
  }

  lemma {:induction false} DeclareAllGrows(c: Ctx, names: seq<string>, hs: seq<HExpr>)
    requires c.scopes != [] && |names| == |hs|
    ensures Grows(c, DeclareAll(c, names, hs))
    decreases |names|
  {
    if names != [] {
      DeclareAllGrows(Declare(c, names[0], InferKind(hs[0], c.locals)), names[1..], hs[1..]);
    }
  }

  lemma {:induction false} DeclareTempsGrows(c: Ctx, hs: seq<HExpr>)
    requires c.scopes != []
    ensures Grows(c, DeclareTemps(c, hs))
    decreases |hs|
  {
    if hs != [] {
      DeclareTempsGrows(Declare(c, TMP_PREFIX + Decimal(|c.locals|), InferKind(hs[0], c.locals)), hs[1..]);
    }
  }

  lemma {:induction false} TargetsGrow(names: seq<string>, first: nat, c: Ctx)
    requires c.scopes != [] && LowerTargets(names, first, c).Ok?
    ensures Grows(c, LowerTargets(names, first, c).value.c)
    decreases |names|
  {
    if names != [] {
      TargetsGrow(names[1..], first + 1, LowerAssignTarget(names[0], HLocal(first), c).value.c);
    }
  }

  /** Lowering succeeds only if all returns agree. */
  lemma {:induction false} StmtReturnsAgree(s: Stmt, c: Ctx, n: nat)
    requires c.scopes != [] && LowerStmt(s, c).Ok? && Agrees(LowerStmt(s, c).value.c, n)
    ensures Returns(s, n) && Agrees(c, n)
    decreases s, 1
  {
    match s
    case LocalMulti(names, values) => DeclareAllGrows(c, names, LowerExprs(values, c).value);
    case AssignMulti(names, values) =>
      var hs := LowerExprs(values, c).value;
      DeclareTempsGrows(c, hs);
      TargetsGrow(names, |c.locals|, DeclareTemps(c, hs));
    case Block(body) => SeqReturnsAgree(body, PushScope(c), None, n);
    case If(_, elseBody) =>
      var a := LowerArms(s, 0, c).value.1;
      SeqReturnsAgree(elseBody, PushScope(a), Target(a), n);
      ArmsReturnAgree(s, 0, c, n);
    case While(_, body) =>
      var c1 := EnterLoop(c, body);
      assert LowerBody(body, c1).Ok?;
      SeqReturnsAgree(body, PushScope(c1), Target(c1), n);
    case Repeat(body, _) =>
      var c1 := EnterLoop(c, body);
      SeqReturnsAgree(body, PushScope(c1), Target(c1), n);
    case ForNumeric(v, _, _, _, body) =>
      var c1 := EnterLoop(c, body);
      SeqReturnsAgree(body, EnterFor(c1, v), Target(c1), n);
    case _ =>
  }

  lemma {:induction false} SeqReturnsAgree(ss: seq<Stmt>, c: Ctx, guard: Option<nat>, n: nat)
    requires c.scopes != [] && LowerSeq(ss, c, guard).Ok? && Agrees(LowerSeq(ss, c, guard).value.c, n)
    ensures SeqReturns(ss, n) && Agrees(c, n)
    decreases ss, 0
  {
    if ss != [] {
      SeqReturnsAgree(ss[1..], LowerStmt(ss[0], c).value.c, guard, n);
      StmtReturnsAgree(ss[0], c, n);
    }
  }

  lemma {:induction false} ArmsReturnAgree(s: Stmt, k: nat, c: Ctx, n: nat)
    requires c.scopes != [] && s.If? && k <= |s.arms| && LowerArms(s, k, c).Ok? && Agrees(LowerArms(s, k, c).value.1, n)
    ensures (forall j | k <= j < |s.arms| :: SeqReturns(s.arms[j].body, n)) && Agrees(c, n)
    decreases s, 0, |s.arms| - k
  {
    if k < |s.arms| {
      var b := LowerBody(s.arms[k].body, c).value.c;
      ArmsReturnAgree(s, k + 1, b, n);
      SeqReturnsAgree(s.arms[k].body, PushScope(c), Target(c), n);
    }
  }

  /** Outside loops, the arity reserved for a body is that of its returns, if it has any. */
  lemma {:induction false} ArityYields(s: Stmt, n: nat, m: nat)
    requires Returns(s, n) && ReturnArity(s) <= m <= n
    ensures Yields(s, m)
    decreases s, 1
  {
    match s
    case Block(body) => SeqArityYields(body, n, m);
    case If(arms, elseBody) =>
      SeqArityYields(elseBody, n, m);
      ArmsArityYields(s, 0, n, m);
    case _ =>
  }

  lemma {:induction false} SeqArityYields(ss: seq<Stmt>, n: nat, m: nat)
    requires SeqReturns(ss, n) && BodyReturnArity(ss) <= m <= n
    ensures SeqYields(ss, m)
    decreases ss, 0
  {
    if ss != [] {
      ArityYields(ss[0], n, m);
      SeqArityYields(ss[1..], n, m);
    }
  }

  lemma {:induction false} ArmsArityYields(s: Stmt, k: nat, n: nat, m: nat)
    requires s.If? && k <= |s.arms| && Returns(s, n) && ArmsReturnArity(s, k) <= m <= n
    ensures forall j | k <= j < |s.arms| :: SeqYields(s.arms[j].body, m)
    decreases s, 0, |s.arms| - k
  {
    if k < |s.arms| {
      SeqArityYields(s.arms[k].body, n, m);
      ArmsArityYields(s, k + 1, n, m);
    }
  }

  lemma {:induction false} ArityBound(s: Stmt, n: nat)
    requires Returns(s, n)
    ensures ReturnArity(s) <= n
    decreases s, 1
  {
    match s
    case Block(body) => SeqArityBound(body, n);
    case If(arms, elseBody) =>
      SeqArityBound(elseBody, n);
      ArmsArityBound(s, 0, n);
    case While(_, body) => SeqArityBound(body, n);
    case ForNumeric(_, _, _, _, body) => SeqArityBound(body, n);
    case _ =>
  }

  lemma {:induction false} SeqArityBound(ss: seq<Stmt>, n: nat)
    requires SeqReturns(ss, n)
    ensures BodyReturnArity(ss) <= n
    decreases ss, 0
  {
    if ss != [] {
      ArityBound(ss[0], n);
      SeqArityBound(ss[1..], n);
    }
  }

  lemma {:induction false} ArmsArityBound(s: Stmt, k: nat, n: nat)
    requires s.If? && k <= |s.arms| && Returns(s, n)
    ensures ArmsReturnArity(s, k) <= n
    decreases s, 0, |s.arms| - k
  {
    if k < |s.arms| {
      SeqArityBound(s.arms[k].body, n);
      ArmsArityBound(s, k + 1, n);
    }
  }

  /** A body that is lowered has one result slot for each result of each of its returns. */
  lemma BodyYields(body: seq<Stmt>, c: Ctx)
    requires c.scopes != [] && c.retKinds.None? && LowerFunctionBody(body, c).Ok?
    ensures SeqYields(body, BodyReturnArity(body))
  {
    var c1 := EnterFunction(c, BodyReturnArity(body));
    var b := LowerSeq(body, c1, Some(c1.fn.value.returned)).value.c;
    var n := if b.retKinds.Some? then |b.retKinds.value| else BodyReturnArity(body);
    SeqReturnsAgree(body, c1, Some(c1.fn.value.returned), n);
    SeqArityBound(body, n);
    SeqArityYields(body, n, BodyReturnArity(body));
  }

  // ----- Function bodies -----

  function DefaultValue(kind: Kind): Value {
    match kind
    case NumberKind => Num(0)
    case BoolKind => Boolean(false)
    case NilKind => NilValue
    case TaggedKind => NilValue
  }

  lemma {:induction false} DeclareParamsWF(c: Ctx, params: seq<LocalInfo>)
    requires WF(c)
    ensures var d := DeclareParams(c, params); WF(d) && Flow(c, d) && d.retKinds == c.retKinds
    decreases |params|
  {
    FlowRefl(c);
    if params != [] {
      var d := Declare(c, params[0].name, params[0].kind);
      DeclareFlow(c, params[0].name, params[0].kind);
      DeclareParamsWF(d, params[1..]);
      FlowTransitive(c, d, DeclareParams(c, params));
    }
  }

  /** `d` is `c` with slots that carry no user name. */
  ghost predicate Hides(c: Ctx, d: Ctx, env: Env, store: Store) {
    && WF(d) && Flow(c, d) && d.retKinds == c.retKinds && Rel(d.scopes, env, store)
    && (forall f, n | Names(d, f, n) :: Names(c, f, n) && d.scopes[f][n] == c.scopes[f][n])
  }

  lemma DeclareHides(c: Ctx, name: string, kind: Kind, env: Env, store: Store)
    requires WF(c) && Rel(c.scopes, env, store) && !UserName(name)
    ensures Hides(c, Declare(c, name, kind), env, store)
  {
    DeclareFlow(c, name, kind);
    HiddenNames(c, name, kind);
    HiddenBindRel(c, name, kind, env, store);
  }

  lemma HidesTransitive(c: Ctx, d: Ctx, e: Ctx, env: Env, store: Store)
    requires Hides(c, d, env, store) && Hides(d, e, env, store)
    ensures Hides(c, e, env, store)
  {
    FlowTransitive(c, d, e);
  }

  /** Result slots carry no user name. */
  lemma {:induction false} DeclareRetsNames(c: Ctx, k: nat, arity: nat, env: Env, store: Store)
    requires WF(c) && k <= arity && Rel(c.scopes, env, store)
    ensures var d := DeclareRets(c, k, arity);
            Hides(c, d, env, store) && |d.locals| == |c.locals| + (arity - k)
    decreases arity - k
  {
    FlowRefl(c);
    if k < arity {
      var name := RET_PREFIX + Decimal(k);
      var d := Declare(c, name, NumberKind);
      assert !UserName(name);
      DeclareHides(c, name, NumberKind, env, store);
      DeclareRetsNames(d, k + 1, arity, env, store);
      HidesTransitive(c, d, DeclareRets(d, k + 1, arity), env, store);
    }
  }

  /** The context once the synthetic slots are declared, before they are installed. */
  function DeclareSlots(c: Ctx, arity: nat): Ctx
    requires c.scopes != []
  {
    DeclareRets(Declare(c, RETURNED_NAME, BoolKind), 0, arity)
  }

  lemma DeclareSlotsNames(c: Ctx, arity: nat, env: Env, store: Store)
    requires WF(c) && Rel(c.scopes, env, store)
    ensures var d := DeclareSlots(c, arity);
            Hides(c, d, env, store) && |d.locals| == |c.locals| + 1 + arity
  {
    var c0 := Declare(c, RETURNED_NAME, BoolKind);
    assert !UserName(RETURNED_NAME);
    DeclareHides(c, RETURNED_NAME, BoolKind, env, store);
    DeclareRetsNames(c0, 0, arity, env, store);
    HidesTransitive(c, c0, DeclareSlots(c, arity), env, store);
  }

  lemma DeclareSlotsFlag(c: Ctx, arity: nat, env: Env, store: Store)
    requires WF(c) && Rel(c.scopes, env, store) && c.fn.None?
    ensures |DeclareSlots(c, arity).locals| > |c.locals| && DeclareSlots(c, arity).locals[|c.locals|].kind == BoolKind
  {
    var c0 := Declare(c, RETURNED_NAME, BoolKind);
    DeclareHides(c, RETURNED_NAME, BoolKind, env, store);
    DeclareRetsNames(c0, 0, arity, env, store);
    assert DeclareSlots(c, arity).locals[|c.locals|] == c0.locals[|c.locals|];
  }

  lemma EnterFunctionWF(c: Ctx, arity: nat, env: Env, store: Store)
    requires WF(c) && c.fn.None? && c.targets == [] && c.readonly == {} && Rel(c.scopes, env, store)
    ensures var d := EnterFunction(c, arity);
            && WF(d) && Placed(d, false) && d.retKinds == c.retKinds && Rel(d.scopes, env, store)
            && |d.fn.value.rets| == arity && d.fn.value.returned == |c.locals|
            && (forall k | 0 <= k < arity :: d.fn.value.rets[k] == |c.locals| + 1 + k)
  {
    DeclareSlotsNames(c, arity, env, store);
    DeclareSlotsFlag(c, arity, env, store);
    InstallSlots(c, DeclareSlots(c, arity), EnterFunction(c, arity), arity);
  }

  /** The synthetic slots become hidden: no user name stands for them. */
  lemma InstallSlots(c: Ctx, c1: Ctx, d: Ctx, arity: nat)
    requires WF(c) && WF(c1) && Flow(c, c1) && c.fn.None? && c.targets == [] && c.readonly == {}
    requires forall f, n | Names(c1, f, n) :: Names(c, f, n) && c1.scopes[f][n] == c.scopes[f][n]
    requires |c1.locals| == |c.locals| + 1 + arity && c1.locals[|c.locals|].kind == BoolKind
    requires d == c1.(fn := Some(FnSlots(|c.locals|, seq(arity, k requires 0 <= k < arity => |c.locals| + 1 + k))),
                      targets := c1.targets + [Some(|c.locals|)])
    ensures WF(d) && Placed(d, false)
  {
    forall f, n
      ensures Names(d, f, n) ==> Names(c, f, n) && d.scopes[f][n] == c.scopes[f][n]
    {
      assert Names(d, f, n) ==> Names(c1, f, n);
    }
    StillInjective(c, d, 0, "");
    assert FlagSlots(d.targets) == {|c.locals|};
    forall j | j in Hidden(d) ensures |c.locals| <= j < |d.locals| {}
  }

  lemma DefaultsAreInits(rets: seq<nat>, locals: seq<LocalInfo>, first: nat)
    requires forall k | 0 <= k < |rets| :: rets[k] == first + k
    ensures DefaultInits(rets, locals) == Inits(Defaults(rets, locals), first)
  {}

  function Defaults(rets: seq<nat>, locals: seq<LocalInfo>): seq<HExpr> {
    seq(|rets|, k requires 0 <= k < |rets| => DefaultOf(InferKind(HLocal(rets[k]), locals)))
  }

  lemma {:induction false} DefaultsEval(rets: seq<nat>, locals: seq<LocalInfo>, store: Store)
    ensures var vs := HEvalAll(Defaults(rets, locals), store);
            vs.Some? && forall k | 0 <= k < |rets| :: vs.value[k] == DefaultValue(InferKind(HLocal(rets[k]), locals))
    decreases |rets|
  {
    if rets != [] {
      assert Defaults(rets, locals)[1..] == Defaults(rets[1..], locals);
      DefaultsEval(rets[1..], locals, store);
    }
  }

  /** The slots of a function body before its first statement: flag down, results at their defaults. */
  ghost predicate Prepared(slots: FnSlots, locals: seq<LocalInfo>, store: Store) {
    && Load(store, slots.returned) == Boolean(false)
    && forall k | 0 <= k < |slots.rets| ::
         Load(store, slots.rets[k]) == DefaultValue(InferKind(HLocal(slots.rets[k]), locals))
  }

  lemma RetsCover(rets: seq<nat>, first: nat, j: nat)
    requires (forall k | 0 <= k < |rets| :: rets[k] == first + k) && first <= j < first + |rets|
    ensures j in rets
  {
    assert rets[j - first] == j;
  }

  lemma PrologueRuns(
      fuel: nat, returned: nat, rets: seq<nat>, locals: seq<LocalInfo>, store: Store, trace: Trace)
    returns (mid: Store)
    requires forall k | 0 <= k < |rets| :: rets[k] == returned + 1 + k
    ensures HExecSeq(fuel, [HLocalInit(returned, HBool(false))] + DefaultInits(rets, locals), store, trace)
         == HResult(HNormal, mid, trace)
    ensures Prepared(FnSlots(returned, rets), locals, mid)
    ensures forall j: nat | j != returned && j !in rets :: Load(mid, j) == Load(store, j)
  {
    var flag := [HLocalInit(returned, HBool(false))];
    var cleared := store[returned := Boolean(false)];
    SingleRun(fuel, flag[0], store, trace);
    SeqAppend(fuel, flag, DefaultInits(rets, locals), store, trace);
    mid := DefaultsRun(fuel, returned + 1, rets, locals, cleared, trace);
  }

  lemma DefaultsRun(fuel: nat, first: nat, rets: seq<nat>, locals: seq<LocalInfo>, store: Store, trace: Trace)
    returns (mid: Store)
    requires forall k | 0 <= k < |rets| :: rets[k] == first + k
    ensures HExecSeq(fuel, DefaultInits(rets, locals), store, trace) == HResult(HNormal, mid, trace)
    ensures forall k | 0 <= k < |rets| :: Load(mid, rets[k]) == DefaultValue(InferKind(HLocal(rets[k]), locals))
    ensures forall j: nat | j !in rets :: Load(mid, j) == Load(store, j)
  {
    var hs := Defaults(rets, locals);
    DefaultsAreInits(rets, locals, first);
    DefaultsEval(rets, locals, store);
    InitsRun(fuel, hs, first, [], {}, store, trace);
    mid := HExecSeq(fuel, Inits(hs, first), store, trace).store;
    var vs := HEvalAll(hs, store).value;
    forall k | 0 <= k < |rets|
      ensures Load(mid, rets[k]) == DefaultValue(InferKind(HLocal(rets[k]), locals))
    {
      assert Load(mid, first + k) == vs[k];
    }
    forall j: nat | j !in rets
      ensures Load(mid, j) == Load(store, j)
    {
      if first <= j < first + |rets| {
        RetsCover(rets, first, j);
      }
    }
  }

  /** After the code of a function body: what a caller finds in the synthetic slots. */
  ghost predicate Answers(slots: FnSlots, locals: seq<LocalInfo>, r: Result, q: HResult) {
    && q.trace == r.trace && EndsAlike(r.out, q.out)
    && match r.out
       case Normal => Prepared(slots, locals, q.store)
       case Returned(vs) =>
         && Load(q.store, slots.returned) == Boolean(true)
         && |vs| == |slots.rets| && forall k | 0 <= k < |vs| :: Load(q.store, slots.rets[k]) == vs[k]
       case Broke => false
       case _ => true
  }

  lemma AnswersFrom(c1: Ctx, after: seq<map<string, nat>>, locals: seq<LocalInfo>, mid: Store, r: Result, q: HResult)
    requires WF(c1) && Placed(c1, false) && c1.fn.Some? && r.env != []
    requires Prepared(c1.fn.value, locals, mid) && Matches(c1, after, false, mid, r, q)
    ensures (r.out.ZeroStep? || Answers(c1.fn.value, locals, r, q)) && r.trace <= q.trace
  {
    var slots := c1.fn.value;
    if r.out.Normal? {
      forall j: nat | j == slots.returned || j in slots.rets
        ensures Load(q.store, j) == Load(mid, j)
      {
        assert j in Hidden(c1);
        if UserSlot(c1, j) {
          UserSlotInRange(c1, j);
        }
        assert Pinned(c1, false, j);
      }
    }
  }

  /**
   A function body of the fragment and its code print the same and end alike, unless the source stops at a zero
   step.  If the source returns, the result slots hold exactly the returned values; if it runs off its end,
   they hold their defaults and `_returned` is still false.
   */
  lemma FunctionCorrect(
      params: seq<LocalInfo>, body: seq<Stmt>, fuel: nat, env: Env, store: Store, trace: Trace)
    requires UserStmts(body)
    requires var c := DeclareParams(EMPTY_CTX, params);
             var c1 := EnterFunction(c, BodyReturnArity(body));
             var l := LowerFunctionBody(body, c);
             && l.Ok? && FragSeq(body, c1, Some(c1.fn.value.returned), false)
             && Rel(c.scopes, env, store) && StoreTyped(store, l.value.c.locals, RetSet(c1))
    ensures var c := DeclareParams(EMPTY_CTX, params);
            var c1 := EnterFunction(c, BodyReturnArity(body));
            var l := LowerFunctionBody(body, c).value;
            var r, q := ExecSeq(fuel, body, env, trace), HExecSeq(fuel, l.hs, store, trace);
            (r.out.ZeroStep? || Answers(c1.fn.value, l.c.locals, r, q)) && r.trace <= q.trace
  {
    hide LowerSeq, FragSeq, ExecSeq, HExecSeq;
    var c := DeclareParams(EMPTY_CTX, params);
    var c1, l := EnterFunction(c, BodyReturnArity(body)), LowerFunctionBody(body, c).value;
    var slots := c1.fn.value;
    var guard := Some(slots.returned);
    var b := LowerSeq(body, c1, guard).value;
    EmptyCtxWF();
    DeclareParamsWF(EMPTY_CTX, params);
    EnterFunctionWF(c, BodyReturnArity(body), env, store);
    BodyYields(body, c);
    var prologue := [HLocalInit(slots.returned, HBool(false))] + DefaultInits(slots.rets, b.c.locals);
    var mid := PrologueRuns(fuel, slots.returned, slots.rets, b.c.locals, store, trace);
    SeqAppend(fuel, prologue, b.hs, store, trace);
    BodyRuns(body, fuel, c1, env, store, mid, trace);
  }

  lemma BodyRuns(body: seq<Stmt>, fuel: nat, c1: Ctx, env: Env, store: Store, mid: Store, trace: Trace)
    requires WF(c1) && Placed(c1, false) && c1.fn.Some? && UserStmts(body)
    requires SeqYields(body, |c1.fn.value.rets|)
    requires var guard := Some(c1.fn.value.returned);
             LowerSeq(body, c1, guard).Ok? && FragSeq(body, c1, guard, false)
    requires var b := LowerSeq(body, c1, Some(c1.fn.value.returned)).value.c;
             StoreTyped(store, b.locals, RetSet(c1)) && Prepared(c1.fn.value, b.locals, mid)
    requires Rel(c1.scopes, env, store)
    requires forall j: nat | j != c1.fn.value.returned && j !in c1.fn.value.rets :: Load(mid, j) == Load(store, j)
    ensures var b := LowerSeq(body, c1, Some(c1.fn.value.returned)).value;
            var r, q := ExecSeq(fuel, body, env, trace), HExecSeq(fuel, b.hs, mid, trace);
            (r.out.ZeroStep? || Answers(c1.fn.value, b.c.locals, r, q)) && r.trace <= q.trace
  {
    var slots := c1.fn.value;
    var guard := Some(slots.returned);
    var b := LowerSeq(body, c1, guard).value;
    LowerSeqFlow(body, c1, guard);
    BodyStarts(c1, env, store, mid, b.c);
    SimSeq(fuel, body, c1, guard, false, env, mid, trace, b.c.locals);
    AnswersFrom(c1, b.c.scopes, b.c.locals, mid, ExecSeq(fuel, body, env, trace), HExecSeq(fuel, b.hs, mid, trace));
  }

  lemma BodyStarts(c1: Ctx, env: Env, store: Store, mid: Store, b: Ctx)
    requires WF(c1) && Placed(c1, false) && c1.fn.Some? && Flow(c1, b)
    requires StoreTyped(store, b.locals, RetSet(c1)) && Prepared(c1.fn.value, b.locals, mid)
    requires Rel(c1.scopes, env, store)
    requires forall j: nat | j != c1.fn.value.returned && j !in c1.fn.value.rets :: Load(mid, j) == Load(store, j)
    ensures At(c1, env, mid, b.locals) && Within(b.locals, b.locals, RetSet(c1))
  {
    forall j: nat | UserSlot(c1, j) ensures Load(mid, j) == Load(store, j) {
      UserSlotInRange(c1, j);
    }
    RelStore(c1, env, store, mid);
    assert b.locals[c1.fn.value.returned].kind == BoolKind by {
      assert c1.fn.value.returned in Hidden(c1);
    }
  }
}

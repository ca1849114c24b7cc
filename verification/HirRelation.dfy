/**
 The simulation relation between name frames and slots, and what single expressions and writes do to it.
 */
module HirRelation {
  import opened Wrappers
  import opened Int64
  import opened Numerals
  import opened HirSyntax
  import opened HirSemantics
  import opened HirLower
  import opened HirContext
  import opened HirKinds
  import opened HirFragment

  /** A frame binds the user names of its scope, each to the content of its slot. */
  ghost predicate FrameRel(scope: map<string, nat>, frame: map<string, Value>, store: Store) {
    && (forall n: string :: n in frame <==> n in scope && UserName(n))
    && (forall n: string | n in frame :: Load(store, scope[n]) == frame[n])
  }

  ghost predicate Rel(scopes: seq<map<string, nat>>, env: Env, store: Store) {
    && |env| == |scopes|
    && forall f | 0 <= f < |env| :: FrameRel(scopes[f], env[f], store)
  }

  /** `j` is the slot of a user name. */
  ghost predicate UserSlot(c: Ctx, j: nat) {
    exists f, n :: Names(c, f, n) && c.scopes[f][n] == j
  }

  lemma {:induction false} RelResolve(scopes: seq<map<string, nat>>, env: Env, store: Store, name: string)
    requires Rel(scopes, env, store) && UserName(name)
    ensures match Resolve<nat>(scopes, name)
      case None => Resolve(env, name) == None
      case Some(id) => Resolve(env, name) == Some(Load(store, id))
  {
    if scopes != [] {
      assert FrameRel(scopes[|scopes| - 1], env[|scopes| - 1], store);
      if name !in scopes[|scopes| - 1] {
        RelResolve(scopes[..|scopes| - 1], env[..|scopes| - 1], store, name);
      }
    }
  }

  /** The relation depends only on the slots of user names. */
  lemma RelStore(c: Ctx, env: Env, store: Store, later: Store)
    requires Rel(c.scopes, env, store)
    requires forall j: nat | UserSlot(c, j) :: Load(later, j) == Load(store, j)
    ensures Rel(c.scopes, env, later)
  {
    forall f | 0 <= f < |env|
      ensures FrameRel(c.scopes[f], env[f], later)
    {
      assert FrameRel(c.scopes[f], env[f], store);
      forall n: string | n in env[f]
        ensures Load(later, c.scopes[f][n]) == env[f][n]
      {
        assert Names(c, f, n);
        assert UserSlot(c, c.scopes[f][n]);
      }
    }
  }

  lemma UserSlotInRange(c: Ctx, j: nat)
    requires WF(c) && UserSlot(c, j)
    ensures j < |c.locals| && j !in Hidden(c)
  {}

  lemma RelPop(scopes: seq<map<string, nat>>, env: Env, store: Store)
    requires Rel(scopes, env, store) && scopes != []
    ensures Rel(Pop(scopes), Pop(env), store)
  {}

  lemma RelPush(scopes: seq<map<string, nat>>, env: Env, store: Store)
    requires Rel(scopes, env, store)
    ensures Rel(Push(scopes), Push(env), store)
  {
    forall f | 0 <= f <= |env|
      ensures FrameRel(Push(scopes)[f], Push(env)[f], store)
    {
      if f < |env| {
        assert FrameRel(scopes[f], env[f], store);
      }
    }
  }

  /** Declaring a name relates it to the fresh slot's content. */
  lemma BindRel(c: Ctx, name: string, kind: Kind, env: Env, v: Value, store: Store)
    requires c.scopes != [] && Rel(c.scopes, env, store) && UserName(name) && Load(store, |c.locals|) == v
    ensures Rel(Declare(c, name, kind).scopes, Bind(env, name, v), store)
  {
    forall f | 0 <= f < |env|
      ensures FrameRel(Declare(c, name, kind).scopes[f], Bind(env, name, v)[f], store)
    {
      assert FrameRel(c.scopes[f], env[f], store);
    }
  }

  lemma HiddenFrame(scope: map<string, nat>, frame: map<string, Value>, store: Store, name: string, id: nat)
    requires FrameRel(scope, frame, store) && !UserName(name)
    ensures FrameRel(scope[name := id], frame, store)
  {}

  lemma RelFrame(scopes: seq<map<string, nat>>, env: Env, store: Store, f: nat, scope: map<string, nat>)
    requires Rel(scopes, env, store) && f < |env| && FrameRel(scope, env[f], store)
    ensures Rel(scopes[f := scope], env, store)
  {}

  /** Declaring a synthetic name changes nothing for the source. */
  lemma HiddenBindRel(c: Ctx, name: string, kind: Kind, env: Env, store: Store)
    requires c.scopes != [] && Rel(c.scopes, env, store) && !UserName(name)
    ensures Rel(Declare(c, name, kind).scopes, env, store)
  {
    var top := |c.scopes| - 1;
    HiddenFrame(c.scopes[top], env[top], store, name, |c.locals|);
    RelFrame(c.scopes, env, store, top, c.scopes[top][name := |c.locals|]);
  }

  lemma UpdatePrefix<T>(s: seq<T>, f: nat, x: T)
    requires f < |s| - 1
    ensures s[..|s| - 1][f := x] + [s[|s| - 1]] == s[f := x]
  {}

  /** Assignment changes the one frame `f` in which the name resolves. */
  lemma {:induction false} UpdateShape(scopes: seq<map<string, nat>>, env: Env, store: Store, name: string, v: Value)
    returns (f: nat)
    requires Rel(scopes, env, store) && UserName(name) && Resolve<nat>(scopes, name).Some?
    ensures f < |env| && name in scopes[f] && scopes[f][name] == Resolve<nat>(scopes, name).value
    ensures Update(env, name, v) == env[f := env[f][name := v]]
  {
    f := |scopes| - 1;
    assert FrameRel(scopes[f], env[f], store);
    if name !in scopes[f] {
      var last := f;
      f := UpdateShape(scopes[..last], env[..last], store, name, v);
      UpdatePrefix(env, f, env[f][name := v]);
    }
  }

  lemma FrameStore(scope: map<string, nat>, frame: map<string, Value>, store: Store, id: nat, v: Value)
    requires FrameRel(scope, frame, store) && forall n: string | UserName(n) && n in scope :: scope[n] != id
    ensures FrameRel(scope, frame, store[id := v])
  {}

  lemma FrameUpdate(scope: map<string, nat>, frame: map<string, Value>, store: Store, name: string, v: Value)
    requires FrameRel(scope, frame, store) && UserName(name) && name in scope
    requires forall n: string | UserName(n) && n in scope && scope[n] == scope[name] :: n == name
    ensures FrameRel(scope, frame[name := v], store[scope[name] := v])
  {}

  lemma SlotNames(c: Ctx, f: nat, name: string, g: nat)
    requires WF(c) && Names(c, f, name) && g < |c.scopes|
    ensures forall n: string | UserName(n) && n in c.scopes[g] && c.scopes[g][n] == c.scopes[f][name] :: g == f && n == name
  {
    forall n: string | UserName(n) && n in c.scopes[g] && c.scopes[g][n] == c.scopes[f][name]
      ensures g == f && n == name
    {
      assert SameSlot(c, f, name, g, n);
    }
  }

  lemma UpdateRel(c: Ctx, env: Env, store: Store, name: string, v: Value)
    requires WF(c) && Rel(c.scopes, env, store) && UserName(name) && Resolve<nat>(c.scopes, name).Some?
    ensures env != [] && Rel(c.scopes, AssignName(env, name, v), store[Resolve<nat>(c.scopes, name).value := v])
  {
    RelResolve(c.scopes, env, store, name);
    var id := Resolve<nat>(c.scopes, name).value;
    var f := UpdateShape(c.scopes, env, store, name, v);
    assert Names(c, f, name);
    forall g: nat | g < |env|
      ensures FrameRel(c.scopes[g], Update(env, name, v)[g], store[id := v])
    {
      assert FrameRel(c.scopes[g], env[g], store);
      SlotNames(c, f, name, g);
      if g == f {
        FrameUpdate(c.scopes[g], env[g], store, name, v);
      } else {
        FrameStore(c.scopes[g], env[g], store, id, v);
      }
    }
  }

  // ----- Expressions -----

  /** Code over slots below `n` does not see writes above. */
  lemma {:induction false} EvalBelow(h: HExpr, locals: seq<LocalInfo>, free: set<nat>, store: Store, later: Store)
    requires KindedExpr(h, locals, free)
    requires forall j: nat | j < |locals| && j !in free :: Load(later, j) == Load(store, j)
    ensures HEval(h, later) == HEval(h, store)
  {
    match h
    case HBinOp(_, lhs, rhs) =>
      EvalBelow(lhs, locals, free, store, later);
      EvalBelow(rhs, locals, free, store, later);
    case HUnaryOp(_, operand) => EvalBelow(operand, locals, free, store, later);
    case _ =>
  }

  /** The lowered expression computes what the source expression does, traps included. */
  lemma {:induction false} ExprSim(e: Expr, c: Ctx, env: Env, store: Store, later: seq<LocalInfo>)
    requires WF(c) && UserExpr(e) && LowerExpr(e, c).Ok? && SafeExpr(e, c)
    requires Rel(c.scopes, env, store) && Within(c.locals, later, RetSet(c)) && StoreTyped(store, later, RetSet(c))
    ensures HEval(LowerExpr(e, c).value, store) == Eval(e, env)
  {
    match e
    case Ident(name) => RelResolve(c.scopes, env, store, name);
    case BinOp(_, lhs, rhs) =>
      ExprSim(lhs, c, env, store, later);
      ExprSim(rhs, c, env, store, later);
      BinOpSim(e, c, store, later);
    case UnaryOp(_, operand) => ExprSim(operand, c, env, store, later);
    case _ =>
  }

  /** Folding and kind checks leave the value of an operator alone. */
  lemma BinOpSim(e: Expr, c: Ctx, store: Store, later: seq<LocalInfo>)
    requires e.BinOp? && WF(c) && UserExpr(e) && LowerExpr(e, c).Ok? && SafeExpr(e, c)
    requires Within(c.locals, later, RetSet(c)) && StoreTyped(store, later, RetSet(c))
    ensures HEval(LowerExpr(e, c).value, store)
         == HEval(HBinOp(e.op, LowerExpr(e.lhs, c).value, LowerExpr(e.rhs, c).value), store)
  {
    var l, r := LowerExpr(e.lhs, c).value, LowerExpr(e.rhs, c).value;
    if l.HInteger? && r.HInteger? && FoldInt(e.op, l.i, r.i).Folded? {
      FoldIsExact(e.op, l.i, r.i);
    } else if (e.op.Eq? || e.op.Ne?) && FoldsEquality(InferKind(l, c.locals), InferKind(r, c.locals)) {
      EqualitySim(e.op, e.lhs, e.rhs, c, store, later);
    }
  }

  lemma EqualitySim(op: BinOp, lhs: Expr, rhs: Expr, c: Ctx, store: Store, later: seq<LocalInfo>)
    requires WF(c) && UserExpr(lhs) && UserExpr(rhs) && LowerExpr(lhs, c).Ok? && LowerExpr(rhs, c).Ok?
    requires Within(c.locals, later, RetSet(c)) && StoreTyped(store, later, RetSet(c)) && (op.Eq? || op.Ne?)
    requires TotalExpr(LowerExpr(lhs, c).value, c.locals) && TotalExpr(LowerExpr(rhs, c).value, c.locals)
    requires FoldsEquality(InferKind(LowerExpr(lhs, c).value, c.locals), InferKind(LowerExpr(rhs, c).value, c.locals))
    ensures var l, r := LowerExpr(lhs, c).value, LowerExpr(rhs, c).value;
            HEval(LowerBinOp(op, l, r, c.locals).value, store) == HEval(HBinOp(op, l, r), store)
  {
    var l, r := LowerExpr(lhs, c).value, LowerExpr(rhs, c).value;
    LowerExprKinded(lhs, c);
    LowerExprKinded(rhs, c);
    assert StoreTyped(store, c.locals, RetSet(c));
    TotalSound(l, c.locals, RetSet(c), store);
    TotalSound(r, c.locals, RetSet(c), store);
    EqualityFoldExact(op, l, r, c.locals, RetSet(c), store);
  }

  lemma {:induction false} ExprsSim(es: seq<Expr>, c: Ctx, env: Env, store: Store, later: seq<LocalInfo>)
    requires WF(c) && UserExprs(es) && LowerExprs(es, c).Ok? && SafeExprs(es, c)
    requires Rel(c.scopes, env, store) && Within(c.locals, later, RetSet(c)) && StoreTyped(store, later, RetSet(c))
    ensures HEvalAll(LowerExprs(es, c).value, store) == EvalAll(es, env)
  {
    if es != [] {
      ExprSim(es[0], c, env, store, later);
      ExprsSim(es[1..], c, env, store, later);
    }
  }

  lemma {:induction false} EvalAllBelow(hs: seq<HExpr>, locals: seq<LocalInfo>, free: set<nat>, store: Store, later: Store)
    requires KindedExprs(hs, locals, free)
    requires forall j: nat | j < |locals| && j !in free :: Load(later, j) == Load(store, j)
    ensures HEvalAll(hs, later) == HEvalAll(hs, store)
  {
    if hs != [] {
      EvalBelow(hs[0], locals, free, store, later);
      EvalAllBelow(hs[1..], locals, free, store, later);
    }
  }

  // ----- Runs of writes -----

  /** Slots `first`, `first + 1`, ... hold `vs`. */
  ghost predicate HoldsFrom(store: Store, first: nat, vs: seq<Value>) {
    forall j: nat | first <= j < first + |vs| :: Load(store, j) == vs[j - first]
  }

  /** Initializing consecutive fresh slots: all the values are those of the starting store. */
  lemma {:induction false} InitsRun(
      fuel: nat, hs: seq<HExpr>, first: nat, locals: seq<LocalInfo>, free: set<nat>, store: Store, trace: Trace)
    requires KindedExprs(hs, locals, free) && |locals| <= first
    ensures var r, vs := HExecSeq(fuel, Inits(hs, first), store, trace), HEvalAll(hs, store);
            && r.trace == trace
            && (vs.None? ==> r.out.HTrapped?)
            && (vs.Some? ==>
                  && r.out.HNormal? && HoldsFrom(r.store, first, vs.value)
                  && (forall j: nat | j < first || j >= first + |hs| :: Load(r.store, j) == Load(store, j)))
    decreases |hs|
  {
    if hs != [] {
      var code := Inits(hs, first);
      assert code[0] == HLocalInit(first, hs[0]);
      assert code[1..] == Inits(hs[1..], first + 1);
      if HEval(hs[0], store).Some? {
        var next := store[first := HEval(hs[0], store).value];
        EvalAllBelow(hs[1..], locals, free, store, next);
        InitsRun(fuel, hs[1..], first + 1, locals, free, next, trace);
        assert HExecSeq(fuel, code, store, trace) == HExecSeq(fuel, Inits(hs[1..], first + 1), next, trace);
        if HEvalAll(hs[1..], store).Some? {
          HoldsCons(HExecSeq(fuel, code, store, trace).store, first, HEval(hs[0], store).value, HEvalAll(hs[1..], store).value);
        }
      }
    }
  }

  lemma HoldsCons(store: Store, first: nat, v: Value, rest: seq<Value>)
    requires Load(store, first) == v && HoldsFrom(store, first + 1, rest)
    ensures HoldsFrom(store, first, [v] + rest)
  {
    forall j: nat | first <= j < first + |[v] + rest|
      ensures Load(store, j) == ([v] + rest)[j - first]
    {
      if j > first {
        assert Load(store, j) == rest[j - (first + 1)];
      }
    }
  }

  /** Binding declared names to slots that already hold their values. */
  lemma {:induction false} DeclareAllRel(
      c: Ctx, names: seq<string>, hs: seq<HExpr>, env: Env, vs: seq<Value>, store: Store)
    requires c.scopes != [] && Rel(c.scopes, env, store) && UserNames(names) && |names| == |hs| == |vs|
    requires HoldsFrom(store, |c.locals|, vs)
    ensures Rel(DeclareAll(c, names, hs).scopes, BindAll(env, names, vs), store)
    decreases |names|
  {
    if names != [] {
      BindRel(c, names[0], InferKind(hs[0], c.locals), env, vs[0], store);
      var d := Declare(c, names[0], InferKind(hs[0], c.locals));
      DeclareAllRel(d, names[1..], hs[1..], Bind(env, names[0], vs[0]), vs[1..], store);
    }
  }

  lemma {:induction false} DeclareTempsRel(c: Ctx, hs: seq<HExpr>, env: Env, store: Store)
    requires c.scopes != [] && Rel(c.scopes, env, store)
    ensures Rel(DeclareTemps(c, hs).scopes, env, store)
    decreases |hs|
  {
    if hs != [] {
      var tmp := TMP_PREFIX + Decimal(|c.locals|);
      assert !UserName(tmp);
      HiddenBindRel(c, tmp, InferKind(hs[0], c.locals), env, store);
      DeclareTempsRel(Declare(c, tmp, InferKind(hs[0], c.locals)), hs[1..], env, store);
    }
  }

  lemma TargetCode(name: string, value: HExpr, c: Ctx)
    requires c.scopes != [] && Declared(c, name) && LowerAssignTarget(name, value, c).Ok?
    ensures var id := Resolve<nat>(c.scopes, name).value;
            LowerAssignTarget(name, value, c).value == Lowered(HAssign(id, value), c) && id !in c.readonly
  {}

  lemma ResolveUserSlot(c: Ctx, name: string)
    requires WF(c) && UserName(name) && Declared(c, name)
    ensures UserSlot(c, Resolve<nat>(c.scopes, name).value)
  {
    ResolveUser(c, name);
  }

  function SlotOf(c: Ctx, name: string): nat
    requires Declared(c, name)
  {
    Resolve<nat>(c.scopes, name).value
  }

  /** The store after moving temporaries, numbered from `first`, to declared names. */
  function MoveAll(store: Store, c: Ctx, names: seq<string>, first: nat): Store
    requires forall k | 0 <= k < |names| :: Declared(c, names[k])
    decreases |names|
  {
    if names == [] then store
    else
      assert Declared(c, names[0]);
      MoveAll(store[SlotOf(c, names[0]) := Load(store, first)], c, names[1..], first + 1)
  }

  lemma {:induction false} TargetsRun(
      fuel: nat, names: seq<string>, first: nat, c: Ctx, store: Store, trace: Trace)
    requires c.scopes != [] && LowerTargets(names, first, c).Ok? && forall k | 0 <= k < |names| :: Declared(c, names[k])
    ensures HExecSeq(fuel, LowerTargets(names, first, c).value.hs, store, trace)
         == HResult(HNormal, MoveAll(store, c, names, first), trace)
    ensures forall k | 0 <= k < |names| :: SlotOf(c, names[k]) !in c.readonly
    decreases |names|
  {
    if names != [] {
      assert Declared(c, names[0]);
      TargetCode(names[0], HLocal(first), c);
      TargetsRun(fuel, names[1..], first + 1, c, store[SlotOf(c, names[0]) := Load(store, first)], trace);
    }
  }

  /** Those moves touch only the slots of writable user names. */
  lemma {:induction false} MoveAllKeeps(c: Ctx, names: seq<string>, first: nat, store: Store)
    requires WF(c) && UserNames(names)
    requires forall k | 0 <= k < |names| :: Declared(c, names[k]) && SlotOf(c, names[k]) !in c.readonly
    ensures forall j: nat | !UserSlot(c, j) || j in c.readonly :: Load(MoveAll(store, c, names, first), j) == Load(store, j)
    decreases |names|
  {
    if names != [] {
      assert Declared(c, names[0]);
      ResolveUserSlot(c, names[0]);
      MoveAllKeeps(c, names[1..], first + 1, store[SlotOf(c, names[0]) := Load(store, first)]);
    }
  }

  /** User names stand for slots below `first` only. */
  ghost predicate UserBelow(c: Ctx, first: nat) { forall j: nat | UserSlot(c, j) :: j < first }

  lemma AssignRel(c: Ctx, env: Env, store: Store, name: string, v: Value, first: nat)
    requires WF(c) && Rel(c.scopes, env, store) && UserName(name) && Declared(c, name) && UserBelow(c, first)
    ensures SlotOf(c, name) < first && env != [] && Rel(c.scopes, AssignName(env, name, v), store[SlotOf(c, name) := v])
  {
    ResolveUserSlot(c, name);
    UpdateRel(c, env, store, name, v);
  }

  lemma HoldsRest(store: Store, first: nat, vs: seq<Value>, id: nat, v: Value)
    requires HoldsFrom(store, first, vs) && vs != [] && id < first
    ensures Load(store, first) == vs[0] && HoldsFrom(store[id := v], first + 1, vs[1..])
  {
    var rest, next := vs[1..], store[id := v];
    forall j: nat | first + 1 <= j < first + 1 + |rest|
      ensures Load(next, j) == rest[j - (first + 1)]
    {
      assert Load(next, j) == Load(store, j) == vs[j - first];
    }
  }

  /** ... and perform the parallel assignment. */
  lemma {:induction false} MoveAllRel(c: Ctx, names: seq<string>, first: nat, env: Env, vs: seq<Value>, store: Store)
    requires WF(c) && Rel(c.scopes, env, store) && UserNames(names) && |names| == |vs|
    requires forall k | 0 <= k < |names| :: Declared(c, names[k])
    requires HoldsFrom(store, first, vs) && UserBelow(c, first)
    ensures env != [] && Rel(c.scopes, AssignAll(env, names, vs), MoveAll(store, c, names, first))
    decreases |names|
  {
    if names != [] {
      assert UserName(names[0]) && Declared(c, names[0]);
      MoveOne(c, names, first, env, vs, store);
      MoveAllRel(c, names[1..], first + 1, AssignName(env, names[0], vs[0]), vs[1..], store[SlotOf(c, names[0]) := vs[0]]);
    }
  }

  lemma MoveOne(c: Ctx, names: seq<string>, first: nat, env: Env, vs: seq<Value>, store: Store)
    requires WF(c) && Rel(c.scopes, env, store) && |names| == |vs| > 0 && UserName(names[0])
    requires forall k | 0 <= k < |names| :: Declared(c, names[k])
    requires HoldsFrom(store, first, vs) && UserBelow(c, first)
    ensures forall k | 0 <= k < |names[1..]| :: Declared(c, names[1..][k])
    ensures Declared(c, names[0])
    ensures var next := store[SlotOf(c, names[0]) := vs[0]];
            && env != [] && Rel(c.scopes, AssignName(env, names[0], vs[0]), next)
            && HoldsFrom(next, first + 1, vs[1..])
            && MoveAll(store, c, names, first) == MoveAll(next, c, names[1..], first + 1)
  {
    assert Declared(c, names[0]);
    AssignRel(c, env, store, names[0], vs[0], first);
    HoldsRest(store, first, vs, SlotOf(c, names[0]), vs[0]);
  }

  /** Storing results: each value is that of the starting store, since no value reads a result slot. */
  lemma {:induction false} RetAssignsRun(
      fuel: nat, rets: seq<nat>, hs: seq<HExpr>, locals: seq<LocalInfo>, free: set<nat>, store: Store, trace: Trace)
    requires KindedExprs(hs, locals, free) && |hs| <= |rets| && Distinct(rets) && forall r | r in rets :: r in free
    ensures var r, vs := HExecSeq(fuel, RetAssigns(rets, hs), store, trace), HEvalAll(hs, store);
            && r.trace == trace
            && (vs.None? ==> r.out.HTrapped?)
            && (vs.Some? ==> r.out.HNormal? && forall k | 0 <= k < |hs| :: Load(r.store, rets[k]) == vs.value[k])
            && (forall j: nat | j !in rets :: Load(r.store, j) == Load(store, j))
    decreases |hs|
  {
    if hs != [] && HEval(hs[0], store).Some? {
      var v := HEval(hs[0], store).value;
      var next := store[rets[0] := v];
      EvalAllBelow(hs[1..], locals, free, store, next);
      assert Distinct(rets[1..]);
      RetAssignsRun(fuel, rets[1..], hs[1..], locals, free, next, trace);
      assert RetAssigns(rets, hs)[1..] == RetAssigns(rets[1..], hs[1..]);
      var r := HExecSeq(fuel, RetAssigns(rets[1..], hs[1..]), next, trace);
      assert HExecSeq(fuel, RetAssigns(rets, hs), store, trace) == r;
      if HEvalAll(hs[1..], store).Some? {
        RetStored(rets, v, HEvalAll(hs[1..], store).value, store, r.store);
      }
    }
  }

  /** The first result is not overwritten by the others. */
  lemma RetStored(rets: seq<nat>, v: Value, vs: seq<Value>, store: Store, last: Store)
    requires rets != [] && |vs| < |rets| && Distinct(rets)
    requires forall k | 0 <= k < |vs| :: Load(last, rets[1..][k]) == vs[k]
    requires forall j: nat | j !in rets[1..] :: Load(last, j) == Load(store[rets[0] := v], j)
    ensures forall k | 0 <= k <= |vs| :: Load(last, rets[k]) == ([v] + vs)[k]
    ensures forall j: nat | j !in rets :: Load(last, j) == Load(store, j)
  {
    assert rets[0] !in rets[1..];
    forall k | 0 < k <= |vs| ensures Load(last, rets[k]) == vs[k - 1] {
      assert rets[1..][k - 1] == rets[k];
    }
  }

  lemma {:induction false} SeqAppend(fuel: nat, a: seq<HStmt>, b: seq<HStmt>, store: Store, trace: Trace)
    ensures var r := HExecSeq(fuel, a, store, trace);
            HExecSeq(fuel, a + b, store, trace)
            == if r.out.HNormal? then HExecSeq(fuel, b, r.store, r.trace) else r
    decreases |a|
  {
    if a == [] {
      assert a + b == b;
    } else {
      assert (a + b)[1..] == a[1..] + b;
      var r := HExec(fuel, a[0], store, trace);
      SeqAppend(fuel, a[1..], b, r.store, r.trace);
    }
  }
}

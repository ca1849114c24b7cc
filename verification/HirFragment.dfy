/**
 The programs whose meaning the lowering preserves.

 Each condition answers one way in which the lowering departs from Lua.  The conditions follow the lowering's
 own contexts, so they can be decided before any code runs.
 */
module HirFragment {
  import opened Wrappers
  import opened Int64
  import opened Numerals
  import opened HirSyntax
  import opened HirSemantics
  import opened HirLower
  import opened HirContext
  import opened HirKinds

  // ----- Expressions -----

  /** Code that cannot trap on values of the inferred kinds. */
  predicate TotalExpr(h: HExpr, locals: seq<LocalInfo>) {
    match h
    case HBinOp(op, lhs, rhs) =>
      && TotalExpr(lhs, locals) && TotalExpr(rhs, locals)
      && (IsArith(op) || IsOrder(op) ==>
            InferKind(lhs, locals) == NumberKind && InferKind(rhs, locals) == NumberKind)
      && (op.FloorDivide? || op.Mod? ==> rhs.HInteger? && rhs.i != 0)
    case HUnaryOp(op, operand) =>
      TotalExpr(operand, locals) && (op.Not? || InferKind(operand, locals) == NumberKind)
    case _ => true
  }

  /**
   No folded division is inexact with a negative divisor, and no folded equality drops an operand that
   could trap.
   */
  predicate SafeExpr(e: Expr, c: Ctx)
    requires LowerExpr(e, c).Ok?
  {
    match e
    case BinOp(op, lhs, rhs) =>
      var l, r := LowerExpr(lhs, c).value, LowerExpr(rhs, c).value;
      && SafeExpr(lhs, c) && SafeExpr(rhs, c)
      && (l.HInteger? && r.HInteger? ==> !MisfoldsDivision(op, l.i, r.i))
      && ((op.Eq? || op.Ne?) && FoldsEquality(InferKind(l, c.locals), InferKind(r, c.locals)) ==>
            TotalExpr(l, c.locals) && TotalExpr(r, c.locals))
    case UnaryOp(_, operand) => SafeExpr(operand, c)
    case _ => true
  }

  predicate SafeExprs(es: seq<Expr>, c: Ctx)
    requires LowerExprs(es, c).Ok?
  {
    es == [] || (SafeExpr(es[0], c) && SafeExprs(es[1..], c))
  }

  predicate Declared(c: Ctx, name: string) { Resolve<nat>(c.scopes, name).Some? }

  // ----- Statements -----

  /** Whether a `break` or `return` inside `s` may leave it. */
  predicate Escapes(s: Stmt) {
    match s
    case Break => true
    case Return(_) => true
    case Block(body) => exists k | 0 <= k < |body| :: Escapes(body[k])
    case If(arms, elseBody) =>
      || (exists k | 0 <= k < |arms| :: exists j | 0 <= j < |arms[k].body| :: Escapes(arms[k].body[j]))
      || (exists k | 0 <= k < |elseBody| :: Escapes(elseBody[k]))
    case _ => false
  }

  predicate SeqEscapes(ss: seq<Stmt>) { exists k | 0 <= k < |ss| :: Escapes(ss[k]) }

  /** Only the last statement may be left early: nothing follows it that a guard would have to skip. */
  predicate OnlyLastEscapes(ss: seq<Stmt>) { forall k | 0 <= k < |ss| - 1 :: !Escapes(ss[k]) }

  predicate FragStmt(s: Stmt, c: Ctx, inLoop: bool)
    requires c.scopes != [] && LowerStmt(s, c).Ok?
    decreases s, 1
  {
    match s
    case Local(_, value) => SafeExpr(value, c)
    case LocalMulti(_, values) => SafeExprs(values, c)
    case Assign(name, value) => SafeExpr(value, c) && Declared(c, name)
    case AssignMulti(names, values) =>
      SafeExprs(values, c) && forall k | 0 <= k < |names| :: Declared(c, names[k])
    // The statements of a `do ... end` are not guarded.
    case Block(body) => OnlyLastEscapes(body) && FragSeq(body, PushScope(c), None, inLoop)
    case If(_, elseBody) => FragArms(s, 0, c, inLoop) && FragBody(elseBody, LowerArms(s, 0, c).value.1, inLoop)
    // A loop left by `break` evaluates its condition once more.
    case While(cond, body) =>
      var c1 := EnterLoop(c, body);
      && SafeExpr(cond, c1) && FragBody(body, c1, true)
      && (BodyContainsBreak(body) ==> TotalExpr(LowerExpr(cond, c1).value, c1.locals))
    case Repeat(body, cond) =>
      var c1 := EnterLoop(c, body);
      var b := LowerSeq(body, PushScope(c1), Target(c1)).value.c;
      && FragSeq(body, PushScope(c1), Target(c1), true) && SafeExpr(cond, b)
      && (BodyContainsBreak(body) ==> TotalExpr(LowerExpr(cond, b).value, b.locals))
    case ForNumeric(v, _, _, _, body) =>
      var c1 := EnterLoop(c, body);
      && SafeExprs(Bounds(s), c)
      && FragSeq(body, EnterFor(c1, v), Target(c1), true)
    // Outside a loop, a function body lowers `break` like `return`; inside one, `return` does not stop the loop.
    case Break => inLoop
    case Return(values) => !inLoop && SafeExprs(values, c)
    case Print(args) => SafeExprs(args, c)
  }

  predicate FragSeq(ss: seq<Stmt>, c: Ctx, guard: Option<nat>, inLoop: bool)
    requires c.scopes != [] && LowerSeq(ss, c, guard).Ok?
    decreases ss, 0
  {
    ss == [] || (FragStmt(ss[0], c, inLoop) && FragSeq(ss[1..], LowerStmt(ss[0], c).value.c, guard, inLoop))
  }

  predicate FragBody(ss: seq<Stmt>, c: Ctx, inLoop: bool)
    requires c.scopes != [] && LowerBody(ss, c).Ok?
    decreases ss, 1
  {
    FragSeq(ss, PushScope(c), Target(c), inLoop)
  }

  predicate FragArms(s: Stmt, k: nat, c: Ctx, inLoop: bool)
    requires c.scopes != [] && s.If? && k <= |s.arms| && LowerArms(s, k, c).Ok?
    decreases s, 0, |s.arms| - k
  {
    k == |s.arms| ||
      (&& SafeExpr(s.arms[k].cond, c) && FragBody(s.arms[k].body, c, inLoop)
       && FragArms(s, k + 1, LowerBody(s.arms[k].body, c).value.c, inLoop))
  }

  // ----- First consequences -----

  lemma {:induction false} TotalSound(h: HExpr, locals: seq<LocalInfo>, free: set<nat>, store: Store)
    requires KindedExpr(h, locals, free) && StoreTyped(store, locals, free) && TotalExpr(h, locals)
    ensures HEval(h, store).Some?
  {
    match h
    case HBinOp(op, lhs, rhs) =>
      TotalSound(lhs, locals, free, store);
      TotalSound(rhs, locals, free, store);
      ExprKindSound(lhs, locals, free, store);
      ExprKindSound(rhs, locals, free, store);
    case HUnaryOp(_, operand) =>
      TotalSound(operand, locals, free, store);
      ExprKindSound(operand, locals, free, store);
    case _ =>
  }

  lemma {:induction false} TotalWithin(h: HExpr, locals: seq<LocalInfo>, later: seq<LocalInfo>, free: set<nat>)
    requires KindedExpr(h, locals, free) && Within(locals, later, free) && TotalExpr(h, locals)
    ensures TotalExpr(h, later)
  {
    match h
    case HBinOp(op, lhs, rhs) =>
      TotalWithin(lhs, locals, later, free);
      TotalWithin(rhs, locals, later, free);
      InferWithin(lhs, locals, later, free);
      InferWithin(rhs, locals, later, free);
    case HUnaryOp(_, operand) =>
      TotalWithin(operand, locals, later, free);
      InferWithin(operand, locals, later, free);
    case _ =>
  }

  /** Where every assigned name is declared, a statement changes no frame but the innermost. */
  lemma {:induction false} StmtFrames(s: Stmt, c: Ctx, inLoop: bool)
    requires c.scopes != [] && UserStmt(s) && LowerStmt(s, c).Ok? && FragStmt(s, c, inLoop)
    ensures Pop(LowerStmt(s, c).value.c.scopes) == Pop(c.scopes)
    ensures s.Block? || s.If? || s.Break? || s.Return? ==> LowerStmt(s, c).value.c.scopes == c.scopes
    decreases s, 1
  {
    match s
    case LocalMulti(names, values) => DeclareAllFrames(c, names, LowerExprs(values, c).value);
    case AssignMulti(names, values) =>
      var hs := LowerExprs(values, c).value;
      DeclareTempsFrames(c, hs);
      TargetsFrames(names, |c.locals|, DeclareTemps(c, hs));
    case Block(body) => SeqFrames(body, PushScope(c), None, inLoop);
    case If(_, elseBody) =>
      ArmsFrames(s, 0, c, inLoop);
      SeqFrames(elseBody, PushScope(LowerArms(s, 0, c).value.1), Target(LowerArms(s, 0, c).value.1), inLoop);
    case While(_, _) => LoopFrames(s, c, inLoop);
    case Repeat(_, _) => LoopFrames(s, c, inLoop);
    case ForNumeric(_, _, _, _, _) => LoopFrames(s, c, inLoop);
    case _ =>
  }

  lemma {:induction false} LoopFrames(s: Stmt, c: Ctx, inLoop: bool)
    requires s.While? || s.Repeat? || s.ForNumeric?
    requires c.scopes != [] && UserStmt(s) && LowerStmt(s, c).Ok? && FragStmt(s, c, inLoop)
    ensures Pop(LowerStmt(s, c).value.c.scopes) == Pop(c.scopes)
    decreases s, 0
  {
    var c1 := EnterLoop(c, s.body);
    if s.ForNumeric? {
      SeqFrames(s.body, EnterFor(c1, s.loopVar), Target(c1), true);
    } else {
      SeqFrames(s.body, PushScope(c1), Target(c1), true);
    }
  }

  lemma {:induction false} SeqFrames(ss: seq<Stmt>, c: Ctx, guard: Option<nat>, inLoop: bool)
    requires c.scopes != [] && UserStmts(ss) && LowerSeq(ss, c, guard).Ok? && FragSeq(ss, c, guard, inLoop)
    ensures Pop(LowerSeq(ss, c, guard).value.c.scopes) == Pop(c.scopes)
    decreases ss, 0
  {
    if ss != [] {
      StmtFrames(ss[0], c, inLoop);
      SeqFrames(ss[1..], LowerStmt(ss[0], c).value.c, guard, inLoop);
    }
  }

  lemma {:induction false} ArmsFrames(s: Stmt, k: nat, c: Ctx, inLoop: bool)
    requires c.scopes != [] && s.If? && k <= |s.arms| && UserStmt(s) && LowerArms(s, k, c).Ok? && FragArms(s, k, c, inLoop)
    ensures LowerArms(s, k, c).value.1.scopes == c.scopes
    decreases s, 0, |s.arms| - k
  {
    if k < |s.arms| {
      SeqFrames(s.arms[k].body, PushScope(c), Target(c), inLoop);
      ArmsFrames(s, k + 1, LowerBody(s.arms[k].body, c).value.c, inLoop);
    }
  }

  lemma {:induction false} DeclareAllFrames(c: Ctx, names: seq<string>, hs: seq<HExpr>)
    requires c.scopes != [] && |names| == |hs|
    ensures Pop(DeclareAll(c, names, hs).scopes) == Pop(c.scopes)
    decreases |names|
  {
    if names != [] {
      DeclareAllFrames(Declare(c, names[0], InferKind(hs[0], c.locals)), names[1..], hs[1..]);
    }
  }

  lemma {:induction false} DeclareTempsFrames(c: Ctx, hs: seq<HExpr>)
    requires c.scopes != []
    ensures Pop(DeclareTemps(c, hs).scopes) == Pop(c.scopes)
    ensures forall name | UserName(name) :: Resolve<nat>(DeclareTemps(c, hs).scopes, name) == Resolve<nat>(c.scopes, name)
    decreases |hs|
  {
    if hs != [] {
      var tmp := TMP_PREFIX + Decimal(|c.locals|);
      var d := Declare(c, tmp, InferKind(hs[0], c.locals));
      assert !UserName(tmp);
      assert Pop(d.scopes) == Pop(c.scopes);
      DeclareTempsFrames(d, hs[1..]);
    }
  }

  /** Moving temporaries to declared names declares nothing. */
  lemma {:induction false} TargetsFrames(names: seq<string>, first: nat, c: Ctx)
    requires c.scopes != [] && LowerTargets(names, first, c).Ok?
    requires forall k | 0 <= k < |names| :: Declared(c, names[k])
    ensures LowerTargets(names, first, c).value.c == c
    decreases |names|
  {
    if names != [] {
      assert Declared(c, names[0]);
      TargetsFrames(names[1..], first + 1, c);
    }
  }
}

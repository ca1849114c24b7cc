/**
 Lowering contexts: which slots user names stand for, which slots are hidden from them, and how a
 context evolves over a statement.
 */
module HirContext {
  import opened Wrappers
  import opened Numerals
  import opened HirSyntax
  import opened HirLower

  // ----- Names the programmer may use -----

  ghost predicate UserExpr(e: Expr) {
    match e
    case Ident(name) => UserName(name)
    case BinOp(_, lhs, rhs) => UserExpr(lhs) && UserExpr(rhs)
    case UnaryOp(_, operand) => UserExpr(operand)
    case _ => true
  }

  ghost predicate UserExprs(es: seq<Expr>) { forall k | 0 <= k < |es| :: UserExpr(es[k]) }
  ghost predicate UserNames(names: seq<string>) { forall k | 0 <= k < |names| :: UserName(names[k]) }

  /** No name in `s` has the form of a synthetic one. */
  ghost predicate UserStmt(s: Stmt) {
    match s
    case Local(name, value) => UserName(name) && UserExpr(value)
    case LocalMulti(names, values) => UserNames(names) && UserExprs(values)
    case Assign(name, value) => UserName(name) && UserExpr(value)
    case AssignMulti(names, values) => UserNames(names) && UserExprs(values)
    case Block(body) => UserStmts(body)
    case If(arms, elseBody) =>
      (forall k | 0 <= k < |arms| :: UserExpr(arms[k].cond) && UserStmts(arms[k].body)) && UserStmts(elseBody)
    case While(cond, body) => UserExpr(cond) && UserStmts(body)
    case Repeat(body, cond) => UserExpr(cond) && UserStmts(body)
    case ForNumeric(v, start, stop, step, body) =>
      UserName(v) && UserExpr(start) && UserExpr(stop) && (step.Some? ==> UserExpr(step.value)) && UserStmts(body)
    case Break => true
    case Return(values) => UserExprs(values)
    case Print(args) => UserExprs(args)
  }

  ghost predicate UserStmts(ss: seq<Stmt>) { forall k | 0 <= k < |ss| :: UserStmt(ss[k]) }

  // ----- Well-formed contexts -----

  ghost predicate Names(c: Ctx, f: int, n: string) {
    0 <= f < |c.scopes| && UserName(n) && n in c.scopes[f]
  }

  ghost function ResultSlots(fn: Option<FnSlots>): set<nat> {
    if fn.None? then {} else set r | r in fn.value.rets
  }

  ghost function FlagSlots(targets: seq<Option<nat>>): set<nat> { set t | t in targets && t.Some? :: t.value }

  ghost function RetSet(c: Ctx): set<nat> { ResultSlots(c.fn) }

  ghost function FnSet(c: Ctx): set<nat> {
    if c.fn.None? then {} else {c.fn.value.returned} + RetSet(c)
  }

  ghost function Flags(c: Ctx): set<nat> { FlagSlots(c.targets) }

  /** The slots no user name stands for. */
  ghost function Hidden(c: Ctx): set<nat> { Flags(c) + FnSet(c) }

  predicate Distinct(ids: seq<nat>) {
    forall i, j | 0 <= i < j < |ids| :: ids[i] != ids[j]
  }

  ghost predicate SameSlot(c: Ctx, f: int, n: string, g: int, m: string) {
    Names(c, f, n) && Names(c, g, m) && c.scopes[f][n] == c.scopes[g][m]
  }

  ghost predicate Injective(c: Ctx) { forall f, n, g, m | SameSlot(c, f, n, g, m) :: f == g && n == m }

  /** User names stand for distinct slots in range, none of them a flag or a synthetic slot of the function. */
  ghost predicate WF(c: Ctx) {
    && c.scopes != []
    && (forall f, n {:trigger Names(c, f, n)} | Names(c, f, n) ::
          c.scopes[f][n] < |c.locals| && c.scopes[f][n] !in Hidden(c))
    && Injective(c)
    && (forall j | j in Hidden(c) :: j < |c.locals|)
    && (forall j | j in Flags(c) :: j !in RetSet(c) && c.locals[j].kind == BoolKind)
    && (forall j | j in c.readonly :: j < |c.locals|)
    && (c.fn.Some? ==>
          && Distinct(c.fn.value.rets) && c.fn.value.returned !in c.fn.value.rets
          && c.locals[c.fn.value.returned].kind == BoolKind)
  }

  /** How a context may change over a statement: it gains slots, and names move to new slots only. */
  ghost predicate Flow(c: Ctx, d: Ctx) {
    && |c.locals| <= |d.locals|
    && (forall j | 0 <= j < |c.locals| && j !in RetSet(c) :: d.locals[j] == c.locals[j])
    && |d.scopes| == |c.scopes|
    && d.targets == c.targets && d.readonly == c.readonly && d.fn == c.fn
    && (forall f, n | Names(c, f, n) :: Names(d, f, n))
    && (forall f, n | Names(d, f, n) ::
          (Names(c, f, n) && d.scopes[f][n] == c.scopes[f][n]) || d.scopes[f][n] >= |c.locals|)
  }

  /** Names stay distinct when they move at most one name, to a new slot. */
  lemma StillInjective(c: Ctx, d: Ctx, f0: int, n0: string)
    requires WF(c)
    requires forall f, n | Names(d, f, n) ::
               (f == f0 && n == n0 && d.scopes[f][n] >= |c.locals|) || (Names(c, f, n) && d.scopes[f][n] == c.scopes[f][n])
    ensures Injective(d)
  {
    forall f, n, g, m | SameSlot(d, f, n, g, m)
      ensures f == g && n == m
    {
      if Names(c, f, n) && d.scopes[f][n] == c.scopes[f][n] && Names(c, g, m) && d.scopes[g][m] == c.scopes[g][m] {
        assert SameSlot(c, f, n, g, m);
      }
    }
  }

  lemma FlowTransitive(c: Ctx, d: Ctx, e: Ctx)
    requires Flow(c, d) && Flow(d, e)
    ensures Flow(c, e)
  {
    forall f, n | Names(e, f, n)
      ensures (Names(c, f, n) && e.scopes[f][n] == c.scopes[f][n]) || e.scopes[f][n] >= |c.locals|
    {
      if Names(d, f, n) && e.scopes[f][n] == d.scopes[f][n] {}
    }
  }

  lemma DeclareFlow(c: Ctx, name: string, kind: Kind)
    requires WF(c)
    ensures WF(Declare(c, name, kind)) && Flow(c, Declare(c, name, kind))
  {
    var d, top := Declare(c, name, kind), |c.scopes| - 1;
    assert Hidden(d) == Hidden(c) && Flags(d) == Flags(c);
    forall f, n | Names(d, f, n)
      ensures (f == top && n == name && d.scopes[f][n] == |c.locals|) || (Names(c, f, n) && d.scopes[f][n] == c.scopes[f][n])
    {}
    StillInjective(c, d, top, name);
  }

  lemma AutoDeclareFlow(c: Ctx, name: string, kind: Kind)
    requires WF(c)
    ensures var d := c.(locals := c.locals + [LocalInfo(name, kind)], scopes := BindBottom(c.scopes, name, |c.locals|));
            WF(d) && Flow(c, d)
  {
    var d := c.(locals := c.locals + [LocalInfo(name, kind)], scopes := BindBottom(c.scopes, name, |c.locals|));
    assert Hidden(d) == Hidden(c) && Flags(d) == Flags(c);
    forall f, n | Names(d, f, n)
      ensures (f == 0 && n == name && d.scopes[f][n] == |c.locals|) || (Names(c, f, n) && d.scopes[f][n] == c.scopes[f][n])
    {}
    StillInjective(c, d, 0, name);
  }

  lemma PushWF(c: Ctx)
    requires WF(c)
    ensures WF(PushScope(c))
    ensures forall f, n :: Names(PushScope(c), f, n) <==> Names(c, f, n)
    ensures forall f, n | Names(c, f, n) :: PushScope(c).scopes[f][n] == c.scopes[f][n]
  {
    var d := PushScope(c);
    assert Hidden(d) == Hidden(c) && Flags(d) == Flags(c);
    forall f, n
      ensures Names(d, f, n) <==> Names(c, f, n)
      ensures Names(c, f, n) ==> d.scopes[f][n] == c.scopes[f][n]
    {}
    StillInjective(c, d, 0, "");
  }

  /** What a body leaves behind once its scope is popped. */
  lemma PopFlow(c: Ctx, d: Ctx)
    requires WF(c) && WF(d) && Flow(PushScope(c), d)
    ensures WF(PopScope(d)) && Flow(c, PopScope(d))
  {
    var e := PopScope(d);
    PushWF(c);
    assert Hidden(e) == Hidden(d) && Flags(e) == Flags(d);
    assert RetSet(PushScope(c)) == RetSet(c);
    forall f, n
      ensures Names(e, f, n) <==> Names(d, f, n) && f < |c.scopes|
      ensures Names(e, f, n) ==> e.scopes[f][n] == d.scopes[f][n]
    {}
    StillInjective(d, e, 0, "");
  }

  /** A slot declared under a synthetic name has no user name. */
  lemma HiddenNames(c: Ctx, name: string, kind: Kind)
    requires c.scopes != [] && !UserName(name)
    ensures var d := Declare(c, name, kind);
            && (forall f, n :: Names(d, f, n) <==> Names(c, f, n))
            && (forall f, n | Names(c, f, n) :: d.scopes[f][n] == c.scopes[f][n])
  {}

  lemma FlagName(k: nat)
    ensures !UserName(BROKEN_PREFIX + Decimal(k))
  {}

  /** A boolean slot without a user name may become the target. */
  lemma TargetWF(c: Ctx, id: nat)
    requires WF(c) && id < |c.locals| && c.locals[id].kind == BoolKind && id !in RetSet(c)
    requires forall f, n | Names(c, f, n) :: c.scopes[f][n] != id
    ensures WF(c.(targets := c.targets + [Some(id)]))
  {
    var d := c.(targets := c.targets + [Some(id)]);
    assert Flags(d) == Flags(c) + {id} && Hidden(d) == Hidden(c) + {id};
    forall f, n ensures Names(d, f, n) <==> Names(c, f, n) {}
    StillInjective(c, d, 0, "");
  }

  /** Entering a loop: a fresh flag, or none, becomes the target. */
  lemma EnterLoopWF(c: Ctx, body: seq<Stmt>)
    requires WF(c)
    ensures var d := EnterLoop(c, body);
            && WF(d)
            && |c.locals| <= |d.locals| && d.locals[..|c.locals|] == c.locals
            && (forall f, n :: Names(d, f, n) ==> (Names(c, f, n) && d.scopes[f][n] == c.scopes[f][n]))
            && (forall f, n :: Names(c, f, n) ==> Names(d, f, n))
            && d.readonly == c.readonly && d.fn == c.fn && |d.scopes| == |c.scopes|
            && d.targets == c.targets + [Target(d)]
            && (Target(d).Some? <==> BodyContainsBreak(body))
            && (Target(d).Some? ==> Target(d).value == |c.locals|)
  {
    var d := EnterLoop(c, body);
    if BodyContainsBreak(body) {
      FlagName(|c.locals|);
      EnterFlagged(c, BROKEN_PREFIX + Decimal(|c.locals|));
      forall f, n ensures Names(d, f, n) <==> Names(d.(targets := c.targets), f, n) {}
    } else {
      assert Flags(d) == Flags(c) && Hidden(d) == Hidden(c);
      forall f, n ensures Names(d, f, n) <==> Names(c, f, n) {}
      StillInjective(c, d, 0, "");
    }
  }

  lemma EnterFlagged(c: Ctx, name: string)
    requires WF(c) && !UserName(name)
    ensures var e := Declare(c, name, BoolKind);
            && WF(e.(targets := c.targets + [Some(|c.locals|)]))
            && (forall f, n :: Names(e, f, n) <==> Names(c, f, n))
            && (forall f, n | Names(c, f, n) :: e.scopes[f][n] == c.scopes[f][n])
  {
    var e := Declare(c, name, BoolKind);
    DeclareFlow(c, name, BoolKind);
    HiddenNames(c, name, BoolKind);
    assert |c.locals| !in Hidden(c) && RetSet(e) == RetSet(c);
    TargetWF(e, |c.locals|);
  }

  lemma LeaveLoopWF(d: Ctx)
    requires WF(d)
    ensures WF(LeaveLoop(d))
    ensures forall f, n :: Names(LeaveLoop(d), f, n) <==> Names(d, f, n)
  {
    var e := LeaveLoop(d);
    assert Flags(e) <= Flags(d);
    forall f, n ensures Names(e, f, n) <==> Names(d, f, n) {}
    StillInjective(d, e, 0, "");
  }

  lemma LeaveLoopFlow(c: Ctx, body: seq<Stmt>, d: Ctx)
    requires WF(c) && WF(d) && Flow(EnterLoop(c, body), d)
    ensures WF(LeaveLoop(d)) && Flow(c, LeaveLoop(d))
  {
    var e, c1 := LeaveLoop(d), EnterLoop(c, body);
    EnterLoopWF(c, body);
    LeaveLoopWF(d);
    assert e.targets == c.targets;
    forall j | 0 <= j < |c.locals| && j !in RetSet(c) ensures e.locals[j] == c.locals[j] {
      assert c1.locals[j] == c.locals[j];
    }
    forall f, n | Names(c, f, n) ensures Names(e, f, n) {
      assert Names(c1, f, n) && Names(d, f, n);
    }
    forall f, n | Names(e, f, n)
      ensures (Names(c, f, n) && e.scopes[f][n] == c.scopes[f][n]) || e.scopes[f][n] >= |c.locals|
    {
      assert Names(d, f, n);
      assert Names(c1, f, n) ==> Names(c, f, n) && c1.scopes[f][n] == c.scopes[f][n];
    }
  }

  lemma EnterForWF(c: Ctx, v: string)
    requires WF(c) && UserName(v)
    ensures WF(EnterFor(c, v))
    ensures WF(PushScope(c)) && Flow(PushScope(c), EnterFor(c, v).(readonly := c.readonly))
  {
    PushWF(c);
    var d := Declare(PushScope(c), v, NumberKind);
    DeclareFlow(PushScope(c), v, NumberKind);
    var e := EnterFor(c, v);
    assert Flags(e) == Flags(d) && Hidden(e) == Hidden(d);
    forall f, n ensures Names(e, f, n) <==> Names(d, f, n) {}
    StillInjective(d, e, 0, "");
  }

  lemma LeaveForFlow(c: Ctx, v: string, d: Ctx)
    requires WF(c) && UserName(v) && WF(d) && Flow(EnterFor(c, v), d)
    ensures var e := d.(readonly := d.readonly - {|c.locals|}); WF(e) && Flow(PushScope(c), e)
  {
    var e, b := d.(readonly := d.readonly - {|c.locals|}), EnterFor(c, v);
    EnterForWF(c, v);
    assert Flags(e) == Flags(d) && Hidden(e) == Hidden(d);
    forall f, n ensures Names(e, f, n) <==> Names(d, f, n) {}
    StillInjective(d, e, 0, "");
    assert e.readonly == c.readonly;
    var b1 := b.(readonly := c.readonly);
    forall f, n ensures Names(b1, f, n) <==> Names(b, f, n) {}
    assert Flow(b1, e);
    FlowTransitive(PushScope(c), b1, e);
  }

  lemma {:induction false} DeclareAllFlow(c: Ctx, names: seq<string>, hs: seq<HExpr>)
    requires WF(c) && |names| == |hs|
    ensures WF(DeclareAll(c, names, hs)) && Flow(c, DeclareAll(c, names, hs))
    ensures |DeclareAll(c, names, hs).locals| == |c.locals| + |names|
    decreases |names|
  {
    FlowRefl(c);
    if names != [] {
      var d := Declare(c, names[0], InferKind(hs[0], c.locals));
      DeclareFlow(c, names[0], InferKind(hs[0], c.locals));
      DeclareAllFlow(d, names[1..], hs[1..]);
      FlowTransitive(c, d, DeclareAll(c, names, hs));
    }
  }

  lemma {:induction false} DeclareTempsFlow(c: Ctx, hs: seq<HExpr>)
    requires WF(c)
    ensures WF(DeclareTemps(c, hs)) && Flow(c, DeclareTemps(c, hs))
    ensures |DeclareTemps(c, hs).locals| == |c.locals| + |hs|
    decreases |hs|
  {
    FlowRefl(c);
    if hs != [] {
      var name, kind := TMP_PREFIX + Decimal(|c.locals|), InferKind(hs[0], c.locals);
      DeclareFlow(c, name, kind);
      DeclareTempsFlow(Declare(c, name, kind), hs[1..]);
      FlowTransitive(c, Declare(c, name, kind), DeclareTemps(c, hs));
    }
  }

  lemma FlowRefl(c: Ctx)
    ensures Flow(c, c)
  {}

  lemma TargetFlow(name: string, value: HExpr, c: Ctx)
    requires WF(c) && LowerAssignTarget(name, value, c).Ok?
    ensures var d := LowerAssignTarget(name, value, c).value.c; WF(d) && Flow(c, d)
  {
    FlowRefl(c);
    AutoDeclareFlow(c, name, InferKind(value, c.locals));
  }

  lemma {:induction false} TargetsFlow(names: seq<string>, first: nat, c: Ctx)
    requires WF(c) && LowerTargets(names, first, c).Ok?
    ensures var d := LowerTargets(names, first, c).value.c; WF(d) && Flow(c, d)
    decreases |names|
  {
    FlowRefl(c);
    if names != [] {
      var a := LowerAssignTarget(names[0], HLocal(first), c).value;
      TargetFlow(names[0], HLocal(first), c);
      TargetsFlow(names[1..], first + 1, a.c);
      FlowTransitive(c, a.c, LowerTargets(names, first, c).value.c);
    }
  }

  lemma {:induction false} SetKindsOnly(locals: seq<LocalInfo>, ids: seq<nat>, kinds: seq<Kind>)
    ensures forall j | 0 <= j < |locals| && j !in ids :: SetKinds(locals, ids, kinds)[j] == locals[j]
    decreases |ids|
  {
    if ids != [] && kinds != [] {
      SetKindsOnly(SetKind(locals, ids[0], kinds[0]), ids[1..], kinds[1..]);
    }
  }

  lemma {:induction false} WidenSlotsOnly(locals: seq<LocalInfo>, ids: seq<nat>, prev: seq<Kind>, kinds: seq<Kind>)
    requires |prev| == |kinds|
    ensures forall j | 0 <= j < |locals| && j !in ids :: WidenSlots(locals, ids, prev, kinds)[j] == locals[j]
    decreases |ids|
  {
    if ids != [] && prev != [] {
      var kept := prev[0] == kinds[0] || prev[0].TaggedKind?;
      WidenSlotsOnly(if kept then locals else SetKind(locals, ids[0], TaggedKind), ids[1..], prev[1..], kinds[1..]);
    }
  }

  lemma ReturnFlow(hs: seq<HExpr>, c: Ctx)
    requires WF(c) && LowerReturn(hs, c).Ok?
    ensures var d := LowerReturn(hs, c).value.c; WF(d) && Flow(c, d)
  {
    var d, rets, kinds := LowerReturn(hs, c).value.c, c.fn.value.rets, Kinds(hs, c.locals);
    SetKindsOnly(c.locals, rets, kinds);
    if c.retKinds.Some? {
      WidenSlotsOnly(c.locals, rets, c.retKinds.value, kinds);
    }
    assert Flags(d) == Flags(c) && Hidden(d) == Hidden(c) && RetSet(d) == RetSet(c);
    forall f, n ensures Names(d, f, n) <==> Names(c, f, n) {}
    StillInjective(c, d, 0, "");
  }

  /** Lowering keeps contexts well formed. */
  lemma {:induction false} LowerStmtFlow(s: Stmt, c: Ctx)
    requires WF(c) && UserStmt(s) && LowerStmt(s, c).Ok?
    ensures var d := LowerStmt(s, c).value.c; WF(d) && Flow(c, d)
    decreases s, 1
  {
    FlowRefl(c);
    match s
    case Local(name, value) => DeclareFlow(c, name, InferKind(LowerExpr(value, c).value, c.locals));
    case LocalMulti(names, values) => DeclareAllFlow(c, names, LowerExprs(values, c).value);
    case Assign(name, value) => TargetFlow(name, LowerExpr(value, c).value, c);
    case AssignMulti(names, values) =>
      var hs := LowerExprs(values, c).value;
      var d := DeclareTemps(c, hs);
      DeclareTempsFlow(c, hs);
      TargetsFlow(names, |c.locals|, d);
      FlowTransitive(c, d, LowerTargets(names, |c.locals|, d).value.c);
    case Block(body) =>
      PushWF(c);
      LowerSeqFlow(body, PushScope(c), None);
      PopFlow(c, LowerSeq(body, PushScope(c), None).value.c);
    case If(arms, elseBody) =>
      LowerArmsFlow(s, 0, c);
      var d := LowerArms(s, 0, c).value.1;
      LowerBodyFlow(elseBody, d);
      FlowTransitive(c, d, LowerBody(elseBody, d).value.c);
    case While(_, _) => LowerWhileFlow(s, c);
    case Repeat(_, _) => LowerRepeatFlow(s, c);
    case ForNumeric(_, _, _, _, _) => LowerForFlow(s, c);
    case Break =>
    case Return(values) => ReturnFlow(LowerExprs(values, c).value, c);
    case Print(args) =>
  }

  lemma {:induction false} LowerWhileFlow(s: Stmt, c: Ctx)
    requires WF(c) && UserStmt(s) && LowerStmt(s, c).Ok? && s.While?
    ensures var d := LowerStmt(s, c).value.c; WF(d) && Flow(c, d)
    decreases s, 0
  {
    var c1 := EnterLoop(c, s.body);
    EnterLoopWF(c, s.body);
    LowerBodyFlow(s.body, c1);
    LeaveLoopFlow(c, s.body, LowerBody(s.body, c1).value.c);
  }

  lemma {:induction false} LowerRepeatFlow(s: Stmt, c: Ctx)
    requires WF(c) && UserStmt(s) && LowerStmt(s, c).Ok? && s.Repeat?
    ensures var d := LowerStmt(s, c).value.c; WF(d) && Flow(c, d)
    decreases s, 0
  {
    var c1 := EnterLoop(c, s.body);
    EnterLoopWF(c, s.body);
    PushWF(c1);
    LowerSeqFlow(s.body, PushScope(c1), Target(c1));
    var b := LowerSeq(s.body, PushScope(c1), Target(c1)).value.c;
    PopFlow(c1, b);
    LeaveLoopFlow(c, s.body, PopScope(b));
  }

  lemma {:induction false} LowerForFlow(s: Stmt, c: Ctx)
    requires WF(c) && UserStmt(s) && LowerStmt(s, c).Ok? && s.ForNumeric?
    ensures var d := LowerStmt(s, c).value.c; WF(d) && Flow(c, d)
    decreases s, 0
  {
    var c1 := EnterLoop(c, s.body);
    EnterLoopWF(c, s.body);
    EnterForWF(c1, s.loopVar);
    LowerSeqFlow(s.body, EnterFor(c1, s.loopVar), Target(c1));
    var b := LowerSeq(s.body, EnterFor(c1, s.loopVar), Target(c1)).value.c;
    LeaveForFlow(c1, s.loopVar, b);
    var b1 := b.(readonly := b.readonly - {|c1.locals|});
    PopFlow(c1, b1);
    LeaveLoopFlow(c, s.body, PopScope(b1));
  }

  lemma {:induction false} LowerSeqFlow(ss: seq<Stmt>, c: Ctx, guard: Option<nat>)
    requires WF(c) && UserStmts(ss) && LowerSeq(ss, c, guard).Ok?
    ensures var d := LowerSeq(ss, c, guard).value.c; WF(d) && Flow(c, d)
    decreases ss, 0
  {
    FlowRefl(c);
    if ss != [] {
      var first := LowerStmt(ss[0], c).value;
      LowerStmtFlow(ss[0], c);
      LowerSeqFlow(ss[1..], first.c, guard);
      FlowTransitive(c, first.c, LowerSeq(ss, c, guard).value.c);
    }
  }

  lemma {:induction false} LowerBodyFlow(ss: seq<Stmt>, c: Ctx)
    requires WF(c) && UserStmts(ss) && LowerBody(ss, c).Ok?
    ensures var d := LowerBody(ss, c).value.c; WF(d) && Flow(c, d)
    decreases ss, 1
  {
    PushWF(c);
    LowerSeqFlow(ss, PushScope(c), Target(c));
    PopFlow(c, LowerSeq(ss, PushScope(c), Target(c)).value.c);
  }

  lemma {:induction false} LowerArmsFlow(s: Stmt, k: nat, c: Ctx)
    requires WF(c) && s.If? && k <= |s.arms| && UserStmt(s) && LowerArms(s, k, c).Ok?
    ensures var d := LowerArms(s, k, c).value.1; WF(d) && Flow(c, d)
    decreases s, 0, |s.arms| - k
  {
    FlowRefl(c);
    if k < |s.arms| {
      var b := LowerBody(s.arms[k].body, c).value.c;
      LowerBodyFlow(s.arms[k].body, c);
      LowerArmsFlow(s, k + 1, b);
      FlowTransitive(c, b, LowerArms(s, k, c).value.1);
    }
  }
}

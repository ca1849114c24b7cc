/**
 The record the lowering keeps of a function's results: the first `return` sets the kinds of the result
 slots, and a later one tags what it contradicts.
 */
module HirRecords {
  import opened Wrappers
  import opened HirSyntax
  import opened HirLower
  import opened HirContext
  import opened HirFunctions

  // ----- Recorded kinds -----

  /** The result slots have the kinds recorded for the returns met so far. */
  ghost predicate Recorded(c: Ctx) {
    c.fn.Some? && c.retKinds.Some? ==>
      forall i | 0 <= i < |c.fn.value.rets| && i < |c.retKinds.value| ::
        c.fn.value.rets[i] < |c.locals| && c.locals[c.fn.value.rets[i]].kind == c.retKinds.value[i]
  }

  /** A recorded kind stays, or becomes tagged. */
  ghost predicate Rises(c: Ctx, d: Ctx) {
    c.retKinds.Some? ==>
      && d.retKinds.Some? && |d.retKinds.value| == |c.retKinds.value|
      && forall i | 0 <= i < |c.retKinds.value| ::
           d.retKinds.value[i] == c.retKinds.value[i] || d.retKinds.value[i].TaggedKind?
  }

  /** `later` gives each result slot its recorded kind, or tags it. */
  ghost predicate Settled(c: Ctx, later: seq<LocalInfo>) {
    c.fn.Some? && c.retKinds.Some? ==>
      forall i | 0 <= i < |c.fn.value.rets| && i < |c.retKinds.value| :: Accepts(later, c.fn.value.rets[i], c.retKinds.value[i])
  }

  /** Slot `j` may hold values of kind `k`. */
  predicate Accepts(locals: seq<LocalInfo>, j: nat, k: Kind) {
    j < |locals| && (locals[j].kind == k || locals[j].kind.TaggedKind?)
  }

  lemma RisesTransitive(c: Ctx, d: Ctx, e: Ctx)
    requires Rises(c, d) && Rises(d, e)
    ensures Rises(c, e)
  {}

  lemma SettledEarlier(c: Ctx, d: Ctx, later: seq<LocalInfo>)
    requires Rises(c, d) && d.fn == c.fn && Settled(d, later)
    ensures Settled(c, later)
  {}

  lemma GrowsRecorded(c: Ctx, d: Ctx)
    requires WF(c) && Grows(c, d) && Recorded(c)
    ensures Recorded(d)
  {}

  lemma {:induction false} SetKindsAt(locals: seq<LocalInfo>, ids: seq<nat>, kinds: seq<Kind>, i: nat)
    requires Distinct(ids) && i < |ids| && i < |kinds| && ids[i] < |locals|
    ensures SetKinds(locals, ids, kinds)[ids[i]].kind == kinds[i]
    decreases |ids|
  {
    var next := SetKind(locals, ids[0], kinds[0]);
    if i == 0 {
      SetKindsOnly(next, ids[1..], kinds[1..]);
    } else {
      assert Distinct(ids[1..]);
      SetKindsAt(next, ids[1..], kinds[1..], i - 1);
    }
  }

  lemma {:induction false} WidenSlotsAt(locals: seq<LocalInfo>, ids: seq<nat>, prev: seq<Kind>, kinds: seq<Kind>, i: nat)
    requires |prev| == |kinds| && Distinct(ids) && i < |ids| && i < |prev| && ids[i] < |locals|
    ensures WidenSlots(locals, ids, prev, kinds)[ids[i]].kind
         == if prev[i] == kinds[i] || prev[i].TaggedKind? then locals[ids[i]].kind else TaggedKind
    decreases |ids|
  {
    var kept := prev[0] == kinds[0] || prev[0].TaggedKind?;
    var next := if kept then locals else SetKind(locals, ids[0], TaggedKind);
    if i == 0 {
      WidenSlotsOnly(next, ids[1..], prev[1..], kinds[1..]);
    } else {
      assert Distinct(ids[1..]);
      WidenSlotsAt(next, ids[1..], prev[1..], kinds[1..], i - 1);
    }
  }

  /** A `return` records kinds that its own values fit. */
  lemma ReturnRecords(hs: seq<HExpr>, c: Ctx)
    requires WF(c) && LowerReturn(hs, c).Ok?
    ensures var d := LowerReturn(hs, c).value.c;
            && Rises(c, d) && (Recorded(c) ==> Recorded(d))
            && d.retKinds.Some? && |d.retKinds.value| == |hs|
            && forall i | 0 <= i < |hs| ::
                 d.retKinds.value[i] == InferKind(hs[i], c.locals) || d.retKinds.value[i].TaggedKind?
  {
    var d, rets, kinds := LowerReturn(hs, c).value.c, c.fn.value.rets, Kinds(hs, c.locals);
    if Recorded(c) {
      forall i | 0 <= i < |rets| && i < |d.retKinds.value|
        ensures rets[i] < |d.locals| && d.locals[rets[i]].kind == d.retKinds.value[i]
      {
        assert rets[i] in Hidden(c);
        if c.retKinds.None? {
          SetKindsAt(c.locals, rets, kinds, i);
        } else {
          WidenSlotsAt(c.locals, rets, c.retKinds.value, kinds, i);
        }
      }
    }
  }

  // ----- Lowering keeps the record -----

  /** What lowering does to the record. */
  ghost predicate Records(c: Ctx, d: Ctx) { Rises(c, d) && (Recorded(c) ==> Recorded(d)) && d.fn == c.fn }

  lemma RecordsTransitive(c: Ctx, d: Ctx, e: Ctx)
    requires Records(c, d) && Records(d, e)
    ensures Records(c, e)
  {
    RisesTransitive(c, d, e);
  }

  lemma GrowsRecords(c: Ctx, d: Ctx)
    requires WF(c) && Grows(c, d)
    ensures Records(c, d)
  {
    if Recorded(c) {
      GrowsRecorded(c, d);
    }
  }

  lemma {:induction false} StmtRecords(s: Stmt, c: Ctx)
    requires WF(c) && UserStmt(s) && LowerStmt(s, c).Ok?
    ensures Records(c, LowerStmt(s, c).value.c)
    decreases s, 1
  {
    match s
    case LocalMulti(names, values) =>
      DeclareAllGrows(c, names, LowerExprs(values, c).value);
      GrowsRecords(c, DeclareAll(c, names, LowerExprs(values, c).value));
    case AssignMulti(names, values) =>
      var hs := LowerExprs(values, c).value;
      DeclareTempsGrows(c, hs);
      TargetsGrow(names, |c.locals|, DeclareTemps(c, hs));
      GrowsRecords(c, LowerTargets(names, |c.locals|, DeclareTemps(c, hs)).value.c);
    case Block(body) =>
      PushWF(c);
      SeqRecords(body, PushScope(c), None);
    case If(_, elseBody) =>
      ArmsRecord(s, 0, c);
      LowerArmsFlow(s, 0, c);
      var a := LowerArms(s, 0, c).value.1;
      BodyRecords(elseBody, a);
      RecordsTransitive(c, a, LowerBody(elseBody, a).value.c);
    case While(_, _) => WhileRecords(s, c);
    case Repeat(_, _) => RepeatRecords(s, c);
    case ForNumeric(_, _, _, _, _) => ForRecords(s, c);
    case Return(values) => ReturnRecords(LowerExprs(values, c).value, c);
    case _ => GrowsRecords(c, LowerStmt(s, c).value.c);
  }

  lemma EnterRecords(c: Ctx, body: seq<Stmt>)
    requires WF(c)
    ensures WF(EnterLoop(c, body)) && Records(c, EnterLoop(c, body))
  {
    EnterLoopWF(c, body);
    GrowsRecords(c, EnterLoop(c, body));
  }

  /** The record of a context is in its locals, its function slots and its recorded kinds. */
  lemma RecordsLike(c: Ctx, d: Ctx, e: Ctx)
    requires Records(c, d) && e.locals == d.locals && e.fn == d.fn && e.retKinds == d.retKinds
    ensures Records(c, e)
  {}

  lemma {:induction false} WhileRecords(s: Stmt, c: Ctx)
    requires WF(c) && UserStmt(s) && LowerStmt(s, c).Ok? && s.While?
    ensures Records(c, LowerStmt(s, c).value.c)
    decreases s, 0
  {
    var c1 := EnterLoop(c, s.body);
    EnterRecords(c, s.body);
    assert LowerBody(s.body, c1).Ok?;
    BodyRecords(s.body, c1);
    RecordsTransitive(c, c1, LowerBody(s.body, c1).value.c);
    RecordsLike(c, LowerBody(s.body, c1).value.c, LowerStmt(s, c).value.c);
  }

  lemma {:induction false} RepeatRecords(s: Stmt, c: Ctx)
    requires WF(c) && UserStmt(s) && LowerStmt(s, c).Ok? && s.Repeat?
    ensures Records(c, LowerStmt(s, c).value.c)
    decreases s, 0
  {
    var c1 := EnterLoop(c, s.body);
    EnterRecords(c, s.body);
    PushWF(c1);
    var p := PushScope(c1);
    SeqRecords(s.body, p, Target(c1));
    RecordsLike(c, c1, p);
    RecordsTransitive(c, p, LowerSeq(s.body, p, Target(c1)).value.c);
    RecordsLike(c, LowerSeq(s.body, p, Target(c1)).value.c, LowerStmt(s, c).value.c);
  }

  lemma {:induction false} ForRecords(s: Stmt, c: Ctx)
    requires WF(c) && UserStmt(s) && LowerStmt(s, c).Ok? && s.ForNumeric?
    ensures Records(c, LowerStmt(s, c).value.c)
    decreases s, 0
  {
    var c1 := EnterLoop(c, s.body);
    EnterRecords(c, s.body);
    EnterForWF(c1, s.loopVar);
    var p := EnterFor(c1, s.loopVar);
    GrowsRecords(c1, p);
    RecordsTransitive(c, c1, p);
    SeqRecords(s.body, p, Target(c1));
    RecordsTransitive(c, p, LowerSeq(s.body, p, Target(c1)).value.c);
    RecordsLike(c, LowerSeq(s.body, p, Target(c1)).value.c, LowerStmt(s, c).value.c);
  }

  lemma {:induction false} SeqRecords(ss: seq<Stmt>, c: Ctx, guard: Option<nat>)
    requires WF(c) && UserStmts(ss) && LowerSeq(ss, c, guard).Ok?
    ensures Records(c, LowerSeq(ss, c, guard).value.c)
    decreases ss, 0
  {
    if ss != [] {
      var d := LowerStmt(ss[0], c).value.c;
      StmtRecords(ss[0], c);
      LowerStmtFlow(ss[0], c);
      SeqRecords(ss[1..], d, guard);
      RecordsTransitive(c, d, LowerSeq(ss, c, guard).value.c);
    }
  }

  lemma {:induction false} BodyRecords(ss: seq<Stmt>, c: Ctx)
    requires WF(c) && UserStmts(ss) && LowerBody(ss, c).Ok?
    ensures Records(c, LowerBody(ss, c).value.c)
    decreases ss, 1
  {
    PushWF(c);
    SeqRecords(ss, PushScope(c), Target(c));
  }

  lemma {:induction false} ArmsRecord(s: Stmt, k: nat, c: Ctx)
    requires WF(c) && s.If? && k <= |s.arms| && UserStmt(s) && LowerArms(s, k, c).Ok?
    ensures Records(c, LowerArms(s, k, c).value.1)
    decreases s, 0, |s.arms| - k
  {
    if k < |s.arms| {
      var b := LowerBody(s.arms[k].body, c).value.c;
      BodyRecords(s.arms[k].body, c);
      LowerBodyFlow(s.arms[k].body, c);
      ArmsRecord(s, k + 1, b);
      RecordsTransitive(c, b, LowerArms(s, k, c).value.1);
    }
  }
}

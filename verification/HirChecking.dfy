/**
 The lowering accepts exactly the well-typed programs, and rejects the others with their first fault.
 */
module HirChecking {
  import opened Wrappers
  import opened Int64
  import opened Numerals
  import opened HirSyntax
  import opened HirSemantics
  import opened HirLower
  import opened HirContext
  import opened HirKinds
  import opened HirRelation
  import opened HirRecords
  import opened HirFunctions
  import opened HirReturns
  import opened HirTyping
  import opened Operators

  // ----- What a context knows -----

  ghost predicate InScope(t: Typing, f: int, n: string) {
    0 <= f < |t.scopes| && UserName(n) && n in t.scopes[f]
  }

  function VarAt(c: Ctx, id: nat): Var {
    Var(if id < |c.locals| then c.locals[id].kind else NilKind, id !in c.readonly)
  }

  /** The kind the returns have in common at place `k`, or the tagged kind where they differ. */
  ghost function CommonKind(returned: seq<seq<Kind>>, k: nat): Kind
    requires returned != [] && forall r | r in returned :: k < |r|
  {
    if forall r | r in returned :: r[k] == returned[0][k] then returned[0][k] else TaggedKind
  }

  /** The kinds recorded are those the returns have in common. */
  ghost predicate RecordOf(record: Option<seq<Kind>>, returned: seq<seq<Kind>>) {
    match record
    case None => returned == []
    case Some(kinds) =>
      && returned != [] && (forall r | r in returned :: |r| == |kinds|)
      && forall k | 0 <= k < |kinds| :: kinds[k] == CommonKind(returned, k)
  }

  /** The context and the typing agree on every name, on the function around, and on its returns so far. */
  ghost predicate Sees(c: Ctx, t: Typing) {
    && |c.scopes| == |t.scopes|
    && (forall f, n {:trigger Names(c, f, n)} {:trigger InScope(t, f, n)} :: Names(c, f, n) <==> InScope(t, f, n))
    && (forall f, n | Names(c, f, n) :: t.scopes[f][n] == VarAt(c, c.scopes[f][n]))
    && t.slots == (if c.fn.Some? then Some(|c.fn.value.rets|) else None)
    && RecordOf(c.retKinds, t.returned) && SettledBeyond(t)
  }

  /** Where there is no slot to tag, the kind of the first return stands. */
  ghost predicate SettledBeyond(t: Typing) {
    t.slots.Some? ==> forall r, k | r in t.returned && t.slots.value <= k < |r| ::
      |r| == |t.returned[0]| && t.returned[0][k] in {r[k], TaggedKind}
  }

  // ----- Names -----

  lemma {:induction false} SeesResolveUpTo(c: Ctx, t: Typing, name: string, k: nat)
    requires WF(c) && Sees(c, t) && UserName(name) && k <= |c.scopes|
    ensures match Resolve<nat>(c.scopes[..k], name)
            case None => Resolve<Var>(t.scopes[..k], name).None?
            case Some(id) => id < |c.locals| && Resolve<Var>(t.scopes[..k], name) == Some(VarAt(c, id))
    decreases k
  {
    if k > 0 {
      SeesResolveUpTo(c, t, name, k - 1);
      assert c.scopes[..k][..k - 1] == c.scopes[..k - 1] && t.scopes[..k][..k - 1] == t.scopes[..k - 1];
      assert Names(c, k - 1, name) <==> InScope(t, k - 1, name);
    }
  }

  lemma SeesResolve(c: Ctx, t: Typing, name: string)
    requires WF(c) && Sees(c, t) && UserName(name)
    ensures match Resolve<nat>(c.scopes, name)
            case None => Resolve<Var>(t.scopes, name).None?
            case Some(id) => id < |c.locals| && Resolve<Var>(t.scopes, name) == Some(VarAt(c, id))
  {
    SeesResolveUpTo(c, t, name, |c.scopes|);
    assert c.scopes[..|c.scopes|] == c.scopes && t.scopes[..|c.scopes|] == t.scopes;
  }

  /** Contexts with the same user names, slots and record see the same. */
  lemma SeesSame(c: Ctx, t: Typing, d: Ctx)
    requires Sees(c, t) && |d.scopes| == |c.scopes| && d.fn == c.fn && d.retKinds == c.retKinds
    requires forall f, n :: Names(d, f, n) <==> Names(c, f, n)
    requires forall f, n | Names(c, f, n) ::
               Names(d, f, n) && d.scopes[f][n] == c.scopes[f][n] && VarAt(d, c.scopes[f][n]) == VarAt(c, c.scopes[f][n])
    ensures Sees(d, t)
  {}

  /** So do they when both gain one name. */
  lemma SeesMore(c: Ctx, t: Typing, d: Ctx, u: Typing, f0: int, n0: string)
    requires WF(c) && Sees(c, t) && |d.scopes| == |c.scopes| == |u.scopes| && d.fn == c.fn && d.retKinds == c.retKinds
    requires u.slots == t.slots && u.returned == t.returned
    requires 0 <= f0 < |c.scopes| && UserName(n0)
    requires forall f | 0 <= f < |c.scopes| && f != f0 :: d.scopes[f] == c.scopes[f] && u.scopes[f] == t.scopes[f]
    requires d.scopes[f0] == c.scopes[f0][n0 := |c.locals|]
    requires u.scopes[f0] == t.scopes[f0][n0 := VarAt(d, |c.locals|)]
    requires forall j: nat | j < |c.locals| :: VarAt(d, j) == VarAt(c, j)
    ensures Sees(d, u)
  {
    forall f, n
      ensures Names(d, f, n) <==> InScope(u, f, n)
      ensures Names(d, f, n) ==> u.scopes[f][n] == VarAt(d, d.scopes[f][n])
    {
      if f == f0 && n == n0 {
      } else {
        assert Names(d, f, n) <==> Names(c, f, n);
        assert InScope(u, f, n) <==> InScope(t, f, n);
      }
    }
  }

  lemma SeesDeclare(c: Ctx, t: Typing, name: string, kind: Kind)
    requires WF(c) && Sees(c, t) && UserName(name)
    ensures Sees(Declare(c, name, kind), Declared(t, name, kind))
  {
    SeesMore(c, t, Declare(c, name, kind), Declared(t, name, kind), |c.scopes| - 1, name);
  }

  lemma SeesHidden(c: Ctx, t: Typing, name: string, kind: Kind)
    requires WF(c) && Sees(c, t) && !UserName(name)
    ensures Sees(Declare(c, name, kind), t)
  {
    HiddenNames(c, name, kind);
    SeesSame(c, t, Declare(c, name, kind));
  }

  lemma SeesPush(c: Ctx, t: Typing)
    requires WF(c) && Sees(c, t)
    ensures Sees(PushScope(c), Inside(t))
  {
    PushWF(c);
    var d, u := PushScope(c), Inside(t);
    forall f, n
      ensures Names(d, f, n) <==> InScope(u, f, n)
      ensures Names(d, f, n) ==> u.scopes[f][n] == VarAt(d, d.scopes[f][n])
    {
      assert InScope(u, f, n) <==> InScope(t, f, n);
    }
  }

  lemma SeesPop(c: Ctx, t: Typing)
    requires c.scopes != [] && Sees(c, t)
    ensures Sees(PopScope(c), Outside(t))
  {
    var d, u := PopScope(c), Outside(t);
    forall f, n
      ensures Names(d, f, n) <==> InScope(u, f, n)
      ensures Names(d, f, n) ==> u.scopes[f][n] == VarAt(d, d.scopes[f][n])
    {
      assert Names(d, f, n) <==> Names(c, f, n) && f < |d.scopes|;
      assert InScope(u, f, n) <==> InScope(t, f, n) && f < |d.scopes|;
    }
  }

  /** The typing of a loop differs in `breakable` alone, which a context does not show. */
  lemma SeesBreakable(c: Ctx, t: Typing, b: bool)
    requires Sees(c, t)
    ensures Sees(c, t.(breakable := b))
  {
    var u := t.(breakable := b);
    forall f, n ensures InScope(u, f, n) <==> InScope(t, f, n) {}
  }

  lemma SeesEnterLoop(c: Ctx, t: Typing, body: seq<Stmt>)
    requires WF(c) && Sees(c, t)
    ensures Sees(EnterLoop(c, body), InLoop(t))
  {
    EnterLoopWF(c, body);
    var d := EnterLoop(c, body);
    forall f, n | Names(c, f, n) ensures VarAt(d, c.scopes[f][n]) == VarAt(c, c.scopes[f][n]) {
      assert d.locals[..|c.locals|][c.scopes[f][n]] == c.locals[c.scopes[f][n]];
    }
    SeesSame(c, t, d);
    SeesBreakable(d, t, true);
  }

  lemma SeesLeaveLoop(c: Ctx, t: Typing, b: bool)
    requires WF(c) && Sees(c, t)
    ensures Sees(LeaveLoop(c), t.(breakable := b))
  {
    LeaveLoopWF(c);
    SeesSame(c, t, LeaveLoop(c));
    SeesBreakable(LeaveLoop(c), t, b);
  }

  lemma SeesEnterFor(c: Ctx, t: Typing, v: string)
    requires WF(c) && Sees(c, InLoop(t)) && UserName(v)
    ensures Sees(EnterFor(c, v), InFor(t, v))
  {
    PushWF(c);
    SeesPush(c, InLoop(t));
    SeesMore(PushScope(c), Inside(InLoop(t)), EnterFor(c, v), InFor(t, v), |c.scopes|, v);
  }

  /** The variable of a numeric loop is out of scope when the loop is over, and its slot may be written again. */
  lemma SeesLeaveFor(c: Ctx, v: string, d: Ctx, t: Typing)
    requires WF(c) && UserName(v) && WF(d) && Flow(EnterFor(c, v), d) && Sees(d, t)
    ensures Sees(PopScope(d.(readonly := d.readonly - {|c.locals|})), Outside(t))
  {
    SeesPop(d, t);
    var e := PopScope(d);
    var e1 := PopScope(d.(readonly := d.readonly - {|c.locals|}));
    forall f, n
      ensures Names(e1, f, n) <==> Names(e, f, n)
      ensures Names(e, f, n) ==> VarAt(e1, e.scopes[f][n]) == VarAt(e, e.scopes[f][n])
    {
      if Names(e, f, n) {
        OuterSlot(c, v, d, f, n);
      }
    }
    SeesSame(e, Outside(t), e1);
  }

  lemma OuterSlot(c: Ctx, v: string, d: Ctx, f: int, n: string)
    requires WF(c) && UserName(v) && WF(d) && Flow(EnterFor(c, v), d) && Names(PopScope(d), f, n)
    ensures d.scopes[f][n] != |c.locals|
  {
    var b := EnterFor(c, v);
    assert Names(d, f, n);
    if Names(b, f, n) {
      assert Names(c, f, n) && b.scopes[f][n] == c.scopes[f][n];
    }
  }

  // ----- Expressions -----

  function LiteralOf(h: HExpr): Option<I64> { if h.HInteger? then Some(h.i) else None }

  /** An expression lowers exactly if it is typed; its code then has its kind, and is the literal it stands for. */
  ghost predicate ExprChecked(e: Expr, c: Ctx, t: Typing) {
    match LowerExpr(e, c)
    case Ok(h) => ExprTyped(e, t) && InferKind(h, c.locals) == ExprKind(e, t) && LiteralOf(h) == Literal(e)
    case Err(error) => !ExprTyped(e, t) && ExprFault(e, t, error)
  }

  predicate Occurs(e: Expr, name: string) {
    match e
    case Ident(n) => n == name
    case BinOp(_, lhs, rhs) => Occurs(lhs, name) || Occurs(rhs, name)
    case UnaryOp(_, operand) => Occurs(operand, name)
    case _ => false
  }

  predicate ResolvesAlike(c: Ctx, t: Typing, name: string) {
    match Resolve<nat>(c.scopes, name)
    case None => Resolve<Var>(t.scopes, name).None?
    case Some(id) => Resolve<Var>(t.scopes, name) == Some(VarAt(c, id))
  }

  lemma {:induction false} ExprChecksWhere(e: Expr, c: Ctx, t: Typing)
    requires forall name | Occurs(e, name) :: ResolvesAlike(c, t, name)
    ensures ExprChecked(e, c, t)
  {
    match e
    case Ident(name) => assert ResolvesAlike(c, t, name);
    case BinOp(op, lhs, rhs) =>
      assert forall name | Occurs(lhs, name) || Occurs(rhs, name) :: Occurs(e, name);
      ExprChecksWhere(lhs, c, t);
      ExprChecksWhere(rhs, c, t);
      if LowerExpr(lhs, c).Ok? && LowerExpr(rhs, c).Ok? {
        BinOpChecks(e, c, t);
      }
    case UnaryOp(_, operand) =>
      assert forall name | Occurs(operand, name) :: Occurs(e, name);
      ExprChecksWhere(operand, c, t);
    case _ =>
  }

  lemma {:induction false} UserOccurs(e: Expr, name: string)
    requires UserExpr(e) && Occurs(e, name)
    ensures UserName(name)
  {
    match e
    case BinOp(_, lhs, rhs) =>
      if Occurs(lhs, name) {
        UserOccurs(lhs, name);
      } else {
        UserOccurs(rhs, name);
      }
    case UnaryOp(_, operand) => UserOccurs(operand, name);
    case _ =>
  }

  lemma ExprChecks(e: Expr, c: Ctx, t: Typing)
    requires WF(c) && Sees(c, t) && UserExpr(e)
    ensures ExprChecked(e, c, t)
  {
    forall name | Occurs(e, name) ensures ResolvesAlike(c, t, name) {
      UserOccurs(e, name);
      SeesResolve(c, t, name);
    }
    ExprChecksWhere(e, c, t);
  }

  /** All names of a context, the synthetic ones among them. */
  function View(c: Ctx): Typing {
    TOP_LEVEL.(scopes := ViewOf(c, c.scopes))
  }

  function ViewOf(c: Ctx, scopes: seq<map<string, nat>>): seq<map<string, Var>> {
    seq(|scopes|, f requires 0 <= f < |scopes| => map n | n in scopes[f] :: VarAt(c, scopes[f][n]))
  }

  lemma {:induction false} ViewResolves(c: Ctx, scopes: seq<map<string, nat>>, name: string)
    ensures match Resolve<nat>(scopes, name)
            case None => Resolve<Var>(ViewOf(c, scopes), name).None?
            case Some(id) => Resolve<Var>(ViewOf(c, scopes), name) == Some(VarAt(c, id))
    decreases |scopes|
  {
    if scopes != [] {
      var outer := scopes[..|scopes| - 1];
      ViewResolves(c, outer, name);
      assert ViewOf(c, scopes)[..|outer|] == ViewOf(c, outer);
    }
  }

  /** In every context, and under any names, exactly the expressions typed there lower. */
  lemma AnyExprChecks(e: Expr, c: Ctx)
    ensures ExprChecked(e, c, View(c))
  {
    forall name | Occurs(e, name) ensures ResolvesAlike(c, View(c), name) {
      ViewResolves(c, c.scopes, name);
    }
    ExprChecksWhere(e, c, View(c));
  }

  lemma BinOpChecks(e: Expr, c: Ctx, t: Typing)
    requires e.BinOp? && LowerExpr(e.lhs, c).Ok? && LowerExpr(e.rhs, c).Ok?
    requires ExprChecked(e.lhs, c, t) && ExprChecked(e.rhs, c, t)
    ensures ExprChecked(e, c, t)
  {
    var l, r := LowerExpr(e.lhs, c).value, LowerExpr(e.rhs, c).value;
    if l.HInteger? && r.HInteger? {
      FoldsExactly(e.op, l.i, r.i);
    }
  }

  /** An equality is folded exactly if the kinds of its operands decide it. */
  lemma EqualityFolds(e: Expr, c: Ctx, t: Typing)
    requires WF(c) && Sees(c, t) && UserExpr(e) && e.BinOp? && (e.op.Eq? || e.op.Ne?) && ExprTyped(e, t)
    ensures var l, r := ExprKind(e.lhs, t), ExprKind(e.rhs, t);
            var decided := l != TaggedKind && r != TaggedKind && (l != r || l == NilKind);
            LowerExpr(e, c).Ok? &&
            if decided then LowerExpr(e, c).value == HBool(if l == r then e.op.Eq? else e.op.Ne?)
            else LowerExpr(e, c).value == HBinOp(e.op, LowerExpr(e.lhs, c).value, LowerExpr(e.rhs, c).value)
  {
    ExprChecks(e, c, t);
    ExprChecks(e.lhs, c, t);
    ExprChecks(e.rhs, c, t);
  }

  lemma {:induction false} ExprsCheck(es: seq<Expr>, c: Ctx, t: Typing)
    requires WF(c) && Sees(c, t) && UserExprs(es)
    ensures var r := LowerExprs(es, c);
            && (r.Ok? ==> ExprsTyped(es, t) && Kinds(r.value, c.locals) == ExprKinds(es, t))
            && (r.Err? ==> !ExprsTyped(es, t) && ExprsFault(es, t, r.error))
    decreases |es|
  {
    if es != [] {
      ExprChecks(es[0], c, t);
      if LowerExpr(es[0], c).Err? {
        assert ExprsTyped(es[..0], t);
      } else {
        ExprsCheck(es[1..], c, t);
        if LowerExprs(es[1..], c).Err? {
          ExprsFaultLater(es, t, LowerExprs(es[1..], c).error);
        } else {
          assert forall k | 0 <= k < |es| - 1 :: es[1..][k] == es[k + 1];
          ExprsTypedBoth(es, t);
          assert ExprKinds(es, t) == [ExprKind(es[0], t)] + ExprKinds(es[1..], t);
        }
      }
    }
  }

  lemma ExprsTypedBoth(es: seq<Expr>, t: Typing)
    requires es != []
    ensures ExprsTyped(es, t) <==> ExprTyped(es[0], t) && ExprsTyped(es[1..], t)
  {
    if ExprTyped(es[0], t) && ExprsTyped(es[1..], t) {
      forall k | 0 <= k < |es| ensures ExprTyped(es[k], t) {
        assert k > 0 ==> es[k] == es[1..][k - 1];
      }
    }
  }

  lemma ExprsFaultLater(es: seq<Expr>, t: Typing, error: LowerError)
    requires es != [] && ExprTyped(es[0], t) && ExprsFault(es[1..], t, error)
    ensures ExprsFault(es, t, error)
  {
    var k :| 0 <= k < |es[1..]| && ExprsTyped(es[1..][..k], t) && ExprFault(es[1..][k], t, error);
    assert es[..k + 1][1..] == es[1..][..k];
    ExprsTypedBoth(es[..k + 1], t);
    assert ExprFault(es[k + 1], t, error);
  }

  // ----- Declarations and assignments -----

  lemma {:induction false} DeclareAllSees(c: Ctx, t: Typing, names: seq<string>, hs: seq<HExpr>, kinds: seq<Kind>)
    requires WF(c) && Sees(c, t) && UserNames(names) && |names| == |hs| == |kinds|
    requires KindedExprs(hs, c.locals, RetSet(c)) && forall k | 0 <= k < |hs| :: InferKind(hs[k], c.locals) == kinds[k]
    ensures Sees(DeclareAll(c, names, hs), AllDeclared(t, names, kinds))
    decreases |names|
  {
    if names != [] {
      var d := Declare(c, names[0], kinds[0]);
      DeclareFlow(c, names[0], kinds[0]);
      SeesDeclare(c, t, names[0], kinds[0]);
      forall k | 0 <= k < |hs|
        ensures KindedExpr(hs[k], d.locals, RetSet(c)) && InferKind(hs[k], d.locals) == kinds[k]
      {
        InferWithin(hs[k], c.locals, d.locals, RetSet(c));
      }
      DeclareAllSees(d, Declared(t, names[0], kinds[0]), names[1..], hs[1..], kinds[1..]);
    }
  }

  lemma {:induction false} DeclareTempsSees(c: Ctx, t: Typing, hs: seq<HExpr>)
    requires WF(c) && Sees(c, t)
    ensures Sees(DeclareTemps(c, hs), t)
    decreases |hs|
  {
    if hs != [] {
      var name, kind := TMP_PREFIX + Decimal(|c.locals|), InferKind(hs[0], c.locals);
      DeclareFlow(c, name, kind);
      SeesHidden(c, t, name, kind);
      DeclareTempsSees(Declare(c, name, kind), t, hs[1..]);
    }
  }

  lemma TargetChecks(name: string, value: HExpr, c: Ctx, t: Typing)
    requires WF(c) && Sees(c, t) && UserName(name)
    ensures var kind := InferKind(value, c.locals);
            var r := LowerAssignTarget(name, value, c);
            && (r.Ok? ==> Assignable(name, kind, t) && Sees(r.value.c, Assigned(t, name, kind)))
            && (r.Err? ==> !Assignable(name, kind, t) && AssignFault(name, kind, t, r.error))
  {
    SeesResolve(c, t, name);
    if Resolve<nat>(c.scopes, name).None? && c.fn.None? {
      var kind := InferKind(value, c.locals);
      SeesMore(c, t, LowerAssignTarget(name, value, c).value.c, Assigned(t, name, kind), 0, name);
    }
  }

  /** The slots from `first` on hold values of these kinds. */
  ghost predicate Temps(c: Ctx, first: nat, kinds: seq<Kind>) {
    forall k | 0 <= k < |kinds| :: Temp(c, first + k, kinds[k])
  }

  ghost predicate Temp(c: Ctx, id: nat, kind: Kind) {
    id < |c.locals| && id !in RetSet(c) && c.locals[id].kind == kind
  }

  lemma TempsLater(c: Ctx, d: Ctx, first: nat, kinds: seq<Kind>)
    requires Flow(c, d) && kinds != [] && Temps(c, first, kinds)
    ensures Temp(c, first, kinds[0]) && Temps(d, first + 1, kinds[1..])
  {
    assert Temp(c, first + 0, kinds[0]);
    forall k | 0 <= k < |kinds| - 1 ensures Temp(d, first + 1 + k, kinds[1..][k]) {
      assert Temp(c, first + (k + 1), kinds[k + 1]);
    }
  }

  lemma {:induction false} TargetsCheck(names: seq<string>, first: nat, c: Ctx, t: Typing, kinds: seq<Kind>)
    requires WF(c) && Sees(c, t) && UserNames(names) && |names| == |kinds| && Temps(c, first, kinds)
    ensures var r := LowerTargets(names, first, c);
            && (r.Ok? ==> AllAssignable(names, kinds, t) && Sees(r.value.c, AllAssigned(t, names, kinds)))
            && (r.Err? ==> !AllAssignable(names, kinds, t) && AssignsFault(names, kinds, t, r.error))
    decreases |names|
  {
    hide LowerAssignTarget, Assignable, AssignFault, Assigned, Temps, Temp, Flow, Sees;
    if names != [] {
      var a := LowerAssignTarget(names[0], HLocal(first), c);
      FlowRefl(c);
      TempsLater(c, c, first, kinds);
      TargetChecks(names[0], HLocal(first), c, t);
      if a.Ok? {
        TargetFlow(names[0], HLocal(first), c);
        TempsLater(c, a.value.c, first, kinds);
        TargetsCheck(names[1..], first + 1, a.value.c, Assigned(t, names[0], kinds[0]), kinds[1..]);
      }
    }
  }

  // ----- Returns -----

  lemma CommonKindNext(returned: seq<seq<Kind>>, kinds: seq<Kind>, k: nat)
    requires returned != [] && k < |kinds| && forall r | r in returned :: |r| == |kinds|
    ensures var prev := CommonKind(returned, k);
            CommonKind(returned + [kinds], k) == if prev == kinds[k] then prev else TaggedKind
  {
    var all := returned + [kinds];
    assert all[0] == returned[0] && kinds in all && forall r | r in returned :: r in all;
    if forall r | r in returned :: r[k] == returned[0][k] {
      assert kinds[k] == returned[0][k] ==> forall r | r in all :: r[k] == all[0][k];
    }
  }

  /** Where there is no slot to tag, the kind recorded is that of the first return. */
  lemma KindBeyond(t: Typing, k: nat)
    requires SettledBeyond(t) && t.slots.Some? && t.returned != [] && t.slots.value <= k < |t.returned[0]|
    requires forall r | r in t.returned :: |r| == |t.returned[0]|
    ensures CommonKind(t.returned, k) == t.returned[0][k]
  {}

  lemma WidensUntyped(c: Ctx, t: Typing, kinds: seq<Kind>)
    requires Sees(c, t) && c.fn.Some? && c.retKinds.Some? && |c.retKinds.value| == |kinds|
    ensures WidensBeyond(|c.fn.value.rets|, c.retKinds.value, kinds) <==> !Returnable(kinds, t)
  {
    var prev := c.retKinds.value;
    assert t.returned[0] in t.returned;
    forall k | t.slots.value <= k < |kinds| ensures prev[k] == t.returned[0][k] {
      KindBeyond(t, k);
    }
  }

  lemma RecordNext(c: Ctx, t: Typing, kinds: seq<Kind>)
    requires Sees(c, t) && Returnable(kinds, t)
    ensures c.retKinds.Some? ==> |c.retKinds.value| == |kinds|
    ensures RecordOf(Some(if c.retKinds.None? then kinds else MergeKinds(c.retKinds.value, kinds)), t.returned + [kinds])
    ensures SettledBeyond(t.(returned := t.returned + [kinds]))
  {
    var all := t.returned + [kinds];
    if c.retKinds.Some? {
      assert t.returned[0] in t.returned && |c.retKinds.value| == |kinds|;
      forall k | 0 <= k < |kinds|
        ensures MergeKinds(c.retKinds.value, kinds)[k] == CommonKind(all, k)
      {
        CommonKindNext(t.returned, kinds, k);
      }
    }
  }

  lemma ReturnSees(hs: seq<HExpr>, c: Ctx, t: Typing, d: Ctx)
    requires WF(c) && Sees(c, t) && LowerReturn(hs, c).Ok? && d == LowerReturn(hs, c).value.c
    requires Returnable(Kinds(hs, c.locals), t)
    ensures Sees(d, t.(returned := t.returned + [Kinds(hs, c.locals)]))
  {
    var u := t.(returned := t.returned + [Kinds(hs, c.locals)]);
    ReturnFlow(hs, c);
    RecordNext(c, t, Kinds(hs, c.locals));
    forall f, n
      ensures Names(d, f, n) <==> InScope(u, f, n)
      ensures Names(d, f, n) ==> u.scopes[f][n] == VarAt(d, d.scopes[f][n])
    {
      assert Names(d, f, n) <==> Names(c, f, n);
      assert InScope(u, f, n) <==> InScope(t, f, n);
    }
  }

  lemma ReturnChecks(hs: seq<HExpr>, c: Ctx, t: Typing)
    requires WF(c) && Sees(c, t)
    ensures var kinds := Kinds(hs, c.locals);
            var r := LowerReturn(hs, c);
            && (r.Ok? ==> Returnable(kinds, t) && Sees(r.value.c, t.(returned := t.returned + [kinds])))
            && (r.Err? ==> !Returnable(kinds, t) && ReturnFault(kinds, t, r.error))
  {
    var kinds := Kinds(hs, c.locals);
    if c.fn.Some? && c.retKinds.Some? {
      assert t.returned[0] in t.returned;
      if |c.retKinds.value| == |hs| {
        WidensUntyped(c, t, kinds);
      }
    }
    if LowerReturn(hs, c).Ok? {
      ReturnSees(hs, c, t, LowerReturn(hs, c).value.c);
    }
  }

  // ----- Statements -----

  /** What `c` and `t` must agree on about `break`. */
  predicate BreaksAlike(c: Ctx, t: Typing, breaks: bool) { breaks ==> (Target(c).Some? <==> t.breakable) }

  ghost predicate Checked(r: Lowering<Lowered>, s: Stmt, t: Typing)
    requires t.scopes != []
  {
    && (r.Ok? ==> Typed(s, t) && Sees(r.value.c, After(s, t)))
    && (r.Err? ==> !Typed(s, t) && Fault(s, t, r.error))
  }

  ghost predicate SeqChecked(r: Lowering<LoweredSeq>, ss: seq<Stmt>, t: Typing)
    requires t.scopes != []
  {
    && (r.Ok? ==> SeqTyped(ss, t) && Sees(r.value.c, AfterSeq(ss, t)))
    && (r.Err? ==> !SeqTyped(ss, t) && SeqFault(ss, t, r.error))
  }

  ghost predicate BodyChecked(r: Lowering<LoweredSeq>, ss: seq<Stmt>, t: Typing)
    requires t.scopes != []
  {
    && (r.Ok? ==> BodyTyped(ss, t) && Sees(r.value.c, AfterBody(ss, t)))
    && (r.Err? ==> !BodyTyped(ss, t) && BodyFault(ss, t, r.error))
  }

  ghost predicate ArmsChecked(r: Lowering<(seq<HArm>, Ctx)>, s: Stmt, k: nat, t: Typing)
    requires t.scopes != [] && s.If? && k <= |s.arms|
  {
    && (r.Ok? ==> ArmsTyped(s, k, t) && Sees(r.value.1, AfterArms(s, k, t)))
    && (r.Err? ==> !ArmsTyped(s, k, t) && ArmsFault(s, k, t, r.error))
  }

  lemma {:induction false} StmtChecks(s: Stmt, c: Ctx, t: Typing)
    requires WF(c) && Sees(c, t) && UserStmt(s) && BreaksAlike(c, t, ContainsBreak(s))
    ensures Checked(LowerStmt(s, c), s, t)
    decreases s, 1
  {
    match s
    case Local(_, _) => LocalChecks(s, c, t);
    case LocalMulti(_, _) => LocalMultiChecks(s, c, t);
    case Assign(name, value) =>
      ExprChecks(value, c, t);
      if LowerExpr(value, c).Ok? {
        TargetChecks(name, LowerExpr(value, c).value, c, t);
      }
    case AssignMulti(_, _) => AssignMultiChecks(s, c, t);
    case Block(body) => BlockChecks(s, c, t);
    case If(_, _) => IfChecks(s, c, t);
    case While(_, _) => WhileChecks(s, c, t);
    case Repeat(_, _) => RepeatChecks(s, c, t);
    case ForNumeric(_, _, _, _, _) => ForChecks(s, c, t);
    case Break =>
    case Return(values) =>
      ExprsCheck(values, c, t);
      if LowerExprs(values, c).Ok? {
        ReturnChecks(LowerExprs(values, c).value, c, t);
      }
    case Print(args) => ExprsCheck(args, c, t);
  }

  lemma LocalChecks(s: Stmt, c: Ctx, t: Typing)
    requires WF(c) && Sees(c, t) && UserStmt(s) && s.Local?
    ensures Checked(LowerStmt(s, c), s, t)
  {
    ExprChecks(s.value, c, t);
    if LowerExpr(s.value, c).Ok? {
      SeesDeclare(c, t, s.name, ExprKind(s.value, t));
    }
  }

  lemma UnevenChecks(values: seq<Expr>, c: Ctx, t: Typing)
    requires WF(c) && Sees(c, t) && UserExprs(values)
    ensures |values| == 1 && LowerExpr(values[0], c).Err? ==> UnevenFault(values, t, LowerExpr(values[0], c).error)
    ensures !(|values| == 1 && LowerExpr(values[0], c).Err?) ==> UnevenFault(values, t, ArityMismatch)
  {
    if |values| == 1 {
      ExprChecks(values[0], c, t);
    }
  }

  lemma LocalMultiChecks(s: Stmt, c: Ctx, t: Typing)
    requires WF(c) && Sees(c, t) && UserStmt(s) && s.LocalMulti?
    ensures Checked(LowerStmt(s, c), s, t)
  {
    UnevenChecks(s.values, c, t);
    if |s.names| == |s.values| {
      ExprsCheck(s.values, c, t);
      if LowerExprs(s.values, c).Ok? {
        var hs := LowerExprs(s.values, c).value;
        LowerExprsKinded(s.values, c);
        assert forall k | 0 <= k < |hs| :: InferKind(hs[k], c.locals) == Kinds(hs, c.locals)[k];
        DeclareAllSees(c, t, s.names, hs, ExprKinds(s.values, t));
      }
    }
  }

  lemma TempsDeclared(c: Ctx, d: Ctx, hs: seq<HExpr>, kinds: seq<Kind>)
    requires WF(c) && Flow(c, d) && |d.locals| == |c.locals| + |hs| && kinds == Kinds(hs, c.locals)
    requires forall k | 0 <= k < |hs| :: d.locals[|c.locals| + k].kind == InferKind(hs[k], c.locals)
    ensures Temps(d, |c.locals|, kinds)
  {
    forall k | 0 <= k < |kinds| ensures Temp(d, |c.locals| + k, kinds[k]) {
      assert |c.locals| + k !in Hidden(c) && RetSet(d) == RetSet(c);
      assert kinds[k] == InferKind(hs[k], c.locals);
    }
  }

  lemma AssignMultiChecks(s: Stmt, c: Ctx, t: Typing)
    requires WF(c) && Sees(c, t) && UserStmt(s) && s.AssignMulti?
    ensures Checked(LowerStmt(s, c), s, t)
  {
    UnevenChecks(s.values, c, t);
    if |s.names| == |s.values| {
      ExprsCheck(s.values, c, t);
      if LowerExprs(s.values, c).Ok? {
        var hs, kinds := LowerExprs(s.values, c).value, ExprKinds(s.values, t);
        var d := DeclareTemps(c, hs);
        LowerExprsKinded(s.values, c);
        DeclareTempsFlow(c, hs);
        DeclareTempsKinds(c, hs);
        DeclareTempsSees(c, t, hs);
        TempsDeclared(c, d, hs, kinds);
        TargetsCheck(s.names, |c.locals|, d, t, kinds);
      }
    }
  }

  lemma {:induction false} BlockChecks(s: Stmt, c: Ctx, t: Typing)
    requires WF(c) && Sees(c, t) && UserStmt(s) && s.Block? && BreaksAlike(c, t, BodyContainsBreak(s.body))
    ensures Checked(LowerStmt(s, c), s, t)
    decreases s, 0
  {
    PushWF(c);
    SeesPush(c, t);
    SeqChecks(s.body, PushScope(c), Inside(t), None);
    var b := LowerSeq(s.body, PushScope(c), None);
    if b.Ok? {
      SeesPop(b.value.c, AfterSeq(s.body, Inside(t)));
    }
  }

  lemma {:induction false} IfChecks(s: Stmt, c: Ctx, t: Typing)
    requires WF(c) && Sees(c, t) && UserStmt(s) && s.If? && BreaksAlike(c, t, ContainsBreak(s))
    ensures Checked(LowerStmt(s, c), s, t)
    decreases s, 0, |s.arms| + 1
  {
    ArmsCheck(s, 0, c, t);
    if LowerArms(s, 0, c).Ok? {
      LowerArmsFlow(s, 0, c);
      BodyChecks(s.elseBody, LowerArms(s, 0, c).value.1, AfterArms(s, 0, t));
    }
  }

  lemma {:induction false} WhileChecks(s: Stmt, c: Ctx, t: Typing)
    requires WF(c) && Sees(c, t) && UserStmt(s) && s.While?
    ensures Checked(LowerStmt(s, c), s, t)
    decreases s, 0
  {
    var c1 := EnterLoop(c, s.body);
    EnterLoopWF(c, s.body);
    SeesEnterLoop(c, t, s.body);
    SeesBreakable(c1, InLoop(t), t.breakable);
    ExprChecks(s.cond, c1, t);
    BodyChecks(s.body, c1, InLoop(t));
    var b := LowerBody(s.body, c1);
    if b.Ok? {
      LowerBodyFlow(s.body, c1);
      SeesLeaveLoop(b.value.c, AfterBody(s.body, InLoop(t)), t.breakable);
    }
  }

  lemma {:induction false} RepeatChecks(s: Stmt, c: Ctx, t: Typing)
    requires WF(c) && Sees(c, t) && UserStmt(s) && s.Repeat?
    ensures Checked(LowerStmt(s, c), s, t)
    decreases s, 0
  {
    var c1, t1 := EnterLoop(c, s.body), Inside(InLoop(t));
    EnterLoopWF(c, s.body);
    SeesEnterLoop(c, t, s.body);
    PushWF(c1);
    SeesPush(c1, InLoop(t));
    SeqChecks(s.body, PushScope(c1), t1, Target(c1));
    var b := LowerSeq(s.body, PushScope(c1), Target(c1));
    if b.Ok? {
      LowerSeqFlow(s.body, PushScope(c1), Target(c1));
      ExprChecks(s.cond, b.value.c, AfterSeq(s.body, t1));
      PopFlow(c1, b.value.c);
      SeesPop(b.value.c, AfterSeq(s.body, t1));
      SeesLeaveLoop(PopScope(b.value.c), AfterBody(s.body, InLoop(t)), t.breakable);
    }
  }

  lemma {:induction false} ForChecks(s: Stmt, c: Ctx, t: Typing)
    requires WF(c) && Sees(c, t) && UserStmt(s) && s.ForNumeric?
    ensures Checked(LowerStmt(s, c), s, t)
    decreases s, 0
  {
    hide LowerSeq, SeqTyped, SeqFault, AfterSeq, LowerExprs, ExprsTyped, ExprsFault, Kinds, ExprKinds;
    ExprsCheck(Bounds(s), c, t);
    var c1 := EnterLoop(c, s.body);
    EnterLoopWF(c, s.body);
    SeesEnterLoop(c, t, s.body);
    EnterForWF(c1, s.loopVar);
    SeesEnterFor(c1, t, s.loopVar);
    SeqChecks(s.body, EnterFor(c1, s.loopVar), InFor(t, s.loopVar), Target(c1));
    var b := LowerSeq(s.body, EnterFor(c1, s.loopVar), Target(c1));
    if b.Ok? {
      ForLeaves(s, c, c1, t, b.value.c);
    }
  }

  lemma ForLeaves(s: Stmt, c: Ctx, c1: Ctx, t: Typing, d: Ctx)
    requires WF(c) && UserStmt(s) && s.ForNumeric? && c1 == EnterLoop(c, s.body) && WF(c1)
    requires LowerSeq(s.body, EnterFor(c1, s.loopVar), Target(c1)).Ok?
    requires d == LowerSeq(s.body, EnterFor(c1, s.loopVar), Target(c1)).value.c
    requires Sees(d, AfterSeq(s.body, InFor(t, s.loopVar)))
    ensures Sees(LeaveLoop(PopScope(d.(readonly := d.readonly - {|c1.locals|}))),
                 Outside(AfterSeq(s.body, InFor(t, s.loopVar))).(breakable := t.breakable))
  {
    var v := s.loopVar;
    EnterForWF(c1, v);
    LowerSeqFlow(s.body, EnterFor(c1, v), Target(c1));
    SeesLeaveFor(c1, v, d, AfterSeq(s.body, InFor(t, v)));
    LeaveForFlow(c1, v, d);
    PopFlow(c1, d.(readonly := d.readonly - {|c1.locals|}));
    var e := PopScope(d.(readonly := d.readonly - {|c1.locals|}));
    SeesLeaveLoop(e, Outside(AfterSeq(s.body, InFor(t, v))), t.breakable);
  }

  lemma {:induction false} SeqChecks(ss: seq<Stmt>, c: Ctx, t: Typing, guard: Option<nat>)
    requires WF(c) && Sees(c, t) && UserStmts(ss) && BreaksAlike(c, t, BodyContainsBreak(ss))
    ensures SeqChecked(LowerSeq(ss, c, guard), ss, t)
    decreases ss, 0
  {
    hide LowerStmt, Typed, Fault, After, UserStmt;
    if ss != [] {
      assert ContainsBreak(ss[0]) ==> BodyContainsBreak(ss);
      StmtChecks(ss[0], c, t);
      if LowerStmt(ss[0], c).Ok? {
        var d := LowerStmt(ss[0], c).value.c;
        LowerStmtFlow(ss[0], c);
        assert BodyContainsBreak(ss[1..]) ==> BodyContainsBreak(ss);
        SeqChecks(ss[1..], d, After(ss[0], t), guard);
      }
    }
  }

  lemma {:induction false} BodyChecks(ss: seq<Stmt>, c: Ctx, t: Typing)
    requires WF(c) && Sees(c, t) && UserStmts(ss) && BreaksAlike(c, t, BodyContainsBreak(ss))
    ensures BodyChecked(LowerBody(ss, c), ss, t)
    decreases ss, 1
  {
    PushWF(c);
    SeesPush(c, t);
    SeqChecks(ss, PushScope(c), Inside(t), Target(c));
    var b := LowerSeq(ss, PushScope(c), Target(c));
    if b.Ok? {
      SeesPop(b.value.c, AfterSeq(ss, Inside(t)));
    }
  }

  lemma {:induction false} ArmsCheck(s: Stmt, k: nat, c: Ctx, t: Typing)
    requires WF(c) && Sees(c, t) && s.If? && k <= |s.arms| && UserStmt(s) && BreaksAlike(c, t, ContainsBreak(s))
    ensures ArmsChecked(LowerArms(s, k, c), s, k, t)
    decreases s, 0, |s.arms| - k
  {
    if k < |s.arms| {
      ExprChecks(s.arms[k].cond, c, t);
      BodyChecks(s.arms[k].body, c, t);
      var b := LowerBody(s.arms[k].body, c);
      if b.Ok? {
        LowerBodyFlow(s.arms[k].body, c);
        ArmsCheck(s, k + 1, b.value.c, AfterBody(s.arms[k].body, t));
      }
    }
  }

  // ----- Which loops break -----

  /** The same place, outside every loop. */
  function Unbreakable(t: Typing): Typing { t.(breakable := false) }

  lemma {:induction false} ExprAnywhere(e: Expr, t: Typing)
    ensures ExprTyped(e, Unbreakable(t)) == ExprTyped(e, t) && ExprKind(e, Unbreakable(t)) == ExprKind(e, t)
  {
    match e
    case BinOp(_, lhs, rhs) =>
      ExprAnywhere(lhs, t);
      ExprAnywhere(rhs, t);
    case UnaryOp(_, operand) => ExprAnywhere(operand, t);
    case _ =>
  }

  lemma ExprsAnywhere(es: seq<Expr>, t: Typing)
    ensures ExprsTyped(es, Unbreakable(t)) == ExprsTyped(es, t) && ExprKinds(es, Unbreakable(t)) == ExprKinds(es, t)
  {
    forall k | 0 <= k < |es|
      ensures ExprTyped(es[k], Unbreakable(t)) == ExprTyped(es[k], t) && ExprKind(es[k], Unbreakable(t)) == ExprKind(es[k], t)
    {
      ExprAnywhere(es[k], t);
    }
  }

  lemma {:induction false} NamesAnywhere(names: seq<string>, kinds: seq<Kind>, t: Typing)
    requires t.scopes != [] && |names| == |kinds|
    ensures AllDeclared(Unbreakable(t), names, kinds) == Unbreakable(AllDeclared(t, names, kinds))
    ensures AllAssigned(Unbreakable(t), names, kinds) == Unbreakable(AllAssigned(t, names, kinds))
    ensures AllAssignable(names, kinds, Unbreakable(t)) == AllAssignable(names, kinds, t)
    decreases |names|
  {
    if names != [] {
      NamesAnywhere(names[1..], kinds[1..], Declared(t, names[0], kinds[0]));
      NamesAnywhere(names[1..], kinds[1..], Assigned(t, names[0], kinds[0]));
      assert Declared(Unbreakable(t), names[0], kinds[0]) == Unbreakable(Declared(t, names[0], kinds[0]));
      assert Assigned(Unbreakable(t), names[0], kinds[0]) == Unbreakable(Assigned(t, names[0], kinds[0]));
    }
  }

  /** Typed in a loop, `s` is typed outside loops exactly if it has no `break` of its own, and nothing else changes. */
  ghost predicate Needs(s: Stmt, t: Typing)
    requires t.scopes != []
  {
    && (Typed(s, Unbreakable(t)) <==> !ContainsBreak(s))
    && (!ContainsBreak(s) ==> After(s, Unbreakable(t)) == Unbreakable(After(s, t)))
  }

  ghost predicate SeqNeeds(ss: seq<Stmt>, t: Typing)
    requires t.scopes != []
  {
    && (SeqTyped(ss, Unbreakable(t)) <==> !BodyContainsBreak(ss))
    && (!BodyContainsBreak(ss) ==> AfterSeq(ss, Unbreakable(t)) == Unbreakable(AfterSeq(ss, t)))
  }

  lemma {:induction false} BreakNeedsLoop(s: Stmt, t: Typing)
    requires t.scopes != [] && t.breakable && Typed(s, t)
    ensures Needs(s, t)
    decreases s, 1
  {
    match s
    case Local(_, value) => ExprAnywhere(value, t);
    case LocalMulti(names, values) =>
      ExprsAnywhere(values, t);
      NamesAnywhere(names, ExprKinds(values, t), t);
    case Assign(_, value) => ExprAnywhere(value, t);
    case AssignMulti(names, values) =>
      ExprsAnywhere(values, t);
      NamesAnywhere(names, ExprKinds(values, t), t);
    case Block(body) => SeqNeedsLoop(body, Inside(t));
    case If(_, elseBody) =>
      ArmsNeedLoop(s, 0, t);
      SeqNeedsLoop(elseBody, Inside(AfterArms(s, 0, t)));
    case While(cond, body) => ExprAnywhere(cond, t);
    case Repeat(_, _) => assert InLoop(Unbreakable(t)) == InLoop(t);
    case ForNumeric(v, _, _, _, _) =>
      ExprsAnywhere(Bounds(s), t);
      assert InFor(Unbreakable(t), v) == InFor(t, v);
    case Break =>
    case Return(values) => ExprsAnywhere(values, t);
    case Print(args) => ExprsAnywhere(args, t);
  }

  /** So a loop gets a flag exactly if its body would not be typed outside loops. */
  lemma {:induction false} SeqNeedsLoop(ss: seq<Stmt>, t: Typing)
    requires t.scopes != [] && t.breakable && SeqTyped(ss, t)
    ensures SeqNeeds(ss, t)
    decreases ss, 0
  {
    if ss != [] {
      BreakNeedsLoop(ss[0], t);
      SeqNeedsLoop(ss[1..], After(ss[0], t));
      assert BodyContainsBreak(ss) <==> ContainsBreak(ss[0]) || BodyContainsBreak(ss[1..]) by {
        BreakFirst(ss);
      }
    }
  }

  lemma BreakFirst(ss: seq<Stmt>)
    requires ss != []
    ensures BodyContainsBreak(ss) <==> ContainsBreak(ss[0]) || BodyContainsBreak(ss[1..])
  {
    if k :| 0 <= k < |ss| && ContainsBreak(ss[k]) {
      assert k > 0 ==> ContainsBreak(ss[1..][k - 1]);
    }
    if BodyContainsBreak(ss[1..]) {
      var k :| 0 <= k < |ss[1..]| && ContainsBreak(ss[1..][k]);
      assert ContainsBreak(ss[k + 1]);
    }
  }

  predicate ArmsBreak(s: Stmt, k: nat)
    requires s.If?
  {
    exists j | k <= j < |s.arms| :: BodyContainsBreak(s.arms[j].body)
  }

  lemma {:induction false} ArmsNeedLoop(s: Stmt, k: nat, t: Typing)
    requires t.scopes != [] && t.breakable && s.If? && k <= |s.arms| && ArmsTyped(s, k, t)
    ensures ArmsTyped(s, k, Unbreakable(t)) <==> !ArmsBreak(s, k)
    ensures !ArmsBreak(s, k) ==> AfterArms(s, k, Unbreakable(t)) == Unbreakable(AfterArms(s, k, t))
    decreases s, 0, |s.arms| - k
  {
    if k < |s.arms| {
      ExprAnywhere(s.arms[k].cond, t);
      SeqNeedsLoop(s.arms[k].body, Inside(t));
      ArmsNeedLoop(s, k + 1, AfterBody(s.arms[k].body, t));
    }
  }

  // ----- Whole programs -----

  /** A chunk is lowered exactly if it is well typed; otherwise its first fault is reported. */
  lemma ChunkChecks(chunk: seq<Stmt>)
    requires UserStmts(chunk)
    ensures LowerChunk(chunk).Ok? <==> SeqTyped(chunk, TOP_LEVEL)
    ensures LowerChunk(chunk).Err? ==> SeqFault(chunk, TOP_LEVEL, LowerChunk(chunk).error)
  {
    EmptySees();
    SeqChecks(chunk, EMPTY_CTX, TOP_LEVEL, None);
  }

  lemma EmptySees()
    ensures WF(EMPTY_CTX) && Sees(EMPTY_CTX, TOP_LEVEL)
  {
    EmptyCtxWF();
    forall f, n ensures !Names(EMPTY_CTX, f, n) && !InScope(TOP_LEVEL, f, n) {}
  }

  lemma {:induction false} ParamsSee(c: Ctx, t: Typing, params: seq<LocalInfo>)
    requires WF(c) && Sees(c, t) && UserParams(params)
    ensures Sees(DeclareParams(c, params), ParamsDeclared(t, params))
    decreases |params|
  {
    if params != [] {
      DeclareFlow(c, params[0].name, params[0].kind);
      SeesDeclare(c, t, params[0].name, params[0].kind);
      ParamsSee(Declare(c, params[0].name, params[0].kind), Declared(t, params[0].name, params[0].kind), params[1..]);
    }
  }

  ghost predicate UserParams(params: seq<LocalInfo>) { forall k | 0 <= k < |params| :: UserName(params[k].name) }

  lemma {:induction false} RetsSee(c: Ctx, t: Typing, k: nat, arity: nat)
    requires WF(c) && Sees(c, t) && k <= arity
    ensures Sees(DeclareRets(c, k, arity), t)
    decreases arity - k
  {
    if k < arity {
      var name := RET_PREFIX + Decimal(k);
      assert !UserName(name);
      DeclareFlow(c, name, NumberKind);
      SeesHidden(c, t, name, NumberKind);
      RetsSee(Declare(c, name, NumberKind), t, k + 1, arity);
    }
  }

  /** Some values for the names of a context. */
  ghost function BlankEnv(scopes: seq<map<string, nat>>): Env {
    seq(|scopes|, f requires 0 <= f < |scopes| => map n | n in scopes[f] && UserName(n) :: NilValue)
  }

  lemma EntrySees(c: Ctx, t: Typing, arity: nat)
    requires WF(c) && Sees(c, t) && c.fn.None? && c.targets == [] && c.readonly == {} && c.retKinds.None?
    ensures var d := EnterFunction(c, arity);
            WF(d) && Sees(d, t.(slots := Some(arity), breakable := true)) && Target(d).Some? && d.retKinds.None?
  {
    assert Rel(c.scopes, BlankEnv(c.scopes), map[]);
    EnterFunctionWF(c, arity, BlankEnv(c.scopes), map[]);
    SlotsSee(c, t, arity);
    SlotsInstalled(DeclareSlots(c, arity), t, EnterFunction(c, arity), arity);
  }

  lemma SlotsSee(c: Ctx, t: Typing, arity: nat)
    requires WF(c) && Sees(c, t)
    ensures Sees(DeclareSlots(c, arity), t)
  {
    DeclareFlow(c, RETURNED_NAME, BoolKind);
    SeesHidden(c, t, RETURNED_NAME, BoolKind);
    RetsSee(Declare(c, RETURNED_NAME, BoolKind), t, 0, arity);
  }

  lemma SlotsInstalled(c: Ctx, t: Typing, d: Ctx, arity: nat)
    requires Sees(c, t) && c.retKinds.None? && d.fn.Some? && |d.fn.value.rets| == arity
    requires d == c.(fn := d.fn, targets := d.targets)
    ensures Sees(d, t.(slots := Some(arity), breakable := true))
  {
    var u := t.(slots := Some(arity), breakable := true);
    forall f, n
      ensures Names(d, f, n) <==> InScope(u, f, n)
      ensures Names(d, f, n) ==> u.scopes[f][n] == VarAt(d, d.scopes[f][n])
    {
      assert Names(d, f, n) <==> Names(c, f, n);
      assert InScope(u, f, n) <==> InScope(t, f, n);
    }
  }

  /** The context of a function body and what is known there. */
  lemma FunctionEntrySees(params: seq<LocalInfo>, n: nat)
    requires UserParams(params)
    ensures var c := DeclareParams(EMPTY_CTX, params);
            var d := EnterFunction(c, n);
            WF(c) && WF(d) && Sees(d, FunctionEntry(params, n)) && Target(d).Some? && d.retKinds.None? && c.retKinds.None?
  {
    EmptySees();
    DeclareParamsWF(EMPTY_CTX, params);
    ParamsSee(EMPTY_CTX, TOP_LEVEL, params);
    EntrySees(DeclareParams(EMPTY_CTX, params), ParamsDeclared(TOP_LEVEL, params), n);
  }

  /** So is a function body. */
  lemma FunctionChecks(params: seq<LocalInfo>, body: seq<Stmt>)
    requires UserParams(params) && UserStmts(body)
    ensures var r := LowerFunctionBody(body, DeclareParams(EMPTY_CTX, params));
            && (r.Ok? <==> FunctionTyped(params, body))
            && (r.Err? ==> forall n | MostResults(body, n) :: SeqFault(body, FunctionEntry(params, n), r.error))
  {
    var n := BodyReturnArity(body);
    var d := EnterFunction(DeclareParams(EMPTY_CTX, params), n);
    ArityIsMost(body);
    FunctionEntrySees(params, n);
    SeqChecks(body, d, FunctionEntry(params, n), Some(d.fn.value.returned));
    assert MostResults(body, n);
  }

  /**
   The kind of a result slot, once its body is lowered, is the one its returns have in common, or the tagged
   kind where they differ.
   */
  lemma ResultKinds(params: seq<LocalInfo>, body: seq<Stmt>, k: nat)
    requires UserParams(params) && UserStmts(body)
    requires LowerFunctionBody(body, DeclareParams(EMPTY_CTX, params)).Ok? && k < BodyReturnArity(body)
    ensures var n := BodyReturnArity(body);
            var returned := AfterSeq(body, FunctionEntry(params, n)).returned;
            var slot := EnterFunction(DeclareParams(EMPTY_CTX, params), n).fn.value.rets[k];
            var locals := LowerFunctionBody(body, DeclareParams(EMPTY_CTX, params)).value.c.locals;
            && returned != [] && (forall r | r in returned :: |r| == n)
            && slot < |locals| && locals[slot].kind == CommonKind(returned, k)
  {
    hide LowerSeq, SeqTyped, SeqFault, AfterSeq, WF;
    var n, c := BodyReturnArity(body), DeclareParams(EMPTY_CTX, params);
    var d := EnterFunction(c, n);
    var guard := Some(d.fn.value.returned);
    FunctionEntrySees(params, n);
    SeqChecks(body, d, FunctionEntry(params, n), guard);
    LowerSeqFlow(body, d, guard);
    SeqRecords(body, d, guard);
    var e := LowerSeq(body, d, guard).value.c;
    RecordLength(body, d, guard);
    assert e.retKinds.value[k] == CommonKind(AfterSeq(body, FunctionEntry(params, n)).returned, k);
    assert Recorded(e);
  }

  lemma RecordLength(body: seq<Stmt>, d: Ctx, guard: Option<nat>)
    requires d.scopes != [] && LowerSeq(body, d, guard).Ok? && BodyReturnArity(body) > 0
    ensures var e := LowerSeq(body, d, guard).value.c; e.retKinds.Some? && |e.retKinds.value| == BodyReturnArity(body)
  {
    var e := LowerSeq(body, d, guard).value.c;
    var values := SeqArityReached(body);
    var n := if e.retKinds.Some? then |e.retKinds.value| else |values| + 1;
    SeqReturnsAgree(body, d, guard, n);
    SeqReturnsIsAll(body, values, false, n);
  }
}

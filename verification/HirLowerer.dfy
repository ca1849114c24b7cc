/**
 The lowering as it is carried out: a context updated in place by every declaration, scope, loop and
 `return`.  Each method is proved to compute what the functions of `HirLower` say, from the context at the
 call to the context it leaves.
 */
module HirLowerer {
  import opened Wrappers
  import opened Int64
  import opened Numerals
  import opened HirSyntax
  import opened HirLower

  // ----- What is left to do, appended to what is done -----

  function After(done: seq<HStmt>, rest: Lowering<LoweredSeq>): Lowering<LoweredSeq> {
    match rest
    case Ok(b) => Ok(LoweredSeq(done + b.hs, b.c))
    case Err(e) => Err(e)
  }

  function AfterExprs(done: seq<HExpr>, rest: Lowering<seq<HExpr>>): Lowering<seq<HExpr>> {
    match rest
    case Ok(hs) => Ok(done + hs)
    case Err(e) => Err(e)
  }

  function AfterArms(done: seq<HArm>, rest: Lowering<(seq<HArm>, Ctx)>): Lowering<(seq<HArm>, Ctx)> {
    match rest
    case Ok(a) => Ok((done + a.0, a.1))
    case Err(e) => Err(e)
  }

  /** Nothing done, and nothing left to do. */
  lemma AfterNothing(rest: Lowering<LoweredSeq>, done: seq<HStmt>, c: Ctx)
    ensures After([], rest) == rest && After(done, Ok(LoweredSeq([], c))) == Ok(LoweredSeq(done, c))
  {
    if rest.Ok? {
      assert [] + rest.value.hs == rest.value.hs;
    }
    assert done + [] == done;
  }

  lemma AfterNoExprs(rest: Lowering<seq<HExpr>>)
    ensures AfterExprs([], rest) == rest
  {
    if rest.Ok? {
      assert [] + rest.value == rest.value;
    }
  }

  lemma AfterNoArms(rest: Lowering<(seq<HArm>, Ctx)>)
    ensures AfterArms([], rest) == rest
  {
    if rest.Ok? {
      assert [] + rest.value.0 == rest.value.0;
    }
  }

  lemma LowerSeqStep(done: seq<HStmt>, ss: seq<Stmt>, i: nat, c: Ctx, guard: Option<nat>)
    requires i < |ss| && c.scopes != []
    ensures LowerStmt(ss[i], c).Err? ==> After(done, LowerSeq(ss[i..], c, guard)) == Err(LowerStmt(ss[i], c).error)
    ensures LowerStmt(ss[i], c).Ok? ==>
              After(done, LowerSeq(ss[i..], c, guard)) ==
              After(done + [WrapGuard(LowerStmt(ss[i], c).value.h, guard)],
                    LowerSeq(ss[i + 1..], LowerStmt(ss[i], c).value.c, guard))
  {
    assert ss[i..][1..] == ss[i + 1..];
    if LowerStmt(ss[i], c).Ok? {
      var first := LowerStmt(ss[i], c).value;
      var rest := LowerSeq(ss[i + 1..], first.c, guard);
      if rest.Ok? {
        assert done + ([WrapGuard(first.h, guard)] + rest.value.hs) == done + [WrapGuard(first.h, guard)] + rest.value.hs;
      }
    }
  }

  lemma LowerExprsStep(done: seq<HExpr>, es: seq<Expr>, i: nat, c: Ctx)
    requires i < |es|
    ensures LowerExpr(es[i], c).Err? ==> AfterExprs(done, LowerExprs(es[i..], c)) == Err(LowerExpr(es[i], c).error)
    ensures LowerExpr(es[i], c).Ok? ==>
              AfterExprs(done, LowerExprs(es[i..], c)) ==
              AfterExprs(done + [LowerExpr(es[i], c).value], LowerExprs(es[i + 1..], c))
  {
    assert es[i..][1..] == es[i + 1..];
    var rest := LowerExprs(es[i + 1..], c);
    if LowerExpr(es[i], c).Ok? && rest.Ok? {
      var h := LowerExpr(es[i], c).value;
      assert done + ([h] + rest.value) == done + [h] + rest.value;
    }
  }

  lemma LowerTargetsStep(done: seq<HStmt>, names: seq<string>, i: nat, first: nat, c: Ctx)
    requires i < |names| && c.scopes != []
    ensures var a := LowerAssignTarget(names[i], HLocal(first + i), c);
            && (a.Err? ==> After(done, LowerTargets(names[i..], first + i, c)) == Err(a.error))
            && (a.Ok? ==>
                  After(done, LowerTargets(names[i..], first + i, c)) ==
                  After(done + [a.value.h], LowerTargets(names[i + 1..], first + i + 1, a.value.c)))
  {
    assert names[i..][1..] == names[i + 1..];
    if LowerAssignTarget(names[i], HLocal(first + i), c).Ok? {
      var a := LowerAssignTarget(names[i], HLocal(first + i), c).value;
      var rest := LowerTargets(names[i + 1..], first + i + 1, a.c);
      if rest.Ok? {
        assert done + ([a.h] + rest.value.hs) == done + [a.h] + rest.value.hs;
      }
    }
  }

  lemma LowerArmsStep(done: seq<HArm>, s: Stmt, k: nat, c: Ctx)
    requires s.If? && k < |s.arms| && c.scopes != []
    ensures var cond, b := LowerExpr(s.arms[k].cond, c), LowerBody(s.arms[k].body, c);
            && (cond.Err? ==> AfterArms(done, LowerArms(s, k, c)) == Err(cond.error))
            && (cond.Ok? && b.Err? ==> AfterArms(done, LowerArms(s, k, c)) == Err(b.error))
            && (cond.Ok? && b.Ok? ==>
                  AfterArms(done, LowerArms(s, k, c)) ==
                  AfterArms(done + [HArm(cond.value, b.value.hs)], LowerArms(s, k + 1, b.value.c)))
  {
    var cond, b := LowerExpr(s.arms[k].cond, c), LowerBody(s.arms[k].body, c);
    if cond.Ok? && b.Ok? {
      var rest := LowerArms(s, k + 1, b.value.c);
      if rest.Ok? {
        assert done + ([HArm(cond.value, b.value.hs)] + rest.value.0) == done + [HArm(cond.value, b.value.hs)] + rest.value.0;
      }
    }
  }

  /** Guarding statements one by one or all at the end makes no difference. */
  lemma {:induction false} GuardAfterwards(ss: seq<Stmt>, c: Ctx, flag: nat)
    requires c.scopes != []
    ensures var b := LowerSeq(ss, c, None);
            && (b.Ok? ==> LowerSeq(ss, c, Some(flag)) == Ok(LoweredSeq(Guarded(b.value.hs, flag), b.value.c)))
            && (b.Err? ==> LowerSeq(ss, c, Some(flag)) == Err(b.error))
    decreases |ss|
  {
    assert Guarded([], flag) == [];
    if ss != [] && LowerStmt(ss[0], c).Ok? {
      var first := LowerStmt(ss[0], c).value;
      GuardAfterwards(ss[1..], first.c, flag);
      var rest := LowerSeq(ss[1..], first.c, None);
      if rest.Ok? {
        assert Guarded([first.h] + rest.value.hs, flag) == [WrapGuard(first.h, Some(flag))] + Guarded(rest.value.hs, flag);
        assert LowerSeq(ss, c, None).value.hs == [WrapGuard(first.h, None)] + rest.value.hs;
      }
    }
  }

  function Guarded(hs: seq<HStmt>, flag: nat): seq<HStmt> {
    seq(|hs|, k requires 0 <= k < |hs| => WrapGuard(hs[k], Some(flag)))
  }

  // ----- Arity of a function body -----

  method VisitReturns(s: Stmt, max: nat) returns (m: nat)
    ensures m == MaxNat(max, ReturnArity(s))
    decreases s, 0
  {
    m := max;
    match s {
      case Return(values) => m := MaxNat(max, |values|);
      case Block(body) => m := VisitBody(body, max);
      case If(arms, elseBody) =>
        var k := 0;
        while k < |arms|
          invariant k <= |arms|
          invariant MaxNat(m, ArmsReturnArity(s, k)) == MaxNat(max, ArmsReturnArity(s, 0))
        {
          m := VisitBody(arms[k].body, m);
          k := k + 1;
        }
        m := VisitBody(elseBody, m);
      case While(_, body) => m := VisitBody(body, max);
      case ForNumeric(_, _, _, _, body) => m := VisitBody(body, max);
      case _ =>
    }
  }

  method VisitBody(ss: seq<Stmt>, max: nat) returns (m: nat)
    ensures m == MaxNat(max, BodyReturnArity(ss))
    decreases ss, 1
  {
    m := max;
    for i := 0 to |ss|
      invariant MaxNat(m, BodyReturnArity(ss[i..])) == MaxNat(max, BodyReturnArity(ss))
    {
      assert ss[i..][1..] == ss[i + 1..];
      m := VisitReturns(ss[i], m);
    }
  }

  // ----- The context in place -----

  class LowerCtx {
    var locals: seq<LocalInfo>
    var scopes: seq<map<string, nat>>
    var readonlyLocals: set<nat>
    var loopBreakTargets: seq<Option<nat>>
    var inFunction: Option<FnSlots>
    var inFunctionRetKinds: Option<seq<Kind>>

    function Value(): Ctx
      reads this
    {
      Ctx(locals, scopes, readonlyLocals, loopBreakTargets, inFunction, inFunctionRetKinds)
    }

    /** The scope stack is never empty. */
    predicate Valid()
      reads this
    {
      scopes != []
    }

    constructor ()
      ensures Valid() && Value() == EMPTY_CTX
    {
      locals, scopes, readonlyLocals, loopBreakTargets := [], [map[]], {}, [];
      inFunction, inFunctionRetKinds := None, None;
    }

    // ----- Scopes and slots -----

    method ResolveName(name: string) returns (r: Option<nat>)
      ensures r == Resolve<nat>(scopes, name)
    {
      var i := |scopes|;
      assert scopes[..i] == scopes;
      while i > 0
        invariant i <= |scopes|
        invariant Resolve<nat>(scopes, name) == Resolve<nat>(scopes[..i], name)
      {
        assert scopes[..i][..i - 1] == scopes[..i - 1];
        i := i - 1;
        if name in scopes[i] {
          return Some(scopes[i][name]);
        }
      }
      r := None;
    }

    method DeclareLocal(name: string, kind: Kind) returns (id: nat)
      requires Valid()
      modifies this
      ensures Valid() && id == |old(locals)| && Value() == Declare(old(Value()), name, kind)
    {
      id := |locals|;
      locals := locals + [LocalInfo(name, kind)];
      scopes := Bind<nat>(scopes, name, id);
    }

    method OpenScope()
      requires Valid()
      modifies this
      ensures Valid() && Value() == PushScope(old(Value()))
    {
      scopes := scopes + [map[]];
    }

    method CloseScope()
      requires |scopes| > 1
      modifies this
      ensures Valid() && Value() == PopScope(old(Value()))
    {
      scopes := scopes[..|scopes| - 1];
    }

    // ----- Expressions -----

    method LowerExpression(e: Expr) returns (r: Lowering<HExpr>)
      ensures r == LowerExpr(e, Value())
    {
      match e {
        case Integer(i) => r := Ok(HInteger(i));
        case Bool(b) => r := Ok(HBool(b));
        case Nil => r := Ok(HNil);
        case Ident(name) =>
          var id := ResolveName(name);
          r := if id.Some? then Ok(HLocal(id.value)) else Err(UndefinedName(name));
        case BinOp(op, lhs, rhs) =>
          var l := LowerExpression(lhs);
          if l.Err? {
            return l;
          }
          var h := LowerExpression(rhs);
          if h.Err? {
            return h;
          }
          if l.value.HInteger? && h.value.HInteger? {
            var folded := FoldInt(op, l.value.i, h.value.i);
            if !folded.Declined? {
              return if folded.Panics? then Err(CompilerPanic) else Ok(HInteger(folded.value));
            }
          }
          r := LowerBinOp(op, l.value, h.value, locals);
        case UnaryOp(op, operand) =>
          var h := LowerExpression(operand);
          r := if h.Ok? then Ok(HUnaryOp(op, h.value)) else h;
      }
    }

    method LowerExpressions(es: seq<Expr>) returns (r: Lowering<seq<HExpr>>)
      ensures r == LowerExprs(es, Value())
    {
      var out := [];
      assert es[0..] == es;
      AfterNoExprs(LowerExprs(es, Value()));
      for i := 0 to |es|
        invariant AfterExprs(out, LowerExprs(es[i..], Value())) == LowerExprs(es, Value())
      {
        LowerExprsStep(out, es, i, Value());
        var h := LowerExpression(es[i]);
        if h.Err? {
          return Err(h.error);
        }
        out := out + [h.value];
      }
      assert out + [] == out;
      r := Ok(out);
    }

    // ----- Assignments and declarations -----

    method LowerTarget(name: string, value: HExpr) returns (r: Lowering<HStmt>)
      requires Valid()
      modifies this
      ensures Valid()
      ensures LowerAssignTarget(name, value, old(Value())) == if r.Ok? then Ok(Lowered(r.value, Value())) else Err(r.error)
    {
      var kind := InferKind(value, locals);
      var found := ResolveName(name);
      if found.Some? {
        var id := found.value;
        if id in readonlyLocals {
          return Err(ReadOnlyAssign(name));
        }
        if id < |locals| && locals[id].kind != kind {
          return Err(TypeMismatch);
        }
        return Ok(HAssign(id, value));
      }
      if inFunction.Some? {
        return Err(UndefinedName(name));
      }
      var id := |locals|;
      locals := locals + [LocalInfo(name, kind)];
      scopes := BindBottom<nat>(scopes, name, id);
      r := Ok(HLocalInit(id, value));
    }

    method DeclareValues(names: seq<string>, hs: seq<HExpr>) returns (code: seq<HStmt>)
      requires Valid() && |names| == |hs|
      modifies this
      ensures Valid() && Value() == DeclareAll(old(Value()), names, hs) && code == Inits(hs, |old(locals)|)
    {
      code := [];
      for i := 0 to |hs|
        invariant Valid() && |locals| == |old(locals)| + i
        invariant code == Inits(hs, |old(locals)|)[..i]
        invariant DeclareAll(Value(), names[i..], hs[i..]) == DeclareAll(old(Value()), names, hs)
      {
        assert names[i..][1..] == names[i + 1..] && hs[i..][1..] == hs[i + 1..];
        var id := DeclareLocal(names[i], InferKind(hs[i], locals));
        code := code + [HLocalInit(id, hs[i])];
      }
    }

    method DeclareTemporaries(hs: seq<HExpr>) returns (code: seq<HStmt>)
      requires Valid()
      modifies this
      ensures Valid() && Value() == DeclareTemps(old(Value()), hs) && code == Inits(hs, |old(locals)|)
    {
      code := [];
      for i := 0 to |hs|
        invariant Valid() && |locals| == |old(locals)| + i
        invariant code == Inits(hs, |old(locals)|)[..i]
        invariant DeclareTemps(Value(), hs[i..]) == DeclareTemps(old(Value()), hs)
      {
        assert hs[i..][1..] == hs[i + 1..];
        var id := DeclareLocal(TMP_PREFIX + Decimal(|locals|), InferKind(hs[i], locals));
        code := code + [HLocalInit(id, hs[i])];
      }
    }

    method MoveTemporaries(names: seq<string>, first: nat) returns (r: Lowering<seq<HStmt>>)
      requires Valid()
      modifies this
      ensures Valid()
      ensures LowerTargets(names, first, old(Value()))
           == if r.Ok? then Ok(LoweredSeq(r.value, Value())) else Err(r.error)
    {
      var out := [];
      assert names[0..] == names;
      AfterNothing(LowerTargets(names, first, Value()), [], Value());
      for i := 0 to |names|
        invariant Valid()
        invariant After(out, LowerTargets(names[i..], first + i, Value())) == LowerTargets(names, first, old(Value()))
      {
        LowerTargetsStep(out, names, i, first, Value());
        var a := LowerTarget(names[i], HLocal(first + i));
        if a.Err? {
          return Err(a.error);
        }
        out := out + [a.value];
      }
      AfterNothing(Ok(LoweredSeq([], Value())), out, Value());
      r := Ok(out);
    }

    // ----- Returns -----

    method RaiseKinds(ids: seq<nat>, kinds: seq<Kind>)
      modifies this
      ensures Value() == old(Value()).(locals := SetKinds(old(locals), ids, kinds))
    {
      var i := 0;
      while i < |ids| && i < |kinds|
        invariant i <= |ids| && i <= |kinds|
        invariant SetKinds(locals, ids[i..], kinds[i..]) == SetKinds(old(locals), ids, kinds)
        invariant Value() == old(Value()).(locals := locals)
      {
        assert ids[i..][1..] == ids[i + 1..] && kinds[i..][1..] == kinds[i + 1..];
        if ids[i] < |locals| {
          locals := locals[ids[i] := locals[ids[i]].(kind := kinds[i])];
        }
        i := i + 1;
      }
    }

    /** Tag what the new return contradicts; `false` where a slot to tag does not exist. */
    method WidenKinds(ids: seq<nat>, prev: seq<Kind>, kinds: seq<Kind>) returns (ok: bool)
      requires |prev| == |kinds| && inFunctionRetKinds == Some(prev)
      modifies this
      ensures ok == !WidensBeyond(|ids|, prev, kinds)
      ensures ok ==> Value() == old(Value()).(locals := WidenSlots(old(locals), ids, prev, kinds),
                                              retKinds := Some(MergeKinds(prev, kinds)))
      ensures scopes == old(scopes)
    {
      var widened, i := prev, 0;
      while i < |prev|
        invariant i <= |prev| == |widened|
        invariant forall k | 0 <= k < |prev| :: widened[k] == if k < i then MergeKinds(prev, kinds)[k] else prev[k]
        invariant forall k | |ids| <= k < i :: prev[k] == kinds[k] || prev[k].TaggedKind?
        invariant WidenSlots(locals, Drop(ids, i), prev[i..], kinds[i..]) == WidenSlots(old(locals), ids, prev, kinds)
        invariant Value() == old(Value()).(locals := locals)
      {
        WidenStep(locals, ids, i, prev, kinds);
        if prev[i] != kinds[i] && !prev[i].TaggedKind? {
          if i >= |ids| {
            return false;
          }
          widened := widened[i := TaggedKind];
          TagSlot(ids[i]);
        }
        i := i + 1;
      }
      assert widened == MergeKinds(prev, kinds);
      inFunctionRetKinds := Some(widened);
      ok := true;
    }

    method TagSlot(id: nat)
      modifies this
      ensures Value() == old(Value()).(locals := SetKind(old(locals), id, TaggedKind))
    {
      if id < |locals| {
        locals := locals[id := locals[id].(kind := TaggedKind)];
      }
    }

    method LowerReturnWithValues(hs: seq<HExpr>) returns (r: Lowering<HStmt>)
      requires Valid()
      modifies this
      ensures Valid()
      ensures LowerReturn(hs, old(Value())) == if r.Ok? then Ok(Lowered(r.value, Value())) else Err(r.error)
    {
      if inFunction.None? {
        return Err(ReturnOutsideFunction);
      }
      var slots, kinds := inFunction.value, [];
      for i := 0 to |hs|
        invariant kinds == Kinds(hs, locals)[..i]
      {
        kinds := kinds + [InferKind(hs[i], locals)];
      }
      assert kinds == Kinds(hs, locals);
      if inFunctionRetKinds.Some? {
        if |inFunctionRetKinds.value| != |kinds| {
          return Err(ArityMismatch);
        }
        var ok := WidenKinds(slots.rets, inFunctionRetKinds.value, kinds);
        if !ok {
          return Err(CompilerPanic);
        }
      } else {
        RaiseKinds(slots.rets, kinds);
        inFunctionRetKinds := Some(kinds);
      }
      var code, i := [], 0;
      while i < |slots.rets| && i < |hs|
        invariant i <= |slots.rets| && i <= |hs|
        invariant code + RetAssigns(slots.rets[i..], hs[i..]) == RetAssigns(slots.rets, hs)
      {
        var rets, rest := slots.rets[i..], hs[i..];
        assert rets[1..] == slots.rets[i + 1..] && rest[1..] == hs[i + 1..];
        assert RetAssigns(rets, rest) == [HAssign(rets[0], rest[0])] + RetAssigns(rets[1..], rest[1..]);
        code := code + [HAssign(slots.rets[i], hs[i])];
        i := i + 1;
      }
      assert RetAssigns(slots.rets[i..], hs[i..]) == [];
      assert code == RetAssigns(slots.rets, hs);
      r := Ok(HBlock(code + [HAssign(slots.returned, HBool(true))]));
    }

    // ----- Loops -----

    method OpenLoop(body: seq<Stmt>) returns (flag: Option<nat>)
      requires Valid()
      modifies this
      ensures Valid() && Value() == EnterLoop(old(Value()), body) && flag == Target(Value())
    {
      flag := None;
      if BodyContainsBreak(body) {
        var id := DeclareLocal(BROKEN_PREFIX + Decimal(|locals|), BoolKind);
        flag := Some(id);
      }
      loopBreakTargets := loopBreakTargets + [flag];
    }

    method CloseLoop()
      modifies this
      ensures Value() == LeaveLoop(old(Value()))
    {
      if loopBreakTargets != [] {
        loopBreakTargets := loopBreakTargets[..|loopBreakTargets| - 1];
      }
    }

    // ----- Statements -----

    method LowerStatements(ss: seq<Stmt>, guard: Option<nat>) returns (r: Lowering<seq<HStmt>>)
      requires Valid()
      modifies this
      ensures LowerSeq(ss, old(Value()), guard) == if r.Ok? then Ok(LoweredSeq(r.value, Value())) else Err(r.error)
      ensures r.Ok? ==> |scopes| == |old(scopes)|
      decreases ss, 0
    {
      var out := [];
      assert ss[0..] == ss;
      AfterNothing(LowerSeq(ss, Value(), guard), [], Value());
      for i := 0 to |ss|
        invariant |scopes| == |old(scopes)|
        invariant After(out, LowerSeq(ss[i..], Value(), guard)) == LowerSeq(ss, old(Value()), guard)
      {
        LowerSeqStep(out, ss, i, Value(), guard);
        var h := LowerStatement(ss[i]);
        if h.Err? {
          return Err(h.error);
        }
        out := out + [WrapGuard(h.value, guard)];
      }
      AfterNothing(Ok(LoweredSeq([], Value())), out, Value());
      r := Ok(out);
    }

    /** A body in its own scope, guarded by the flag of the innermost loop or function. */
    method LowerScopedBody(ss: seq<Stmt>) returns (r: Lowering<seq<HStmt>>)
      requires Valid()
      modifies this
      ensures LowerBody(ss, old(Value())) == if r.Ok? then Ok(LoweredSeq(r.value, Value())) else Err(r.error)
      ensures r.Ok? ==> |scopes| == |old(scopes)|
      decreases ss, 1
    {
      OpenScope();
      r := LowerStatements(ss, Target(Value()));
      if r.Ok? {
        CloseScope();
      }
    }

    method LowerConditional(s: Stmt) returns (r: Lowering<HStmt>)
      requires Valid() && s.If?
      modifies this
      ensures LowerStmt(s, old(Value())) == if r.Ok? then Ok(Lowered(r.value, Value())) else Err(r.error)
      ensures r.Ok? ==> |scopes| == |old(scopes)|
      decreases s, 0
    {
      var arms := [];
      AfterNoArms(LowerArms(s, 0, Value()));
      for k := 0 to |s.arms|
        invariant |scopes| == |old(scopes)|
        invariant AfterArms(arms, LowerArms(s, k, Value())) == LowerArms(s, 0, old(Value()))
      {
        LowerArmsStep(arms, s, k, Value());
        var cond := LowerExpression(s.arms[k].cond);
        if cond.Err? {
          return Err(cond.error);
        }
        var body := LowerScopedBody(s.arms[k].body);
        if body.Err? {
          return Err(body.error);
        }
        arms := arms + [HArm(cond.value, body.value)];
      }
      assert arms + [] == arms;
      var otherwise := LowerScopedBody(s.elseBody);
      r := if otherwise.Ok? then Ok(HIf(arms, otherwise.value)) else Err(otherwise.error);
    }

    method LowerLoop(s: Stmt) returns (r: Lowering<HStmt>)
      requires Valid() && (s.While? || s.Repeat?)
      modifies this
      ensures LowerStmt(s, old(Value())) == if r.Ok? then Ok(Lowered(r.value, Value())) else Err(r.error)
      ensures r.Ok? ==> |scopes| == |old(scopes)|
      decreases s, 0
    {
      var flag := OpenLoop(s.body);
      if s.While? {
        var cond := LowerExpression(s.cond);
        if cond.Err? {
          return Err(cond.error);
        }
        var body := LowerScopedBody(s.body);
        if body.Err? {
          return Err(body.error);
        }
        CloseLoop();
        r := Ok(WrapInit(HWhile(cond.value, body.value, flag), flag));
      } else {
        OpenScope();
        var body := LowerStatements(s.body, flag);
        if body.Err? {
          return Err(body.error);
        }
        var cond := LowerExpression(s.cond);
        if cond.Err? {
          return Err(cond.error);
        }
        CloseScope();
        CloseLoop();
        r := Ok(WrapInit(HRepeat(body.value, cond.value, flag), flag));
      }
    }

    method LowerNumericFor(s: Stmt) returns (r: Lowering<HStmt>)
      requires Valid() && s.ForNumeric?
      modifies this
      ensures LowerStmt(s, old(Value())) == if r.Ok? then Ok(Lowered(r.value, Value())) else Err(r.error)
      ensures r.Ok? ==> |scopes| == |old(scopes)|
      decreases s, 0
    {
      var bounds := LowerExpressions(Bounds(s));
      if bounds.Err? {
        return Err(bounds.error);
      }
      var hs := bounds.value;
      for k := 0 to 3
        invariant forall j | 0 <= j < k :: InferKind(hs[j], locals).NumberKind?
      {
        if !InferKind(hs[k], locals).NumberKind? {
          assert Kinds(hs, locals)[k] != NumberKind;
          return Err(TypeMismatch);
        }
      }
      assert Kinds(hs, locals) == [NumberKind, NumberKind, NumberKind];
      var flag := OpenLoop(s.body);
      OpenScope();
      var id := DeclareLocal(s.loopVar, NumberKind);
      readonlyLocals := readonlyLocals + {id};
      var body := LowerStatements(s.body, flag);
      if body.Err? {
        return Err(body.error);
      }
      readonlyLocals := readonlyLocals - {id};
      CloseScope();
      CloseLoop();
      r := Ok(WrapInit(HFor(id, hs[0], hs[1], hs[2], body.value, flag), flag));
    }

    method LowerParallel(s: Stmt) returns (r: Lowering<HStmt>)
      requires Valid() && (s.LocalMulti? || s.AssignMulti?)
      modifies this
      ensures LowerStmt(s, old(Value())) == if r.Ok? then Ok(Lowered(r.value, Value())) else Err(r.error)
      ensures r.Ok? ==> |scopes| == |old(scopes)|
    {
      if |s.names| != |s.values| {
        if |s.values| == 1 && (s.LocalMulti? || |s.names| > 1) {
          var h := LowerExpression(s.values[0]);
          if h.Err? {
            return Err(h.error);
          }
        }
        return Err(ArityMismatch);
      }
      var hs := LowerExpressions(s.values);
      if hs.Err? {
        return Err(hs.error);
      }
      if s.LocalMulti? {
        var code := DeclareValues(s.names, hs.value);
        r := Ok(HBlock(code));
      } else {
        var first := |locals|;
        var code := DeclareTemporaries(hs.value);
        var moves := MoveTemporaries(s.names, first);
        r := if moves.Ok? then Ok(HBlock(code + moves.value)) else Err(moves.error);
      }
    }

    /** The lowering of one statement, in place. */
    method LowerStatement(s: Stmt) returns (r: Lowering<HStmt>)
      requires Valid()
      modifies this
      ensures LowerStmt(s, old(Value())) == if r.Ok? then Ok(Lowered(r.value, Value())) else Err(r.error)
      ensures r.Ok? ==> |scopes| == |old(scopes)|
      decreases s, 1
    {
      match s {
        case Local(name, value) =>
          var h := LowerExpression(value);
          if h.Err? {
            return Err(h.error);
          }
          var id := DeclareLocal(name, InferKind(h.value, locals));
          r := Ok(HLocalInit(id, h.value));
        case LocalMulti(_, _) => r := LowerParallel(s);
        case Assign(name, value) =>
          var h := LowerExpression(value);
          if h.Err? {
            return Err(h.error);
          }
          r := LowerTarget(name, h.value);
        case AssignMulti(_, _) => r := LowerParallel(s);
        case Block(body) =>
          OpenScope();
          var b := LowerStatements(body, None);
          if b.Err? {
            return Err(b.error);
          }
          CloseScope();
          r := Ok(HBlock(b.value));
        case If(_, _) => r := LowerConditional(s);
        case While(_, _) => r := LowerLoop(s);
        case Repeat(_, _) => r := LowerLoop(s);
        case ForNumeric(_, _, _, _, _) => r := LowerNumericFor(s);
        case Break =>
          var flag := Target(Value());
          r := if flag.Some? then Ok(HAssign(flag.value, HBool(true))) else Err(BreakOutsideLoop);
        case Return(values) =>
          var hs := LowerExpressions(values);
          if hs.Err? {
            return Err(hs.error);
          }
          r := LowerReturnWithValues(hs.value);
        case Print(args) =>
          var hs := LowerExpressions(args);
          r := if hs.Ok? then Ok(HPrint(hs.value)) else Err(hs.error);
      }
    }

    // ----- Function bodies -----

    method DeclareResults(arity: nat) returns (ids: seq<nat>)
      requires Valid()
      modifies this
      ensures Valid() && Value() == DeclareRets(old(Value()), 0, arity)
      ensures ids == seq(arity, k requires 0 <= k < arity => |old(locals)| + k)
    {
      ids := [];
      for k := 0 to arity
        invariant Valid() && |locals| == |old(locals)| + k
        invariant ids == seq(k, j requires 0 <= j < k => |old(locals)| + j)
        invariant DeclareRets(Value(), k, arity) == DeclareRets(old(Value()), 0, arity)
      {
        var id := DeclareLocal(RET_PREFIX + Decimal(k), NumberKind);
        ids := ids + [id];
      }
    }

    /** A function body: flag and result slots, their initialization, and the guarded statements. */
    method LowerFunction(body: seq<Stmt>) returns (r: Lowering<seq<HStmt>>)
      requires Valid()
      modifies this
      ensures LowerFunctionBody(body, old(Value())) == if r.Ok? then Ok(LoweredSeq(r.value, Value())) else Err(r.error)
    {
      var returned := DeclareLocal(RETURNED_NAME, BoolKind);
      var arity := VisitBody(body, 0);
      var rets := DeclareResults(arity);
      inFunction := Some(FnSlots(returned, rets));
      loopBreakTargets := loopBreakTargets + [Some(returned)];
      ghost var c1 := EnterFunction(old(Value()), arity);
      assert rets == seq(arity, k requires 0 <= k < arity => returned + 1 + k);
      assert Value() == c1;
      var lowered := LowerStatements(body, None);
      GuardAfterwards(body, c1, returned);
      if lowered.Err? {
        return Err(lowered.error);
      }
      CloseLoop();
      var defaults := InitializeResults(rets);
      var guarded := GuardStatements(lowered.value, returned);
      r := Ok([HLocalInit(returned, HBool(false))] + defaults + guarded);
    }

    /** Every result slot starts at the default of its final kind. */
    method InitializeResults(rets: seq<nat>) returns (out: seq<HStmt>)
      ensures out == DefaultInits(rets, locals)
    {
      out := [];
      for k := 0 to |rets|
        invariant out == DefaultInits(rets, locals)[..k]
      {
        out := out + [HLocalInit(rets[k], DefaultOf(InferKind(HLocal(rets[k]), locals)))];
      }
    }
  }

  method GuardStatements(hs: seq<HStmt>, flag: nat) returns (out: seq<HStmt>)
    ensures out == Guarded(hs, flag)
  {
    out := [];
    for k := 0 to |hs|
      invariant out == Guarded(hs, flag)[..k]
    {
      out := out + [WrapGuard(hs[k], Some(flag))];
    }
  }

  function Drop(ids: seq<nat>, i: nat): seq<nat> { if i <= |ids| then ids[i..] else [] }

  lemma WidenStep(locals: seq<LocalInfo>, ids: seq<nat>, i: nat, prev: seq<Kind>, kinds: seq<Kind>)
    requires |prev| == |kinds| && i < |prev|
    ensures var kept := prev[i] == kinds[i] || prev[i].TaggedKind?;
            var next := if kept || i >= |ids| then locals else SetKind(locals, ids[i], TaggedKind);
            (WidenSlots(locals, Drop(ids, i), prev[i..], kinds[i..])
             == WidenSlots(next, Drop(ids, i + 1), prev[i + 1..], kinds[i + 1..]))
  {
    assert prev[i..][1..] == prev[i + 1..] && kinds[i..][1..] == kinds[i + 1..];
    if i < |ids| {
      assert ids[i..][1..] == ids[i + 1..];
    }
  }

  /** The whole chunk, from an empty context. */
  method LowerWholeChunk(chunk: seq<Stmt>) returns (r: Lowering<LoweredSeq>)
    ensures r == LowerChunk(chunk)
  {
    var ctx := new LowerCtx();
    var code := ctx.LowerStatements(chunk, None);
    r := if code.Ok? then Ok(LoweredSeq(code.value, ctx.Value())) else Err(code.error);
  }
}

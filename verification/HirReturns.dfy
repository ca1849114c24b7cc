/** The results of a function: every `return` outside `repeat` bodies, in loops too, has a slot for each value. */
module HirReturns {
  import opened Wrappers
  import opened HirSyntax
  import opened HirSemantics
  import opened HirLower
  import opened HirContext
  import opened HirKinds
  import opened HirSteps
  import opened HirFunctions
  import HirTyping

  // ----- The number of result slots -----

  lemma {:induction false} ReturnArityBounds(s: Stmt, values: seq<Expr>)
    requires HirTyping.HasReturn(s, values, false)
    ensures |values| <= ReturnArity(s)
    decreases s, 1
  {
    match s
    case Block(body) => SeqReturnBounds(body, values);
    case If(arms, elseBody) =>
      if HirTyping.SomeHasReturn(elseBody, values, false) {
        SeqReturnBounds(elseBody, values);
      } else {
        var k :| 0 <= k < |arms| && HirTyping.SomeHasReturn(arms[k].body, values, false);
        ArmReturnBounds(s, 0, k, values);
      }
    case While(_, body) => SeqReturnBounds(body, values);
    case ForNumeric(_, _, _, _, body) => SeqReturnBounds(body, values);
    case _ =>
  }

  lemma {:induction false} SeqReturnBounds(ss: seq<Stmt>, values: seq<Expr>)
    requires HirTyping.SomeHasReturn(ss, values, false)
    ensures |values| <= BodyReturnArity(ss)
    decreases ss, 0
  {
    if HirTyping.HasReturn(ss[0], values, false) {
      ReturnArityBounds(ss[0], values);
    } else {
      var k :| 0 <= k < |ss| && HirTyping.HasReturn(ss[k], values, false);
      assert HirTyping.HasReturn(ss[1..][k - 1], values, false);
      SeqReturnBounds(ss[1..], values);
    }
  }

  lemma {:induction false} ArmReturnBounds(s: Stmt, j: nat, k: nat, values: seq<Expr>)
    requires s.If? && j <= k < |s.arms| && HirTyping.SomeHasReturn(s.arms[k].body, values, false)
    ensures |values| <= ArmsReturnArity(s, j)
    decreases s, 0, |s.arms| - j
  {
    if j == k {
      SeqReturnBounds(s.arms[k].body, values);
    } else {
      ArmReturnBounds(s, j + 1, k, values);
    }
  }

  /** Some `return` has as many values as slots are reserved. */
  lemma {:induction false} ReturnArityReached(s: Stmt) returns (values: seq<Expr>)
    requires ReturnArity(s) > 0
    ensures HirTyping.HasReturn(s, values, false) && |values| == ReturnArity(s)
    decreases s, 1
  {
    match s {
      case Return(vs) => values := vs;
      case Block(body) => values := SeqArityReached(body);
      case If(arms, elseBody) =>
        if BodyReturnArity(elseBody) == ReturnArity(s) {
          values := SeqArityReached(elseBody);
        } else {
          var k;
          k, values := ArmArityReached(s, 0);
          assert HirTyping.SomeHasReturn(arms[k].body, values, false);
        }
      case While(_, body) => values := SeqArityReached(body);
      case ForNumeric(_, _, _, _, body) => values := SeqArityReached(body);
      case _ => assert false;
    }
  }

  lemma {:induction false} SeqArityReached(ss: seq<Stmt>) returns (values: seq<Expr>)
    requires BodyReturnArity(ss) > 0
    ensures HirTyping.SomeHasReturn(ss, values, false) && |values| == BodyReturnArity(ss)
    decreases ss, 0
  {
    if ReturnArity(ss[0]) == BodyReturnArity(ss) {
      values := ReturnArityReached(ss[0]);
    } else {
      values := SeqArityReached(ss[1..]);
      var k :| 0 <= k < |ss[1..]| && HirTyping.HasReturn(ss[1..][k], values, false);
      assert HirTyping.HasReturn(ss[k + 1], values, false);
    }
  }

  lemma {:induction false} ArmArityReached(s: Stmt, j: nat) returns (k: nat, values: seq<Expr>)
    requires s.If? && j <= |s.arms| && ArmsReturnArity(s, j) > 0
    ensures k < |s.arms| && HirTyping.SomeHasReturn(s.arms[k].body, values, false) && |values| == ArmsReturnArity(s, j)
    decreases s, 0, |s.arms| - j
  {
    if BodyReturnArity(s.arms[j].body) == ArmsReturnArity(s, j) {
      k := j;
      values := SeqArityReached(s.arms[j].body);
    } else {
      k, values := ArmArityReached(s, j + 1);
    }
  }

  /** The slots reserved for a body are as many as the values of its largest `return`. */
  lemma ArityIsMost(body: seq<Stmt>)
    ensures forall n: nat :: HirTyping.MostResults(body, n) <==> n == BodyReturnArity(body)
  {
    forall values | HirTyping.SomeHasReturn(body, values, false) ensures |values| <= BodyReturnArity(body) {
      SeqReturnBounds(body, values);
    }
    if BodyReturnArity(body) > 0 {
      var values := SeqArityReached(body);
    }
    assert HirTyping.MostResults(body, BodyReturnArity(body));
  }

  // ----- Every return -----

  lemma {:induction false} ReturnsIsAll(s: Stmt, values: seq<Expr>, repeats: bool, n: nat)
    requires Returns(s, n) && HirTyping.HasReturn(s, values, repeats)
    ensures |values| == n
    decreases s, 1
  {
    match s
    case Block(body) => SeqReturnsIsAll(body, values, repeats, n);
    case If(arms, elseBody) =>
      if HirTyping.SomeHasReturn(elseBody, values, repeats) {
        SeqReturnsIsAll(elseBody, values, repeats, n);
      } else {
        var k :| 0 <= k < |arms| && HirTyping.SomeHasReturn(arms[k].body, values, repeats);
        SeqReturnsIsAll(arms[k].body, values, repeats, n);
      }
    case While(_, body) => SeqReturnsIsAll(body, values, repeats, n);
    case Repeat(body, _) => SeqReturnsIsAll(body, values, repeats, n);
    case ForNumeric(_, _, _, _, body) => SeqReturnsIsAll(body, values, repeats, n);
    case _ =>
  }

  lemma {:induction false} SeqReturnsIsAll(ss: seq<Stmt>, values: seq<Expr>, repeats: bool, n: nat)
    requires SeqReturns(ss, n) && HirTyping.SomeHasReturn(ss, values, repeats)
    ensures |values| == n
    decreases ss, 0
  {
    var k :| 0 <= k < |ss| && HirTyping.HasReturn(ss[k], values, repeats);
    ReturnsIsAll(ss[k], values, repeats, n);
  }

  lemma AllReturnAlike(body: seq<Stmt>, c: Ctx, values: seq<Expr>)
    requires c.scopes != [] && c.retKinds.None? && LowerFunctionBody(body, c).Ok?
    requires HirTyping.SomeHasReturn(body, values, true)
    ensures SeqReturns(body, |values|)
  {
    var c1 := EnterFunction(c, BodyReturnArity(body));
    var b := LowerSeq(body, c1, Some(c1.fn.value.returned)).value.c;
    var n := if b.retKinds.Some? then |b.retKinds.value| else |values|;
    SeqReturnsAgree(body, c1, Some(c1.fn.value.returned), n);
    SeqReturnsIsAll(body, values, true, n);
  }

  ghost predicate ReturnsOutsideRepeat(body: seq<Stmt>) {
    exists values :: HirTyping.SomeHasReturn(body, values, false)
  }

  /** What the slots reserved for a body of equally large returns are. */
  lemma SlotsOfAlike(body: seq<Stmt>, n: nat)
    requires SeqReturns(body, n)
    ensures BodyReturnArity(body) == if ReturnsOutsideRepeat(body) then n else 0
  {
    ArityIsMost(body);
    if ReturnsOutsideRepeat(body) {
      var vs :| HirTyping.SomeHasReturn(body, vs, false);
      SeqReturnsIsAll(body, vs, false, n);
      assert HirTyping.MostResults(body, n) by {
        forall ws | HirTyping.SomeHasReturn(body, ws, false) ensures |ws| <= n {
          SeqReturnsIsAll(body, ws, false, n);
        }
      }
    } else {
      assert HirTyping.MostResults(body, 0);
    }
  }

  /**
   In a body that is lowered all returns give equally many values.  There is a result slot for each of them if
   some `return` is not under `repeat`, and there is none otherwise.
   */
  lemma EveryReturnHasSlots(body: seq<Stmt>, c: Ctx, values: seq<Expr>)
    requires c.scopes != [] && c.retKinds.None? && LowerFunctionBody(body, c).Ok?
    requires HirTyping.SomeHasReturn(body, values, true)
    ensures var rets := EnterFunction(c, BodyReturnArity(body)).fn.value.rets;
            if ReturnsOutsideRepeat(body) then |rets| == |values| else rets == []
  {
    AllReturnAlike(body, c, values);
    SlotsOfAlike(body, |values|);
    assert |EnterFunction(c, BodyReturnArity(body)).fn.value.rets| == BodyReturnArity(body);
  }

  /**
   The code of a `return` with a slot for each of its values, in a loop or not: the values are left in the slots and
   then the flag is raised, which stays as it was if a value traps.
   */
  lemma ReturnStores(fuel: nat, values: seq<Expr>, c: Ctx, store: Store, trace: Trace)
    requires WF(c) && c.fn.Some? && UserExprs(values) && |values| == |c.fn.value.rets|
    requires LowerStmt(Return(values), c).Ok?
    ensures var vs := HEvalAll(LowerExprs(values, c).value, store);
            var q := HExec(fuel, LowerStmt(Return(values), c).value.h, store, trace);
            && q.trace == trace
            && (vs.None? ==> q.out.HTrapped? && Load(q.store, c.fn.value.returned) == Load(store, c.fn.value.returned))
            && (vs.Some? ==>
                  && q.out.HNormal? && HoldsResults(c, vs.value, q.store)
                  && Load(q.store, c.fn.value.returned) == Boolean(true))
            && (forall j: nat | j !in FnSet(c) :: Load(q.store, j) == Load(store, j))
  {
    LowerExprsKinded(values, c);
    ReturnRun(fuel, LowerExprs(values, c).value, c, store, trace);
  }
}

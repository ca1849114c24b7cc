/**
 Fuel only bounds the observation: a run that ends with some fuel ends the same way with more.
 Hence a program halts, with one result, exactly if its code does.
 */
module HirFuel {
  import opened Wrappers
  import opened HirSyntax
  import opened HirSemantics
  import opened HirLower
  import opened HirContext
  import opened HirKinds
  import opened HirFragment
  import opened HirRelation
  import opened HirFunctions

  // ----- The source -----

  lemma {:induction false} ExecMore(fuel: nat, s: Stmt, env: Env, trace: Trace)
    requires env != []
    ensures var r := Exec(fuel, s, env, trace); r.out.OutOfFuel? || Exec(fuel + 1, s, env, trace) == r
    decreases fuel, s, 1
  {
    match s
    case Block(body) => ExecSeqMore(fuel, body, Push(env), trace);
    case If(_, _) => ExecArmsMore(fuel, s, 0, env, trace);
    case While(_, _) => ExecWhileMore(fuel, s, env, trace);
    case Repeat(_, _) => ExecRepeatMore(fuel, s, env, trace);
    case ForNumeric(_, _, _, _, _) =>
      var vs := EvalAll(Bounds(s), env);
      if vs.Some? && vs.value[0].Num? && vs.value[1].Num? && vs.value[2].Num? && vs.value[2].n != 0 {
        ExecForMore(fuel, s, vs.value[0].n, vs.value[1].n, vs.value[2].n, env, trace);
      }
    case _ =>
  }

  lemma {:induction false} ExecSeqMore(fuel: nat, ss: seq<Stmt>, env: Env, trace: Trace)
    requires env != []
    ensures var r := ExecSeq(fuel, ss, env, trace); r.out.OutOfFuel? || ExecSeq(fuel + 1, ss, env, trace) == r
    decreases fuel, ss, 0
  {
    if ss != [] {
      ExecMore(fuel, ss[0], env, trace);
      var r := Exec(fuel, ss[0], env, trace);
      if r.out.Normal? {
        ExecSeqMore(fuel, ss[1..], r.env, r.trace);
      }
    }
  }

  lemma {:induction false} ExecArmsMore(fuel: nat, s: Stmt, k: nat, env: Env, trace: Trace)
    requires env != [] && s.If? && k <= |s.arms|
    ensures var r := ExecArms(fuel, s, k, env, trace); r.out.OutOfFuel? || ExecArms(fuel + 1, s, k, env, trace) == r
    decreases fuel, s, 0, |s.arms| - k
  {
    if k == |s.arms| {
      ExecSeqMore(fuel, s.elseBody, Push(env), trace);
    } else {
      ExecSeqMore(fuel, s.arms[k].body, Push(env), trace);
      ExecArmsMore(fuel, s, k + 1, env, trace);
    }
  }

  lemma {:induction false} ExecWhileMore(fuel: nat, s: Stmt, env: Env, trace: Trace)
    requires env != [] && s.While?
    ensures var r := ExecWhile(fuel, s, env, trace); r.out.OutOfFuel? || ExecWhile(fuel + 1, s, env, trace) == r
    decreases fuel, s, 0
  {
    if fuel > 0 {
      ExecSeqMore(fuel - 1, s.body, Push(env), trace);
      var r := ExecBody(fuel - 1, s.body, env, trace);
      if r.out.Normal? {
        ExecWhileMore(fuel - 1, s, r.env, r.trace);
      }
    }
  }

  lemma {:induction false} ExecRepeatMore(fuel: nat, s: Stmt, env: Env, trace: Trace)
    requires env != [] && s.Repeat?
    ensures var r := ExecRepeat(fuel, s, env, trace); r.out.OutOfFuel? || ExecRepeat(fuel + 1, s, env, trace) == r
    decreases fuel, s, 0
  {
    if fuel > 0 {
      ExecSeqMore(fuel - 1, s.body, Push(env), trace);
      var r := ExecSeq(fuel - 1, s.body, Push(env), trace);
      if r.out.Normal? {
        ExecRepeatMore(fuel - 1, s, Pop(r.env), r.trace);
      }
    }
  }

  lemma {:induction false} ExecForMore(fuel: nat, s: Stmt, i: int, stop: int, step: int, env: Env, trace: Trace)
    requires env != [] && s.ForNumeric?
    ensures var r := ExecFor(fuel, s, i, stop, step, env, trace);
            r.out.OutOfFuel? || ExecFor(fuel + 1, s, i, stop, step, env, trace) == r
    decreases fuel, s, 0
  {
    if fuel > 0 && ForGoesOn(i, stop, step) {
      var env1 := Bind(Push(env), s.loopVar, Num(i));
      var r := ExecSeq(fuel - 1, s.body, env1, trace);
      ExecSeqMore(fuel - 1, s.body, env1, trace);
      if r.out.Normal? {
        var next := ExecFor(fuel - 1, s, i + step, stop, step, Pop(r.env), r.trace);
        ExecForMore(fuel - 1, s, i + step, stop, step, Pop(r.env), r.trace);
        assert ExecFor(fuel, s, i, stop, step, env, trace) == next;
      }
    }
  }

  lemma {:induction false} ExecSeqMuchMore(fuel: nat, more: nat, ss: seq<Stmt>, env: Env, trace: Trace)
    requires env != [] && fuel <= more && !ExecSeq(fuel, ss, env, trace).out.OutOfFuel?
    ensures ExecSeq(more, ss, env, trace) == ExecSeq(fuel, ss, env, trace)
    decreases more
  {
    if fuel < more {
      ExecSeqMuchMore(fuel, more - 1, ss, env, trace);
      ExecSeqMore(more - 1, ss, env, trace);
    }
  }

  // ----- The target -----

  lemma {:induction false} HExecMore(fuel: nat, h: HStmt, store: Store, trace: Trace)
    ensures var q := HExec(fuel, h, store, trace); q.out.HOutOfFuel? || HExec(fuel + 1, h, store, trace) == q
    decreases fuel, h, 1
  {
    match h
    case HBlock(body) => HExecSeqMore(fuel, body, store, trace);
    case HIf(_, _) => HExecArmsMore(fuel, h, 0, store, trace);
    case HWhile(_, _, _) => HLoopMore(fuel, h, 0, 0, store, trace);
    case HRepeat(_, _, _) => HLoopMore(fuel, h, 0, 0, store, trace);
    case HFor(id, start, stop, step, _, _) =>
      var vs := HEvalAll([start, stop, step], store);
      if vs.Some? && vs.value[0].Num? && vs.value[1].Num? && vs.value[2].Num? {
        HLoopMore(fuel, h, vs.value[1].n, vs.value[2].n, store[id := vs.value[0]], trace);
      }
    case _ =>
  }

  lemma {:induction false} HExecSeqMore(fuel: nat, hs: seq<HStmt>, store: Store, trace: Trace)
    ensures var q := HExecSeq(fuel, hs, store, trace); q.out.HOutOfFuel? || HExecSeq(fuel + 1, hs, store, trace) == q
    decreases fuel, hs, 0
  {
    if hs != [] {
      HExecMore(fuel, hs[0], store, trace);
      var q := HExec(fuel, hs[0], store, trace);
      if q.out.HNormal? {
        HExecSeqMore(fuel, hs[1..], q.store, q.trace);
      }
    }
  }

  lemma {:induction false} HExecArmsMore(fuel: nat, h: HStmt, k: nat, store: Store, trace: Trace)
    requires h.HIf? && k <= |h.arms|
    ensures var q := HExecArms(fuel, h, k, store, trace); q.out.HOutOfFuel? || HExecArms(fuel + 1, h, k, store, trace) == q
    decreases fuel, h, 0, |h.arms| - k
  {
    if k == |h.arms| {
      HExecSeqMore(fuel, h.elseBody, store, trace);
    } else {
      HExecSeqMore(fuel, h.arms[k].body, store, trace);
      HExecArmsMore(fuel, h, k + 1, store, trace);
    }
  }

  lemma {:induction false} HLoopMore(fuel: nat, h: HStmt, stop: int, step: int, store: Store, trace: Trace)
    requires h.HWhile? || h.HRepeat? || h.HFor?
    ensures h.HWhile? ==>
              var q := HExecWhile(fuel, h, store, trace); q.out.HOutOfFuel? || HExecWhile(fuel + 1, h, store, trace) == q
    ensures h.HRepeat? ==>
              var q := HExecRepeat(fuel, h, store, trace); q.out.HOutOfFuel? || HExecRepeat(fuel + 1, h, store, trace) == q
    ensures h.HFor? ==>
              var q := HExecFor(fuel, h, stop, step, store, trace);
              q.out.HOutOfFuel? || HExecFor(fuel + 1, h, stop, step, store, trace) == q
    decreases fuel, h, 0
  {
    if fuel > 0 {
      HExecSeqMore(fuel - 1, h.body, store, trace);
      var q := HExecSeq(fuel - 1, h.body, store, trace);
      if h.HFor? {
        var j := Load(q.store, h.varId);
        if j.Num? {
          HLoopMore(fuel - 1, h, stop, step, q.store[h.varId := Num(j.n + step)], q.trace);
        }
      } else {
        HLoopMore(fuel - 1, h, stop, step, q.store, q.trace);
      }
    }
  }

  lemma {:induction false} HExecSeqMuchMore(fuel: nat, more: nat, hs: seq<HStmt>, store: Store, trace: Trace)
    requires fuel <= more && !HExecSeq(fuel, hs, store, trace).out.HOutOfFuel?
    ensures HExecSeq(more, hs, store, trace) == HExecSeq(fuel, hs, store, trace)
    decreases more
  {
    if fuel < more {
      HExecSeqMuchMore(fuel, more - 1, hs, store, trace);
      HExecSeqMore(more - 1, hs, store, trace);
    }
  }

  // ----- Halting -----

  ghost predicate Halts(ss: seq<Stmt>, env: Env, r: Result)
    requires env != []
  {
    !r.out.OutOfFuel? && exists fuel: nat :: ExecSeq(fuel, ss, env, []) == r
  }

  ghost predicate HHalts(hs: seq<HStmt>, store: Store, q: HResult) {
    !q.out.HOutOfFuel? && exists fuel: nat :: HExecSeq(fuel, hs, store, []) == q
  }

  /** With any fuel the two sides end alike, or the source stops at a zero step. */
  ghost predicate InStep(ss: seq<Stmt>, hs: seq<HStmt>, env: Env, store: Store)
    requires env != []
  {
    forall fuel: nat :: ExecSeq(fuel, ss, env, []).out.ZeroStep? ||
                        EndsAlike(ExecSeq(fuel, ss, env, []).out, HExecSeq(fuel, hs, store, []).out)
  }

  /** If the code halts, so does the source; if the source halts, but for a zero step, so does the code. */
  ghost predicate HaltAlike(ss: seq<Stmt>, hs: seq<HStmt>, env: Env, store: Store)
    requires env != []
  {
    && ((exists q :: HHalts(hs, store, q)) ==> exists r :: Halts(ss, env, r))
    && ((exists r :: Halts(ss, env, r) && !r.out.ZeroStep?) ==> exists q :: HHalts(hs, store, q))
  }

  lemma InStepHaltAlike(ss: seq<Stmt>, hs: seq<HStmt>, env: Env, store: Store)
    requires env != [] && InStep(ss, hs, env, store)
    ensures HaltAlike(ss, hs, env, store)
  {
    if r :| Halts(ss, env, r) && !r.out.ZeroStep? {
      var fuel: nat :| ExecSeq(fuel, ss, env, []) == r;
      assert HHalts(hs, store, HExecSeq(fuel, hs, store, []));
    }
    if q :| HHalts(hs, store, q) {
      var fuel: nat :| HExecSeq(fuel, hs, store, []) == q;
      assert Halts(ss, env, ExecSeq(fuel, ss, env, []));
    }
  }

  /** Two halting runs are reached with some common fuel. */
  lemma CommonFuel(ss: seq<Stmt>, hs: seq<HStmt>, env: Env, store: Store, r: Result, q: HResult) returns (fuel: nat)
    requires env != [] && Halts(ss, env, r) && HHalts(hs, store, q)
    ensures ExecSeq(fuel, ss, env, []) == r && HExecSeq(fuel, hs, store, []) == q
  {
    var f: nat :| ExecSeq(f, ss, env, []) == r;
    var g: nat :| HExecSeq(g, hs, store, []) == q;
    fuel := if f <= g then g else f;
    ExecSeqMuchMore(f, fuel, ss, env, []);
    HExecSeqMuchMore(g, fuel, hs, store, []);
  }

  /**
   Break elimination, name resolution and folding together: zero steps apart, a chunk of the fragment halts
   if and only if its code does; each then has one result, and the two agree unless the source stops at a zero
   step.
   */
  lemma ChunkHaltsAlike(chunk: seq<Stmt>, store: Store, r: Result, q: HResult)
    requires UserStmts(chunk) && LowerChunk(chunk).Ok? && FragSeq(chunk, EMPTY_CTX, None, false)
    requires StoreTyped(store, LowerChunk(chunk).value.c.locals, {})
    ensures HaltAlike(chunk, LowerChunk(chunk).value.hs, [map[]], store)
    ensures Halts(chunk, [map[]], r) && HHalts(LowerChunk(chunk).value.hs, store, q) ==>
              r.out.ZeroStep? || Agree(LowerChunk(chunk).value.c.scopes, r, q)
  {
    var hs := LowerChunk(chunk).value.hs;
    forall fuel: nat
      ensures ExecSeq(fuel, chunk, [map[]], []).out.ZeroStep? ||
              EndsAlike(ExecSeq(fuel, chunk, [map[]], []).out, HExecSeq(fuel, hs, store, []).out)
    {
      ChunkCorrect(chunk, fuel, store, []);
    }
    InStepHaltAlike(chunk, hs, [map[]], store);
    if Halts(chunk, [map[]], r) && HHalts(hs, store, q) {
      var fuel := CommonFuel(chunk, hs, [map[]], store, r, q);
      ChunkCorrect(chunk, fuel, store, []);
    }
  }

  /** The same for a function body: what its callers find is settled by the one result each side has. */
  lemma FunctionHaltsAlike(params: seq<LocalInfo>, body: seq<Stmt>, env: Env, store: Store, r: Result, q: HResult)
    requires UserStmts(body)
    requires var c := DeclareParams(EMPTY_CTX, params);
             var c1 := EnterFunction(c, BodyReturnArity(body));
             var l := LowerFunctionBody(body, c);
             && l.Ok? && FragSeq(body, c1, Some(c1.fn.value.returned), false)
             && Rel(c.scopes, env, store) && StoreTyped(store, l.value.c.locals, RetSet(c1))
    ensures var c := DeclareParams(EMPTY_CTX, params);
            var c1 := EnterFunction(c, BodyReturnArity(body));
            var l := LowerFunctionBody(body, c).value;
            && env != []
            && HaltAlike(body, l.hs, env, store)
            && (Halts(body, env, r) && HHalts(l.hs, store, q) ==>
                  r.out.ZeroStep? || Answers(c1.fn.value, l.c.locals, r, q))
  {
    var hs := LowerFunctionBody(body, DeclareParams(EMPTY_CTX, params)).value.hs;
    forall fuel: nat
      ensures ExecSeq(fuel, body, env, []).out.ZeroStep? ||
              EndsAlike(ExecSeq(fuel, body, env, []).out, HExecSeq(fuel, hs, store, []).out)
    {
      FunctionCorrect(params, body, fuel, env, store, []);
    }
    InStepHaltAlike(body, hs, env, store);
    if Halts(body, env, r) && HHalts(hs, store, q) {
      var fuel := CommonFuel(body, hs, env, store, r, q);
      FunctionCorrect(params, body, fuel, env, store, []);
    }
  }
}

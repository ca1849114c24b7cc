/** Code only ever adds to what has been printed. */
module HirTraces {
  import opened HirSyntax
  import opened HirSemantics

  lemma PrefixTransitive(a: Trace, b: Trace, c: Trace)
    requires a <= b && b <= c
    ensures a <= c
  {}

  lemma {:induction false} HExecExtends(fuel: nat, h: HStmt, store: Store, trace: Trace)
    ensures trace <= HExec(fuel, h, store, trace).trace
    decreases fuel, h, 1
  {
    match h
    case HBlock(body) => HExecSeqExtends(fuel, body, store, trace);
    case HIf(_, _) => HExecArmsExtends(fuel, h, 0, store, trace);
    case HWhile(_, _, _) => HLoopExtends(fuel, h, 0, 0, store, trace);
    case HRepeat(_, _, _) => HLoopExtends(fuel, h, 0, 0, store, trace);
    case HFor(id, start, stop, step, _, _) =>
      var vs := HEvalAll([start, stop, step], store);
      if vs.Some? && vs.value[0].Num? && vs.value[1].Num? && vs.value[2].Num? {
        HLoopExtends(fuel, h, vs.value[1].n, vs.value[2].n, store[id := vs.value[0]], trace);
      }
    case _ =>
  }

  lemma {:induction false} HExecSeqExtends(fuel: nat, hs: seq<HStmt>, store: Store, trace: Trace)
    ensures trace <= HExecSeq(fuel, hs, store, trace).trace
    decreases fuel, hs, 0
  {
    if hs != [] {
      HExecExtends(fuel, hs[0], store, trace);
      var q := HExec(fuel, hs[0], store, trace);
      if q.out.HNormal? {
        HExecSeqExtends(fuel, hs[1..], q.store, q.trace);
        PrefixTransitive(trace, q.trace, HExecSeq(fuel, hs[1..], q.store, q.trace).trace);
      }
    }
  }

  lemma {:induction false} HExecArmsExtends(fuel: nat, h: HStmt, k: nat, store: Store, trace: Trace)
    requires h.HIf? && k <= |h.arms|
    ensures trace <= HExecArms(fuel, h, k, store, trace).trace
    decreases fuel, h, 0, |h.arms| - k
  {
    if k == |h.arms| {
      HExecSeqExtends(fuel, h.elseBody, store, trace);
    } else {
      HExecSeqExtends(fuel, h.arms[k].body, store, trace);
      HExecArmsExtends(fuel, h, k + 1, store, trace);
    }
  }

  lemma {:induction false} HLoopExtends(fuel: nat, h: HStmt, stop: int, step: int, store: Store, trace: Trace)
    requires h.HWhile? || h.HRepeat? || h.HFor?
    ensures h.HWhile? ==> trace <= HExecWhile(fuel, h, store, trace).trace
    ensures h.HRepeat? ==> trace <= HExecRepeat(fuel, h, store, trace).trace
    ensures h.HFor? ==> trace <= HExecFor(fuel, h, stop, step, store, trace).trace
    decreases fuel, h, 0
  {
    if fuel > 0 {
      HExecSeqExtends(fuel - 1, h.body, store, trace);
      var q := HExecSeq(fuel - 1, h.body, store, trace);
      if h.HFor? {
        var j := Load(q.store, h.varId);
        if j.Num? {
          HLoopExtends(fuel - 1, h, stop, step, q.store[h.varId := Num(j.n + step)], q.trace);
        }
      } else {
        HLoopExtends(fuel - 1, h, stop, step, q.store, q.trace);
      }
    }
  }
}

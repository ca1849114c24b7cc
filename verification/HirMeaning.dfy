/**
 What the source semantics comes to: which binding a name in nested scopes has, what declaring and assigning do to
 the others, and how a numeric loop counts.
 */
module HirMeaning {
  import opened Wrappers
  import opened Int64
  import opened HirSyntax
  import opened HirSemantics

  // ----- Names -----

  /** The innermost frame that binds the name is the `f`-th. */
  predicate BoundAt<T>(frames: seq<map<string, T>>, name: string, f: nat) {
    f < |frames| && name in frames[f] && forall g | f < g < |frames| :: name !in frames[g]
  }

  /** A name resolves to its innermost binding, and to nothing only if no frame binds it. */
  lemma {:induction false} ResolvesInnermost<T>(frames: seq<map<string, T>>, name: string, f: nat)
    ensures BoundAt(frames, name, f) ==> Resolve(frames, name) == Some(frames[f][name])
    ensures Resolve(frames, name).None? <==> forall g | 0 <= g < |frames| :: name !in frames[g]
    decreases |frames|
  {
    if frames != [] {
      var last := |frames| - 1;
      ResolvesInnermost(frames[..last], name, f);
      if BoundAt(frames, name, f) && f < last {
        assert BoundAt(frames[..last], name, f);
      }
    }
  }

  /** An update changes that binding and nothing else. */
  lemma {:induction false} UpdatesInnermost<T>(frames: seq<map<string, T>>, name: string, v: T, f: nat)
    ensures BoundAt(frames, name, f) ==> Update(frames, name, v) == frames[f := frames[f][name := v]]
    ensures (forall g | 0 <= g < |frames| :: name !in frames[g]) ==> Update(frames, name, v) == frames
    decreases |frames|
  {
    if frames != [] {
      var last := |frames| - 1;
      UpdatesInnermost(frames[..last], name, v, f);
      assert frames[..last] + [frames[last]] == frames;
      if BoundAt(frames, name, f) && f < last {
        assert BoundAt(frames[..last], name, f);
      }
    }
  }

  /** A declaration in an inner scope shadows its name there alone, and is gone behind the scope. */
  lemma DeclarationShadows<T>(frames: seq<map<string, T>>, name: string, v: T, other: string)
    ensures var inner := Bind(Push(frames), name, v);
            && Resolve(inner, other) == (if other == name then Some(v) else Resolve(frames, other))
            && Pop(inner) == frames
  {
    var inner := Bind(Push(frames), name, v);
    assert inner[..|frames|] == frames;
  }

  /** A global is seen from every scope that does not bind its name. */
  lemma GlobalIsSeen<T>(frames: seq<map<string, T>>, name: string, v: T, other: string)
    requires frames != []
    ensures var more := BindBottom(frames, name, v);
            && more[1..] == frames[1..]
            && Resolve(more, other)
               == if other == name && Resolve(frames[1..], name).None? then Some(v) else Resolve(frames, other)
  {
    GlobalUpTo(frames, name, v, other, |frames|);
    assert frames[..|frames|] == frames && BindBottom(frames, name, v)[..|frames|] == BindBottom(frames, name, v);
    assert frames[1..|frames|] == frames[1..];
  }

  lemma {:induction false} GlobalUpTo<T>(frames: seq<map<string, T>>, name: string, v: T, other: string, k: nat)
    requires 1 <= k <= |frames|
    ensures Resolve(BindBottom(frames, name, v)[..k], other)
         == if other == name && Resolve(frames[1..k], name).None? then Some(v) else Resolve(frames[..k], other)
    decreases k
  {
    var more := BindBottom(frames, name, v);
    if k == 1 {
      assert more[..1][..0] == frames[..1][..0];
    } else {
      GlobalUpTo(frames, name, v, other, k - 1);
      assert more[..k][..k - 1] == more[..k - 1] && frames[..k][..k - 1] == frames[..k - 1];
      assert frames[1..k][..k - 2] == frames[1..k - 1];
    }
  }

  // ----- Counting -----

  /** From `i` in steps of `step`, `n` values come up to the limit and the next lies beyond it. */
  predicate Trips(i: int, stop: int, step: int, n: nat) {
    && (forall k | 0 <= k < n :: !Beyond(i + k * step, stop, step))
    && Beyond(i + n * step, stop, step)
  }

  predicate Beyond(i: int, stop: int, step: int) {
    if step > 0 then stop - i < 0 else stop - i > 0
  }

  /** One print for each of the values. */
  function Counted(i: int, step: int, n: nat): Trace { seq(n, k requires 0 <= k < n => [Num(i + k * step)]) }

  /** `for v = i, stop, step do print(v) end` prints the arithmetic progression up to the limit. */
  lemma ForCounts(fuel: nat, v: string, i: I64, stop: I64, step: I64, n: nat, env: Env, trace: Trace)
    requires env != [] && step != 0 && Trips(i, stop, step, n) && fuel >= n
    ensures Exec(fuel, ForNumeric(v, Integer(i), Integer(stop), Some(Integer(step)), [Print([Ident(v)])]), env, trace)
         == Result(Normal, env, trace + Counted(i, step, n))
  {
    var s := ForNumeric(v, Integer(i), Integer(stop), Some(Integer(step)), [Print([Ident(v)])]);
    BoundsEval(s, i, stop, step, env);
    ForCountsFrom(fuel, s, i, stop, step, n, env, trace);
  }

  lemma BoundsEval(s: Stmt, i: I64, stop: I64, step: I64, env: Env)
    requires s.ForNumeric? && Bounds(s) == [Integer(i), Integer(stop), Integer(step)]
    ensures EvalAll(Bounds(s), env) == Some([Num(i), Num(stop), Num(step)])
  {
    var es := Bounds(s);
    assert es[1..] == [Integer(stop), Integer(step)] && es[1..][1..] == [Integer(step)] && es[1..][1..][1..] == [];
    assert EvalAll(es[1..][1..][1..], env) == Some([]);
    assert [Num(step)] + [] == [Num(step)];
    assert EvalAll(es[1..][1..], env) == Some([Num(step)]);
    assert [Num(stop)] + [Num(step)] == [Num(stop), Num(step)];
    assert EvalAll(es[1..], env) == Some([Num(stop), Num(step)]);
    assert [Num(i)] + [Num(stop), Num(step)] == [Num(i), Num(stop), Num(step)];
  }

  lemma TripsNext(i: int, stop: int, step: int, n: nat)
    requires Trips(i, stop, step, n) && n > 0
    ensures !Beyond(i, stop, step) && Trips(i + step, stop, step, n - 1)
  {
    assert !Beyond(i + 0 * step, stop, step);
    forall k | 0 <= k < n - 1 ensures !Beyond(i + step + k * step, stop, step) {
      assert i + step + k * step == i + (k + 1) * step;
    }
    assert i + step + (n - 1) * step == i + n * step;
  }

  lemma CountedNext(i: int, step: int, n: nat)
    requires n > 0
    ensures Counted(i, step, n) == [[Num(i)]] + Counted(i + step, step, n - 1)
  {
    var rest := Counted(i + step, step, n - 1);
    forall k | 0 <= k < |rest| ensures rest[k] == Counted(i, step, n)[k + 1] {
      assert i + (k + 1) * step == i + step + k * step;
    }
  }

  lemma PrintsVariable(fuel: nat, v: string, i: int, env: Env, trace: Trace)
    requires env != []
    ensures ExecSeq(fuel, [Print([Ident(v)])], Bind(Push(env), v, Num(i)), trace)
         == Result(Normal, Bind(Push(env), v, Num(i)), trace + [[Num(i)]])
  {
    var inner := Bind(Push(env), v, Num(i));
    assert EvalAll([Ident(v)][1..], inner) == Some([]) && [Num(i)] + [] == [Num(i)];
    assert Eval(Ident(v), inner) == Some(Num(i));
    assert EvalAll([Ident(v)], inner) == Some([Num(i)]);
    var r := Exec(fuel, Print([Ident(v)]), inner, trace);
    assert r == Result(Normal, inner, trace + [[Num(i)]]);
    assert ExecSeq(fuel, [Print([Ident(v)])][1..], inner, trace + [[Num(i)]]) == r;
  }

  lemma {:induction false} ForCountsFrom(
      fuel: nat, s: Stmt, i: int, stop: int, step: int, n: nat, env: Env, trace: Trace)
    requires env != [] && s.ForNumeric? && s.body == [Print([Ident(s.loopVar)])]
    requires step != 0 && Trips(i, stop, step, n) && fuel >= n
    ensures ExecFor(fuel, s, i, stop, step, env, trace) == Result(Normal, env, trace + Counted(i, step, n))
    decreases n
  {
    if n == 0 {
      assert trace + Counted(i, step, n) == trace;
    } else {
      TripsNext(i, stop, step, n);
      CountedNext(i, step, n);
      PrintsVariable(fuel - 1, s.loopVar, i, env, trace);
      DeclarationShadows(env, s.loopVar, Num(i), s.loopVar);
      ForCountsFrom(fuel - 1, s, i + step, stop, step, n - 1, env, trace + [[Num(i)]]);
      assert trace + [[Num(i)]] + Counted(i + step, step, n - 1) == trace + Counted(i, step, n);
    }
  }
}

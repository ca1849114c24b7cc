/**
 What the lowering computes.  Names become slots, `break` and `return` become flags, integer literals are
 folded, and kinds are checked.  `LowerStmt` and its companions are functions of the lowering context;
 the lowering itself, which updates that context in place, is in module `HirLowerer`.
 */
module HirLower {
  import opened Wrappers
  import opened Int64
  import opened Numerals
  import opened HirSyntax

  datatype LowerError =
    | UndefinedName(name: string)
    | ReadOnlyAssign(name: string)
    | TypeMismatch
    | ArityMismatch
    | BreakOutsideLoop
    | ReturnOutsideFunction
    | CompilerPanic

  datatype Lowering<+T> = Ok(value: T) | Err(error: LowerError) {
    predicate IsFailure() { Err? }
    function PropagateFailure<U>(): Lowering<U>
      requires Err?
    {
      Err(error)
    }
    function Extract(): T
      requires Ok?
    {
      value
    }
  }

  datatype LocalInfo = LocalInfo(name: string, kind: Kind)

  /** The synthetic slots of a function body: its `_returned` flag and one slot for each result. */
  datatype FnSlots = FnSlots(returned: nat, rets: seq<nat>)

  datatype Ctx = Ctx(
    locals: seq<LocalInfo>,
    scopes: seq<map<string, nat>>,
    readonly: set<nat>,
    targets: seq<Option<nat>>,
    fn: Option<FnSlots>,
    retKinds: Option<seq<Kind>>)

  const EMPTY_CTX := Ctx([], [map[]], {}, [], None, None)

  /** The flag that guards statements here: that of the innermost loop, or of the function body. */
  function Target(c: Ctx): Option<nat> {
    if c.targets == [] then None else c.targets[|c.targets| - 1]
  }

  // ----- Synthetic names -----

  const BROKEN_PREFIX := "_broken_"
  const TMP_PREFIX := "_multi_tmp_"
  const RET_PREFIX := "_ret_value_"
  const RETURNED_NAME := "_returned"

  /** `name` is `prefix` with a decimal numeral behind it. */
  ghost predicate Numbered(prefix: string, name: string) {
    exists n: nat {:trigger prefix + Decimal(n)} :: name == prefix + Decimal(n)
  }

  /** A name the lowering never makes up itself. */
  ghost predicate UserName(name: string) {
    && !Numbered(BROKEN_PREFIX, name) && !Numbered(TMP_PREFIX, name) && !Numbered(RET_PREFIX, name)
    && name != RETURNED_NAME
  }

  /** Which names those are can be read off their spelling. */
  lemma NumberedBySpelling(prefix: string, name: string)
    ensures Numbered(prefix, name) <==>
            prefix <= name && name[|prefix|..] == Decimal(NumeralValue(name[|prefix|..], 10))
  {
    if Numbered(prefix, name) {
      var n: nat :| name == prefix + Decimal(n);
      DecimalValue(n);
      assert name[|prefix|..] == Decimal(n);
    } else if prefix <= name {
      assert name == prefix + name[|prefix|..];
    }
  }

  // ----- Expressions -----

  function InferKind(h: HExpr, locals: seq<LocalInfo>): Kind {
    match h
    case HInteger(_) => NumberKind
    case HBool(_) => BoolKind
    case HNil => NilKind
    case HLocal(id) => if id < |locals| then locals[id].kind else NilKind
    case HUnaryOp(op, _) => if op.Not? then BoolKind else NumberKind
    case HBinOp(op, lhs, _) =>
      if IsArith(op) then NumberKind
      else if op.And? || op.Or? then InferKind(lhs, locals)
      else BoolKind
  }

  predicate NumberCompatible(k: Kind) { k.NumberKind? || k.TaggedKind? }

  /** Kind checks of a binary operator, and the fold of `==` and `~=` on different kinds. */
  function LowerBinOp(op: BinOp, lhs: HExpr, rhs: HExpr, locals: seq<LocalInfo>): Lowering<HExpr> {
    var lk, rk := InferKind(lhs, locals), InferKind(rhs, locals);
    if IsArith(op) || IsOrder(op) then
      if NumberCompatible(lk) && NumberCompatible(rk) then Ok(HBinOp(op, lhs, rhs)) else Err(TypeMismatch)
    else if op.Eq? || op.Ne? then
      if FoldsEquality(lk, rk) then Ok(HBool((lk == rk) == op.Eq?)) else Ok(HBinOp(op, lhs, rhs))
    else
      if lk == rk then Ok(HBinOp(op, lhs, rhs)) else Err(TypeMismatch)
  }

  predicate FoldsEquality(lk: Kind, rk: Kind) {
    !lk.TaggedKind? && !rk.TaggedKind? && (lk != rk || lk.NilKind?)
  }

  function LowerExpr(e: Expr, c: Ctx): Lowering<HExpr> {
    match e
    case Integer(i) => Ok(HInteger(i))
    case Bool(b) => Ok(HBool(b))
    case Nil => Ok(HNil)
    case Ident(name) =>
      (match Resolve<nat>(c.scopes, name)
       case Some(id) => Ok(HLocal(id))
       case None => Err(UndefinedName(name)))
    case BinOp(op, lhs, rhs) =>
      var l :- LowerExpr(lhs, c);
      var r :- LowerExpr(rhs, c);
      if l.HInteger? && r.HInteger? && !FoldInt(op, l.i, r.i).Declined? then
        if FoldInt(op, l.i, r.i).Panics? then Err(CompilerPanic) else Ok(HInteger(FoldInt(op, l.i, r.i).value))
      else LowerBinOp(op, l, r, c.locals)
    case UnaryOp(op, operand) =>
      var h :- LowerExpr(operand, c);
      Ok(HUnaryOp(op, h))
  }

  function LowerExprs(es: seq<Expr>, c: Ctx): (r: Lowering<seq<HExpr>>)
    ensures r.Ok? ==> |r.value| == |es|
  {
    if es == [] then Ok([])
    else
      var h :- LowerExpr(es[0], c);
      var hs :- LowerExprs(es[1..], c);
      Ok([h] + hs)
  }

  // ----- Declarations and assignments -----

  function Declare(c: Ctx, name: string, kind: Kind): (r: Ctx)
    requires c.scopes != []
    ensures |r.scopes| == |c.scopes|
  {
    c.(locals := c.locals + [LocalInfo(name, kind)], scopes := Bind(c.scopes, name, |c.locals|))
  }

  datatype Lowered = Lowered(h: HStmt, c: Ctx)
  datatype LoweredSeq = LoweredSeq(hs: seq<HStmt>, c: Ctx)

  function Inits(hs: seq<HExpr>, first: nat): seq<HStmt> {
    seq(|hs|, k requires 0 <= k < |hs| => HLocalInit(first + k, hs[k]))
  }

  /** Declare names for the lowered values, left to right. */
  function DeclareAll(c: Ctx, names: seq<string>, hs: seq<HExpr>): (r: Ctx)
    requires c.scopes != [] && |names| == |hs|
    ensures |r.scopes| == |c.scopes|
    decreases |names|
  {
    if names == [] then c
    else DeclareAll(Declare(c, names[0], InferKind(hs[0], c.locals)), names[1..], hs[1..])
  }

  /** Fresh temporaries for the values of a parallel assignment. */
  function DeclareTemps(c: Ctx, hs: seq<HExpr>): (r: Ctx)
    requires c.scopes != []
    ensures |r.scopes| == |c.scopes|
    decreases |hs|
  {
    if hs == [] then c
    else DeclareTemps(Declare(c, TMP_PREFIX + Decimal(|c.locals|), InferKind(hs[0], c.locals)), hs[1..])
  }

  /** Outside a function an unresolved target is declared in the chunk's scope. */
  function LowerAssignTarget(name: string, value: HExpr, c: Ctx): (r: Lowering<Lowered>)
    requires c.scopes != []
    ensures r.Ok? ==> |r.value.c.scopes| == |c.scopes|
  {
    var kind := InferKind(value, c.locals);
    match Resolve<nat>(c.scopes, name)
    case Some(id) =>
      if id in c.readonly then Err(ReadOnlyAssign(name))
      else if id < |c.locals| && c.locals[id].kind != kind then Err(TypeMismatch)
      else Ok(Lowered(HAssign(id, value), c))
    case None =>
      if c.fn.Some? then Err(UndefinedName(name))
      else
        Ok(Lowered(HLocalInit(|c.locals|, value),
                   c.(locals := c.locals + [LocalInfo(name, kind)], scopes := BindBottom(c.scopes, name, |c.locals|))))
  }

  /** Move temporaries, numbered from `first`, to their targets. */
  function LowerTargets(names: seq<string>, first: nat, c: Ctx): (r: Lowering<LoweredSeq>)
    requires c.scopes != []
    ensures r.Ok? ==> |r.value.c.scopes| == |c.scopes|
    decreases |names|
  {
    if names == [] then Ok(LoweredSeq([], c))
    else
      var a :- LowerAssignTarget(names[0], HLocal(first), c);
      var rest :- LowerTargets(names[1..], first + 1, a.c);
      Ok(LoweredSeq([a.h] + rest.hs, rest.c))
  }

  // ----- Loops, guards and returns -----

  predicate ContainsBreak(s: Stmt) {
    match s
    case Break => true
    case Block(body) => BodyContainsBreak(body)
    case If(arms, elseBody) =>
      (exists k | 0 <= k < |arms| :: BodyContainsBreak(arms[k].body)) || BodyContainsBreak(elseBody)
    case _ => false
  }

  /** A `break` that leaves the loop this is the body of; those of nested loops do not count. */
  predicate BodyContainsBreak(ss: seq<Stmt>) {
    exists k | 0 <= k < |ss| :: ContainsBreak(ss[k])
  }

  function WrapGuard(h: HStmt, guard: Option<nat>): HStmt {
    match guard
    case None => h
    case Some(flag) => HIf([HArm(HUnaryOp(Not, HLocal(flag)), [h])], [])
  }

  function WrapInit(h: HStmt, flag: Option<nat>): HStmt {
    match flag
    case None => h
    case Some(id) => HBlock([HLocalInit(id, HBool(false)), h])
  }

  /** A loop whose body breaks gets a flag, declared around the loop; either way it becomes the target. */
  function EnterLoop(c: Ctx, body: seq<Stmt>): (r: Ctx)
    requires c.scopes != []
    ensures |r.scopes| == |c.scopes|
  {
    if BodyContainsBreak(body) then
      Declare(c, BROKEN_PREFIX + Decimal(|c.locals|), BoolKind).(targets := c.targets + [Some(|c.locals|)])
    else c.(targets := c.targets + [None])
  }

  function LeaveLoop(c: Ctx): Ctx {
    if c.targets == [] then c else c.(targets := c.targets[..|c.targets| - 1])
  }

  function PushScope(c: Ctx): Ctx { c.(scopes := Push(c.scopes)) }

  function PopScope(c: Ctx): Ctx
    requires c.scopes != []
  {
    c.(scopes := Pop(c.scopes))
  }

  /** Raise the kinds of result slots to those of the first `return`. */
  function SetKinds(locals: seq<LocalInfo>, ids: seq<nat>, kinds: seq<Kind>): (r: seq<LocalInfo>)
    ensures |r| == |locals|
    decreases |ids|
  {
    if ids == [] || kinds == [] then locals
    else SetKinds(SetKind(locals, ids[0], kinds[0]), ids[1..], kinds[1..])
  }

  function SetKind(locals: seq<LocalInfo>, id: nat, kind: Kind): (r: seq<LocalInfo>)
    ensures |r| == |locals|
  {
    if id < |locals| then locals[id := locals[id].(kind := kind)] else locals
  }

  /** Tag the result slots whose kind the next `return` contradicts. */
  function WidenSlots(locals: seq<LocalInfo>, ids: seq<nat>, prev: seq<Kind>, kinds: seq<Kind>): (r: seq<LocalInfo>)
    requires |prev| == |kinds|
    ensures |r| == |locals|
    decreases |ids|
  {
    if ids == [] || prev == [] then locals
    else
      var kept := prev[0] == kinds[0] || prev[0].TaggedKind?;
      WidenSlots(if kept then locals else SetKind(locals, ids[0], TaggedKind), ids[1..], prev[1..], kinds[1..])
  }

  /** A kind to be tagged has no result slot: no slots are reserved for the returns of a `repeat`. */
  predicate WidensBeyond(slots: nat, prev: seq<Kind>, kinds: seq<Kind>)
    requires |prev| == |kinds|
  {
    exists k | slots <= k < |prev| :: prev[k] != kinds[k] && !prev[k].TaggedKind?
  }

  /** The merged kinds of two returns: where they differ, the slot is tagged. */
  function MergeKinds(prev: seq<Kind>, kinds: seq<Kind>): (r: seq<Kind>)
    requires |prev| == |kinds|
    ensures |r| == |prev|
  {
    seq(|prev|, k requires 0 <= k < |prev| => if prev[k] == kinds[k] then prev[k] else TaggedKind)
  }

  function Kinds(hs: seq<HExpr>, locals: seq<LocalInfo>): (r: seq<Kind>)
    ensures |r| == |hs|
  {
    seq(|hs|, k requires 0 <= k < |hs| => InferKind(hs[k], locals))
  }

  function ReturnCode(slots: FnSlots, hs: seq<HExpr>): HStmt {
    HBlock(RetAssigns(slots.rets, hs) + [HAssign(slots.returned, HBool(true))])
  }

  function RetAssigns(rets: seq<nat>, hs: seq<HExpr>): seq<HStmt>
    decreases |hs|
  {
    if rets == [] || hs == [] then [] else [HAssign(rets[0], hs[0])] + RetAssigns(rets[1..], hs[1..])
  }

  function LowerReturn(hs: seq<HExpr>, c: Ctx): (r: Lowering<Lowered>)
    ensures r.Ok? ==> r.value.c.scopes == c.scopes
  {
    if c.fn.None? then Err(ReturnOutsideFunction)
    else
      var slots, kinds := c.fn.value, Kinds(hs, c.locals);
      var code := ReturnCode(slots, hs);
      match c.retKinds
      case None =>
        Ok(Lowered(code, c.(locals := SetKinds(c.locals, slots.rets, kinds), retKinds := Some(kinds))))
      case Some(prev) =>
        if |prev| != |kinds| then Err(ArityMismatch)
        else if WidensBeyond(|slots.rets|, prev, kinds) then Err(CompilerPanic)
        else Ok(Lowered(code, c.(locals := WidenSlots(c.locals, slots.rets, prev, kinds),
                                 retKinds := Some(MergeKinds(prev, kinds)))))
  }

  // ----- Statements -----

  function LowerStmt(s: Stmt, c: Ctx): (r: Lowering<Lowered>)
    requires c.scopes != []
    ensures r.Ok? ==> |r.value.c.scopes| == |c.scopes|
    decreases s, 1
  {
    match s
    case Local(name, value) =>
      var h :- LowerExpr(value, c);
      Ok(Lowered(HLocalInit(|c.locals|, h), Declare(c, name, InferKind(h, c.locals))))
    case LocalMulti(names, values) =>
      if |names| != |values| then
        if |values| == 1 then var _ :- LowerExpr(values[0], c); Err(ArityMismatch)
        else Err(ArityMismatch)
      else
        var hs :- LowerExprs(values, c);
        Ok(Lowered(HBlock(Inits(hs, |c.locals|)), DeclareAll(c, names, hs)))
    case Assign(name, value) =>
      var h :- LowerExpr(value, c);
      LowerAssignTarget(name, h, c)
    case AssignMulti(names, values) =>
      if |names| != |values| then
        if |values| == 1 && |names| > 1 then var _ :- LowerExpr(values[0], c); Err(ArityMismatch)
        else Err(ArityMismatch)
      else
        var hs :- LowerExprs(values, c);
        var moves :- LowerTargets(names, |c.locals|, DeclareTemps(c, hs));
        Ok(Lowered(HBlock(Inits(hs, |c.locals|) + moves.hs), moves.c))
    case Block(body) =>
      var b :- LowerSeq(body, PushScope(c), None);
      Ok(Lowered(HBlock(b.hs), PopScope(b.c)))
    case If(arms, elseBody) =>
      var a :- LowerArms(s, 0, c);
      var b :- LowerBody(elseBody, a.1);
      Ok(Lowered(HIf(a.0, b.hs), b.c))
    case While(cond, body) =>
      var c1 := EnterLoop(c, body);
      var h :- LowerExpr(cond, c1);
      var b :- LowerBody(body, c1);
      Ok(Lowered(WrapInit(HWhile(h, b.hs, Target(c1)), Target(c1)), LeaveLoop(b.c)))
    case Repeat(body, cond) =>
      var c1 := EnterLoop(c, body);
      var b :- LowerSeq(body, PushScope(c1), Target(c1));
      var h :- LowerExpr(cond, b.c);
      Ok(Lowered(WrapInit(HRepeat(b.hs, h, Target(c1)), Target(c1)), LeaveLoop(PopScope(b.c))))
    case ForNumeric(v, start, stop, step, body) =>
      var hs :- LowerExprs(Bounds(s), c);
      if Kinds(hs, c.locals) != [NumberKind, NumberKind, NumberKind] then Err(TypeMismatch)
      else
        var c1 := EnterLoop(c, body);
        var id := |c1.locals|;
        var b :- LowerSeq(body, EnterFor(c1, v), Target(c1));
        Ok(Lowered(WrapInit(HFor(id, hs[0], hs[1], hs[2], b.hs, Target(c1)), Target(c1)),
                   LeaveLoop(PopScope(b.c.(readonly := b.c.readonly - {id})))))
    case Break =>
      (match Target(c)
       case None => Err(BreakOutsideLoop)
       case Some(flag) => Ok(Lowered(HAssign(flag, HBool(true)), c)))
    case Return(values) =>
      var hs :- LowerExprs(values, c);
      LowerReturn(hs, c)
    case Print(args) =>
      var hs :- LowerExprs(args, c);
      Ok(Lowered(HPrint(hs), c))
  }

  /** The body scope of a numeric loop, holding its read-only variable. */
  function EnterFor(c: Ctx, v: string): (r: Ctx)
    ensures |r.scopes| == |c.scopes| + 1
  {
    Declare(PushScope(c), v, NumberKind).(readonly := c.readonly + {|c.locals|})
  }

  /** Each statement in turn, under `guard` if there is one. */
  function LowerSeq(ss: seq<Stmt>, c: Ctx, guard: Option<nat>): (r: Lowering<LoweredSeq>)
    requires c.scopes != []
    ensures r.Ok? ==> |r.value.c.scopes| == |c.scopes| && |r.value.hs| == |ss|
    decreases ss, 0
  {
    if ss == [] then Ok(LoweredSeq([], c))
    else
      var first :- LowerStmt(ss[0], c);
      var rest :- LowerSeq(ss[1..], first.c, guard);
      Ok(LoweredSeq([WrapGuard(first.h, guard)] + rest.hs, rest.c))
  }

  /** A body in a scope of its own, guarded by the current target. */
  function LowerBody(ss: seq<Stmt>, c: Ctx): (r: Lowering<LoweredSeq>)
    requires c.scopes != []
    ensures r.Ok? ==> |r.value.c.scopes| == |c.scopes|
    decreases ss, 1
  {
    var b :- LowerSeq(ss, PushScope(c), Target(c));
    Ok(b.(c := PopScope(b.c)))
  }

  function LowerArms(s: Stmt, k: nat, c: Ctx): (r: Lowering<(seq<HArm>, Ctx)>)
    requires c.scopes != [] && s.If? && k <= |s.arms|
    ensures r.Ok? ==> |r.value.1.scopes| == |c.scopes| && |r.value.0| == |s.arms| - k
    decreases s, 0, |s.arms| - k
  {
    if k == |s.arms| then Ok(([], c))
    else
      var cond :- LowerExpr(s.arms[k].cond, c);
      var b :- LowerBody(s.arms[k].body, c);
      var rest :- LowerArms(s, k + 1, b.c);
      Ok(([HArm(cond, b.hs)] + rest.0, rest.1))
  }

  // ----- Function bodies -----

  function MaxNat(a: nat, b: nat): nat { if a >= b then a else b }

  /** The largest number of results of any `return`; `repeat` bodies are not searched. */
  function ReturnArity(s: Stmt): nat
    decreases s, 1
  {
    match s
    case Return(values) => |values|
    case Block(body) => BodyReturnArity(body)
    case If(arms, elseBody) => MaxNat(ArmsReturnArity(s, 0), BodyReturnArity(elseBody))
    case While(_, body) => BodyReturnArity(body)
    case ForNumeric(_, _, _, _, body) => BodyReturnArity(body)
    case _ => 0
  }

  function ArmsReturnArity(s: Stmt, k: nat): nat
    requires s.If? && k <= |s.arms|
    decreases s, 0, |s.arms| - k
  {
    if k == |s.arms| then 0 else MaxNat(BodyReturnArity(s.arms[k].body), ArmsReturnArity(s, k + 1))
  }

  function BodyReturnArity(ss: seq<Stmt>): nat
    decreases ss, 0
  {
    if ss == [] then 0 else MaxNat(ReturnArity(ss[0]), BodyReturnArity(ss[1..]))
  }

  function DeclareRets(c: Ctx, k: nat, arity: nat): (r: Ctx)
    requires c.scopes != [] && k <= arity
    ensures |r.scopes| == |c.scopes|
    decreases arity - k
  {
    if k == arity then c
    else DeclareRets(Declare(c, RET_PREFIX + Decimal(k), NumberKind), k + 1, arity)
  }

  function DeclareParams(c: Ctx, params: seq<LocalInfo>): (r: Ctx)
    requires c.scopes != []
    ensures |r.scopes| == |c.scopes|
    decreases |params|
  {
    if params == [] then c else DeclareParams(Declare(c, params[0].name, params[0].kind), params[1..])
  }

  /** The context a function body is lowered in: parameters, then the synthetic slots. */
  function EnterFunction(c: Ctx, arity: nat): (r: Ctx)
    requires c.scopes != []
    ensures |r.scopes| == |c.scopes|
  {
    var returned := |c.locals|;
    var c1 := DeclareRets(Declare(c, RETURNED_NAME, BoolKind), 0, arity);
    c1.(fn := Some(FnSlots(returned, seq(arity, k requires 0 <= k < arity => returned + 1 + k))),
        targets := c1.targets + [Some(returned)])
  }

  function DefaultOf(kind: Kind): HExpr {
    match kind
    case NumberKind => HInteger(0)
    case BoolKind => HBool(false)
    case NilKind => HNil
    case TaggedKind => HNil
  }

  function DefaultInits(rets: seq<nat>, locals: seq<LocalInfo>): seq<HStmt> {
    seq(|rets|, k requires 0 <= k < |rets| =>
      HLocalInit(rets[k], DefaultOf(InferKind(HLocal(rets[k]), locals))))
  }

  /** The flag cleared, the result slots at their defaults, and every statement guarded by the flag. */
  function LowerFunctionBody(body: seq<Stmt>, c: Ctx): Lowering<LoweredSeq>
    requires c.scopes != []
  {
    var c1 := EnterFunction(c, BodyReturnArity(body));
    var slots := c1.fn.value;
    var b :- LowerSeq(body, c1, Some(slots.returned));
    Ok(LoweredSeq([HLocalInit(slots.returned, HBool(false))] + DefaultInits(slots.rets, b.c.locals) + b.hs,
                  LeaveLoop(b.c)))
  }

  function LowerChunk(chunk: seq<Stmt>): Lowering<LoweredSeq> {
    LowerSeq(chunk, EMPTY_CTX, None)
  }
}

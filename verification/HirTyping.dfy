/**
 Which programs are well typed, as a judgement on the source alone: names are in scope, operands have the kinds
 their operators take, targets are writable and keep their kind, every `break` and every `return` has
 something to leave, and the returns of a function agree.
 */
module HirTyping {
  import opened Wrappers
  import opened Int64
  import opened HirSyntax
  import opened HirLower

  /** A name in scope; the variable of a numeric loop is not writable. */
  datatype Var = Var(kind: Kind, writable: bool)

  /**
   What is known at a place: the names in scope, the number of result slots of the function around it, the
   kinds of the returns before it, and whether a `break` has something to leave.
   */
  datatype Typing = Typing(
    scopes: seq<map<string, Var>>, slots: Option<nat>, returned: seq<seq<Kind>>, breakable: bool)

  const TOP_LEVEL := Typing([map[]], None, [], false)

  // ----- Expressions -----

  function ExprKind(e: Expr, t: Typing): Kind {
    match e
    case Integer(_) => NumberKind
    case Bool(_) => BoolKind
    case Nil => NilKind
    case Ident(name) =>
      (match Resolve<Var>(t.scopes, name)
       case Some(v) => v.kind
       case None => NilKind)
    case UnaryOp(op, _) => if op.Not? then BoolKind else NumberKind
    case BinOp(op, lhs, _) =>
      match op
      case And => ExprKind(lhs, t)
      case Or => ExprKind(lhs, t)
      case Lt => BoolKind
      case Le => BoolKind
      case Gt => BoolKind
      case Ge => BoolKind
      case Eq => BoolKind
      case Ne => BoolKind
      case _ => NumberKind
  }

  function ExprKinds(es: seq<Expr>, t: Typing): (r: seq<Kind>)
    ensures |r| == |es|
  {
    seq(|es|, k requires 0 <= k < |es| => ExprKind(es[k], t))
  }

  /** The operator takes operands of these kinds. */
  predicate Fits(op: BinOp, lhs: Kind, rhs: Kind) {
    match op
    case Eq => true
    case Ne => true
    case And => lhs == rhs
    case Or => lhs == rhs
    case _ => lhs in {NumberKind, TaggedKind} && rhs in {NumberKind, TaggedKind}
  }

  /** The value of an expression the compiler folds to a literal. */
  function Literal(e: Expr): Option<I64> {
    match e
    case Integer(i) => Some(i)
    case BinOp(op, lhs, rhs) =>
      if Literal(lhs).Some? && Literal(rhs).Some? && FoldInt(op, Literal(lhs).value, Literal(rhs).value).Folded? then
        Some(FoldInt(op, Literal(lhs).value, Literal(rhs).value).value)
      else None
    case _ => None
  }

  /** The compiler folds a division of the least integer by -1, which aborts it. */
  predicate Aborts(op: BinOp, lhs: Expr, rhs: Expr) {
    (op.FloorDivide? || op.Mod?) && Literal(lhs) == Some(MIN) && Literal(rhs) == Some(-1)
  }

  predicate ExprTyped(e: Expr, t: Typing) {
    match e
    case Ident(name) => Resolve<Var>(t.scopes, name).Some?
    case BinOp(op, lhs, rhs) =>
      ExprTyped(lhs, t) && ExprTyped(rhs, t) && Fits(op, ExprKind(lhs, t), ExprKind(rhs, t)) && !Aborts(op, lhs, rhs)
    case UnaryOp(_, operand) => ExprTyped(operand, t)
    case _ => true
  }

  predicate ExprsTyped(es: seq<Expr>, t: Typing) { forall k | 0 <= k < |es| :: ExprTyped(es[k], t) }

  // ----- Names -----

  function Declared(t: Typing, name: string, kind: Kind): (r: Typing)
    requires t.scopes != []
    ensures |r.scopes| == |t.scopes| && r.breakable == t.breakable && r.slots == t.slots
  {
    t.(scopes := Bind(t.scopes, name, Var(kind, true)))
  }

  function AllDeclared(t: Typing, names: seq<string>, kinds: seq<Kind>): (r: Typing)
    requires t.scopes != []
    ensures |r.scopes| == |t.scopes| && r.breakable == t.breakable && r.slots == t.slots
    decreases |names|
  {
    if names == [] || kinds == [] then t else AllDeclared(Declared(t, names[0], kinds[0]), names[1..], kinds[1..])
  }

  /** A writable name of the same kind, or, outside functions, a name not in scope. */
  predicate Assignable(name: string, kind: Kind, t: Typing) {
    match Resolve<Var>(t.scopes, name)
    case Some(v) => v == Var(kind, true)
    case None => t.slots.None?
  }

  /** Assigning to a name that is not in scope declares it in the outermost one. */
  function Assigned(t: Typing, name: string, kind: Kind): (r: Typing)
    requires t.scopes != []
    ensures |r.scopes| == |t.scopes| && r.breakable == t.breakable && r.slots == t.slots
  {
    if Resolve<Var>(t.scopes, name).Some? then t else t.(scopes := BindBottom(t.scopes, name, Var(kind, true)))
  }

  predicate AllAssignable(names: seq<string>, kinds: seq<Kind>, t: Typing)
    requires t.scopes != [] && |names| == |kinds|
    decreases |names|
  {
    names == [] ||
    (Assignable(names[0], kinds[0], t) && AllAssignable(names[1..], kinds[1..], Assigned(t, names[0], kinds[0])))
  }

  function AllAssigned(t: Typing, names: seq<string>, kinds: seq<Kind>): (r: Typing)
    requires t.scopes != []
    ensures |r.scopes| == |t.scopes| && r.breakable == t.breakable && r.slots == t.slots
    decreases |names|
  {
    if names == [] || kinds == [] then t else AllAssigned(Assigned(t, names[0], kinds[0]), names[1..], kinds[1..])
  }

  // ----- Returns -----

  /** As many values as the first return gives, and no new kind where there is no slot to tag. */
  predicate Returnable(kinds: seq<Kind>, t: Typing) {
    t.slots.Some? && (t.returned != [] ==>
      && |kinds| == |t.returned[0]|
      && forall k | t.slots.value <= k < |kinds| :: t.returned[0][k] in {kinds[k], TaggedKind})
  }

  // ----- Statements -----

  /** A scope inside, and back. */
  function Inside(t: Typing): (r: Typing)
    ensures |r.scopes| == |t.scopes| + 1
  {
    t.(scopes := Push(t.scopes))
  }

  function Outside(t: Typing): Typing
    requires t.scopes != []
  {
    t.(scopes := Pop(t.scopes))
  }

  function InLoop(t: Typing): Typing { t.(breakable := true) }

  /** The body of a numeric loop, which may read its variable but not assign to it. */
  function InFor(t: Typing, v: string): (r: Typing)
    ensures |r.scopes| == |t.scopes| + 1
  {
    InLoop(Inside(t)).(scopes := Bind(Push(t.scopes), v, Var(NumberKind, false)))
  }

  /** What is known behind a statement. */
  function After(s: Stmt, t: Typing): (r: Typing)
    requires t.scopes != []
    ensures |r.scopes| == |t.scopes| && r.breakable == t.breakable && r.slots == t.slots
    decreases s, 1
  {
    match s
    case Local(name, value) => Declared(t, name, ExprKind(value, t))
    case LocalMulti(names, values) => AllDeclared(t, names, ExprKinds(values, t))
    case Assign(name, value) => Assigned(t, name, ExprKind(value, t))
    case AssignMulti(names, values) => AllAssigned(t, names, ExprKinds(values, t))
    case Block(body) => AfterBody(body, t)
    case If(_, elseBody) => AfterBody(elseBody, AfterArms(s, 0, t))
    case While(_, body) => AfterBody(body, InLoop(t)).(breakable := t.breakable)
    case Repeat(body, _) => AfterBody(body, InLoop(t)).(breakable := t.breakable)
    case ForNumeric(v, _, _, _, body) => Outside(AfterSeq(body, InFor(t, v))).(breakable := t.breakable)
    case Return(values) => t.(returned := t.returned + [ExprKinds(values, t)])
    case _ => t
  }

  function AfterSeq(ss: seq<Stmt>, t: Typing): (r: Typing)
    requires t.scopes != []
    ensures |r.scopes| == |t.scopes| && r.breakable == t.breakable && r.slots == t.slots
    decreases ss, 0
  {
    if ss == [] then t else AfterSeq(ss[1..], After(ss[0], t))
  }

  function AfterBody(ss: seq<Stmt>, t: Typing): (r: Typing)
    requires t.scopes != []
    ensures |r.scopes| == |t.scopes| && r.breakable == t.breakable && r.slots == t.slots
    decreases ss, 1
  {
    Outside(AfterSeq(ss, Inside(t)))
  }

  function AfterArms(s: Stmt, k: nat, t: Typing): (r: Typing)
    requires t.scopes != [] && s.If? && k <= |s.arms|
    ensures |r.scopes| == |t.scopes| && r.breakable == t.breakable && r.slots == t.slots
    decreases s, 0, |s.arms| - k
  {
    if k == |s.arms| then t else AfterArms(s, k + 1, AfterBody(s.arms[k].body, t))
  }

  predicate Typed(s: Stmt, t: Typing)
    requires t.scopes != []
    decreases s, 1
  {
    match s
    case Local(_, value) => ExprTyped(value, t)
    case LocalMulti(names, values) => |names| == |values| && ExprsTyped(values, t)
    case Assign(name, value) => ExprTyped(value, t) && Assignable(name, ExprKind(value, t), t)
    case AssignMulti(names, values) =>
      |names| == |values| && ExprsTyped(values, t) && AllAssignable(names, ExprKinds(values, t), t)
    case Block(body) => BodyTyped(body, t)
    case If(_, elseBody) => ArmsTyped(s, 0, t) && BodyTyped(elseBody, AfterArms(s, 0, t))
    case While(cond, body) => ExprTyped(cond, t) && BodyTyped(body, InLoop(t))
    case Repeat(body, cond) =>
      // The condition sees the names of the body.
      SeqTyped(body, Inside(InLoop(t))) && ExprTyped(cond, AfterSeq(body, Inside(InLoop(t))))
    case ForNumeric(v, _, _, _, body) =>
      && ExprsTyped(Bounds(s), t) && ExprKinds(Bounds(s), t) == [NumberKind, NumberKind, NumberKind]
      && SeqTyped(body, InFor(t, v))
    case Break => t.breakable
    case Return(values) => ExprsTyped(values, t) && Returnable(ExprKinds(values, t), t)
    case Print(args) => ExprsTyped(args, t)
  }

  predicate SeqTyped(ss: seq<Stmt>, t: Typing)
    requires t.scopes != []
    decreases ss, 0
  {
    ss == [] || (Typed(ss[0], t) && SeqTyped(ss[1..], After(ss[0], t)))
  }

  predicate BodyTyped(ss: seq<Stmt>, t: Typing)
    requires t.scopes != []
    decreases ss, 1
  {
    SeqTyped(ss, Inside(t))
  }

  /** The arms of an `if` from the `k`-th on. */
  predicate ArmsTyped(s: Stmt, k: nat, t: Typing)
    requires t.scopes != [] && s.If? && k <= |s.arms|
    decreases s, 0, |s.arms| - k
  {
    k == |s.arms| ||
    (ExprTyped(s.arms[k].cond, t) && BodyTyped(s.arms[k].body, t) && ArmsTyped(s, k + 1, AfterBody(s.arms[k].body, t)))
  }

  // ----- Functions -----

  /** `s` has a `return` of these values; those under `repeat` count if `repeats` says so. */
  predicate HasReturn(s: Stmt, values: seq<Expr>, repeats: bool) {
    match s
    case Return(vs) => vs == values
    case Block(body) => SomeHasReturn(body, values, repeats)
    case If(arms, elseBody) =>
      || (exists k | 0 <= k < |arms| :: SomeHasReturn(arms[k].body, values, repeats))
      || SomeHasReturn(elseBody, values, repeats)
    case While(_, body) => SomeHasReturn(body, values, repeats)
    case Repeat(body, _) => repeats && SomeHasReturn(body, values, repeats)
    case ForNumeric(_, _, _, _, body) => SomeHasReturn(body, values, repeats)
    case _ => false
  }

  predicate SomeHasReturn(ss: seq<Stmt>, values: seq<Expr>, repeats: bool) {
    exists k | 0 <= k < |ss| :: HasReturn(ss[k], values, repeats)
  }

  /** `n` is the greatest number of values of any `return` that is not under `repeat`, or zero without one. */
  ghost predicate MostResults(body: seq<Stmt>, n: nat) {
    && (n == 0 || exists values | SomeHasReturn(body, values, false) :: |values| == n)
    && forall values | SomeHasReturn(body, values, false) :: |values| <= n
  }

  function ParamsDeclared(t: Typing, params: seq<LocalInfo>): (r: Typing)
    requires t.scopes != []
    ensures |r.scopes| == |t.scopes|
    decreases |params|
  {
    if params == [] then t else ParamsDeclared(Declared(t, params[0].name, params[0].kind), params[1..])
  }

  /** A function body with that many result slots; a `break` outside its loops leaves it. */
  function FunctionEntry(params: seq<LocalInfo>, slots: nat): (r: Typing)
    ensures r.scopes != []
  {
    ParamsDeclared(TOP_LEVEL, params).(slots := Some(slots), breakable := true)
  }

  ghost predicate FunctionTyped(params: seq<LocalInfo>, body: seq<Stmt>) {
    exists n: nat :: MostResults(body, n) && SeqTyped(body, FunctionEntry(params, n))
  }

  // ----- What is wrong with the others -----

  /** `error` is the first fault of an expression. */
  predicate ExprFault(e: Expr, t: Typing, error: LowerError) {
    match e
    case Ident(name) => Resolve<Var>(t.scopes, name).None? && error == UndefinedName(name)
    case BinOp(op, lhs, rhs) =>
      if !ExprTyped(lhs, t) then ExprFault(lhs, t, error)
      else if !ExprTyped(rhs, t) then ExprFault(rhs, t, error)
      else
        || (Aborts(op, lhs, rhs) && error == CompilerPanic)
        || (!Fits(op, ExprKind(lhs, t), ExprKind(rhs, t)) && error == TypeMismatch)
    case UnaryOp(_, operand) => ExprFault(operand, t, error)
    case _ => false
  }

  predicate ExprsFault(es: seq<Expr>, t: Typing, error: LowerError) {
    exists k | 0 <= k < |es| :: ExprsTyped(es[..k], t) && ExprFault(es[k], t, error)
  }

  predicate AssignFault(name: string, kind: Kind, t: Typing, error: LowerError) {
    match Resolve<Var>(t.scopes, name)
    case Some(v) =>
      || (!v.writable && error == ReadOnlyAssign(name))
      || (v.writable && v.kind != kind && error == TypeMismatch)
    case None => t.slots.Some? && error == UndefinedName(name)
  }

  predicate AssignsFault(names: seq<string>, kinds: seq<Kind>, t: Typing, error: LowerError)
    requires t.scopes != [] && |names| == |kinds|
    decreases |names|
  {
    names != [] &&
    if Assignable(names[0], kinds[0], t) then AssignsFault(names[1..], kinds[1..], Assigned(t, names[0], kinds[0]), error)
    else AssignFault(names[0], kinds[0], t, error)
  }

  /** Uneven lists are an arity mismatch, unless their only value is already at fault. */
  predicate UnevenFault(values: seq<Expr>, t: Typing, error: LowerError) {
    if |values| == 1 && !ExprTyped(values[0], t) then ExprFault(values[0], t, error) else error == ArityMismatch
  }

  predicate ReturnFault(kinds: seq<Kind>, t: Typing, error: LowerError) {
    if t.slots.None? then error == ReturnOutsideFunction
    else if t.returned != [] && |kinds| != |t.returned[0]| then error == ArityMismatch
    else !Returnable(kinds, t) && error == CompilerPanic
  }

  /** `error` is the first fault of a statement. */
  predicate Fault(s: Stmt, t: Typing, error: LowerError)
    requires t.scopes != []
    decreases s, 1
  {
    match s
    case Local(_, value) => ExprFault(value, t, error)
    case LocalMulti(names, values) =>
      if |names| != |values| then UnevenFault(values, t, error) else ExprsFault(values, t, error)
    case Assign(name, value) =>
      if ExprTyped(value, t) then AssignFault(name, ExprKind(value, t), t, error) else ExprFault(value, t, error)
    case AssignMulti(names, values) =>
      if |names| != |values| then (if names == [] then error == ArityMismatch else UnevenFault(values, t, error))
      else if ExprsTyped(values, t) then AssignsFault(names, ExprKinds(values, t), t, error)
      else ExprsFault(values, t, error)
    case Block(body) => BodyFault(body, t, error)
    case If(_, elseBody) =>
      if ArmsTyped(s, 0, t) then BodyFault(elseBody, AfterArms(s, 0, t), error) else ArmsFault(s, 0, t, error)
    case While(cond, body) =>
      if ExprTyped(cond, t) then BodyFault(body, InLoop(t), error) else ExprFault(cond, t, error)
    case Repeat(body, cond) =>
      if SeqTyped(body, Inside(InLoop(t))) then ExprFault(cond, AfterSeq(body, Inside(InLoop(t))), error)
      else SeqFault(body, Inside(InLoop(t)), error)
    case ForNumeric(v, _, _, _, body) =>
      if !ExprsTyped(Bounds(s), t) then ExprsFault(Bounds(s), t, error)
      else if ExprKinds(Bounds(s), t) != [NumberKind, NumberKind, NumberKind] then error == TypeMismatch
      else SeqFault(body, InFor(t, v), error)
    case Break => !t.breakable && error == BreakOutsideLoop
    case Return(values) =>
      if ExprsTyped(values, t) then ReturnFault(ExprKinds(values, t), t, error) else ExprsFault(values, t, error)
    case Print(args) => ExprsFault(args, t, error)
  }

  predicate SeqFault(ss: seq<Stmt>, t: Typing, error: LowerError)
    requires t.scopes != []
    decreases ss, 0
  {
    ss != [] && if Typed(ss[0], t) then SeqFault(ss[1..], After(ss[0], t), error) else Fault(ss[0], t, error)
  }

  predicate BodyFault(ss: seq<Stmt>, t: Typing, error: LowerError)
    requires t.scopes != []
    decreases ss, 1
  {
    SeqFault(ss, Inside(t), error)
  }

  predicate ArmsFault(s: Stmt, k: nat, t: Typing, error: LowerError)
    requires t.scopes != [] && s.If? && k <= |s.arms|
    decreases s, 0, |s.arms| - k
  {
    k < |s.arms| &&
    if !ExprTyped(s.arms[k].cond, t) then ExprFault(s.arms[k].cond, t, error)
    else if !BodyTyped(s.arms[k].body, t) then BodyFault(s.arms[k].body, t, error)
    else ArmsFault(s, k + 1, AfterBody(s.arms[k].body, t), error)
  }
}

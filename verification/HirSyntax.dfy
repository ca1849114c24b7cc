/**
 The syntax tree the lowering consumes and the flat-slot code it produces, for the fragment modelled
 here: integers, booleans and nil; structured control flow, `break`, `return`, and an observable `print`.
 */
module HirSyntax {
  import opened Wrappers
  import opened Int64

  datatype UnaryOp = Neg | Not | BitNot

  datatype Expr =
    | Integer(i: I64)
    | Bool(b: bool)
    | Nil
    | Ident(name: string)
    | BinOp(op: BinOp, lhs: Expr, rhs: Expr)
    | UnaryOp(uop: UnaryOp, operand: Expr)

  /** One `if`/`elseif` arm. */
  datatype Arm = Arm(cond: Expr, body: seq<Stmt>)

  /** An absent `else` is an empty one; an absent `for` step is `None`. */
  datatype Stmt =
    | Local(name: string, value: Expr)
    | LocalMulti(names: seq<string>, values: seq<Expr>)
    | Assign(name: string, value: Expr)
    | AssignMulti(names: seq<string>, values: seq<Expr>)
    | Block(body: seq<Stmt>)
    | If(arms: seq<Arm>, elseBody: seq<Stmt>)
    | While(cond: Expr, body: seq<Stmt>)
    | Repeat(body: seq<Stmt>, cond: Expr)
    | ForNumeric(loopVar: string, start: Expr, stop: Expr, step: Option<Expr>, body: seq<Stmt>)
    | Break
    | Return(values: seq<Expr>)
    | Print(args: seq<Expr>)

  /** Start, limit and step of a numeric loop; the step defaults to one. */
  function Bounds(s: Stmt): seq<Expr>
    requires s.ForNumeric?
  {
    [s.start, s.stop, if s.step.Some? then s.step.value else Integer(1)]
  }

  datatype HExpr =
    | HInteger(i: I64)
    | HBool(b: bool)
    | HNil
    | HLocal(id: nat)
    | HBinOp(op: BinOp, lhs: HExpr, rhs: HExpr)
    | HUnaryOp(uop: UnaryOp, operand: HExpr)

  datatype HArm = HArm(cond: HExpr, body: seq<HStmt>)

  /** There is no `break` and no `return`; a loop may name a flag that stops it. */
  datatype HStmt =
    | HLocalInit(id: nat, value: HExpr)
    | HAssign(id: nat, value: HExpr)
    | HBlock(body: seq<HStmt>)
    | HIf(arms: seq<HArm>, elseBody: seq<HStmt>)
    | HWhile(cond: HExpr, body: seq<HStmt>, breakId: Option<nat>)
    | HRepeat(body: seq<HStmt>, cond: HExpr, breakId: Option<nat>)
    | HFor(varId: nat, start: HExpr, stop: HExpr, step: HExpr, body: seq<HStmt>, breakId: Option<nat>)
    | HPrint(args: seq<HExpr>)

  /** The static kinds; `TaggedKind` arises only for return slots with several kinds. */
  datatype Kind = NumberKind | BoolKind | NilKind | TaggedKind

  // ----- Frames of names -----

  /** Innermost-first lookup in a stack of name frames. */
  function Resolve<T>(frames: seq<map<string, T>>, name: string): Option<T> {
    if frames == [] then None
    else
      var top := frames[|frames| - 1];
      if name in top then Some(top[name]) else Resolve(frames[..|frames| - 1], name)
  }

  /** Bind a name in the innermost frame. */
  function Bind<T>(frames: seq<map<string, T>>, name: string, v: T): (r: seq<map<string, T>>)
    requires frames != []
    ensures |r| == |frames|
  {
    frames[|frames| - 1 := frames[|frames| - 1][name := v]]
  }

  /** Bind a name in the outermost frame. */
  function BindBottom<T>(frames: seq<map<string, T>>, name: string, v: T): (r: seq<map<string, T>>)
    requires frames != []
    ensures |r| == |frames|
  {
    frames[0 := frames[0][name := v]]
  }

  function Push<T>(frames: seq<map<string, T>>): seq<map<string, T>> { frames + [map[]] }

  function Pop<T>(frames: seq<map<string, T>>): seq<map<string, T>>
    requires frames != []
  {
    frames[..|frames| - 1]
  }

  /** Change the innermost binding of a name; an unbound name is left alone. */
  function Update<T>(frames: seq<map<string, T>>, name: string, v: T): (r: seq<map<string, T>>)
    ensures |r| == |frames|
  {
    if frames == [] then []
    else
      var last := |frames| - 1;
      if name in frames[last] then frames[last := frames[last][name := v]]
      else Update(frames[..last], name, v) + [frames[last]]
  }
}

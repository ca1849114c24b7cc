/**
 Integer arithmetic of Lua 5.4 (sections 3.4.1 and 3.4.2 of its Reference Manual): 64-bit wraparound,
 floor division, bitwise operators and logical shifts; and the compiler's folding of integer literals.
 */
module Int64 {
  import opened Bits
  import opened Wrappers

  const MIN := -0x8000_0000_0000_0000
  const MAX := 0x7FFF_FFFF_FFFF_FFFF

  type I64 = x: int | MIN <= x <= MAX

  predicate InRange(n: int) { MIN <= n <= MAX }

  /** The unsigned and the signed reading of a 64-bit word. */
  function Unsigned(n: int): nat { n % WORD }

  function Signed(u: int): int {
    var w := u % WORD;
    if w <= MAX then w else w - WORD
  }

  function Wrap(n: int): int { Signed(Unsigned(n)) }

  lemma WrapInRange(n: int)
    ensures InRange(Wrap(n))
    ensures InRange(n) ==> Wrap(n) == n
  {}

  /** Division rounded toward minus infinity, and its remainder. */
  function FloorDiv(a: int, b: int): int
    requires b != 0
  {
    if b > 0 then a / b else -a / -b
  }

  function FloorMod(a: int, b: int): int
    requires b != 0
  {
    a - b * FloorDiv(a, b)
  }

  lemma FloorDivIsFloor(a: int, b: int)
    requires b != 0
    ensures b > 0 ==> b * FloorDiv(a, b) <= a < b * FloorDiv(a, b) + b
    ensures b < 0 ==> b * FloorDiv(a, b) >= a > b * FloorDiv(a, b) + b
  {}

  datatype BinOp =
    | Add | Sub | Mul | FloorDivide | Mod
    | BitAnd | BitOr | BitXor | Shl | Shr
    | Lt | Le | Gt | Ge | Eq | Ne | And | Or

  predicate IsArith(op: BinOp) {
    op.Add? || op.Sub? || op.Mul? || op.FloorDivide? || op.Mod? || IsBitwise(op)
  }

  predicate IsBitwise(op: BinOp) {
    op.BitAnd? || op.BitOr? || op.BitXor? || op.Shl? || op.Shr?
  }

  predicate IsOrder(op: BinOp) { op.Lt? || op.Le? || op.Gt? || op.Ge? }

  /** One bit of a bitwise operator. */
  function BitOf(op: BinOp, a: nat, b: nat): nat {
    var x, y := a % 2 == 1, b % 2 == 1;
    if (op.BitAnd? && x && y) || (op.BitOr? && (x || y)) || (op.BitXor? && x != y) then 1 else 0
  }

  function Bitwise(op: BinOp, a: nat, b: nat, bits: nat): nat {
    if bits == 0 then 0 else 2 * Bitwise(op, a / 2, b / 2, bits - 1) + BitOf(op, a, b)
  }

  /** A logical shift left by `n`, or right by `-n`; 64 or more places leave nothing. */
  function Shift(a: int, n: int): int {
    if n <= -64 || n >= 64 then 0
    else if n >= 0 then Signed(Unsigned(a) * Pow2(n))
    else Signed(Unsigned(a) / Pow2(-n))
  }

  /** What an arithmetic or bitwise operator means; division by zero has no value. */
  function Arith(op: BinOp, a: int, b: int): Option<int>
    requires IsArith(op)
  {
    match op
    case Add => Some(Wrap(a + b))
    case Sub => Some(Wrap(a - b))
    case Mul => Some(Wrap(a * b))
    case FloorDivide => if b == 0 then None else Some(Wrap(FloorDiv(a, b)))
    case Mod => if b == 0 then None else Some(Wrap(FloorMod(a, b)))
    case Shl => Some(Shift(a, b))
    case Shr => Some(Shift(a, -b))
    case _ => Some(Signed(Bitwise(op, Unsigned(a), Unsigned(b), 64)))
  }

  // ----- Folding -----

  datatype Fold = Folded(value: I64) | Declined | Panics

  function Checked(n: int): Fold { if InRange(n) then Folded(n) else Declined }

  function CheckedDiv(n: int): Fold { if InRange(n) then Folded(n) else Panics }

  /**
   The compiler's fold of two integer literals.  Sums that overflow are left alone.  Division is
   Euclidean, and dividing the least integer by -1 aborts the compiler.
   */
  function FoldInt(op: BinOp, a: I64, b: I64): Fold {
    match op
    case Add => Checked(a + b)
    case Sub => Checked(a - b)
    case Mul => Checked(a * b)
    case FloorDivide => if b != 0 then CheckedDiv(a / b) else Declined
    case Mod => if b != 0 then (if a == MIN && b == -1 then Panics else CheckedDiv(a % b)) else Declined
    case Shl => if 0 <= b < 64 then FoldedWord(a * Pow2(b)) else Declined
    case Shr => if 0 <= b < 64 then FoldedWord(Unsigned(a) / Pow2(b)) else Declined
    case BitAnd => FoldedWord(Bitwise(op, Unsigned(a), Unsigned(b), 64))
    case BitOr => FoldedWord(Bitwise(op, Unsigned(a), Unsigned(b), 64))
    case BitXor => FoldedWord(Bitwise(op, Unsigned(a), Unsigned(b), 64))
    case _ => Declined
  }

  function FoldedWord(n: int): Fold {
    WrapInRange(n);
    Folded(Wrap(n))
  }

  /** A fold of a division whose divisor is negative and does not divide: it is off by one step. */
  predicate MisfoldsDivision(op: BinOp, a: int, b: int) {
    (op.FloorDivide? || op.Mod?) && b < 0 && a % b != 0
  }

  lemma Product(d: int, x: int)
    requires d > 0
    ensures x >= 1 ==> d * x >= d
    ensures x <= -1 ==> d * x <= -d
  {}

  lemma QuotientUnique(n: int, d: nat, q: int)
    requires d > 0 && d * q <= n < d * q + d
    ensures n / d == q
  {
    var k := n / d;
    Product(d, k - q);
    assert d * (k - q) == d * k - d * q;
  }

  /** Euclidean and floor division agree on positive divisors and exact divisions, and nowhere else. */
  lemma FoldDivision(a: int, b: int)
    requires b != 0
    ensures b > 0 || a % b == 0 ==> a / b == FloorDiv(a, b) && a % b == FloorMod(a, b)
    ensures b < 0 && a % b != 0 ==> FloorDiv(a, b) == a / b - 1 && FloorMod(a, b) == a % b + b
  {
    var q, r := a / b, a % b;
    assert a == b * q + r;
    if b < 0 {
      var d := -b;
      var f := if r == 0 then q else q - 1;
      assert d * q == -(b * q) && d * (q - 1) == d * q - d;
      QuotientUnique(-a, d, f);
      assert b * f == -(d * f);
    }
  }

  lemma ModShift(a: int, p: int)
    requires p > 0
    ensures (a * p) % WORD == (a % WORD * p) % WORD
  {
    var q := a / WORD;
    assert a == WORD * q + a % WORD;
    assert a * p == WORD * (q * p) + a % WORD * p;
    ModMultiple(a % WORD * p, q * p);
  }

  lemma ModMultiple(n: int, k: int)
    ensures (WORD * k + n) % WORD == n % WORD
  {}

  lemma FoldShiftLeft(a: I64, b: I64)
    requires 0 <= b < 64
    ensures Shift(a, b) == Wrap(a * Pow2(b))
  {
    ModShift(a, Pow2(b));
  }

  lemma FoldShiftRight(a: I64, b: I64)
    requires 0 <= b < 64
    ensures Shift(a, -b) == Wrap(Unsigned(a) / Pow2(b))
  {
    if b == 0 {
      assert Unsigned(a) * Pow2(0) == Unsigned(a) / Pow2(0);
    }
  }

  lemma SignedOfWord(n: nat)
    ensures Signed(n) == Wrap(n)
  {}

  lemma FoldQuotient(a: I64, b: I64)
    requires b != 0 && InRange(a / b)
    ensures Wrap(FloorDiv(a, b)) == a / b <==> !MisfoldsDivision(FloorDivide, a, b)
  {
    FoldDivision(a, b);
    WrapInRange(FloorDiv(a, b));
  }

  lemma FoldRemainder(a: I64, b: I64)
    requires b != 0
    ensures Wrap(FloorMod(a, b)) == a % b <==> !MisfoldsDivision(Mod, a, b)
  {
    FoldDivision(a, b);
    WrapInRange(FloorMod(a, b));
  }

  /** Folding an operator on literals gives its 64-bit value exactly when it is not such a division. */
  lemma FoldIsExact(op: BinOp, a: I64, b: I64)
    requires IsArith(op) && FoldInt(op, a, b).Folded?
    ensures Arith(op, a, b) == Some(FoldInt(op, a, b).value) <==> !MisfoldsDivision(op, a, b)
  {
    match op
    case FloorDivide => FoldQuotient(a, b);
    case Mod => FoldRemainder(a, b);
    case Shl => FoldShiftLeft(a, b);
    case Add => WrapInRange(a + b);
    case Sub => WrapInRange(a - b);
    case Mul => WrapInRange(a * b);
    case Shr => FoldShiftRight(a, b);
    case BitAnd => SignedOfWord(Bitwise(op, Unsigned(a), Unsigned(b), 64));
    case BitOr => SignedOfWord(Bitwise(op, Unsigned(a), Unsigned(b), 64));
    case BitXor => SignedOfWord(Bitwise(op, Unsigned(a), Unsigned(b), 64));
    case _ =>
  }
}

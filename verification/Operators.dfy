/**
 What the operators mean, apart from how `Int64` computes them: sums up to multiples of the word, quotients and
 remainders by their bounds, bitwise operators and shifts bit by bit, comparisons by differences; and which
 operators on literals the compiler folds.
 */
module Operators {
  import opened Wrappers
  import opened Bits
  import opened Int64
  import opened HirSyntax
  import opened HirSemantics

  // ----- Bits of a word -----

  function BitAt(n: int, k: nat): int { n / Pow2(k) % 2 }

  lemma HalfQuotient(n: int, m: nat)
    requires m > 0
    ensures n / (2 * m) == n / 2 / m
  {
    var q := n / 2 / m;
    var r := n / 2 % m;
    assert n / 2 == m * q + r;
    assert 2 * m * q == 2 * (m * q);
    QuotientUnique(n, 2 * m, q);
  }

  lemma NextBit(n: int, k: nat)
    ensures BitAt(n, k + 1) == BitAt(n / 2, k)
  {
    HalfQuotient(n, Pow2(k));
  }

  /** The bits above the first `m`. */
  lemma {:induction false} HighBits(n: int, m: nat, k: nat)
    ensures BitAt(n / Pow2(m), k) == BitAt(n, m + k)
    decreases m
  {
    hide BitAt;
    if m > 0 {
      HalfQuotient(n, Pow2(m - 1));
      HighBits(n / 2, m - 1, k);
      NextBit(n, m - 1 + k);
    }
  }

  lemma LowBit(n: int)
    ensures BitAt(n, 0) == n % 2
  {
    assert Pow2(0) == 1;
  }

  /** Which bits of a bitwise operator are set. */
  predicate SetBit(op: BinOp, x: bool, y: bool) {
    match op
    case BitAnd => x && y
    case BitOr => x || y
    case BitXor => x != y
    case _ => false
  }

  lemma {:induction false} BitwiseBits(op: BinOp, a: nat, b: nat, bits: nat, k: nat)
    ensures BitAt(Bitwise(op, a, b, bits), k) == 1
       <==> k < bits && SetBit(op, BitAt(a, k) == 1, BitAt(b, k) == 1)
    decreases bits
  {
    hide BitAt;
    var n := Bitwise(op, a, b, bits);
    if bits == 0 {
      ZeroBits(k);
    } else if k == 0 {
      LowBit(n);
      LowBit(a);
      LowBit(b);
    } else {
      assert n / 2 == Bitwise(op, a / 2, b / 2, bits - 1);
      BitwiseBits(op, a / 2, b / 2, bits - 1, k - 1);
      NextBit(n, k - 1);
      NextBit(a, k - 1);
      NextBit(b, k - 1);
    }
  }

  lemma ZeroBits(k: nat)
    ensures BitAt(0, k) == 0
  {}

  /** The pattern runtime's or is bitwise too. */
  lemma {:induction false} OrBits(a: nat, b: nat, k: nat)
    ensures BitAt(Bits.BitOr(a, b), k) == 1 <==> BitAt(a, k) == 1 || BitAt(b, k) == 1
    decreases a
  {
    hide BitAt;
    if a == 0 {
      ZeroBits(k);
    } else if k == 0 {
      LowBit(a);
      LowBit(b);
      LowBit(Bits.BitOr(a, b));
    } else {
      NextBit(a, k - 1);
      NextBit(b, k - 1);
      NextBit(Bits.BitOr(a, b), k - 1);
      OrBits(a / 2, b / 2, k - 1);
    }
  }

  lemma {:induction false} Pow2Monotone(m: nat, n: nat)
    requires m <= n
    ensures Pow2(m) <= Pow2(n)
    decreases n
  {
    if m < n {
      Pow2Monotone(m, n - 1);
    }
  }

  lemma Pow2Of64()
    ensures Pow2(64) == WORD
  {
    Pow2Of32();
    assert Pow2(40) == 0x100_0000_0000;
    assert Pow2(48) == 0x1_0000_0000_0000;
    assert Pow2(56) == 0x100_0000_0000_0000;
  }

  /** A word has no bits from 64 on. */
  lemma WordBits(n: nat, k: nat)
    requires n < WORD && k >= 64
    ensures BitAt(n, k) == 0
  {
    Pow2Of64();
    Pow2Monotone(64, k);
    assert n / Pow2(k) == 0;
  }

  lemma {:induction false} ShiftedBits(n: nat, m: nat, k: nat)
    ensures BitAt(n * Pow2(m), k) == if k < m then 0 else BitAt(n, k - m)
    decreases m
  {
    if m == 0 {
      assert n * Pow2(0) == n;
    } else {
      var half := n * Pow2(m - 1);
      assert n * Pow2(m) == 2 * half;
      if k == 0 {
        assert Pow2(0) == 1;
      } else {
        NextBit(2 * half, k - 1);
        ShiftedBits(n, m - 1, k - 1);
      }
    }
  }

  lemma HalfRemainder(n: int, p: nat)
    requires p > 0
    ensures n % (2 * p) / 2 == n / 2 % p && n % (2 * p) % 2 == n % 2
  {
    var q := n / 2 / p;
    var r := n / 2 % p;
    assert n / 2 == p * q + r;
    assert 2 * p * q == 2 * (p * q);
    QuotientUnique(n, 2 * p, q);
    assert n % (2 * p) == n - 2 * p * q;
  }

  /** The bits of a word below 64 are those of any number it is congruent to. */
  lemma {:induction false} LowBits(n: int, bits: nat, k: nat)
    requires k < bits
    ensures BitAt(n % Pow2(bits), k) == BitAt(n, k)
    decreases bits
  {
    HalfRemainder(n, Pow2(bits - 1));
    if k == 0 {
      assert Pow2(0) == 1;
    } else {
      NextBit(n, k - 1);
      NextBit(n % Pow2(bits), k - 1);
      LowBits(n / 2, bits - 1, k - 1);
    }
  }

  lemma UnsignedSigned(n: int)
    ensures Unsigned(Signed(n)) == n % WORD
  {}

  lemma ShiftLeftBits(u: nat, n: nat, k: nat)
    requires k < 64
    ensures BitAt(Unsigned(Signed(u * Pow2(n))), k) == if k < n then 0 else BitAt(u, k - n)
  {
    hide BitAt, Pow2;
    Pow2Of64();
    UnsignedSigned(u * Pow2(n));
    LowBits(u * Pow2(n), 64, k);
    ShiftedBits(u, n, k);
  }

  lemma ShiftRightBits(u: nat, m: nat, k: nat)
    requires u < WORD && k < 64
    ensures BitAt(Unsigned(Signed(u / Pow2(m))), k) == if k + m < 64 then BitAt(u, k + m) else 0
  {
    hide BitAt, Pow2;
    Pow2Of64();
    UnsignedSigned(u / Pow2(m));
    LowBits(u / Pow2(m), 64, k);
    HighBits(u, m, k);
    if k + m >= 64 {
      WordBits(u, m + k);
    }
  }

  /** Bit `k` of a shifted word is the bit `n` places below, if there is one. */
  lemma ShiftBits(a: int, n: int, k: nat)
    requires k < 64
    ensures InRange(Shift(a, n))
    ensures BitAt(Unsigned(Shift(a, n)), k) == if 0 <= k - n < 64 then BitAt(Unsigned(a), k - n) else 0
  {
    if n <= -64 || n >= 64 {
      ZeroBits(k);
    } else if n >= 0 {
      ShiftLeftBits(Unsigned(a), n, k);
    } else {
      ShiftRightBits(Unsigned(a), -n, k);
    }
  }

  // ----- Arithmetic -----

  /** Sums, differences and products wrap: they are the 64-bit integers congruent to the exact ones. */
  lemma SumsWrap(op: BinOp, a: I64, b: I64)
    requires op.Add? || op.Sub? || op.Mul?
    ensures var exact := if op.Add? then a + b else if op.Sub? then a - b else a * b;
            match Arith(op, a, b)
            case None => false
            case Some(r) => InRange(r) && (r - exact) % WORD == 0
  {
    WrapCongruent(a + b);
    WrapCongruent(a - b);
    WrapCongruent(a * b);
  }

  lemma WrapCongruent(n: int)
    ensures InRange(Wrap(n)) && (Wrap(n) - n) % WORD == 0
  {
    WrapInRange(n);
    var q := n / WORD;
    assert n == WORD * q + n % WORD;
    ModMultiple(0, -q);
    ModMultiple(0, -q - 1);
  }

  /** Quotients are rounded down, and only the least integer divided by -1 wraps; zero does not divide. */
  lemma QuotientsRoundDown(a: I64, b: I64)
    ensures match Arith(FloorDivide, a, b)
            case None => b == 0
            case Some(q) =>
              || (a == MIN && b == -1 && q == MIN)
              || (b > 0 && b * q <= a < b * q + b)
              || (b < 0 && b * q >= a > b * q + b)
  {
    if b != 0 {
      FloorDivIsFloor(a, b);
      FloorQuotientInRange(a, b);
      WrapInRange(FloorDiv(a, b));
    }
  }

  lemma FloorQuotientInRange(a: I64, b: I64)
    requires b != 0
    ensures InRange(FloorDiv(a, b)) <==> !(a == MIN && b == -1)
    ensures a == MIN && b == -1 ==> FloorDiv(a, b) == MAX + 1
  {
    var q := FloorDiv(a, b);
    FloorDivIsFloor(a, b);
    if b < -1 {
      var d: int := -(b as int);
      assert d * q == -(b * q);
      Product(d, q);
    }
  }

  /** Remainders are what quotients leave, with the sign of the divisor. */
  lemma RemaindersFollowDivisor(a: I64, b: I64)
    ensures match Arith(Mod, a, b)
            case None => b == 0
            case Some(m) =>
              && b != 0 && (b > 0 ==> 0 <= m < b) && (b < 0 ==> b < m <= 0)
              && (if a == MIN && b == -1 then m == 0 else a == b * Arith(FloorDivide, a, b).value + m)
  {
    if b != 0 {
      FloorDivIsFloor(a, b);
      FloorQuotientInRange(a, b);
      WrapInRange(FloorDiv(a, b));
      WrapInRange(FloorMod(a, b));
    }
  }

  /** Bitwise operators work bit by bit on the words of their operands; shifts move bits and fill with zeros. */
  lemma BitsMean(op: BinOp, a: I64, b: I64, k: nat)
    requires IsBitwise(op) && k < 64
    ensures match Arith(op, a, b)
            case None => false
            case Some(r) =>
              && InRange(r)
              && (op.Shl? ==> BitAt(Unsigned(r), k) == if 0 <= k - b < 64 then BitAt(Unsigned(a), k - b) else 0)
              && (op.Shr? ==> BitAt(Unsigned(r), k) == if 0 <= k + b < 64 then BitAt(Unsigned(a), k + b) else 0)
              && (!op.Shl? && !op.Shr? ==>
                    (BitAt(Unsigned(r), k) == 1 <==> SetBit(op, BitAt(Unsigned(a), k) == 1, BitAt(Unsigned(b), k) == 1)))
  {
    hide BitAt, Shift, Pow2;
    if op.Shl? {
      ShiftBits(a, b, k);
    } else if op.Shr? {
      var n: int := b;
      ShiftBits(a, -n, k);
    } else {
      var w := Bitwise(op, Unsigned(a), Unsigned(b), 64);
      BitwiseBelow(op, Unsigned(a), Unsigned(b), 64);
      Pow2Of64();
      UnsignedSigned(w);
      BitwiseBits(op, Unsigned(a), Unsigned(b), 64, k);
    }
  }

  lemma {:induction false} BitwiseBelow(op: BinOp, a: nat, b: nat, bits: nat)
    ensures Bitwise(op, a, b, bits) < Pow2(bits)
    decreases bits
  {
    if bits > 0 {
      BitwiseBelow(op, a / 2, b / 2, bits - 1);
    }
  }

  /** Minus and `~` wrap too. */
  lemma UnaryMeans(n: I64)
    ensures match EvalUnary(Neg, Num(n))
            case Some(Num(r)) => InRange(r) && (r + n) % WORD == 0
            case _ => false
    ensures match EvalUnary(BitNot, Num(n))
            case Some(Num(r)) => r + n == -1
            case _ => false
  {
    var m: int := n;
    WrapCongruent(-m);
    WrapInRange(-m - 1);
  }

  // ----- Comparisons and conditions -----

  /** Two integers compare by the sign of their difference. */
  lemma ComparesByDifference(a: int, b: int)
    ensures EvalStrict(Lt, Num(a), Num(b)) == Some(Boolean(b - a > 0))
    ensures EvalStrict(Le, Num(a), Num(b)) == Some(Boolean(b - a >= 0))
    ensures EvalStrict(Gt, Num(a), Num(b)) == Some(Boolean(a - b > 0))
    ensures EvalStrict(Ge, Num(a), Num(b)) == Some(Boolean(a - b >= 0))
    ensures EvalStrict(Eq, Num(a), Num(b)) == Some(Boolean(a - b == 0))
    ensures EvalStrict(Ne, Num(a), Num(b)) == Some(Boolean(a - b != 0))
  {}

  /** `v and w or x` chooses `w` or `x` by `v`, if `w` is neither nil nor false; what is not chosen may trap. */
  lemma AndOrChoose(v: Value, w: Value, x: Option<Value>)
    requires w != NilValue && w != Boolean(false)
    ensures var both := EvalBin(And, v, Some(w));
            both.Some? && EvalBin(Or, both.value, x) == if v == NilValue || v == Boolean(false) then x else Some(w)
    ensures v == NilValue || v == Boolean(false) ==> EvalBin(And, v, None) == Some(v)
    ensures EvalUnary(Not, v) == Some(Boolean(v == NilValue || v == Boolean(false)))
  {}

  // ----- Folding -----

  /** The result an operator would have without the bounds of 64 bits, for those that have one. */
  function ExactResult(op: BinOp, a: int, b: int): int {
    match op
    case Add => a + b
    case Sub => a - b
    case Mul => a * b
    case _ => 0
  }

  /** Which operators on literals are folded, which abort the compiler, and which are left to run. */
  lemma FoldsExactly(op: BinOp, a: I64, b: I64)
    ensures FoldInt(op, a, b).Panics? <==> (op.FloorDivide? || op.Mod?) && a == MIN && b == -1
    ensures FoldInt(op, a, b).Folded? <==>
            || ((op.Add? || op.Sub? || op.Mul?) && InRange(ExactResult(op, a, b)))
            || ((op.FloorDivide? || op.Mod?) && b != 0 && !(a == MIN && b == -1))
            || ((op.Shl? || op.Shr?) && 0 <= b < 64)
            || op.BitAnd? || op.BitOr? || op.BitXor?
  {
    if b != 0 {
      QuotientInRange(a, b);
    }
  }

  lemma QuotientInRange(a: int, b: int)
    requires InRange(a) && InRange(b) && b != 0
    ensures InRange(a / b) <==> !(a == MIN && b == -1)
    ensures InRange(a % b)
  {
    var q, r := a / b, a % b;
    assert a == b * q + r && 0 <= r;
    if b < -1 {
      var d := -b;
      assert d * q == r - a;
    }
  }
}

/** Bitwise operations on 64-bit words, as arithmetic on their unsigned values. */
module Bits {
  const WORD: nat := 0x1_0000_0000_0000_0000
  const HALF_WORD: nat := 0x1_0000_0000

  function Pow2(k: nat): (p: nat)
    ensures p > 0
  {
    if k == 0 then 1 else 2 * Pow2(k - 1)
  }

  /** Bitwise or of two unsigned values. */
  function BitOr(a: nat, b: nat): nat {
    if a == 0 then b
    else 2 * BitOr(a / 2, b / 2) + if a % 2 == 1 || b % 2 == 1 then 1 else 0
  }

  /** Or-ing into bits that are clear adds. */
  lemma {:induction false} OrIntoClearBits(a: nat, k: nat, b: nat)
    requires b < Pow2(k)
    ensures BitOr(a * Pow2(k), b) == a * Pow2(k) + b
  {
    if k == 0 {
      OrZero(a);
    } else {
      var half := a * Pow2(k - 1);
      assert a * Pow2(k) == 2 * half;
      OrIntoClearBits(a, k - 1, b / 2);
    }
  }

  lemma {:induction false} OrZero(a: nat)
    ensures BitOr(a, 0) == a
  {
    if a != 0 {
      OrZero(a / 2);
    }
  }

  /** `(len << 32) | pos` in a 64-bit word. */
  function Pack(pos: nat, len: nat): nat {
    BitOr(len * HALF_WORD % WORD, pos % WORD)
  }

  /** The low and the high half of a packed word. */
  function UnpackPos(packed: nat): nat { packed % HALF_WORD }
  function UnpackLen(packed: nat): nat { packed / HALF_WORD % HALF_WORD }

  lemma Pow2Of32()
    ensures Pow2(32) == HALF_WORD
  {
    assert Pow2(8) == 0x100;
    assert Pow2(16) == 0x1_0000;
    assert Pow2(24) == 0x100_0000;
  }

  /** A position and a length survive packing exactly when both fit in 32 bits. */
  lemma PackUnpacks(pos: nat, len: nat)
    ensures UnpackPos(Pack(pos, len)) == pos && UnpackLen(Pack(pos, len)) == len
       <==> pos < HALF_WORD && len < HALF_WORD
    ensures pos < HALF_WORD && len < HALF_WORD && pos > 0 ==> Pack(pos, len) != 0
  {
    if pos < HALF_WORD && len < HALF_WORD {
      PackIsSum(pos, len);
    }
  }

  lemma PackIsSum(pos: nat, len: nat)
    requires pos < HALF_WORD && len < HALF_WORD
    ensures Pack(pos, len) == len * HALF_WORD + pos
  {
    Pow2Of32();
    OrIntoClearBits(len, 32, pos);
    ModSmall(len * HALF_WORD, WORD);
    ModSmall(pos, WORD);
  }

  lemma ModSmall(x: nat, m: nat)
    requires x < m
    ensures x % m == x
  {}
}

/**
 The runtime behind `utf8.char`, `utf8.codepoint` and `utf8.offset` (Lua 5.4 Reference Manual, section
 6.5), over the encoding of section 3 of RFC 3629.  The runtime's masks and shifts act on disjoint bits
 and are written here as quotients and remainders.
 */
module Utf8 {
  import opened Bytes

  predicate IsScalar(cp: int) {
    0 <= cp <= 0x10FFFF && !(0xD800 <= cp <= 0xDFFF)
  }

  /** A continuation byte: the top two bits are `10`. */
  predicate IsContinuation(b: Byte) { b / 0x40 == 2 }

  function Continuation(bits: int): Byte
    requires 0 <= bits
  {
    (0x80 + bits % 0x40) as Byte
  }

  /** The encoding of one scalar value. */
  function Encode(cp: int): (e: seq<Byte>)
    requires IsScalar(cp)
    ensures 1 <= |e| <= 4
  {
    if cp < 0x80 then [cp as Byte]
    else if cp < 0x800 then [(0xC0 + cp / 0x40) as Byte, Continuation(cp)]
    else if cp < 0x1_0000 then [(0xE0 + cp / 0x1000) as Byte, Continuation(cp / 0x40), Continuation(cp)]
    else [(0xF0 + cp / 0x4_0000) as Byte, Continuation(cp / 0x1000), Continuation(cp / 0x40), Continuation(cp)]
  }

  /** `utf8.char`: writes the encoding and returns its length; writes nothing for a non-scalar. */
  method CharOne(codepoint: int, out: array<Byte>) returns (n: nat)
    requires out.Length >= 4
    modifies out
    ensures !IsScalar(codepoint) ==> n == 0 && out[..] == old(out[..])
    ensures IsScalar(codepoint) ==> n == |Encode(codepoint)| && out[..n] == Encode(codepoint)
    ensures out[n..] == old(out[n..])
  {
    if codepoint < 0 || codepoint > 0x10FFFF {
      return 0;
    }
    if 0xD800 <= codepoint <= 0xDFFF {
      return 0;
    }
    if codepoint < 0x80 {
      out[0] := codepoint as Byte;
      n := 1;
    } else if codepoint < 0x800 {
      out[0] := (0xC0 + codepoint / 0x40) as Byte;
      out[1] := Continuation(codepoint);
      n := 2;
    } else if codepoint < 0x1_0000 {
      out[0] := (0xE0 + codepoint / 0x1000) as Byte;
      out[1] := Continuation(codepoint / 0x40);
      out[2] := Continuation(codepoint);
      n := 3;
    } else {
      out[0] := (0xF0 + codepoint / 0x4_0000) as Byte;
      out[1] := Continuation(codepoint / 0x1000);
      out[2] := Continuation(codepoint / 0x40);
      out[3] := Continuation(codepoint);
      n := 4;
    }
  }

  /** `utf8.codepoint`: the value decoded at the one-based position `i`, or -1. */
  function CodepointOne(s: seq<Byte>, i: int): int {
    if i < 1 || i - 1 >= |s| then -1
    else
      var start, b0 := i - 1, s[i - 1] as int;
      if b0 < 0x80 then b0
      else if b0 < 0xC0 then -1
      else if b0 < 0xE0 then
        if start + 1 >= |s| || !IsContinuation(s[start + 1]) then -1
        else b0 % 0x20 * 0x40 + s[start + 1] as int % 0x40
      else if b0 < 0xF0 then
        if start + 2 >= |s| || !IsContinuation(s[start + 1]) || !IsContinuation(s[start + 2]) then -1
        else b0 % 0x10 * 0x1000 + s[start + 1] as int % 0x40 * 0x40 + s[start + 2] as int % 0x40
      else if b0 < 0xF8 then
        if start + 3 >= |s| || !IsContinuation(s[start + 1]) || !IsContinuation(s[start + 2])
           || !IsContinuation(s[start + 3]) then -1
        else b0 % 0x08 * 0x4_0000 + s[start + 1] as int % 0x40 * 0x1000
             + s[start + 2] as int % 0x40 * 0x40 + s[start + 3] as int % 0x40
      else -1
  }

  // ----- Offsets -----

  /** A place where a code point may begin, or the end of the string. */
  predicate IsBoundary(s: seq<Byte>, k: nat) {
    k == |s| || (k < |s| && !IsContinuation(s[k]))
  }

  /** The boundaries before `k`. */
  function Boundaries(s: seq<Byte>, k: nat): nat {
    if k == 0 then 0 else Boundaries(s, k - 1) + if IsBoundary(s, k - 1) then 1 else 0
  }

  /** `r` is the one-based position of the `n`-th boundary of `s`, or -1 if there are fewer. */
  predicate IsOffset(s: seq<Byte>, n: int, r: int) {
    if n < 0 then r == -1
    else if n == 0 then r == 1
    else
      || (1 <= r <= |s| + 1 && IsBoundary(s, r - 1) && Boundaries(s, r - 1) == n - 1)
      || (r == -1 && Boundaries(s, |s| + 1) < n)
  }

  /** `utf8.offset`, walking forward and counting. */
  method OffsetFromStart(s: seq<Byte>, n: int) returns (r: int)
    ensures IsOffset(s, n, r)
  {
    if n < 0 {
      return -1;
    }
    if n == 0 {
      return 1;
    }
    var i := 0;
    var count := 0;
    while i <= |s|
      invariant 0 <= i <= |s| + 1
      invariant count == Boundaries(s, i) < n
    {
      var isBoundary := i == |s| || s[i] / 0x40 != 2;
      if isBoundary {
        count := count + 1;
        if count == n {
          return i + 1;
        }
      }
      i := i + 1;
    }
    return -1;
  }

  lemma {:induction false} BoundariesMonotone(s: seq<Byte>, j: nat, k: nat)
    requires j <= k
    ensures Boundaries(s, j) <= Boundaries(s, k)
    ensures j < k && IsBoundary(s, j) ==> Boundaries(s, j) < Boundaries(s, k)
    decreases k - j
  {
    if j < k {
      BoundariesMonotone(s, j + 1, k);
    }
  }

  lemma OffsetIsUnique(s: seq<Byte>, n: int, p: int, q: int)
    requires IsOffset(s, n, p) && IsOffset(s, n, q)
    ensures p == q
  {
    if n > 0 {
      if p > 0 {
        BoundariesMonotone(s, p - 1, |s| + 1);
      }
      if q > 0 {
        BoundariesMonotone(s, q - 1, |s| + 1);
      }
      if p > 0 && q > 0 {
        if p < q {
          BoundariesMonotone(s, p - 1, q - 1);
        } else {
          BoundariesMonotone(s, q - 1, p - 1);
        }
      }
    }
  }

  // ----- The round trip -----

  function EncodeAll(cps: seq<int>): seq<Byte>
    requires forall k | 0 <= k < |cps| :: IsScalar(cps[k])
  {
    if cps == [] then [] else EncodeAll(cps[..|cps| - 1]) + Encode(cps[|cps| - 1])
  }

  /** An encoding starts with the only byte of it that is not a continuation. */
  lemma EncodeBoundaries(cp: int, k: nat)
    requires IsScalar(cp) && k < |Encode(cp)|
    ensures IsContinuation(Encode(cp)[k]) <==> k > 0
  {}

  lemma ContinuationBits(bits: nat)
    ensures IsContinuation(Continuation(bits)) && Continuation(bits) as int % 0x40 == bits % 0x40
  {}

  /** The base-64 digits of a scalar. */
  lemma Digits(cp: nat)
    ensures cp == cp / 0x40 * 0x40 + cp % 0x40
    ensures cp == cp / 0x1000 * 0x1000 + cp / 0x40 % 0x40 * 0x40 + cp % 0x40
    ensures cp == cp / 0x4_0000 * 0x4_0000 + cp / 0x1000 % 0x40 * 0x1000 + cp / 0x40 % 0x40 * 0x40 + cp % 0x40
  {
    var q1 := cp / 0x40;
    var q2 := q1 / 0x40;
    assert cp / 0x1000 == q2;
    assert cp / 0x4_0000 == q2 / 0x40;
  }

  /** `s` holds the encoding of `cp` at `at`. */
  predicate HoldsAt(s: seq<Byte>, at: nat, cp: int)
    requires IsScalar(cp)
  {
    at + |Encode(cp)| <= |s| && forall k | 0 <= k < |Encode(cp)| :: s[at + k] == Encode(cp)[k]
  }

  /** Decoding at the start of an encoding gives back the scalar. */
  lemma DecodeEncode(s: seq<Byte>, at: nat, cp: int)
    requires IsScalar(cp) && HoldsAt(s, at, cp)
    ensures CodepointOne(s, at + 1) == cp
  {
    var e := Encode(cp);
    Digits(cp);
    ContinuationBits(cp);
    assert s[at + 0] == e[0];
    if 0x80 <= cp {
      assert s[at + 1] == e[1];
      ContinuationBits(cp / 0x40);
      if 0x800 <= cp {
        assert s[at + 2] == e[2];
        ContinuationBits(cp / 0x1000);
        if 0x1_0000 <= cp {
          assert s[at + 3] == e[3];
        }
      }
    }
  }

  /**
   The byte sequences of section 4 of RFC 3629, by their first two bytes: no overlong form, no surrogate and
   nothing above 10FFFF.
   */
  predicate WellFormed(s: seq<Byte>, at: nat)
    requires at < |s|
  {
    var b0 := s[at];
    || b0 < 0x80 || 0xC2 <= b0 < 0xE0 || (0xE1 <= b0 < 0xF0 && b0 != 0xED) || 0xF1 <= b0 < 0xF4
    || (at + 1 < |s| && SecondFits(b0, s[at + 1]))
  }

  /** The lead bytes that not every continuation may follow. */
  predicate SecondFits(b0: Byte, b1: Byte) {
    (b0 == 0xE0 && b1 >= 0xA0) || (b0 == 0xED && b1 < 0xA0) || (b0 == 0xF0 && b1 >= 0x90) || (b0 == 0xF4 && b1 < 0x90)
  }

  predicate Encodes(s: seq<Byte>, at: nat, cp: int) { IsScalar(cp) && HoldsAt(s, at, cp) }

  /**
   What is decoded is what is encoded there exactly for such a sequence.  Any other result is of a sequence that
   encodes nothing, such as C0 80 or ED A0 80.
   */
  lemma DecodedIsEncoded(s: seq<Byte>, at: nat)
    requires at < |s| && CodepointOne(s, at + 1) != -1
    ensures Encodes(s, at, CodepointOne(s, at + 1)) <==> WellFormed(s, at)
  {
    if s[at] < 0x80 {
      assert Encode(s[at] as int) == [s[at]];
    } else if s[at] < 0xE0 {
      DecodedTwo(s, at);
    } else if s[at] < 0xF0 {
      DecodedThree(s, at);
    } else {
      DecodedFour(s, at);
    }
  }

  /** The six bits a continuation carries. */
  function Bits6(b: Byte): nat { b as int % 0x40 }

  lemma DecodedTwo(s: seq<Byte>, at: nat)
    requires at < |s| && CodepointOne(s, at + 1) != -1 && 0x80 <= s[at] < 0xE0
    ensures Encodes(s, at, CodepointOne(s, at + 1)) <==> WellFormed(s, at)
  {
    TwoBytes(s, at, s[at] as int - 0xC0, Bits6(s[at + 1]));
  }

  lemma DecodedThree(s: seq<Byte>, at: nat)
    requires at < |s| && CodepointOne(s, at + 1) != -1 && 0xE0 <= s[at] < 0xF0
    ensures Encodes(s, at, CodepointOne(s, at + 1)) <==> WellFormed(s, at)
  {
    ThreeBytes(s, at, s[at] as int - 0xE0, Bits6(s[at + 1]), Bits6(s[at + 2]));
  }

  lemma DecodedFour(s: seq<Byte>, at: nat)
    requires at < |s| && CodepointOne(s, at + 1) != -1 && 0xF0 <= s[at]
    ensures Encodes(s, at, CodepointOne(s, at + 1)) <==> WellFormed(s, at)
  {
    FourBytes(s, at, s[at] as int - 0xF0, Bits6(s[at + 1]), Bits6(s[at + 2]), Bits6(s[at + 3]));
  }

  /** An encoding starts with its lead byte. */
  lemma HoldsLead(s: seq<Byte>, at: nat, cp: int)
    requires IsScalar(cp) && HoldsAt(s, at, cp)
    ensures at < |s| && s[at] == Encode(cp)[0]
  {
    assert s[at + 0] == Encode(cp)[0];
  }

  lemma TwoBytes(s: seq<Byte>, at: nat, h: nat, l: nat)
    requires at + 1 < |s| && h < 0x20 && l < 0x40 && s[at] as int == 0xC0 + h && s[at + 1] as int == 0x80 + l
    ensures Encodes(s, at, h * 0x40 + l) <==> h >= 2
  {
    var cp := h * 0x40 + l;
    assert cp / 0x40 == h && cp % 0x40 == l;
    if h < 2 && Encodes(s, at, cp) {
      HoldsLead(s, at, cp);
    }
  }

  lemma ThreeBytes(s: seq<Byte>, at: nat, h: nat, m: nat, l: nat)
    requires at + 2 < |s| && h < 0x10 && m < 0x40 && l < 0x40
    requires s[at] as int == 0xE0 + h && s[at + 1] as int == 0x80 + m && s[at + 2] as int == 0x80 + l
    ensures Encodes(s, at, h * 0x1000 + m * 0x40 + l) <==> (h == 0 ==> m >= 0x20) && (h == 13 ==> m < 0x20)
  {
    var cp := h * 0x1000 + m * 0x40 + l;
    assert cp / 0x40 == h * 0x40 + m && cp % 0x40 == l;
    assert cp / 0x1000 == h && cp / 0x40 % 0x40 == m;
    if h == 0 && m < 0x20 && Encodes(s, at, cp) {
      HoldsLead(s, at, cp);
    }
  }

  lemma FourBytes(s: seq<Byte>, at: nat, h: nat, m: nat, n: nat, l: nat)
    requires at + 3 < |s| && h < 8 && m < 0x40 && n < 0x40 && l < 0x40
    requires s[at] as int == 0xF0 + h && s[at + 1] as int == 0x80 + m
    requires s[at + 2] as int == 0x80 + n && s[at + 3] as int == 0x80 + l
    ensures Encodes(s, at, h * 0x4_0000 + m * 0x1000 + n * 0x40 + l)
       <==> (h == 0 ==> m >= 0x10) && (h == 4 ==> m < 0x10) && h <= 4
  {
    var cp := h * 0x4_0000 + m * 0x1000 + n * 0x40 + l;
    assert cp / 0x40 == h * 0x1000 + m * 0x40 + n && cp % 0x40 == l;
    assert cp / 0x1000 == h * 0x40 + m && cp / 0x40 % 0x40 == n;
    assert cp / 0x4_0000 == h && cp / 0x1000 % 0x40 == m;
    if h == 0 && m < 0x10 && Encodes(s, at, cp) {
      HoldsLead(s, at, cp);
    }
  }

  // ----- The encoding by its grammar -----

  predicate Tail(b: Byte) { 0x80 <= b <= 0xBF }

  /** The sequences of section 4 of RFC 3629. */
  predicate IsUtf8(e: seq<Byte>) {
    match |e|
    case 1 => e[0] <= 0x7F
    case 2 => 0xC2 <= e[0] <= 0xDF && Tail(e[1])
    case 3 =>
      && Tail(e[2])
      && if e[0] == 0xE0 then 0xA0 <= e[1] <= 0xBF
         else if e[0] == 0xED then 0x80 <= e[1] <= 0x9F
         else 0xE1 <= e[0] <= 0xEF && Tail(e[1])
    case 4 =>
      && Tail(e[2]) && Tail(e[3])
      && if e[0] == 0xF0 then 0x90 <= e[1] <= 0xBF
         else if e[0] == 0xF4 then 0x80 <= e[1] <= 0x8F
         else 0xF1 <= e[0] <= 0xF3 && Tail(e[1])
    case _ => false
  }

  lemma EncodeIsUtf8(cp: int)
    requires IsScalar(cp)
    ensures IsUtf8(Encode(cp))
  {}

  /** The encodings are exactly those sequences. */
  lemma EncodingsAreUtf8(e: seq<Byte>)
    ensures IsUtf8(e) <==> exists cp :: IsScalar(cp) && Encode(cp) == e
  {
    if IsUtf8(e) {
      DecodedIsEncoded(e, 0);
      var cp := CodepointOne(e, 1);
      HoldsLead(e, 0, cp);
      assert |Encode(cp)| == |e|;
      assert forall k | 0 <= k < |e| :: e[0 + k] == Encode(cp)[k];
      assert Encode(cp) == e;
    }
    if cp :| IsScalar(cp) && Encode(cp) == e {
      EncodeIsUtf8(cp);
    }
  }

  /** Lexicographic order. */
  predicate Less(s: seq<Byte>, t: seq<Byte>) {
    t != [] && (s == [] || s[0] < t[0] || (s[0] == t[0] && Less(s[1..], t[1..])))
  }

  /** Encodings are ordered as the scalars are (RFC 3629, section 1), which leaves each scalar one of them. */
  lemma EncodingKeepsOrder(a: int, b: int)
    requires IsScalar(a) && IsScalar(b) && a < b
    ensures Less(Encode(a), Encode(b))
  {
    var s, t := Encode(a), Encode(b);
    if |s| == |t| {
      if a < 0x80 {
        LessTail(s, t, 0);
      } else if a < 0x800 {
        DigitsInOrder(a, b);
        LessTail(s, t, if a / 0x40 < b / 0x40 then 0 else 1);
      } else if a < 0x1_0000 {
        DigitsInOrder(a, b);
        LessTail(s, t, if a / 0x1000 < b / 0x1000 then 0 else if a / 0x40 < b / 0x40 then 1 else 2);
      } else {
        DigitsInOrder(a, b);
        LessTail(s, t,
          if a / 0x4_0000 < b / 0x4_0000 then 0
          else if a / 0x1000 < b / 0x1000 then 1 else if a / 0x40 < b / 0x40 then 2 else 3);
      }
    }
  }

  /** Where the quotients of two numbers are equal, the remainders are in order. */
  lemma DigitsInOrder(a: nat, b: nat)
    requires a < b
    ensures a / 0x40 <= b / 0x40 && (a / 0x40 == b / 0x40 ==> a % 0x40 < b % 0x40)
    ensures a / 0x1000 <= b / 0x1000
    ensures a / 0x1000 == b / 0x1000 && a / 0x40 < b / 0x40 ==> a / 0x40 % 0x40 < b / 0x40 % 0x40
    ensures a / 0x4_0000 <= b / 0x4_0000
    ensures a / 0x4_0000 == b / 0x4_0000 && a / 0x1000 < b / 0x1000 ==> a / 0x1000 % 0x40 < b / 0x1000 % 0x40
  {
    Digits(a);
    Digits(b);
  }

  /** Sequences of one length that first differ at `k`. */
  lemma {:induction false} LessTail(s: seq<Byte>, t: seq<Byte>, k: nat)
    requires k < |s| == |t| && (forall m | 0 <= m < k :: s[m] == t[m]) && s[k] < t[k]
    ensures Less(s, t)
    decreases |s|
  {
    if k > 0 {
      LessTail(s[1..], t[1..], k - 1);
    }
  }

  // ----- What does not decode -----

  /** How many bytes a sequence has by its lead byte; none if it may not lead. */
  function SequenceLength(lead: Byte): nat {
    if lead <= 0x7F then 1 else if 0xC0 <= lead <= 0xDF then 2 else if 0xE0 <= lead <= 0xEF then 3
    else if 0xF0 <= lead <= 0xF7 then 4 else 0
  }

  /** A position decodes exactly if a lead byte stands there with all its continuations. */
  lemma DecodesWhole(s: seq<Byte>, i: int)
    ensures CodepointOne(s, i) != -1 <==>
            && 1 <= i <= |s| && SequenceLength(s[i - 1]) > 0 && i - 1 + SequenceLength(s[i - 1]) <= |s|
            && forall m | i <= m < i - 1 + SequenceLength(s[i - 1]) :: Tail(s[m])
  {
    if 1 <= i <= |s| {
      var n := SequenceLength(s[i - 1]);
      if n > 0 && i - 1 + n <= |s| {
        assert (forall m | i <= m < i - 1 + n :: Tail(s[m])) <==>
               (n > 1 ==> Tail(s[i])) && (n > 2 ==> Tail(s[i + 1])) && (n > 3 ==> Tail(s[i + 2]));
      }
    }
  }

  /** Boundaries before `k` depend only on the bytes before `k`. */
  lemma {:induction false} BoundariesPrefix(s: seq<Byte>, t: seq<Byte>, k: nat)
    requires k <= |s|
    ensures Boundaries(s + t, k) == Boundaries(s, k)
  {
    if k > 0 {
      BoundariesPrefix(s, t, k - 1);
    }
  }

  lemma {:induction false} BoundariesAcrossEncoding(s: seq<Byte>, cp: int, k: nat)
    requires IsScalar(cp) && 1 <= k <= |Encode(cp)|
    ensures Boundaries(s + Encode(cp), |s| + k) == Boundaries(s, |s|) + 1
  {
    EncodeBoundaries(cp, k - 1);
    if k == 1 {
      BoundariesPrefix(s, Encode(cp), |s|);
    } else {
      BoundariesAcrossEncoding(s, cp, k - 1);
    }
  }

  lemma {:induction false} EncodeAllBoundaries(cps: seq<int>)
    requires forall k | 0 <= k < |cps| :: IsScalar(cps[k])
    ensures Boundaries(EncodeAll(cps), |EncodeAll(cps)|) == |cps|
  {
    if cps != [] {
      var init, last := cps[..|cps| - 1], cps[|cps| - 1];
      EncodeAllBoundaries(init);
      BoundariesAcrossEncoding(EncodeAll(init), last, |Encode(last)|);
    }
  }

  /** The `m`-th scalar's encoding begins where the encodings before it end. */
  lemma {:induction false} EncodeAllSplit(cps: seq<int>, m: nat)
    requires forall k | 0 <= k < |cps| :: IsScalar(cps[k])
    requires m < |cps|
    ensures EncodeAll(cps[..m]) <= EncodeAll(cps)
    ensures HoldsAt(EncodeAll(cps), |EncodeAll(cps[..m])|, cps[m])
    decreases |cps|
  {
    var init := cps[..|cps| - 1];
    if m < |cps| - 1 {
      EncodeAllSplit(init, m);
      assert init[..m] == cps[..m];
      assert EncodeAll(init) <= EncodeAll(cps);
    }
  }

  /** The `m`-th scalar, counted from 0, begins at the boundary with that many before it and decodes there. */
  lemma ScalarBegins(cps: seq<int>, m: nat)
    requires forall k | 0 <= k < |cps| :: IsScalar(cps[k])
    requires m < |cps|
    ensures var s, at := EncodeAll(cps), |EncodeAll(cps[..m])|;
            && at < |s| && IsBoundary(s, at) && Boundaries(s, at) == m && CodepointOne(s, at + 1) == cps[m]
  {
    var s, before := EncodeAll(cps), EncodeAll(cps[..m]);
    EncodeAllSplit(cps, m);
    DecodeEncode(s, |before|, cps[m]);
    EncodeBoundaries(cps[m], 0);
    assert s[|before| + 0] == Encode(cps[m])[0];
    EncodeAllBoundaries(cps[..m]);
    BoundariesPrefix(before, s[|before|..], |before|);
    assert before + s[|before|..] == s;
  }

  /**
   The whole-string round trip.  In an encoded string of scalars, the offset of the `n`-th is one past
   the encoding of those before it, decoding there gives it back, position `count + 1` is the end, and
   there is nothing beyond.  Number 0 is the start, and there is none below.
   */
  lemma RoundTrip(cps: seq<int>, n: int, r: int)
    requires forall k | 0 <= k < |cps| :: IsScalar(cps[k])
    requires IsOffset(EncodeAll(cps), n, r)
    ensures 1 <= n <= |cps| ==> r == |EncodeAll(cps[..n - 1])| + 1 && CodepointOne(EncodeAll(cps), r) == cps[n - 1]
    ensures n == |cps| + 1 ==> r == |EncodeAll(cps)| + 1
    ensures n < 0 || n > |cps| + 1 ==> r == -1
    ensures n == 0 ==> r == 1
  {
    var s := EncodeAll(cps);
    EncodeAllBoundaries(cps);
    if 1 <= n <= |cps| {
      ScalarBegins(cps, n - 1);
      OffsetIsUnique(s, n, r, |EncodeAll(cps[..n - 1])| + 1);
    } else if n == |cps| + 1 {
      OffsetIsUnique(s, n, r, |s| + 1);
    } else if n > 0 {
      OffsetIsUnique(s, n, r, -1);
    }
  }
}

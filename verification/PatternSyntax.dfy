/**
 The concrete syntax of Lua patterns as the runtime reads it: single-byte classes, bracket sets,
 atoms, and the item list a pattern denotes (Lua 5.4 Reference Manual, section 6.4.1).

 The runtime never builds an item list; it walks the pattern bytes while it matches.  `Items` is the
 meaning of that walk, and the methods of this module are the walks themselves.
 */
module PatternSyntax {
  import opened Bytes

  const PERCENT: Byte := 0x25   // %
  const DOT: Byte := 0x2E       // .
  const LBRACKET: Byte := 0x5B  // [
  const RBRACKET: Byte := 0x5D  // ]
  const CARET: Byte := 0x5E     // ^
  const DASH: Byte := 0x2D      // -
  const DOLLAR: Byte := 0x24    // $
  const LPAREN: Byte := 0x28    // (
  const RPAREN: Byte := 0x29    // )
  const STAR: Byte := 0x2A      // *
  const PLUS: Byte := 0x2B      // +
  const QUESTION: Byte := 0x3F  // ?
  const LOWER_B: Byte := 0x62   // b
  const LOWER_F: Byte := 0x66   // f

  // ----- Single-byte classes -----

  predicate IsUpper(c: Byte) { 0x41 <= c <= 0x5A }
  predicate IsLower(c: Byte) { 0x61 <= c <= 0x7A }
  predicate IsDigit(c: Byte) { 0x30 <= c <= 0x39 }
  predicate IsAlpha(c: Byte) { IsUpper(c) || IsLower(c) }
  predicate IsAlnum(c: Byte) { IsAlpha(c) || IsDigit(c) }
  predicate IsHex(c: Byte) { IsDigit(c) || 0x41 <= c <= 0x46 || 0x61 <= c <= 0x66 }
  predicate IsControl(c: Byte) { c <= 0x1F || c == 0x7F }
  predicate IsSpace(c: Byte) { c == 0x20 || 0x09 <= c <= 0x0D }
  predicate IsPunct(c: Byte) {
    0x21 <= c <= 0x2F || 0x3A <= c <= 0x40 || 0x5B <= c <= 0x60 || 0x7B <= c <= 0x7E
  }

  /** The test `%X` performs on byte `c`; an `X` that names no class stands for itself. */
  predicate MatchesClass(c: Byte, cls: Byte) {
    if cls == 0x61 then IsAlpha(c)
    else if cls == 0x41 then !IsAlpha(c)
    else if cls == 0x64 then IsDigit(c)
    else if cls == 0x44 then !IsDigit(c)
    else if cls == 0x73 then IsSpace(c)
    else if cls == 0x53 then !IsSpace(c)
    else if cls == 0x77 then IsAlnum(c)
    else if cls == 0x57 then !IsAlnum(c)
    else if cls == 0x70 then IsPunct(c)
    else if cls == 0x50 then !IsPunct(c)
    else if cls == 0x6C then IsLower(c)
    else if cls == 0x4C then !IsLower(c)
    else if cls == 0x75 then IsUpper(c)
    else if cls == 0x55 then !IsUpper(c)
    else if cls == 0x78 then IsHex(c)
    else if cls == 0x58 then !IsHex(c)
    else if cls == 0x63 then IsControl(c)
    else if cls == 0x43 then !IsControl(c)
    else c == cls
  }

  // ----- Bracket sets -----

  datatype SetElem =
    | Class(cls: Byte)
    | Range(lo: Byte, hi: Byte)
    | Single(b: Byte)

  datatype ByteSet = ByteSet(negate: bool, elems: seq<SetElem>)

  predicate ElemAdmits(e: SetElem, c: Byte) {
    match e
    case Class(cls) => MatchesClass(c, cls)
    case Range(lo, hi) => lo <= c <= hi
    case Single(b) => c == b
  }

  predicate AnyAdmits(elems: seq<SetElem>, c: Byte) {
    exists k | 0 <= k < |elems| :: ElemAdmits(elems[k], c)
  }

  predicate SetAdmits(set_: ByteSet, c: Byte) {
    AnyAdmits(set_.elems, c) != set_.negate
  }

  /** True where the set element at `j` is an escape `%X`. */
  predicate EscapeAt(pat: seq<Byte>, j: nat) {
    j + 1 < |pat| && pat[j] == PERCENT
  }

  /** True where the set element at `j` is a range `a-X`; `X` may be any byte but `]`. */
  predicate RangeAt(pat: seq<Byte>, j: nat) {
    j + 2 < |pat| && !EscapeAt(pat, j) && pat[j + 1] == DASH && pat[j + 2] != RBRACKET
  }

  /** The width in bytes of the set element at `j`, as the set test reads it. */
  function ElemLen(pat: seq<Byte>, j: nat): nat {
    if EscapeAt(pat, j) then 2 else if RangeAt(pat, j) then 3 else 1
  }

  function ElemAt(pat: seq<Byte>, j: nat): SetElem
    requires j < |pat|
  {
    if EscapeAt(pat, j) then Class(pat[j + 1])
    else if RangeAt(pat, j) then Range(pat[j], pat[j + 2])
    else Single(pat[j])
  }

  /** The elements of a set body that starts at `j`: up to the first `]` met at an element boundary. */
  function SetElems(pat: seq<Byte>, j: nat): seq<SetElem>
    decreases |pat| - j
  {
    if j >= |pat| || pat[j] == RBRACKET then []
    else [ElemAt(pat, j)] + SetElems(pat, j + ElemLen(pat, j))
  }

  /** Where the set test stops: the index of the `]` that ends `SetElems`, or the pattern's end. */
  function SetStop(pat: seq<Byte>, j: nat): (stop: nat)
    requires j <= |pat|
    ensures j <= stop <= |pat| && (stop < |pat| ==> pat[stop] == RBRACKET)
    decreases |pat| - j
  {
    if j == |pat| || pat[j] == RBRACKET then j
    else SetStop(pat, j + ElemLen(pat, j))
  }

  /** The index of the first byte of a set body whose `[` is at `p`. */
  function SetBody(pat: seq<Byte>, p: nat): (j: nat)
    requires p < |pat|
    ensures p < j <= |pat|
  {
    if p + 1 < |pat| && pat[p + 1] == CARET then p + 2 else p + 1
  }

  function SetAt(pat: seq<Byte>, p: nat): ByteSet
    requires p < |pat|
  {
    ByteSet(p + 1 < |pat| && pat[p + 1] == CARET, SetElems(pat, SetBody(pat, p)))
  }

  /** A set that is never closed has the elements it has with a `]` behind the pattern, unless that is escaped. */
  lemma {:induction false} UnclosedSet(pat: seq<Byte>, j: nat)
    requires j <= |pat| && SetStop(pat, j) == |pat| && (j < |pat| ==> pat[|pat| - 1] != PERCENT)
    ensures SetElems(pat + [RBRACKET], j) == SetElems(pat, j) && SetStop(pat + [RBRACKET], j) == |pat|
    decreases |pat| - j
  {
    if j < |pat| {
      assert ElemLen(pat + [RBRACKET], j) == ElemLen(pat, j) && ElemAt(pat + [RBRACKET], j) == ElemAt(pat, j);
      UnclosedSet(pat, j + ElemLen(pat, j));
    }
  }

  lemma AnyAdmitsCons(e: SetElem, rest: seq<SetElem>, c: Byte)
    ensures AnyAdmits([e] + rest, c) == (ElemAdmits(e, c) || AnyAdmits(rest, c))
  {
    var all := [e] + rest;
    if AnyAdmits(rest, c) {
      var k :| 0 <= k < |rest| && ElemAdmits(rest[k], c);
      assert ElemAdmits(all[k + 1], c);
    }
    if ElemAdmits(e, c) {
      assert ElemAdmits(all[0], c);
    }
    if AnyAdmits(all, c) && !ElemAdmits(e, c) {
      var k :| 0 <= k < |all| && ElemAdmits(all[k], c);
      assert ElemAdmits(rest[k - 1], c);
    }
  }

  /** The set test: one pass over the body, accumulating `matched`. */
  method MatchesSet(c: Byte, pat: seq<Byte>, p: nat) returns (r: bool, ghost stop: nat)
    requires p < |pat|
    ensures r == SetAdmits(SetAt(pat, p), c)
    ensures stop == SetStop(pat, SetBody(pat, p))
  {
    var j := p + 1;
    var negate := j < |pat| && pat[j] == CARET;
    if negate {
      j := j + 1;
    }
    var matched := false;
    while j < |pat| && pat[j] != RBRACKET
      invariant j <= |pat|
      invariant AnyAdmits(SetAt(pat, p).elems, c) == (matched || AnyAdmits(SetElems(pat, j), c))
      invariant SetStop(pat, SetBody(pat, p)) == SetStop(pat, j)
    {
      AnyAdmitsCons(ElemAt(pat, j), SetElems(pat, j + ElemLen(pat, j)), c);
      var b := pat[j];
      if b == PERCENT && j + 1 < |pat| {
        if MatchesClass(c, pat[j + 1]) {
          matched := true;
        }
        j := j + 2;
        continue;
      }
      if j + 2 < |pat| && pat[j + 1] == DASH && pat[j + 2] != RBRACKET {
        var lo, hi := b, pat[j + 2];
        if lo <= c && c <= hi {
          matched := true;
        }
        j := j + 3;
        continue;
      }
      if c == b {
        matched := true;
      }
      j := j + 1;
    }
    r := matched != negate;
    stop := j;
  }

  // ----- Atoms -----

  datatype Atom =
    | AnyByte
    | ClassAtom(cls: Byte)
    | SetAtom(set_: ByteSet)
    | Literal(b: Byte)

  predicate Admits(atom: Atom, c: Byte) {
    match atom
    case AnyByte => true
    case ClassAtom(cls) => MatchesClass(c, cls)
    case SetAtom(set_) => SetAdmits(set_, c)
    case Literal(b) => c == b
  }

  function AtomAt(pat: seq<Byte>, p: nat): Atom
    requires p < |pat| && (pat[p] == PERCENT ==> p + 1 < |pat|)
  {
    if pat[p] == PERCENT then ClassAtom(pat[p + 1])
    else if pat[p] == DOT then AnyByte
    else if pat[p] == LBRACKET then SetAtom(SetAt(pat, p))
    else Literal(pat[p])
  }

  method MatchesAtom(c: Byte, pat: seq<Byte>, p: nat) returns (r: bool)
    requires p < |pat| && (pat[p] == PERCENT ==> p + 1 < |pat|)
    ensures r == Admits(AtomAt(pat, p), c)
  {
    if pat[p] == PERCENT {
      r := MatchesClass(c, pat[p + 1]);
    } else if pat[p] == DOT {
      r := true;
    } else if pat[p] == LBRACKET {
      ghost var stop;
      r, stop := MatchesSet(c, pat, p);
    } else {
      r := c == pat[p];
    }
  }

  /** The closing `]` as the length walker sees it: `%X` is skipped, ranges are not recognised. */
  function SetClose(pat: seq<Byte>, j: nat): (close: nat)
    requires j <= |pat|
    ensures j <= close <= |pat| && (close < |pat| ==> pat[close] == RBRACKET)
    decreases |pat| - j
  {
    if j == |pat| then j
    else if EscapeAt(pat, j) then SetClose(pat, j + 2)
    else if pat[j] == RBRACKET then j
    else SetClose(pat, j + 1)
  }

  function Min(a: nat, b: nat): nat { if a <= b then a else b }

  /** The width of the atom at `p`; it may exceed the pattern only for a `%` in last position. */
  function AtomLen(pat: seq<Byte>, p: nat): (n: nat)
    requires p < |pat|
    ensures n > 0
    ensures p + n > |pat| <==> pat[p] == PERCENT && p + 1 == |pat|
  {
    if pat[p] == PERCENT then 2
    else if pat[p] != LBRACKET then 1
    else Min(SetClose(pat, SetBody(pat, p)) + 1, |pat|) - p
  }

  method MeasureAtom(pat: seq<Byte>, p: nat) returns (n: nat)
    requires p < |pat|
    ensures n == AtomLen(pat, p)
  {
    if pat[p] == PERCENT {
      return 2;
    }
    if pat[p] != LBRACKET {
      return 1;
    }
    var j := p + 1;
    if j < |pat| && pat[j] == CARET {
      j := j + 1;
    }
    while j < |pat|
      invariant p < j <= |pat|
      invariant SetClose(pat, SetBody(pat, p)) == SetClose(pat, j)
    {
      var b := pat[j];
      if b == PERCENT && j + 1 < |pat| {
        j := j + 2;
        continue;
      }
      if b == RBRACKET {
        return j - p + 1;
      }
      j := j + 1;
    }
    n := |pat| - p;
  }

  // ----- The two set walkers -----

  /** The index just past the run of `%` that starts at `j`. */
  function PercentRunEnd(pat: seq<Byte>, j: nat): (e: nat)
    requires j <= |pat|
    ensures j <= e <= |pat|
    decreases |pat| - j
  {
    if j < |pat| && pat[j] == PERCENT then PercentRunEnd(pat, j + 1) else j
  }

  /** A range whose upper end opens a run of `%` that runs straight into a `]`. */
  predicate PercentRangeCloses(pat: seq<Byte>, j: nat) {
    RangeAt(pat, j) && pat[j + 2] == PERCENT &&
    var e := PercentRunEnd(pat, j + 2);
    e < |pat| && pat[e] == RBRACKET
  }

  /** No element of the set body at `j` is such a range. */
  predicate CleanRanges(pat: seq<Byte>, j: nat)
    decreases |pat| - j
  {
    j < |pat| && pat[j] != RBRACKET ==>
      !PercentRangeCloses(pat, j) && CleanRanges(pat, j + ElemLen(pat, j))
  }

  /**
   The set test and the length walker end a set at the same place exactly when no range of the set
   ends in a run of `%` that is directly followed by `]`; so exactly then does matching resume just
   past the set it tested.
   */
  lemma {:induction false} SetWalkersAgree(pat: seq<Byte>, j: nat)
    requires j <= |pat|
    ensures SetStop(pat, j) == SetClose(pat, j) <==> CleanRanges(pat, j)
    decreases |pat| - j
  {
    if j < |pat| && pat[j] != RBRACKET {
      if RangeAt(pat, j) && pat[j + 2] == PERCENT && j + 3 < |pat| {
        assert SetClose(pat, j) == SetClose(pat, j + 1) == SetClose(pat, j + 2);
        WalkersOutOfStep(pat, j + 2);
      } else {
        SetWalkersAgree(pat, j + ElemLen(pat, j));
        if RangeAt(pat, j) {
          assert SetClose(pat, j) == SetClose(pat, j + 1) == SetClose(pat, j + 2) == SetClose(pat, j + 3);
        }
      }
    }
  }

  /** The length walker is about to skip the byte at `q + 1`, where the set test starts an element. */
  lemma {:induction false} WalkersOutOfStep(pat: seq<Byte>, q: nat)
    requires EscapeAt(pat, q)
    ensures var e := PercentRunEnd(pat, q);
            SetStop(pat, q + 1) == SetClose(pat, q)
            <==> !(e < |pat| && pat[e] == RBRACKET) && CleanRanges(pat, q + 1)
    decreases |pat| - q
  {
    assert PercentRunEnd(pat, q) == PercentRunEnd(pat, q + 1);
    if pat[q + 1] == PERCENT {
      assert PercentRunEnd(pat, q + 1) == PercentRunEnd(pat, q + 2);
      if q + 2 < |pat| && pat[q + 2] != RBRACKET {
        if EscapeAt(pat, q + 2) {
          WalkersOutOfStep(pat, q + 2);
        } else if q + 3 <= |pat| {
          SetWalkersAgree(pat, q + 3);
        }
      }
    } else if pat[q + 1] != RBRACKET {
      SetWalkersAgree(pat, q + 1);
    }
  }

  /** Without a range ending in `%` the walkers agree. */
  lemma {:induction false} NoPercentRangeIsClean(pat: seq<Byte>, j: nat)
    requires forall k :: j <= k < |pat| && RangeAt(pat, k) ==> pat[k + 2] != PERCENT
    ensures CleanRanges(pat, j)
    decreases |pat| - j
  {
    if j < |pat| && pat[j] != RBRACKET {
      NoPercentRangeIsClean(pat, j + ElemLen(pat, j));
    }
  }

  /** `[a-%]]` is such a set: tested as `[a-%]`, measured as `[a-%]]`. */
  lemma WalkersDisagreeExample()
    ensures var pat := [LBRACKET, 0x61, DASH, PERCENT, RBRACKET, RBRACKET];
            SetStop(pat, SetBody(pat, 0)) == 4 && AtomLen(pat, 0) == 6
  {
    var pat: seq<Byte> := [LBRACKET, 0x61, DASH, PERCENT, RBRACKET, RBRACKET];
    assert SetStop(pat, 1) == SetStop(pat, 4);
    assert SetClose(pat, 1) == SetClose(pat, 2) == SetClose(pat, 3) == SetClose(pat, 5) == 5;
  }
}

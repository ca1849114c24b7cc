/**
 The backtracking matcher: five mutually recursive methods that share one mutable capture state.
 Each is proved to compute the greedy match of the items its pattern position stands for, and to
 leave the capture state untouched when it fails.
 */
module PatternMatcher {
  import opened Wrappers
  import opened Bytes
  import opened PatternSyntax
  import opened PatternSemantics

  class CapState {
    var hasPending: bool
    var pendingStart: nat
    var captured: bool
    var capStart: nat
    var capEnd: nat

    constructor ()
      ensures Value() == NO_CAP
    {
      hasPending, pendingStart, captured, capStart, capEnd := false, 0, false, 0, 0;
    }

    function Value(): Cap
      reads this
    {
      Cap(hasPending, pendingStart, captured, capStart, capEnd)
    }

    method Restore(saved: Cap)
      modifies this
      ensures Value() == saved
    {
      hasPending, pendingStart := saved.hasPending, saved.pendingStart;
      captured, capStart, capEnd := saved.captured, saved.capStart, saved.capEnd;
    }
  }

  /** What a caller sees of a search: the end index and the capture state afterwards. */
  function Observed(found: Option<Match>, cap: Cap): (Option<nat>, Cap) {
    match found
    case None => (None, cap)
    case Some(m) => (Some(m.end), m.cap)
  }

  // ----- Which widths are worth trying -----

  lemma {:induction false} SkipWidths(s: seq<Byte>, i: nat, item: Item, rest: seq<Item>, cap: Cap, hi: nat, lo: nat)
    requires lo <= hi && i + hi <= |s|
    requires forall k | lo < k <= hi :: !Takes(s, i, item, k, cap)
    ensures TryWidths(s, i, item, rest, cap, hi) == TryWidths(s, i, item, rest, cap, lo)
  {
    if lo < hi {
      SkipWidths(s, i, item, rest, cap, hi - 1, lo);
    }
  }

  /** If no width but `only` is possible, the search comes down to that width. */
  lemma OnlyWidth(s: seq<Byte>, i: nat, item: Item, rest: seq<Item>, cap: Cap, only: nat)
    requires i + only <= |s|
    requires forall k | 0 <= k <= |s| - i && k != only :: !Takes(s, i, item, k, cap)
    ensures TryWidths(s, i, item, rest, cap, |s| - i) == TryWidth(s, i, item, rest, cap, only)
  {
    SkipWidths(s, i, item, rest, cap, |s| - i, only);
    if only > 0 {
      SkipWidths(s, i, item, rest, cap, only - 1, 0);
    }
  }

  lemma NoWidth(s: seq<Byte>, i: nat, item: Item, rest: seq<Item>, cap: Cap)
    requires i <= |s|
    requires forall k | 0 <= k <= |s| - i :: !Takes(s, i, item, k, cap)
    ensures TryWidths(s, i, item, rest, cap, |s| - i) == None
  {
    SkipWidths(s, i, item, rest, cap, |s| - i, 0);
  }

  /** A balanced span closes for the first time at its end, so no shorter span is balanced. */
  lemma BalancedIsShortest(s: seq<Byte>, i: nat, x: Byte, y: Byte, k: nat, n: nat)
    requires k < n && i + n <= |s| && IsBalanced(s[i..i + n], x, y)
    ensures !IsBalanced(s[i..i + k], x, y)
  {
    assert s[i..i + n][..k] == s[i..i + k];
  }

  lemma {:induction false} DepthStep(s: seq<Byte>, i: nat, j: nat, x: Byte, y: Byte)
    requires i <= j < |s|
    ensures Depth(s[i..j + 1], x, y) == Depth(s[i..j], x, y) + if s[j] == x then 1 else if s[j] == y then -1 else 0
  {
    assert s[i..j + 1][..j - i] == s[i..j];
  }

  /** Equal delimiters never close, since each occurrence counts as opening. */
  lemma {:induction false} EqualDelimitersNeverClose(t: seq<Byte>, x: Byte)
    ensures Depth(t, x, x) >= 0
    ensures !IsBalanced(t, x, x)
  {
    if t != [] {
      EqualDelimitersNeverClose(t[..|t| - 1], x);
      if |t| == 1 && t[0] == x {
        assert Depth(t[..0], x, x) == 0;
      }
    }
  }

  // ----- The matcher -----

  method IsFrontier(s: seq<Byte>, si: nat, pat: seq<Byte>, p: nat) returns (r: bool)
    requires si <= |s| && p < |pat|
    ensures r == (!SetAdmits(SetAt(pat, p), ByteBefore(s, si)) && SetAdmits(SetAt(pat, p), ByteFrom(s, si)))
  {
    var prev := if si == 0 then 0 else s[si - 1];
    var cur := if si >= |s| then 0 else s[si];
    ghost var stop;
    r, stop := MatchesSet(prev, pat, p);
    if r {
      r := false;
    } else {
      r, stop := MatchesSet(cur, pat, p);
    }
  }

  method MatchBalanced(s: seq<Byte>, si: nat, x: Byte, y: Byte, pat: seq<Byte>, restP: nat, cap: CapState)
    returns (r: Option<nat>)
    requires si <= |s| && restP <= |pat|
    modifies cap
    ensures (r, cap.Value())
         == Observed(TryWidths(s, si, Balanced(x, y), Items(pat, restP), old(cap.Value()), |s| - si), old(cap.Value()))
    decreases |pat| - restP, 3
  {
    ghost var rest, cap0 := Items(pat, restP), cap.Value();
    if si >= |s| || s[si] != x {
      NeverOpens(s, si, x, y, rest, cap0);
      return None;
    }
    var end := ScanBalanced(s, si, x, y);
    if end.Some? {
      ClosesAt(s, si, end.value, x, y, rest, cap0);
      r := MatchPattern(s, end.value, pat, restP, cap);
      return;
    }
    NeverCloses(s, si, x, y, rest, cap0);
    r := None;
  }

  /** Behind the first return to depth zero. */
  method ScanBalanced(s: seq<Byte>, si: nat, x: Byte, y: Byte) returns (end: Option<nat>)
    requires si < |s| && s[si] == x
    ensures end.Some? ==> si < end.value <= |s| && Depth(s[si..end.value], x, y) == 0
    ensures forall n | si < n < (if end.Some? then end.value else |s| + 1) :: Depth(s[si..n], x, y) > 0
  {
    var depth := 1;
    var j := si + 1;
    DepthStep(s, si, si, x, y);
    while j < |s|
      invariant si < j <= |s|
      invariant depth == Depth(s[si..j], x, y)
      invariant forall n | si < n <= j :: Depth(s[si..n], x, y) > 0
    {
      DepthStep(s, si, j, x, y);
      var c := s[j];
      if c == x {
        depth := depth + 1;
      } else if c == y {
        depth := depth - 1;
        if depth == 0 {
          return Some(j + 1);
        }
      }
      j := j + 1;
    }
    end := None;
  }

  lemma NeverOpens(s: seq<Byte>, i: nat, x: Byte, y: Byte, rest: seq<Item>, cap: Cap)
    requires i <= |s| && (i < |s| ==> s[i] != x)
    ensures TryWidths(s, i, Balanced(x, y), rest, cap, |s| - i) == None
  {
    forall k | 0 <= k <= |s| - i ensures !Takes(s, i, Balanced(x, y), k, cap) {}
    NoWidth(s, i, Balanced(x, y), rest, cap);
  }

  lemma NeverCloses(s: seq<Byte>, i: nat, x: Byte, y: Byte, rest: seq<Item>, cap: Cap)
    requires i < |s| && forall n | i < n <= |s| :: Depth(s[i..n], x, y) > 0
    ensures TryWidths(s, i, Balanced(x, y), rest, cap, |s| - i) == None
  {
    forall k | 0 <= k <= |s| - i
      ensures !Takes(s, i, Balanced(x, y), k, cap)
    {
      if k > 0 {
        assert Depth(s[i..i + k], x, y) > 0;
      }
    }
    NoWidth(s, i, Balanced(x, y), rest, cap);
  }

  lemma ClosesAt(s: seq<Byte>, i: nat, end: nat, x: Byte, y: Byte, rest: seq<Item>, cap: Cap)
    requires i < end <= |s| && s[i] == x && Depth(s[i..end], x, y) == 0
    requires forall n | i < n < end :: Depth(s[i..n], x, y) > 0
    ensures Observed(TryWidths(s, i, Balanced(x, y), rest, cap, |s| - i), cap) == Observed(Greedy(s, end, rest, cap), cap)
  {
    ClosingWidth(s, i, end, x, y, cap);
    OnlyWidth(s, i, Balanced(x, y), rest, cap, end - i);
  }

  /** The first return to depth zero is the one width a balanced item can take. */
  lemma ClosingWidth(s: seq<Byte>, i: nat, end: nat, x: Byte, y: Byte, cap: Cap)
    requires i < end <= |s| && s[i] == x && Depth(s[i..end], x, y) == 0
    requires forall n | i < n < end :: Depth(s[i..n], x, y) > 0
    ensures Takes(s, i, Balanced(x, y), end - i, cap)
    ensures forall k | 0 <= k <= |s| - i && k != end - i :: !Takes(s, i, Balanced(x, y), k, cap)
  {
    forall n | 0 < n < end - i
      ensures Depth(s[i..end][..n], x, y) > 0
    {
      assert s[i..end][..n] == s[i..i + n];
    }
    forall k | 0 <= k <= |s| - i && k != end - i
      ensures !Takes(s, i, Balanced(x, y), k, cap)
    {
      if k < end - i {
        BalancedIsShortest(s, i, x, y, k, end - i);
      } else if IsBalanced(s[i..i + k], x, y) {
        BalancedIsShortest(s, i, x, y, end - i, k);
      }
    }
  }

  /** The length of the longest run of bytes the atom admits. */
  method CountRun(s: seq<Byte>, si: nat, pat: seq<Byte>, atomP: nat) returns (count: nat)
    requires si <= |s|
    requires atomP < |pat| && (pat[atomP] == PERCENT ==> atomP + 1 < |pat|)
    ensures si + count <= |s|
    ensures forall k | si <= k < si + count :: Admits(AtomAt(pat, atomP), s[k])
    ensures si + count < |s| ==> !Admits(AtomAt(pat, atomP), s[si + count])
  {
    count := 0;
    while si + count < |s|
      invariant si + count <= |s|
      invariant forall k | si <= k < si + count :: Admits(AtomAt(pat, atomP), s[k])
    {
      var admitted := MatchesAtom(s[si + count], pat, atomP);
      if !admitted {
        return;
      }
      count := count + 1;
    }
  }

  /** The widths of a run an item may take, when the longest run is `count` bytes. */
  lemma RunWidths(s: seq<Byte>, i: nat, atom: Atom, min: nat, count: nat, k: nat, cap: Cap)
    requires i + count <= |s| && i + k <= |s|
    requires forall n | i <= n < i + count :: Admits(atom, s[n])
    requires i + count < |s| ==> !Admits(atom, s[i + count])
    ensures Takes(s, i, Many(atom, min), k, cap) <==> min <= k <= count
  {
    if k > count {
      assert s[i..i + k][count] == s[i + count];
    }
  }

  method MatchMax(s: seq<Byte>, si: nat, pat: seq<Byte>, atomP: nat, restP: nat, min: nat, cap: CapState)
    returns (r: Option<nat>)
    requires si <= |s| && restP <= |pat|
    requires atomP < |pat| && (pat[atomP] == PERCENT ==> atomP + 1 < |pat|)
    modifies cap
    ensures (r, cap.Value())
         == Observed(TryWidths(s, si, Many(AtomAt(pat, atomP), min), Items(pat, restP), old(cap.Value()), |s| - si),
                     old(cap.Value()))
    decreases |pat| - restP, 3
  {
    ghost var item, rest, cap0 := Many(AtomAt(pat, atomP), min), Items(pat, restP), cap.Value();
    var count := CountRun(s, si, pat, atomP);
    ghost var longest := count;
    forall k | 0 <= k <= |s| - si
      ensures Takes(s, si, item, k, cap0) <==> min <= k <= longest
    {
      RunWidths(s, si, AtomAt(pat, atomP), min, longest, k, cap0);
    }
    SkipWidths(s, si, item, rest, cap0, |s| - si, count);
    while true
      invariant 0 <= count <= longest && si + count <= |s|
      invariant cap.Value() == cap0
      invariant TryWidths(s, si, item, rest, cap0, |s| - si) == TryWidths(s, si, item, rest, cap0, count)
      decreases count
    {
      if count >= min {
        var saved := cap.Value();
        r := MatchPattern(s, si + count, pat, restP, cap);
        if r.Some? {
          return;
        }
        cap.Restore(saved);
      }
      if count == 0 {
        return None;
      }
      count := count - 1;
    }
  }

  method MatchOpt(s: seq<Byte>, si: nat, pat: seq<Byte>, atomP: nat, restP: nat, cap: CapState)
    returns (r: Option<nat>)
    requires si <= |s| && restP <= |pat|
    requires atomP < |pat| && (pat[atomP] == PERCENT ==> atomP + 1 < |pat|)
    modifies cap
    ensures (r, cap.Value())
         == Observed(TryWidths(s, si, Maybe(AtomAt(pat, atomP)), Items(pat, restP), old(cap.Value()), |s| - si),
                     old(cap.Value()))
    decreases |pat| - restP, 3
  {
    ghost var item, rest, cap0 := Maybe(AtomAt(pat, atomP)), Items(pat, restP), cap.Value();
    SkipWidths(s, si, item, rest, cap0, |s| - si, if si < |s| then 1 else 0);
    assert Takes(s, si, item, 0, cap0);
    assert TryWidths(s, si, item, rest, cap0, 0) == TryWidth(s, si, item, rest, cap0, 0);
    if si < |s| {
      var admitted := MatchesAtom(s[si], pat, atomP);
      assert s[si..si + 1] == [s[si]];
      assert Takes(s, si, item, 1, cap0) == admitted;
      if admitted {
        var saved := cap.Value();
        r := MatchPattern(s, si + 1, pat, restP, cap);
        if r.Some? {
          return;
        }
        cap.Restore(saved);
      }
    }
    r := MatchPattern(s, si, pat, restP, cap);
  }

  method MatchOpen(s: seq<Byte>, si: nat, pat: seq<Byte>, restP: nat, cap: CapState) returns (r: Option<nat>)
    requires si <= |s| && restP <= |pat|
    modifies cap
    ensures (r, cap.Value())
         == Observed(TryWidths(s, si, Open, Items(pat, restP), old(cap.Value()), |s| - si), old(cap.Value()))
    decreases |pat| - restP, 3
  {
    OnlyWidth(s, si, Open, Items(pat, restP), cap.Value(), 0);
    if cap.hasPending {
      return None;
    }
    var saved := cap.Value();
    cap.hasPending := true;
    cap.pendingStart := si;
    r := MatchPattern(s, si, pat, restP, cap);
    if r.None? {
      cap.Restore(saved);
    }
  }

  method MatchClose(s: seq<Byte>, si: nat, pat: seq<Byte>, restP: nat, cap: CapState) returns (r: Option<nat>)
    requires si <= |s| && restP <= |pat|
    modifies cap
    ensures (r, cap.Value())
         == Observed(TryWidths(s, si, Close, Items(pat, restP), old(cap.Value()), |s| - si), old(cap.Value()))
    decreases |pat| - restP, 3
  {
    OnlyWidth(s, si, Close, Items(pat, restP), cap.Value(), 0);
    if !cap.hasPending {
      return None;
    }
    var saved := cap.Value();
    cap.hasPending := false;
    cap.captured := true;
    cap.capStart := saved.pendingStart;
    cap.capEnd := si;
    r := MatchPattern(s, si, pat, restP, cap);
    if r.None? {
      cap.Restore(saved);
    }
  }

  method MatchFrontier(s: seq<Byte>, si: nat, pat: seq<Byte>, setP: nat, cap: CapState) returns (r: Option<nat>)
    requires si <= |s| && setP < |pat| && pat[setP] == LBRACKET
    modifies cap
    ensures (r, cap.Value())
         == Observed(TryWidths(s, si, Frontier(SetAt(pat, setP)), Items(pat, setP + AtomLen(pat, setP)),
                               old(cap.Value()), |s| - si), old(cap.Value()))
    decreases |pat| - setP, 3
  {
    var span := MeasureAtom(pat, setP);
    OnlyWidth(s, si, Frontier(SetAt(pat, setP)), Items(pat, setP + span), cap.Value(), 0);
    var frontier := IsFrontier(s, si, pat, setP);
    if !frontier {
      return None;
    }
    r := MatchPattern(s, si, pat, setP + span, cap);
  }

  /** A one-byte atom without a quantifier. */
  method MatchOne(s: seq<Byte>, si: nat, pat: seq<Byte>, atomP: nat, restP: nat, cap: CapState)
    returns (r: Option<nat>)
    requires si <= |s| && restP <= |pat|
    requires atomP < |pat| && (pat[atomP] == PERCENT ==> atomP + 1 < |pat|)
    modifies cap
    ensures (r, cap.Value())
         == Observed(TryWidths(s, si, One(AtomAt(pat, atomP)), Items(pat, restP), old(cap.Value()), |s| - si),
                     old(cap.Value()))
    decreases |pat| - restP, 3
  {
    ghost var item, rest := One(AtomAt(pat, atomP)), Items(pat, restP);
    if si >= |s| {
      NoWidth(s, si, item, rest, cap.Value());
      return None;
    }
    OnlyWidth(s, si, item, rest, cap.Value(), 1);
    var admitted := MatchesAtom(s[si], pat, atomP);
    if admitted {
      r := MatchPattern(s, si + 1, pat, restP, cap);
    } else {
      r := None;
    }
  }

  lemma GreedyOfItems(s: seq<Byte>, i: nat, items: seq<Item>, item: Item, rest: seq<Item>, cap: Cap)
    requires i <= |s| && items == [item] + rest
    ensures Greedy(s, i, items, cap) == TryWidths(s, i, item, rest, cap, |s| - i)
  {
    assert items[1..] == rest;
  }

  method MatchPattern(s: seq<Byte>, si: nat, pat: seq<Byte>, pi: nat, cap: CapState) returns (r: Option<nat>)
    requires si <= |s|
    modifies cap
    ensures (r, cap.Value()) == Observed(Greedy(s, si, Items(pat, pi), old(cap.Value())), old(cap.Value()))
    ensures r.None? ==> cap.Value() == old(cap.Value())
    decreases if pi <= |pat| then |pat| - pi else 0, 2
  {
    ghost var items, cap0 := Items(pat, pi), cap.Value();
    if pi >= |pat| {
      return Some(si);
    }
    if pi + 1 == |pat| && pat[pi] == DOLLAR {
      GreedyOfItems(s, si, items, AnchorEnd, [], cap0);
      OnlyWidth(s, si, AnchorEnd, [], cap0, 0);
      return if si == |s| then Some(si) else None;
    }
    if pat[pi] == PERCENT && pi + 1 < |pat| {
      var esc := pat[pi + 1];
      if esc == LOWER_B && pi + 3 < |pat| {
        var x, y := pat[pi + 2], pat[pi + 3];
        GreedyOfItems(s, si, items, Balanced(x, y), Items(pat, pi + 4), cap0);
        r := MatchBalanced(s, si, x, y, pat, pi + 4, cap);
        return;
      }
      if esc == LOWER_F && pi + 2 < |pat| && pat[pi + 2] == LBRACKET {
        GreedyOfItems(s, si, items, Frontier(SetAt(pat, pi + 2)), Items(pat, pi + 2 + AtomLen(pat, pi + 2)), cap0);
        r := MatchFrontier(s, si, pat, pi + 2, cap);
        return;
      }
    }
    if pat[pi] == LPAREN {
      GreedyOfItems(s, si, items, Open, Items(pat, pi + 1), cap0);
      r := MatchOpen(s, si, pat, pi + 1, cap);
      return;
    }
    if pat[pi] == RPAREN {
      GreedyOfItems(s, si, items, Close, Items(pat, pi + 1), cap0);
      r := MatchClose(s, si, pat, pi + 1, cap);
      return;
    }
    r := MatchQuantified(s, si, pat, pi, cap);
  }

  /** The tail of `MatchPattern`: a one-byte atom and its optional quantifier. */
  method MatchQuantified(s: seq<Byte>, si: nat, pat: seq<Byte>, pi: nat, cap: CapState) returns (r: Option<nat>)
    requires si <= |s| && pi < |pat|
    requires !(pi + 1 == |pat| && pat[pi] == DOLLAR) && pat[pi] != LPAREN && pat[pi] != RPAREN
    requires !BalancedAt(pat, pi) && !FrontierAt(pat, pi)
    modifies cap
    ensures (r, cap.Value()) == Observed(Greedy(s, si, Items(pat, pi), old(cap.Value())), old(cap.Value()))
    decreases |pat| - pi, 1
  {
    ghost var items, cap0 := Items(pat, pi), cap.Value();
    var alen := MeasureAtom(pat, pi);
    if pi + alen > |pat| {
      GreedyOfItems(s, si, items, Truncated, [], cap0);
      NoWidth(s, si, Truncated, [], cap0);
      return None;
    }
    var after := pi + alen;
    ghost var atom := AtomAt(pat, pi);
    if after < |pat| && pat[after] == STAR {
      GreedyOfItems(s, si, items, Many(atom, 0), Items(pat, after + 1), cap0);
      r := MatchMax(s, si, pat, pi, after + 1, 0, cap);
    } else if after < |pat| && pat[after] == PLUS {
      GreedyOfItems(s, si, items, Many(atom, 1), Items(pat, after + 1), cap0);
      r := MatchMax(s, si, pat, pi, after + 1, 1, cap);
    } else if after < |pat| && pat[after] == QUESTION {
      GreedyOfItems(s, si, items, Maybe(atom), Items(pat, after + 1), cap0);
      r := MatchOpt(s, si, pat, pi, after + 1, cap);
    } else {
      GreedyOfItems(s, si, items, One(atom), Items(pat, after), cap0);
      r := MatchOne(s, si, pat, pi, after, cap);
    }
  }
}

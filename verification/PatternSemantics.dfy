/**
 What it means for a list of pattern items to match (Lua 5.4 Reference Manual, section 6.4.1).

 A match is a list of widths, one for each item: the number of subject bytes the item takes.
 `Fits` says which width lists are matches and mentions no search order.  `Greedy` is the plain
 exhaustive search: for each item in turn it tries every width, longest first.
 */
module PatternSemantics {
  import opened Wrappers
  import opened Bytes
  import opened PatternSyntax

  datatype Item =
    | AnchorEnd
    | Balanced(x: Byte, y: Byte)
    | Frontier(set_: ByteSet)
    | Open
    | Close
    | Truncated
    | One(atom: Atom)
    | Many(atom: Atom, min: nat)
    | Maybe(atom: Atom)

  /** The item list of the pattern bytes from `p` on. */
  function Items(pat: seq<Byte>, p: nat): seq<Item>
    decreases |pat| - p
  {
    if p >= |pat| then []
    else if p + 1 == |pat| && pat[p] == DOLLAR then [AnchorEnd]
    else if BalancedAt(pat, p) then [Balanced(pat[p + 2], pat[p + 3])] + Items(pat, p + 4)
    else if FrontierAt(pat, p) then
      [Frontier(SetAt(pat, p + 2))] + Items(pat, p + 2 + AtomLen(pat, p + 2))
    else if pat[p] == LPAREN then [Open] + Items(pat, p + 1)
    else if pat[p] == RPAREN then [Close] + Items(pat, p + 1)
    else
      var after := p + AtomLen(pat, p);
      if after > |pat| then [Truncated]
      else [QuantifiedItem(pat, p)] + Items(pat, if QuantifierAt(pat, after) then after + 1 else after)
  }

  predicate BalancedAt(pat: seq<Byte>, p: nat) {
    p + 3 < |pat| && pat[p] == PERCENT && pat[p + 1] == LOWER_B
  }

  predicate FrontierAt(pat: seq<Byte>, p: nat) {
    p + 2 < |pat| && pat[p] == PERCENT && pat[p + 1] == LOWER_F && pat[p + 2] == LBRACKET
  }

  predicate QuantifierAt(pat: seq<Byte>, p: nat) {
    p < |pat| && (pat[p] == STAR || pat[p] == PLUS || pat[p] == QUESTION)
  }

  function QuantifiedItem(pat: seq<Byte>, p: nat): Item
    requires p < |pat| && p + AtomLen(pat, p) <= |pat|
  {
    var atom, after := AtomAt(pat, p), p + AtomLen(pat, p);
    if !QuantifierAt(pat, after) then One(atom)
    else if pat[after] == STAR then Many(atom, 0)
    else if pat[after] == PLUS then Many(atom, 1)
    else Maybe(atom)
  }

  // ----- Captures -----

  /** The single, non-nested capture that is threaded through a match. */
  datatype Cap = Cap(hasPending: bool, pendingStart: nat, captured: bool, capStart: nat, capEnd: nat)

  const NO_CAP := Cap(false, 0, false, 0, 0)

  function CapAfter(item: Item, i: nat, cap: Cap): Cap {
    match item
    case Open => cap.(hasPending := true, pendingStart := i)
    case Close => Cap(false, cap.pendingStart, true, cap.pendingStart, i)
    case _ => cap
  }

  // ----- The declarative match relation -----

  /** Opening minus closing delimiters of `t`; a byte that is both counts as opening. */
  function Depth(t: seq<Byte>, x: Byte, y: Byte): int {
    if t == [] then 0
    else Depth(t[..|t| - 1], x, y) + if t[|t| - 1] == x then 1 else if t[|t| - 1] == y then -1 else 0
  }

  /** `t` opens with `x` and closes for the first time at its last byte. */
  predicate IsBalanced(t: seq<Byte>, x: Byte, y: Byte) {
    t != [] && t[0] == x && Depth(t, x, y) == 0 && forall n | 0 < n < |t| :: Depth(t[..n], x, y) > 0
  }

  predicate AllAdmitted(atom: Atom, t: seq<Byte>) {
    forall n | 0 <= n < |t| :: Admits(atom, t[n])
  }

  /** The byte before and the byte at `i`, with NUL outside the subject. */
  function ByteBefore(s: seq<Byte>, i: nat): Byte
    requires i <= |s|
  {
    if i == 0 then 0 else s[i - 1]
  }

  function ByteFrom(s: seq<Byte>, i: nat): Byte { if i < |s| then s[i] else 0 }

  /** Item `item` may take exactly `width` bytes of `s` from `i` on. */
  predicate Takes(s: seq<Byte>, i: nat, item: Item, width: nat, cap: Cap)
    requires i + width <= |s|
  {
    match item
    case AnchorEnd => width == 0 && i == |s|
    case Balanced(x, y) => IsBalanced(s[i..i + width], x, y)
    case Frontier(set_) => width == 0 && !SetAdmits(set_, ByteBefore(s, i)) && SetAdmits(set_, ByteFrom(s, i))
    case Open => width == 0 && !cap.hasPending
    case Close => width == 0 && cap.hasPending
    case Truncated => false
    case One(atom) => width == 1 && Admits(atom, s[i])
    case Many(atom, min) => width >= min && AllAdmitted(atom, s[i..i + width])
    case Maybe(atom) => width <= 1 && AllAdmitted(atom, s[i..i + width])
  }

  /** `widths` is a match of `items` in `s` from `i` on. */
  predicate Fits(s: seq<Byte>, i: nat, items: seq<Item>, widths: seq<nat>, cap: Cap)
    requires i <= |s|
    decreases |items|
  {
    if items == [] then widths == []
    else
      && widths != []
      && i + widths[0] <= |s|
      && Takes(s, i, items[0], widths[0], cap)
      && Fits(s, i + widths[0], items[1..], widths[1..], CapAfter(items[0], i, cap))
  }

  predicate NoGroups(items: seq<Item>) { forall k | 0 <= k < |items| :: !items[k].Open? && !items[k].Close? }

  lemma {:induction false} FitsAnyCapture(s: seq<Byte>, i: nat, items: seq<Item>, widths: seq<nat>, a: Cap, b: Cap)
    requires i <= |s| && NoGroups(items)
    ensures Fits(s, i, items, widths, a) <==> Fits(s, i, items, widths, b)
    decreases |items|
  {
    if items != [] && widths != [] && i + widths[0] <= |s| {
      FitsAnyCapture(s, i + widths[0], items[1..], widths[1..], a, b);
    }
  }

  /** A group that is opened and never closed does not change what matches. */
  lemma UnclosedGroupFits(s: seq<Byte>, i: nat, items: seq<Item>, widths: seq<nat>)
    requires i <= |s| && NoGroups(items)
    ensures Fits(s, i, [Open] + items, [0] + widths, NO_CAP) <==> Fits(s, i, items, widths, NO_CAP)
  {
    assert ([Open] + items)[1..] == items && ([0] + widths)[1..] == widths;
    FitsAnyCapture(s, i, items, widths, CapAfter(Open, i, NO_CAP), NO_CAP);
  }

  /** A close without an open group before it matches nothing. */
  lemma {:induction false} CloseNeedsOpen(s: seq<Byte>, i: nat, items: seq<Item>, k: nat, widths: seq<nat>, cap: Cap)
    requires i <= |s| && k < |items| && items[k] == Close && !cap.hasPending
    requires forall j | 0 <= j < k :: !items[j].Open?
    ensures !Fits(s, i, items, widths, cap)
    decreases |items|
  {
    if k > 0 && Fits(s, i, items, widths, cap) {
      CloseNeedsOpen(s, i + widths[0], items[1..], k - 1, widths[1..], CapAfter(items[0], i, cap));
    }
  }

  /** A pattern cut off in an escape matches nothing. */
  lemma {:induction false} TruncatedNeverFits(s: seq<Byte>, i: nat, items: seq<Item>, widths: seq<nat>, cap: Cap)
    requires i <= |s| && Truncated in items
    ensures !Fits(s, i, items, widths, cap)
    decreases |items|
  {
    if Fits(s, i, items, widths, cap) && items[0] != Truncated {
      TruncatedNeverFits(s, i + widths[0], items[1..], widths[1..], CapAfter(items[0], i, cap));
    }
  }

  function Sum(widths: seq<nat>): nat {
    if widths == [] then 0 else widths[0] + Sum(widths[1..])
  }

  /** The capture left behind by a match. */
  function CapEnd(i: nat, items: seq<Item>, widths: seq<nat>, cap: Cap): Cap
    requires |items| == |widths|
    decreases |items|
  {
    if items == [] then cap
    else CapEnd(i + widths[0], items[1..], widths[1..], CapAfter(items[0], i, cap))
  }

  /** `a` is lexicographically at least `b`: the greedier of two width lists. */
  predicate LexGeq(a: seq<nat>, b: seq<nat>)
    requires |a| == |b|
  {
    a == [] || a[0] > b[0] || (a[0] == b[0] && LexGeq(a[1..], b[1..]))
  }

  lemma {:induction false} LexAntisymmetric(a: seq<nat>, b: seq<nat>)
    requires |a| == |b| && LexGeq(a, b) && LexGeq(b, a)
    ensures a == b
  {
    if a != [] {
      LexAntisymmetric(a[1..], b[1..]);
      assert a == [a[0]] + a[1..] && b == [b[0]] + b[1..];
    }
  }

  lemma {:induction false} FitsLength(s: seq<Byte>, i: nat, items: seq<Item>, widths: seq<nat>, cap: Cap)
    requires i <= |s| && Fits(s, i, items, widths, cap)
    ensures |items| == |widths| && i + Sum(widths) <= |s|
    decreases |items|
  {
    if items != [] {
      FitsLength(s, i + widths[0], items[1..], widths[1..], CapAfter(items[0], i, cap));
    }
  }

  /** The match that Lua's greedy order singles out: the lexicographically greatest one. */
  ghost predicate IsBest(s: seq<Byte>, i: nat, items: seq<Item>, widths: seq<nat>, cap: Cap)
    requires i <= |s|
  {
    && Fits(s, i, items, widths, cap)
    && forall other | Fits(s, i, items, other, cap) :: |other| == |widths| && LexGeq(widths, other)
  }

  lemma BestIsUnique(s: seq<Byte>, i: nat, items: seq<Item>, v: seq<nat>, w: seq<nat>, cap: Cap)
    requires i <= |s| && IsBest(s, i, items, v, cap) && IsBest(s, i, items, w, cap)
    ensures v == w
  {
    LexAntisymmetric(v, w);
  }

  // ----- Exhaustive search, longest width first -----

  datatype Match = Match(end: nat, widths: seq<nat>, cap: Cap)

  function Greedy(s: seq<Byte>, i: nat, items: seq<Item>, cap: Cap): (r: Option<Match>)
    requires i <= |s|
    ensures r.Some? ==> i <= r.value.end <= |s|
    decreases |items|, |s| + 1
  {
    if items == [] then Some(Match(i, [], cap))
    else TryWidths(s, i, items[0], items[1..], cap, |s| - i)
  }

  /** The first success among the widths `width`, `width - 1`, ..., 0 for `item`. */
  function TryWidths(s: seq<Byte>, i: nat, item: Item, rest: seq<Item>, cap: Cap, width: nat)
    : (r: Option<Match>)
    requires i + width <= |s|
    ensures r.Some? ==> i <= r.value.end <= |s|
    decreases |rest| + 1, width
  {
    match TryWidth(s, i, item, rest, cap, width)
    case Some(m) => Some(m)
    case None => if width == 0 then None else TryWidths(s, i, item, rest, cap, width - 1)
  }

  function TryWidth(s: seq<Byte>, i: nat, item: Item, rest: seq<Item>, cap: Cap, width: nat)
    : (r: Option<Match>)
    requires i + width <= |s|
    ensures r.Some? ==> i <= r.value.end <= |s|
    decreases |rest|, |s| + 2
  {
    if !Takes(s, i, item, width, cap) then None
    else match Greedy(s, i + width, rest, CapAfter(item, i, cap))
      case None => None
      case Some(m) => Some(m.(widths := [width] + m.widths))
  }

  /** The record `m` tells the truth about its widths. */
  predicate Describes(s: seq<Byte>, i: nat, items: seq<Item>, cap: Cap, m: Match)
    requires i <= |s|
  {
    && |m.widths| == |items|
    && Fits(s, i, items, m.widths, cap)
    && m.end == i + Sum(m.widths) <= |s|
    && m.cap == CapEnd(i, items, m.widths, cap)
  }

  /**
   Soundness, completeness and greed: whatever the search returns is the greatest match, ends where
   its widths add up to and carries the capture those widths imply; if it fails, nothing matches.
   */
  lemma GreedyIsBest(s: seq<Byte>, i: nat, items: seq<Item>, cap: Cap)
    requires i <= |s|
    ensures match Greedy(s, i, items, cap)
      case Some(m) => IsBest(s, i, items, m.widths, cap) && Describes(s, i, items, cap, m)
      case None => forall widths :: !Fits(s, i, items, widths, cap)
  {
    GreedyDescribes(s, i, items, cap);
    forall other | Fits(s, i, items, other, cap)
      ensures Greedy(s, i, items, cap).Some?
      ensures var w := Greedy(s, i, items, cap).value.widths; |other| == |w| && LexGeq(w, other)
    {
      GreedyBeats(s, i, items, cap, other);
    }
  }

  lemma {:induction false} GreedyDescribes(s: seq<Byte>, i: nat, items: seq<Item>, cap: Cap)
    requires i <= |s|
    ensures var r := Greedy(s, i, items, cap); r.Some? ==> Describes(s, i, items, cap, r.value)
    decreases |items|, |s| + 1
  {
    if items != [] {
      TryWidthsDescribes(s, i, items, cap, |s| - i);
    }
  }

  lemma DescribesCons(s: seq<Byte>, i: nat, items: seq<Item>, cap: Cap, width: nat, m: Match)
    requires items != [] && i + width <= |s| && Takes(s, i, items[0], width, cap)
    requires Describes(s, i + width, items[1..], CapAfter(items[0], i, cap), m)
    ensures Describes(s, i, items, cap, m.(widths := [width] + m.widths))
  {
    assert ([width] + m.widths)[1..] == m.widths;
  }

  lemma {:induction false} TryWidthsDescribes(s: seq<Byte>, i: nat, items: seq<Item>, cap: Cap, width: nat)
    requires i + width <= |s| && items != []
    ensures var r := TryWidths(s, i, items[0], items[1..], cap, width);
            r.Some? ==> Describes(s, i, items, cap, r.value)
    decreases |items|, width
  {
    var capRest := CapAfter(items[0], i, cap);
    if Takes(s, i, items[0], width, cap) && Greedy(s, i + width, items[1..], capRest).Some? {
      GreedyDescribes(s, i + width, items[1..], capRest);
      DescribesCons(s, i, items, cap, width, Greedy(s, i + width, items[1..], capRest).value);
    } else if width > 0 {
      TryWidthsDescribes(s, i, items, cap, width - 1);
    }
  }

  lemma {:induction false} GreedyBeats(s: seq<Byte>, i: nat, items: seq<Item>, cap: Cap, other: seq<nat>)
    requires i <= |s| && Fits(s, i, items, other, cap)
    ensures var r := Greedy(s, i, items, cap);
            r.Some? && |r.value.widths| == |other| && LexGeq(r.value.widths, other)
    decreases |items|, |s| + 1
  {
    if items != [] {
      TryWidthsBeats(s, i, items, cap, |s| - i, other);
    }
  }

  lemma {:induction false} TryWidthsBeats(
      s: seq<Byte>, i: nat, items: seq<Item>, cap: Cap, width: nat, other: seq<nat>)
    requires i + width <= |s| && items != []
    requires Fits(s, i, items, other, cap) && other[0] <= width
    ensures var r := TryWidths(s, i, items[0], items[1..], cap, width);
            r.Some? && |r.value.widths| == |other| && LexGeq(r.value.widths, other)
    decreases |items|, width
  {
    var rest, capRest := items[1..], CapAfter(items[0], i, cap);
    FitsLength(s, i, items, other, cap);
    if Takes(s, i, items[0], width, cap) && Greedy(s, i + width, rest, capRest).Some? {
      GreedyDescribes(s, i + width, rest, capRest);
      if other[0] == width {
        GreedyBeats(s, i + width, rest, capRest, other[1..]);
      }
      var m := Greedy(s, i + width, rest, capRest).value;
      assert ([width] + m.widths)[1..] == m.widths;
    } else {
      if other[0] == width {
        GreedyBeats(s, i + width, rest, capRest, other[1..]);
        assert false;
      }
      TryWidthsBeats(s, i, items, cap, width - 1, other);
    }
  }

  // ----- What the capture means -----

  /** The subject index at which item `n` begins. */
  function Begins(i: nat, widths: seq<nat>, n: nat): nat
    requires n <= |widths|
    decreases n
  {
    if n == 0 then i else Begins(i + widths[0], widths[1..], n - 1)
  }

  lemma {:induction false} BeginsMonotone(i: nat, widths: seq<nat>, m: nat, n: nat)
    requires m <= n <= |widths|
    ensures i <= Begins(i, widths, m) <= Begins(i, widths, n) <= i + Sum(widths)
    decreases n
  {
    if m > 0 {
      BeginsMonotone(i + widths[0], widths[1..], m - 1, n - 1);
    } else if n > 0 {
      BeginsMonotone(i + widths[0], widths[1..], 0, n - 1);
    }
  }

  predicate IsParen(item: Item) { item.Open? || item.Close? }

  predicate HasClose(items: seq<Item>) {
    exists k | 0 <= k < |items| :: items[k].Close?
  }

  /** Items `o` and `c` delimit the last closed group. */
  predicate LastGroup(items: seq<Item>, o: nat, c: nat) {
    && o < c < |items| && items[o].Open? && items[c].Close?
    && (forall k | o < k < c :: !IsParen(items[k]))
    && forall k | c < k < |items| :: !items[k].Close?
  }

  /** Item `c` is the last close, and the group it closes was opened before the first item. */
  predicate ClosesPending(items: seq<Item>, c: nat) {
    && c < |items| && items[c].Close?
    && (forall k | 0 <= k < c :: !IsParen(items[k]))
    && forall k | c < k < |items| :: !items[k].Close?
  }

  ghost predicate CaptureExplained(i: nat, items: seq<Item>, widths: seq<nat>, cap: Cap, end: Cap)
    requires |items| == |widths|
  {
    || (!HasClose(items) && end.captured == cap.captured && end.capStart == cap.capStart && end.capEnd == cap.capEnd)
    || (exists c: nat :: ClosesPending(items, c) && cap.hasPending &&
          end.captured && end.capStart == cap.pendingStart && end.capEnd == Begins(i, widths, c))
    || (exists o: nat, c: nat :: LastGroup(items, o, c) &&
          end.captured && end.capStart == Begins(i, widths, o) && end.capEnd == Begins(i, widths, c))
  }

  lemma {:induction false} ExplainCapture(s: seq<Byte>, i: nat, items: seq<Item>, widths: seq<nat>, cap: Cap)
    requires i <= |s| && Fits(s, i, items, widths, cap) && |items| == |widths|
    ensures CaptureExplained(i, items, widths, cap, CapEnd(i, items, widths, cap))
    decreases |items|
  {
    if items != [] {
      var i1, cap1 := i + widths[0], CapAfter(items[0], i, cap);
      ExplainCapture(s, i1, items[1..], widths[1..], cap1);
      ExplainFirst(i, items, widths, cap, CapEnd(i1, items[1..], widths[1..], cap1));
    }
  }

  /** What explains the capture of the rest explains that of the whole, one item further on. */
  lemma ExplainFirst(i: nat, items: seq<Item>, widths: seq<nat>, cap: Cap, end: Cap)
    requires items != [] && |items| == |widths| && (items[0].Close? ==> cap.hasPending)
    requires CaptureExplained(i + widths[0], items[1..], widths[1..], CapAfter(items[0], i, cap), end)
    ensures CaptureExplained(i, items, widths, cap, end)
  {
    var i1, rest, ws, cap1 := i + widths[0], items[1..], widths[1..], CapAfter(items[0], i, cap);
    assert forall k | 0 < k < |items| :: items[k] == rest[k - 1];
    if HasClose(rest) {
      if c: nat :| ClosesPending(rest, c) && cap1.hasPending && end.captured && end.capStart == cap1.pendingStart && end.capEnd == Begins(i1, ws, c) {
        assert items[0].Open? ==> LastGroup(items, 0, c + 1);
        assert !items[0].Open? ==> ClosesPending(items, c + 1);
      } else {
        var o: nat, c: nat :| LastGroup(rest, o, c) && end.captured && end.capStart == Begins(i1, ws, o) && end.capEnd == Begins(i1, ws, c);
        assert LastGroup(items, o + 1, c + 1);
      }
    } else if items[0].Close? {
      assert ClosesPending(items, 0);
    }
  }

  /**
   The capture of a match that starts with no capture pending: there is one exactly when the pattern
   closes a group, it is the text the items of the last closed group took, and it lies in the match.
   */
  lemma CaptureIsLastGroup(s: seq<Byte>, i: nat, items: seq<Item>, widths: seq<nat>)
    requires i <= |s| && Fits(s, i, items, widths, NO_CAP) && |items| == |widths|
    ensures var cap := CapEnd(i, items, widths, NO_CAP);
            && (cap.captured <==> HasClose(items))
            && (cap.captured ==>
                  && i <= cap.capStart <= cap.capEnd <= i + Sum(widths)
                  && exists o: nat, c: nat :: LastGroup(items, o, c) &&
                       cap.capStart == Begins(i, widths, o) && cap.capEnd == Begins(i, widths, c))
  {
    ExplainCapture(s, i, items, widths, NO_CAP);
    var cap := CapEnd(i, items, widths, NO_CAP);
    if HasClose(items) {
      var o: nat, c: nat :| LastGroup(items, o, c) && cap.captured && cap.capStart == Begins(i, widths, o) && cap.capEnd == Begins(i, widths, c);
      BeginsMonotone(i, widths, o, c);
    }
  }
}

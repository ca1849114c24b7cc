/**
 Searching a subject for a pattern: the leftmost match, the packed result of `string.find` and
 `string.match`, and the plain-substring search with which it must agree on plain patterns.
 */
module PatternSearch {
  import opened Wrappers
  import opened Bytes
  import opened PatternSyntax
  import opened PatternSemantics
  import opened PatternMatcher
  import opened Bits

  datatype Found = Found(start: nat, len: nat, cap: Cap)

  predicate Anchored(pat: seq<Byte>) { pat != [] && pat[0] == CARET }

  /** The items of a pattern, without its leading `^`. */
  function PatternItems(pat: seq<Byte>): seq<Item> {
    Items(if Anchored(pat) then pat[1..] else pat, 0)
  }

  /** The places a search from `init` may start a match: all, or only the subject's start if anchored. */
  predicate MayStart(s: seq<Byte>, pat: seq<Byte>, init: nat, start: nat) {
    init <= start <= |s| && (Anchored(pat) ==> start == 0)
  }

  function MatchAt(s: seq<Byte>, start: nat, items: seq<Item>): Option<Found>
    requires start <= |s|
  {
    match Greedy(s, start, items, NO_CAP)
    case None => None
    case Some(m) => Some(Found(start, m.end - start, m.cap))
  }

  function FirstMatch(s: seq<Byte>, items: seq<Item>, start: nat, stop: nat): Option<Found>
    requires start <= stop <= |s|
    decreases stop - start
  {
    match MatchAt(s, start, items)
    case Some(f) => Some(f)
    case None => if start == stop then None else FirstMatch(s, items, start + 1, stop)
  }

  /** The search; an empty pattern matches at `init`, or at the subject's end if that comes first. */
  function FindFrom(s: seq<Byte>, pat: seq<Byte>, init: nat): Option<Found> {
    if pat == [] then Some(Found(Min(init, |s|), 0, NO_CAP))
    else if init > |s| || (Anchored(pat) && init != 0) then None
    else FirstMatch(s, PatternItems(pat), init, if Anchored(pat) then init else |s|)
  }

  ghost predicate CanMatch(s: seq<Byte>, start: nat, items: seq<Item>) {
    start <= |s| && exists widths :: Fits(s, start, items, widths, NO_CAP)
  }

  /** `f` is the greedy match at the leftmost allowed start, or there is no match at any. */
  ghost predicate IsLeftmost(s: seq<Byte>, pat: seq<Byte>, init: nat, r: Option<Found>) {
    match r
    case None => forall start: nat | MayStart(s, pat, init, start) :: !CanMatch(s, start, PatternItems(pat))
    case Some(f) =>
      && MayStart(s, pat, init, f.start)
      && (forall start: nat | MayStart(s, pat, init, start) && start < f.start :: !CanMatch(s, start, PatternItems(pat)))
      && exists widths ::
           && IsBest(s, f.start, PatternItems(pat), widths, NO_CAP)
           && |widths| == |PatternItems(pat)|
           && f.len == Sum(widths)
           && f.cap == CapEnd(f.start, PatternItems(pat), widths, NO_CAP)
  }

  lemma {:induction false} FirstMatchIsLeftmost(s: seq<Byte>, items: seq<Item>, start: nat, stop: nat)
    requires start <= stop <= |s|
    ensures match FirstMatch(s, items, start, stop)
      case None => forall k | start <= k <= stop :: !CanMatch(s, k, items)
      case Some(f) =>
        && start <= f.start <= stop
        && (forall k | start <= k < f.start :: !CanMatch(s, k, items))
        && MatchAt(s, f.start, items) == Some(f)
    decreases stop - start
  {
    GreedyIsBest(s, start, items, NO_CAP);
    if MatchAt(s, start, items).None? && start < stop {
      FirstMatchIsLeftmost(s, items, start + 1, stop);
    }
  }

  /** Search is leftmost and exhaustive. */
  lemma FindIsLeftmost(s: seq<Byte>, pat: seq<Byte>, init: nat)
    requires pat != []
    ensures IsLeftmost(s, pat, init, FindFrom(s, pat, init))
  {
    if init <= |s| && (Anchored(pat) ==> init == 0) {
      var items := PatternItems(pat);
      FirstMatchIsLeftmost(s, items, init, if Anchored(pat) then init else |s|);
      match FindFrom(s, pat, init)
      case None =>
      case Some(f) => GreedyIsBest(s, f.start, items, NO_CAP);
    }
  }

  /** What a search returns lies inside the subject. */
  lemma FoundInBounds(s: seq<Byte>, pat: seq<Byte>, init: nat)
    ensures var r := FindFrom(s, pat, init);
            r.Some? ==> r.value.start + r.value.len <= |s| && (pat != [] ==> init <= r.value.start)
  {
    if pat != [] {
      FindIsLeftmost(s, pat, init);
      if FindFrom(s, pat, init).Some? {
        var f := FindFrom(s, pat, init).value;
        GreedyDescribes(s, f.start, PatternItems(pat), NO_CAP);
        FirstMatchIsLeftmost(s, PatternItems(pat), init, if Anchored(pat) then init else |s|);
      }
    }
  }

  /** The capture of a search result: present exactly when the pattern closes a group, and inside the match. */
  lemma FoundCapture(s: seq<Byte>, pat: seq<Byte>, init: nat)
    requires FindFrom(s, pat, init).Some?
    ensures var f := FindFrom(s, pat, init).value;
            && (f.cap.captured <==> HasClose(PatternItems(pat)))
            && (f.cap.captured ==> f.start <= f.cap.capStart <= f.cap.capEnd <= f.start + f.len)
  {
    if pat != [] {
      FindIsLeftmost(s, pat, init);
      var f, items := FindFrom(s, pat, init).value, PatternItems(pat);
      var widths :| IsBest(s, f.start, items, widths, NO_CAP) && |widths| == |items| && f.len == Sum(widths)
        && f.cap == CapEnd(f.start, items, widths, NO_CAP);
      CaptureIsLastGroup(s, f.start, items, widths);
    }
  }

  // ----- The search methods -----

  method TryMatchAt(s: seq<Byte>, start: nat, pat: seq<Byte>) returns (r: Option<Found>)
    requires start <= |s|
    ensures r == MatchAt(s, start, Items(pat, 0))
  {
    var cap := new CapState();
    var end := MatchPattern(s, start, pat, 0, cap);
    match end
    case None => r := None;
    case Some(e) => r := Some(Found(start, e - start, cap.Value()));
  }

  method RunPatternFrom(s: seq<Byte>, pat: seq<Byte>, init: nat) returns (r: Option<Found>)
    ensures r == FindFrom(s, pat, init)
    ensures pat != [] ==> IsLeftmost(s, pat, init, r)
  {
    if pat != [] {
      FindIsLeftmost(s, pat, init);
    }
    if |pat| == 0 {
      return Some(Found(Min(init, |s|), 0, NO_CAP));
    }
    var anchored := pat[0] == CARET;
    var body := if anchored then pat[1..] else pat;
    if init > |s| {
      return None;
    }
    if anchored && init != 0 {
      return None;
    }
    var start := init;
    var stop := if anchored then init else |s|;
    while true
      invariant init <= start <= stop <= |s|
      invariant FindFrom(s, pat, init) == FirstMatch(s, Items(body, 0), start, stop)
      decreases stop - start
    {
      r := TryMatchAt(s, start, body);
      if r.Some? {
        return;
      }
      if start >= stop {
        return None;
      }
      start := start + 1;
    }
  }

  // ----- Packed results -----

  /** The low half of a packed result is a one-based position, the high half a length; 0 means no match. */
  function PackFound(r: Option<Found>): nat {
    match r
    case None => 0
    case Some(f) => Pack(f.start + 1, f.len)
  }

  function PackCapture(r: Option<Found>): nat {
    match r
    case None => 0
    case Some(f) =>
      if f.cap.captured && f.cap.capStart <= f.cap.capEnd then Pack(f.cap.capStart + 1, f.cap.capEnd - f.cap.capStart)
      else Pack(f.start + 1, f.len)
  }

  method FindInit(s: seq<Byte>, pat: seq<Byte>, init1: int) returns (packed: nat)
    ensures packed == PackFound(FindFrom(s, pat, if init1 <= 1 then 0 else init1 - 1))
  {
    var init := if init1 <= 1 then 0 else init1 - 1;
    var r := RunPatternFrom(s, pat, init);
    match r
    case None => packed := 0;
    case Some(f) => packed := Pack(f.start + 1, f.len);
  }

  method MatchCapture1(s: seq<Byte>, pat: seq<Byte>) returns (packed: nat)
    ensures packed == PackCapture(FindFrom(s, pat, 0))
  {
    var r := RunPatternFrom(s, pat, 0);
    match r
    case None => packed := 0;
    case Some(f) =>
      FoundCapture(s, pat, 0);
      if f.cap.captured {
        packed := Pack(f.cap.capStart + 1, f.cap.capEnd - f.cap.capStart);
      } else {
        packed := Pack(f.start + 1, f.len);
      }
  }

  /** As long as one-based positions fit in 32 bits, the packed result of `find` unpacks to the match itself. */
  lemma PackedFindUnpacks(s: seq<Byte>, pat: seq<Byte>, init: nat)
    requires |s| + 1 < HALF_WORD
    ensures var packed := PackFound(FindFrom(s, pat, init));
            match FindFrom(s, pat, init)
            case None => packed == 0
            case Some(f) => packed != 0 && UnpackPos(packed) == f.start + 1 && UnpackLen(packed) == f.len
  {
    FoundInBounds(s, pat, init);
    match FindFrom(s, pat, init)
    case None =>
    case Some(f) => PackUnpacks(f.start + 1, f.len);
  }

  /** ... and that of `match` to the capture if there is one, else to the match. */
  lemma PackedCaptureUnpacks(s: seq<Byte>, pat: seq<Byte>)
    requires |s| + 1 < HALF_WORD
    ensures var packed := PackCapture(FindFrom(s, pat, 0));
            match FindFrom(s, pat, 0)
            case None => packed == 0
            case Some(f) =>
              && packed != 0
              && UnpackPos(packed) == (if HasClose(PatternItems(pat)) then f.cap.capStart else f.start) + 1
              && UnpackLen(packed) == if HasClose(PatternItems(pat)) then f.cap.capEnd - f.cap.capStart else f.len
  {
    FoundInBounds(s, pat, 0);
    match FindFrom(s, pat, 0)
    case None =>
    case Some(f) =>
      FoundCapture(s, pat, 0);
      if f.cap.captured {
        PackUnpacks(f.cap.capStart + 1, f.cap.capEnd - f.cap.capStart);
      } else {
        PackUnpacks(f.start + 1, f.len);
      }
  }

  // ----- Plain substring search -----

  predicate OccursAt(s: seq<Byte>, sub: seq<Byte>, k: nat) {
    k + |sub| <= |s| && s[k..k + |sub|] == sub
  }

  /** One-based position of the first occurrence of `sub`, or 0. */
  method FindPlain(s: seq<Byte>, sub: seq<Byte>) returns (pos: nat)
    ensures pos > 0 ==> OccursAt(s, sub, pos - 1) && forall k | 0 <= k < pos - 1 :: !OccursAt(s, sub, k)
    ensures pos == 0 ==> forall k | 0 <= k <= |s| :: !OccursAt(s, sub, k)
  {
    if |sub| == 0 {
      return 1;
    }
    if |sub| > |s| {
      return 0;
    }
    var last := |s| - |sub|;
    var i := 0;
    while i <= last
      invariant i <= last + 1
      invariant forall k | 0 <= k < i :: !OccursAt(s, sub, k)
    {
      var j := 0;
      while j < |sub|
        invariant j <= |sub|
        invariant s[i..i + j] == sub[..j]
      {
        if s[i + j] != sub[j] {
          break;
        }
        j := j + 1;
      }
      if j == |sub| {
        return i + 1;
      }
      assert s[i..i + |sub|][j] != sub[j];
      i := i + 1;
    }
    return 0;
  }

  /** No byte of the pattern has a pattern meaning at its place. */
  predicate IsPlain(pat: seq<Byte>) {
    && (forall k | 0 <= k < |pat| :: pat[k] !in {PERCENT, DOT, LBRACKET, LPAREN, RPAREN, STAR, PLUS, QUESTION})
    && (pat != [] ==> pat[0] != CARET && pat[|pat| - 1] != DOLLAR)
  }

  lemma PlainFirst(pat: seq<Byte>, p: nat)
    requires IsPlain(pat) && p < |pat|
    ensures Items(pat, p) == [One(Literal(pat[p]))] + Items(pat, p + 1)
  {
    assert pat[p] in pat;
    assert p + 1 < |pat| ==> pat[p + 1] in pat;
    assert QuantifiedItem(pat, p) == One(Literal(pat[p]));
  }

  lemma PlainSplit(s: seq<Byte>, i: nat, pat: seq<Byte>, p: nat)
    requires i < |s| && IsPlain(pat) && p < |pat|
    ensures Items(pat, p) == [One(Literal(pat[p]))] + Items(pat, p + 1)
    ensures OccursAt(s, pat[p..], i) <==> s[i] == pat[p] && OccursAt(s, pat[p + 1..], i + 1)
  {
    PlainFirst(pat, p);
    assert pat[p..][1..] == pat[p + 1..];
    PlainOccursStep(s, pat[p..], i);
  }

  lemma FitsByte(s: seq<Byte>, i: nat, b: Byte, rest: seq<Item>, widths: seq<nat>)
    requires i < |s| && s[i] == b && Fits(s, i + 1, rest, widths, NO_CAP)
    ensures Fits(s, i, [One(Literal(b))] + rest, [1] + widths, NO_CAP)
  {
    assert ([One(Literal(b))] + rest)[1..] == rest && ([1] + widths)[1..] == widths;
  }

  /** A plain pattern matches its own text, one byte at a time, */
  lemma {:induction false} PlainFits(s: seq<Byte>, i: nat, pat: seq<Byte>, p: nat)
    requires i <= |s| && IsPlain(pat) && p <= |pat| && OccursAt(s, pat[p..], i)
    ensures Fits(s, i, Items(pat, p), seq(|pat| - p, _ => 1), NO_CAP)
    decreases |pat| - p
  {
    if p < |pat| {
      PlainSplit(s, i, pat, p);
      PlainFits(s, i + 1, pat, p + 1);
      FitsByte(s, i, pat[p], Items(pat, p + 1), seq(|pat| - p - 1, _ => 1));
      assert [1] + seq(|pat| - p - 1, _ => 1) == seq(|pat| - p, _ => 1);
    }
  }

  /** and nothing else. */
  lemma {:induction false} PlainFitsOnly(s: seq<Byte>, i: nat, pat: seq<Byte>, p: nat, widths: seq<nat>)
    requires i <= |s| && IsPlain(pat) && p <= |pat| && Fits(s, i, Items(pat, p), widths, NO_CAP)
    ensures OccursAt(s, pat[p..], i) && Sum(widths) == |pat| - p
    decreases |pat| - p
  {
    if p < |pat| {
      PlainFirst(pat, p);
    }
    if p < |pat| && i < |s| {
      PlainSplit(s, i, pat, p);
      PlainFitsOnly(s, i + 1, pat, p + 1, widths[1..]);
    }
  }

  lemma PlainOccursStep(s: seq<Byte>, t: seq<Byte>, i: nat)
    requires i < |s| && t != []
    ensures OccursAt(s, t, i) <==> s[i] == t[0] && OccursAt(s, t[1..], i + 1)
  {
    if i + |t| <= |s| {
      assert s[i..i + |t|] == [s[i]] + s[i + 1..i + |t|];
      assert t == [t[0]] + t[1..];
    }
  }

  /** On plain patterns the pattern search and the plain search find the same place. */
  lemma PlainSearchAgrees(s: seq<Byte>, pat: seq<Byte>)
    requires IsPlain(pat)
    ensures match FindFrom(s, pat, 0)
      case None => forall k | 0 <= k <= |s| :: !OccursAt(s, pat, k)
      case Some(f) => OccursAt(s, pat, f.start) && f.len == |pat| && forall k | 0 <= k < f.start :: !OccursAt(s, pat, k)
  {
    if pat != [] {
      FindIsLeftmost(s, pat, 0);
      assert pat[0..] == pat;
      forall k | 0 <= k <= |s|
        ensures OccursAt(s, pat, k) <==> CanMatch(s, k, PatternItems(pat))
        ensures forall widths | Fits(s, k, PatternItems(pat), widths, NO_CAP) :: Sum(widths) == |pat|
      {
        if OccursAt(s, pat, k) {
          PlainFits(s, k, pat, 0);
        }
        forall widths | Fits(s, k, PatternItems(pat), widths, NO_CAP)
          ensures OccursAt(s, pat, k) && Sum(widths) == |pat|
        {
          PlainFitsOnly(s, k, pat, 0, widths);
        }
      }
    }
  }
}

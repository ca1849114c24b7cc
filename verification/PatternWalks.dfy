/**
 Two walks over the matches of a pattern.  `Visits` remembers only where to resume, and so takes an empty match
 directly behind another; the strict walk remembers the end of the last match and turns down a match that ends
 there, as `str_gsub` in Lua's lstrlib.c does.  The strict walk depends on the pattern only by the lengths of
 its matches, so it can be made over any matcher's.
 */
module PatternWalks {
  import opened Wrappers
  import opened Bytes
  import opened PatternSyntax
  import opened PatternSemantics
  import opened PatternMatcher
  import opened PatternSearch
  import opened PatternReplace

  /** The length of the match at each place of a subject, its end included, if there is one. */
  type Lengths = seq<Option<nat>>

  predicate InSubject(lens: Lengths) {
    forall k | 0 <= k < |lens| :: lens[k].Some? ==> k + lens[k].value < |lens|
  }

  /** The lengths of the matches this runtime finds. */
  function MatchLengths(s: seq<Byte>, pat: seq<Byte>): (lens: Lengths)
    ensures |lens| == |s| + 1 && InSubject(lens)
  {
    seq(|s| + 1, k requires 0 <= k <= |s| =>
      match MatchAt(s, k, PatternItems(pat))
      case None => None
      case Some(f) => Some(f.len))
  }

  /**
   The strict walk from `src` on, where `last` is the end of the last match.  An accepted match moves `src` to its
   end, anything else one byte on; with `once`, as for an anchored pattern, only the first place is tried.
   */
  function StrictVisits(lens: Lengths, once: bool, src: nat, last: Option<nat>): seq<Span>
    requires InSubject(lens) && src < |lens|
    decreases |lens| - src, if last == Some(src) then 0 else 1
  {
    if lens[src].Some? && last != Some(src + lens[src].value) then
      var end := src + lens[src].value;
      [Span(src, lens[src].value)] + if once then [] else StrictVisits(lens, once, end, Some(end))
    else if src + 1 < |lens| && !once then StrictVisits(lens, once, src + 1, last)
    else []
  }

  /** The strict walk over this runtime's matches. */
  function StrictWalk(s: seq<Byte>, pat: seq<Byte>): seq<Span> {
    StrictVisits(MatchLengths(s, pat), Anchored(pat), 0, None)
  }

  /** The `k`-th span is empty and starts where its predecessor ends. */
  predicate Touches(spans: seq<Span>, k: nat) {
    0 < k < |spans| && spans[k].len == 0 && spans[k].start == spans[k - 1].start + spans[k - 1].len
  }

  function EndOf(span: Span): nat { span.start + span.len }

  predicate Kept(last: Option<nat>, span: Span) { span.len > 0 || last != Some(span.start) }

  /** The spans without those that touch their predecessor; `last` is where the one before them ends. */
  function WithoutTouching(last: Option<nat>, spans: seq<Span>): seq<Span>
    decreases |spans|
  {
    if spans == [] then []
    else (if Kept(last, spans[0]) then [spans[0]] else []) + WithoutTouching(Some(EndOf(spans[0])), spans[1..])
  }

  lemma WithoutTouchingCons(last: Option<nat>, span: Span, rest: seq<Span>)
    ensures WithoutTouching(last, [span] + rest)
         == (if Kept(last, span) then [span] else []) + WithoutTouching(Some(EndOf(span)), rest)
  {
    assert ([span] + rest)[1..] == rest;
  }

  // ----- The walks agree but for touching spans -----

  /** One place of the walk: where nothing matches, the walk is that from the next place. */
  lemma VisitsStep(s: seq<Byte>, pat: seq<Byte>, cursor: nat)
    requires pat != [] && !Anchored(pat) && cursor <= |s|
    ensures match MatchAt(s, cursor, PatternItems(pat))
      case None => Visits(s, pat, cursor) == if cursor == |s| then [] else Visits(s, pat, cursor + 1)
      case Some(f) =>
        && cursor + f.len <= |s|
        && var span := Span(cursor, f.len); Visits(s, pat, cursor) == [span] + Visits(s, pat, Resume(span))
  {
    var items := PatternItems(pat);
    if MatchAt(s, cursor, items).None? && cursor < |s| {
      assert FindFrom(s, pat, cursor) == FindFrom(s, pat, cursor + 1);
    }
  }

  /** Behind an empty match, the strict walk turns the same match down and moves on. */
  lemma StrictSkips(lens: Lengths, src: nat)
    requires InSubject(lens) && src < |lens| && lens[src] == Some(0)
    ensures StrictVisits(lens, false, src, Some(src)) == StrictBehind(lens, Span(src, 0))
  {}

  /** The strict walk behind a match. */
  function StrictBehind(lens: Lengths, span: Span): seq<Span>
    requires InSubject(lens)
  {
    if Resume(span) >= |lens| then [] else StrictVisits(lens, false, Resume(span), Some(EndOf(span)))
  }

  /** One place of the strict walk. */
  lemma StrictStep(lens: Lengths, src: nat, last: Option<nat>)
    requires InSubject(lens) && src < |lens| && (last.Some? ==> last.value <= src)
    ensures match lens[src]
      case None =>
        StrictVisits(lens, false, src, last)
        == if src + 1 == |lens| then [] else StrictVisits(lens, false, src + 1, last)
      case Some(len) =>
        StrictVisits(lens, false, src, last)
        == (if Kept(last, Span(src, len)) then [Span(src, len)] else []) + StrictBehind(lens, Span(src, len))
  {
    if lens[src].Some? {
      var span := Span(src, lens[src].value);
      if span.len == 0 {
        StrictSkips(lens, src);
      }
      if Kept(last, span) {
        StrictTakes(lens, span, last);
      } else {
        assert [] + StrictBehind(lens, span) == StrictBehind(lens, span);
      }
    }
  }

  lemma StrictTakes(lens: Lengths, span: Span, last: Option<nat>)
    requires InSubject(lens) && span.start < |lens| && lens[span.start] == Some(span.len) && last != Some(EndOf(span))
    ensures StrictVisits(lens, false, span.start, last)
         == [span] + StrictVisits(lens, false, EndOf(span), Some(EndOf(span)))
  {}

  lemma {:induction false} UnanchoredWalks(s: seq<Byte>, pat: seq<Byte>, cursor: nat, last: Option<nat>)
    requires pat != [] && !Anchored(pat) && cursor <= |s| && (last.Some? ==> last.value <= cursor)
    ensures StrictVisits(MatchLengths(s, pat), false, cursor, last) == WithoutTouching(last, Visits(s, pat, cursor))
    decreases |s| - cursor
  {
    VisitsStep(s, pat, cursor);
    StrictStep(MatchLengths(s, pat), cursor, last);
    match MatchAt(s, cursor, PatternItems(pat))
    case None =>
      if cursor < |s| {
        UnanchoredWalks(s, pat, cursor + 1, last);
      }
    case Some(f) =>
      var span := Span(cursor, f.len);
      WithoutTouchingCons(last, span, Visits(s, pat, Resume(span)));
      if Resume(span) <= |s| {
        UnanchoredWalks(s, pat, Resume(span), Some(EndOf(span)));
      } else {
        VisitsAdvance(s, pat, Resume(span));
      }
  }

  /** The walk of an anchored pattern: the match at the subject's start, if there is one. */
  lemma AnchoredVisits(s: seq<Byte>, pat: seq<Byte>)
    requires Anchored(pat)
    ensures match MatchAt(s, 0, PatternItems(pat))
      case None => Visits(s, pat, 0) == []
      case Some(f) => Visits(s, pat, 0) == [Span(0, f.len)]
  {
    if MatchAt(s, 0, PatternItems(pat)).Some? {
      var span := Span(0, MatchAt(s, 0, PatternItems(pat)).value.len);
      assert Visits(s, pat, Resume(span)) == [];
      assert [span] + [] == [span];
    }
  }

  /** The strict walk visits what `gsub` and `gmatch` visit, without the spans that touch their predecessor. */
  lemma StrictFewer(s: seq<Byte>, pat: seq<Byte>)
    requires pat != []
    ensures StrictWalk(s, pat) == WithoutTouching(None, Visits(s, pat, 0))
  {
    if Anchored(pat) {
      AnchoredVisits(s, pat);
      if MatchAt(s, 0, PatternItems(pat)).Some? {
        var span := Span(0, MatchAt(s, 0, PatternItems(pat)).value.len);
        WithoutTouchingCons(None, span, []);
        assert [span] + [] == [span];
      }
    } else {
      UnanchoredWalks(s, pat, 0, None);
    }
  }

  lemma {:induction false} KeptAll(last: Option<nat>, spans: seq<Span>)
    ensures |WithoutTouching(last, spans)| <= |spans|
    ensures WithoutTouching(last, spans) == spans
       <==> (spans != [] ==> Kept(last, spans[0])) && forall k: nat :: !Touches(spans, k)
    ensures WithoutTouching(last, spans) == spans <==> |WithoutTouching(last, spans)| == |spans|
    decreases |spans|
  {
    if spans != [] {
      var end, rest := Some(EndOf(spans[0])), spans[1..];
      KeptAll(end, rest);
      TouchesCons(spans);
      assert spans == [spans[0]] + rest;
    }
  }

  lemma TouchesCons(spans: seq<Span>)
    requires spans != []
    ensures (forall k: nat :: !Touches(spans, k))
       <==> (|spans| > 1 ==> Kept(Some(EndOf(spans[0])), spans[1])) && forall k: nat :: !Touches(spans[1..], k)
  {
    var rest := spans[1..];
    if k: nat :| Touches(rest, k) {
      assert Touches(spans, k + 1);
    }
    if |spans| > 1 && !Kept(Some(EndOf(spans[0])), spans[1]) {
      assert Touches(spans, 1);
    }
    if k: nat :| Touches(spans, k) {
      assert k == 1 || Touches(rest, k - 1);
    }
  }

  /** The walks are the same exactly when no visited span is empty and starts where its predecessor ends. */
  lemma WalksAgree(s: seq<Byte>, pat: seq<Byte>)
    requires pat != []
    ensures StrictWalk(s, pat) == Visits(s, pat, 0) <==> forall k: nat :: !Touches(Visits(s, pat, 0), k)
  {
    StrictFewer(s, pat);
    KeptAll(None, Visits(s, pat, 0));
  }

  // ----- The substituted texts -----

  lemma AdvancingEarlier(s: seq<Byte>, from: nat, later: nat, spans: seq<Span>)
    requires from <= later && Advancing(s, later, spans)
    ensures Advancing(s, from, spans)
  {}

  lemma {:induction false} StrictAdvances(s: seq<Byte>, lens: Lengths, once: bool, src: nat, last: Option<nat>)
    requires InSubject(lens) && |lens| == |s| + 1 && src <= |s|
    ensures Advancing(s, src, StrictVisits(lens, once, src, last))
    decreases |s| - src, if last == Some(src) then 0 else 1
  {
    if lens[src].Some? && last != Some(src + lens[src].value) {
      var span := Span(src, lens[src].value);
      if !once {
        StrictAdvances(s, lens, once, EndOf(span), Some(EndOf(span)));
        if span.len == 0 {
          StrictSkips(lens, src);
          if src < |s| {
            StrictAdvances(s, lens, once, src + 1, Some(src));
          }
        }
        assert StrictVisits(lens, once, src, last)[1..] == StrictVisits(lens, once, EndOf(span), Some(EndOf(span)));
      }
    } else if src < |s| && !once {
      StrictAdvances(s, lens, once, src + 1, last);
      AdvancingEarlier(s, src, src + 1, StrictVisits(lens, once, src + 1, last));
    }
  }

  /** The subject with every span of a strict walk replaced. */
  function StrictlyReplaced(s: seq<Byte>, lens: Lengths, once: bool, repl: seq<Byte>): seq<Byte>
    requires InSubject(lens) && |lens| == |s| + 1
  {
    StrictAdvances(s, lens, once, 0, None);
    Replaced(s, 0, StrictVisits(lens, once, 0, None), repl)
  }

  function StrictSubstituted(s: seq<Byte>, pat: seq<Byte>, repl: seq<Byte>): seq<Byte> {
    StrictlyReplaced(s, MatchLengths(s, pat), Anchored(pat), repl)
  }

  function TotalLen(spans: seq<Span>): nat { if spans == [] then 0 else spans[0].len + TotalLen(spans[1..]) }

  lemma {:induction false} ReplacedLengthIs(s: seq<Byte>, from: nat, spans: seq<Span>, repl: seq<Byte>)
    requires from <= |s| && Advancing(s, from, spans)
    ensures |Replaced(s, from, spans, repl)| == |s| - from - TotalLen(spans) + |spans| * |repl|
    decreases |spans|
  {
    if spans != [] {
      AdvancingAfter(s, spans);
      ReplacedLengthIs(s, EndOf(spans[0]), spans[1..], repl);
      assert |spans| * |repl| == |repl| + |spans[1..]| * |repl|;
    }
  }

  lemma {:induction false} SameTotal(last: Option<nat>, spans: seq<Span>)
    ensures TotalLen(WithoutTouching(last, spans)) == TotalLen(spans)
    decreases |spans|
  {
    if spans != [] {
      var rest := WithoutTouching(Some(EndOf(spans[0])), spans[1..]);
      SameTotal(Some(EndOf(spans[0])), spans[1..]);
      assert Kept(last, spans[0]) ==> ([spans[0]] + rest)[1..] == rest;
      assert [] + rest == rest;
    }
  }

  lemma DroppedEmpty(s: seq<Byte>, from: nat, span: Span, rest: seq<Span>)
    requires from <= |s| && Advancing(s, from, [span] + rest) && span == Span(from, 0)
    ensures Advancing(s, from, rest) && Replaced(s, from, [span] + rest, []) == Replaced(s, from, rest, [])
  {
    ReplacedCons(s, from, span, rest, []);
    assert s[from..from] + [] + Replaced(s, from, rest, []) == Replaced(s, from, rest, []);
  }

  /** Two span lists that delete alike. */
  predicate DeleteAlike(s: seq<Byte>, from: nat, a: seq<Span>, b: seq<Span>)
    requires from <= |s|
  {
    Advancing(s, from, a) && Advancing(s, from, b) && Replaced(s, from, a, []) == Replaced(s, from, b, [])
  }

  lemma DeleteAlikeCons(s: seq<Byte>, from: nat, span: Span, a: seq<Span>, b: seq<Span>)
    requires from <= |s| && Advancing(s, from, [span] + a) && Advancing(s, from, [span] + b)
    requires EndOf(span) <= |s| ==> DeleteAlike(s, EndOf(span), a, b)
    ensures DeleteAlike(s, from, [span] + a, [span] + b)
  {
    ReplacedCons(s, from, span, a, []);
    ReplacedCons(s, from, span, b, []);
  }

  /** Deleting nothing in more places changes nothing. */
  lemma {:induction false} DeletingAlike(s: seq<Byte>, from: nat, last: Option<nat>, spans: seq<Span>)
    requires from <= |s| && Advancing(s, from, spans) && (last.Some? ==> last.value == from)
    requires Advancing(s, from, WithoutTouching(last, spans))
    ensures DeleteAlike(s, from, WithoutTouching(last, spans), spans)
    decreases |spans|
  {
    if spans != [] {
      var span, rest := spans[0], spans[1..];
      var end := EndOf(span);
      var kept := WithoutTouching(Some(end), rest);
      assert spans == [span] + rest && end <= |s|;
      AdvancingAfter(s, spans);
      WithoutTouchingCons(last, span, rest);
      if Kept(last, span) {
        assert ([span] + kept)[1..] == kept;
        AdvancingAfter(s, [span] + kept);
        DeletingAlike(s, end, Some(end), rest);
        DeleteAlikeCons(s, from, span, kept, rest);
      } else {
        assert [] + kept == kept;
        DroppedEmpty(s, from, span, rest);
        DeletingAlike(s, from, Some(from), rest);
      }
    }
  }

  /** Spans that are all empty, as those of the empty pattern are. */
  lemma {:induction false} EmptySpans(lens: Lengths, src: nat, last: Option<nat>)
    requires InSubject(lens) && src < |lens| && forall k | 0 <= k < |lens| :: lens[k] == Some(0)
    ensures TotalLen(StrictVisits(lens, false, src, last)) == 0
    ensures last != Some(src) ==> StrictVisits(lens, false, src, last) != []
    decreases |lens| - src, if last == Some(src) then 0 else 1
  {
    if last != Some(src) {
      EmptySpans(lens, src, Some(src));
      assert StrictVisits(lens, false, src, last)[1..] == StrictVisits(lens, false, src, Some(src));
    } else if src + 1 < |lens| {
      EmptySpans(lens, src + 1, last);
    }
  }

  lemma EmptyPatternLengths(s: seq<Byte>)
    ensures forall k | 0 <= k <= |s| :: MatchLengths(s, [])[k] == Some(0)
  {
    forall k | 0 <= k <= |s| ensures MatchLengths(s, [])[k] == Some(0) {
      assert MatchAt(s, k, PatternItems([])) == Some(Found(k, 0, NO_CAP));
    }
  }

  lemma {:induction false} DeletingEmpty(s: seq<Byte>, from: nat, spans: seq<Span>)
    requires from <= |s| && Advancing(s, from, spans) && TotalLen(spans) == 0
    ensures Replaced(s, from, spans, []) == s[from..]
    decreases |spans|
  {
    if spans != [] {
      AdvancingAfter(s, spans);
      DeletingEmpty(s, spans[0].start, spans[1..]);
      assert s[from..spans[0].start] + [] + s[spans[0].start..] == s[from..];
    }
  }

  /**
   `gsub` returns the subject replaced along the strict walk exactly when it deletes, or when the pattern is not
   empty and no visited span touches its predecessor.
   */
  lemma SubstitutionsAgree(s: seq<Byte>, pat: seq<Byte>, repl: seq<Byte>)
    ensures Substituted(s, pat, repl) == StrictSubstituted(s, pat, repl)
       <==> repl == [] || (pat != [] && forall k: nat :: !Touches(Visits(s, pat, 0), k))
  {
    if pat == [] {
      var lens := MatchLengths(s, []);
      var strict := StrictVisits(lens, false, 0, None);
      StrictAdvances(s, lens, false, 0, None);
      EmptyPatternLengths(s);
      EmptySpans(lens, 0, None);
      ReplacedLengthIs(s, 0, strict, repl);
      if repl == [] {
        DeletingEmpty(s, 0, strict);
        assert s[0..] == s;
      } else {
        MoreIsLonger(0, |strict|, |repl|);
      }
    } else {
      NonemptyAgrees(s, pat, repl);
    }
  }

  lemma NonemptyAgrees(s: seq<Byte>, pat: seq<Byte>, repl: seq<Byte>)
    requires pat != []
    ensures Substituted(s, pat, repl) == StrictSubstituted(s, pat, repl)
       <==> repl == [] || forall k: nat :: !Touches(Visits(s, pat, 0), k)
  {
    var spans := Visits(s, pat, 0);
    VisitsAdvance(s, pat, 0);
    StrictAdvances(s, MatchLengths(s, pat), Anchored(pat), 0, None);
    StrictFewer(s, pat);
    KeptAll(None, spans);
    if repl == [] {
      DeletingAlike(s, 0, None, spans);
    } else {
      FewerIsShorter(s, spans, repl);
    }
  }

  /** Each replacement that is left out shortens the text. */
  lemma FewerIsShorter(s: seq<Byte>, spans: seq<Span>, repl: seq<Byte>)
    requires Advancing(s, 0, spans) && Advancing(s, 0, WithoutTouching(None, spans)) && repl != []
    ensures Replaced(s, 0, spans, repl) == Replaced(s, 0, WithoutTouching(None, spans), repl)
       <==> WithoutTouching(None, spans) == spans
  {
    var fewer := WithoutTouching(None, spans);
    KeptAll(None, spans);
    SameTotal(None, spans);
    ReplacedLengthIs(s, 0, spans, repl);
    ReplacedLengthIs(s, 0, fewer, repl);
    MoreIsLonger(|fewer|, |spans|, |repl|);
  }

  lemma MoreIsLonger(a: nat, b: nat, c: nat)
    requires c > 0
    ensures a < b ==> a * c < b * c
  {
    if a < b {
      MulMonotone(a + 1, b, c);
      assert (a + 1) * c == a * c + c;
    }
  }

  // ----- An input where they differ -----

  const ABC: seq<Byte> := [0x61, 0x62, 0x63]
  const B_STAR: seq<Byte> := [0x62, STAR]

  /** `b*` takes one byte at the `b` and none elsewhere. */
  lemma BStarAt(i: nat)
    requires i <= 3
    ensures MatchAt(ABC, i, PatternItems(B_STAR)) == Some(Found(i, if i == 1 then 1 else 0, NO_CAP))
  {
    var item, width := Many(Literal(0x62), 0), if i == 1 then 1 else 0;
    assert Items(B_STAR, 2) == [];
    assert PatternItems(B_STAR) == [item] + [] == [item];
    assert [item][1..] == [];
    forall k | 0 <= k && i + k <= 3 ensures Takes(ABC, i, item, k, NO_CAP) <==> k <= width {
      RunWidths(ABC, i, Literal(0x62), 0, width, k, NO_CAP);
    }
    SkipWidths(ABC, i, item, [], NO_CAP, 3 - i, width);
    assert TryWidth(ABC, i, item, [], NO_CAP, width).Some?;
  }

  /** `gsub("abc", "b*", "-")` is `-a--c-`, and `-a-c-` along the strict walk. */
  lemma TouchingExample()
    ensures Substituted(ABC, B_STAR, [DASH]) == [DASH, 0x61, DASH, DASH, 0x63, DASH]
    ensures StrictSubstituted(ABC, B_STAR, [DASH]) == [DASH, 0x61, DASH, 0x63, DASH]
  {
    var a, b, c, d := Span(0, 0), Span(1, 1), Span(2, 0), Span(3, 0);
    BStarVisits();
    StrictBStarVisits();
    VisitsAdvance(ABC, B_STAR, 0);
    StrictAdvances(ABC, MatchLengths(ABC, B_STAR), Anchored(B_STAR), 0, None);
    TailReplaced(c, d);
    assert [c, d] == [c] + [d];
    HeadReplaced(a, b, [c, d]);
    HeadReplaced(a, b, [d]);
  }

  lemma StrictBStarVisits()
    ensures StrictWalk(ABC, B_STAR) == [Span(0, 0)] + ([Span(1, 1)] + [Span(3, 0)])
  {
    var a, b, c, d := Span(0, 0), Span(1, 1), Span(2, 0), Span(3, 0);
    BStarVisits();
    StrictFewer(ABC, B_STAR);
    WithoutTouchingCons(None, a, [b] + ([c] + [d]));
    WithoutTouchingCons(Some(0), b, [c] + [d]);
    WithoutTouchingCons(Some(2), c, [d]);
    assert [d] == [d] + [];
    WithoutTouchingCons(Some(2), d, []);
  }

  lemma TailReplaced(c: Span, d: Span)
    requires c == Span(2, 0) && d == Span(3, 0)
    ensures Advancing(ABC, 2, [d]) && Replaced(ABC, 2, [d], [DASH]) == [0x63, DASH]
    ensures Advancing(ABC, 2, [c, d]) && Replaced(ABC, 2, [c, d], [DASH]) == [DASH, 0x63, DASH]
  {
    assert [d] == [d] + [] && [c, d] == [c] + [d];
    assert Advancing(ABC, 3, [d]) && Advancing(ABC, 2, [d]);
    assert [c, d][1..] == [d];
    ReplacedCons(ABC, 2, d, [], [DASH]);
    ReplacedCons(ABC, 2, c, [d], [DASH]);
  }

  lemma HeadReplaced(a: Span, b: Span, rest: seq<Span>)
    requires a == Span(0, 0) && b == Span(1, 1) && Advancing(ABC, 2, rest)
    ensures Advancing(ABC, 0, [a] + ([b] + rest))
    ensures Replaced(ABC, 0, [a] + ([b] + rest), [DASH]) == [DASH, 0x61, DASH] + Replaced(ABC, 2, rest, [DASH])
  {
    assert ([b] + rest)[1..] == rest && ([a] + ([b] + rest))[1..] == [b] + rest;
    assert Advancing(ABC, 1, [b] + rest);
    ReplacedCons(ABC, 0, b, rest, [DASH]);
    ReplacedCons(ABC, 0, a, [b] + rest, [DASH]);
  }

  lemma BStarVisits()
    ensures Visits(ABC, B_STAR, 0) == [Span(0, 0)] + ([Span(1, 1)] + ([Span(2, 0)] + [Span(3, 0)]))
  {
    for i := 0 to 4
      invariant forall k: nat | k < i ::
        MatchAt(ABC, k, PatternItems(B_STAR)) == Some(Found(k, if k == 1 then 1 else 0, NO_CAP))
    {
      BStarAt(i);
    }
    VisitsStep(ABC, B_STAR, 0);
    VisitsStep(ABC, B_STAR, 1);
    VisitsStep(ABC, B_STAR, 2);
    VisitsStep(ABC, B_STAR, 3);
    VisitsAdvance(ABC, B_STAR, 4);
  }
}

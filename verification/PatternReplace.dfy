/**
 `string.gsub` with a replacement string, and the synthesized `string.gmatch` iterator.  Both walk the
 subject from one leftmost match to the next; `Visits` is that walk.
 */
module PatternReplace {
  import opened Wrappers
  import opened Bytes
  import opened PatternSyntax
  import opened PatternSearch
  import opened Bits

  datatype Span = Span(start: nat, len: nat)

  /** Where the walk resumes after a match: past it, or one byte on if it was empty. */
  function Resume(span: Span): nat {
    if span.len == 0 then span.start + 1 else span.start + span.len
  }

  /** The extent of the next match at or after `cursor`. */
  function NextSpan(s: seq<Byte>, pat: seq<Byte>, cursor: nat): (r: Option<Span>)
    ensures r.Some? ==> r.value.start + r.value.len <= |s| && (pat != [] ==> cursor <= r.value.start)
    ensures pat == [] ==> r == Some(Span(Min(cursor, |s|), 0))
  {
    FoundInBounds(s, pat, cursor);
    match FindFrom(s, pat, cursor)
    case None => None
    case Some(f) => Some(Span(f.start, f.len))
  }

  method FindSpan(s: seq<Byte>, pat: seq<Byte>, cursor: nat) returns (r: Option<Span>)
    ensures r == NextSpan(s, pat, cursor)
  {
    var found := RunPatternFrom(s, pat, cursor);
    match found
    case None => r := None;
    case Some(f) => r := Some(Span(f.start, f.len));
  }

  /** The spans visited from `cursor` on. */
  function Visits(s: seq<Byte>, pat: seq<Byte>, cursor: nat): seq<Span>
    requires pat != []
    decreases |s| + 1 - cursor
  {
    match NextSpan(s, pat, cursor)
    case None => []
    case Some(span) => [span] + Visits(s, pat, Resume(span))
  }

  /** The spans lie in the subject, in order, and each starts no earlier than the walk resumes. */
  predicate Advancing(s: seq<Byte>, from: nat, spans: seq<Span>)
    decreases |spans|
  {
    spans != [] ==>
      && from <= spans[0].start && spans[0].start + spans[0].len <= |s|
      && Advancing(s, Resume(spans[0]), spans[1..])
  }

  lemma {:induction false} VisitsAdvance(s: seq<Byte>, pat: seq<Byte>, cursor: nat)
    requires pat != []
    ensures Advancing(s, cursor, Visits(s, pat, cursor))
    ensures cursor <= |s| ==> |Visits(s, pat, cursor)| <= |s| + 1 - cursor
    ensures cursor > |s| ==> Visits(s, pat, cursor) == []
    decreases |s| + 1 - cursor
  {
    match NextSpan(s, pat, cursor)
    case None =>
    case Some(span) =>
      VisitsAdvance(s, pat, Resume(span));
      assert Visits(s, pat, cursor)[1..] == Visits(s, pat, Resume(span));
  }

  /** Advancing spans are pairwise disjoint and strictly ordered. */
  lemma {:induction false} AdvancingIsDisjoint(s: seq<Byte>, from: nat, spans: seq<Span>, a: nat, b: nat)
    requires Advancing(s, from, spans) && a < b < |spans|
    ensures from <= spans[a].start < spans[b].start
    ensures spans[a].start + spans[a].len <= spans[b].start
    decreases |spans|
  {
    if a > 0 {
      AdvancingIsDisjoint(s, Resume(spans[0]), spans[1..], a - 1, b - 1);
    } else {
      AdvancingStart(s, Resume(spans[0]), spans[1..], b - 1);
    }
  }

  lemma {:induction false} AdvancingStart(s: seq<Byte>, from: nat, spans: seq<Span>, b: nat)
    requires Advancing(s, from, spans) && b < |spans|
    ensures from <= spans[b].start && spans[b].start + spans[b].len <= |s|
    decreases |spans|
  {
    if b > 0 {
      AdvancingStart(s, Resume(spans[0]), spans[1..], b - 1);
    }
  }

  // ----- The substituted text -----

  /** The unmatched stretches: before, between and after the spans. */
  function Gaps(s: seq<Byte>, from: nat, spans: seq<Span>): (gaps: seq<seq<Byte>>)
    requires from <= |s| && Advancing(s, from, spans)
    ensures |gaps| == |spans| + 1
    decreases |spans|
  {
    if spans == [] then [s[from..]]
    else
      AdvancingAfter(s, spans);
      [s[from..spans[0].start]] + Gaps(s, spans[0].start + spans[0].len, spans[1..])
  }

  lemma AdvancingAfter(s: seq<Byte>, spans: seq<Span>)
    requires spans != [] && Advancing(s, Resume(spans[0]), spans[1..])
    ensures Advancing(s, spans[0].start + spans[0].len, spans[1..])
  {}

  function Texts(s: seq<Byte>, spans: seq<Span>): (texts: seq<seq<Byte>>)
    requires forall k | 0 <= k < |spans| :: spans[k].start + spans[k].len <= |s|
  {
    seq(|spans|, k requires 0 <= k < |spans| => s[spans[k].start..spans[k].start + spans[k].len])
  }

  /** Gaps and fillings in alternation. */
  function Weave(gaps: seq<seq<Byte>>, fillings: seq<seq<Byte>>): seq<Byte>
    requires |gaps| == |fillings| + 1
    decreases |fillings|
  {
    if fillings == [] then gaps[0] else gaps[0] + fillings[0] + Weave(gaps[1..], fillings[1..])
  }

  /** The subject from `from` on with every span replaced. */
  function Replaced(s: seq<Byte>, from: nat, spans: seq<Span>, repl: seq<Byte>): seq<Byte>
    requires from <= |s| && Advancing(s, from, spans)
    decreases |spans|
  {
    if spans == [] then s[from..]
    else
      AdvancingAfter(s, spans);
      s[from..spans[0].start] + repl + Replaced(s, spans[0].start + spans[0].len, spans[1..], repl)
  }

  lemma {:induction false} ReplacedIsWoven(s: seq<Byte>, from: nat, spans: seq<Span>, repl: seq<Byte>)
    requires from <= |s| && Advancing(s, from, spans)
    ensures Replaced(s, from, spans, repl) == Weave(Gaps(s, from, spans), seq(|spans|, _ => repl))
    decreases |spans|
  {
    if spans != [] {
      AdvancingAfter(s, spans);
      ReplacedIsWoven(s, spans[0].start + spans[0].len, spans[1..], repl);
      assert seq(|spans|, _ => repl)[1..] == seq(|spans[1..]|, _ => repl);
    }
  }

  /** The untruncated result of `gsub`: each visited span replaced; an empty pattern changes nothing. */
  function Substituted(s: seq<Byte>, pat: seq<Byte>, repl: seq<Byte>): seq<Byte> {
    if pat == [] then s
    else
      VisitsAdvance(s, pat, 0);
      Replaced(s, 0, Visits(s, pat, 0), repl)
  }

  /** Filling the gaps with the matched texts themselves gives back the subject: nothing is lost or repeated. */
  lemma {:induction false} WeavingTextsRestores(s: seq<Byte>, from: nat, spans: seq<Span>)
    requires from <= |s| && Advancing(s, from, spans)
    ensures forall k | 0 <= k < |spans| :: spans[k].start + spans[k].len <= |s|
    ensures Weave(Gaps(s, from, spans), Texts(s, spans)) == s[from..]
    decreases |spans|
  {
    forall k | 0 <= k < |spans| ensures spans[k].start + spans[k].len <= |s| {
      AdvancingStart(s, from, spans, k);
    }
    if spans != [] {
      AdvancingAfter(s, spans);
      var a, b := spans[0].start, spans[0].start + spans[0].len;
      WeavingTextsRestores(s, b, spans[1..]);
      assert Texts(s, spans)[1..] == Texts(s, spans[1..]);
      assert Gaps(s, from, spans)[1..] == Gaps(s, b, spans[1..]);
      assert s[from..] == s[from..a] + s[a..b] + s[b..];
    }
  }

  /**
   The subject is its gaps between the visited spans woven with the texts of the spans, the result the same gaps
   woven with the replacement.
   */
  lemma GsubDecomposes(s: seq<Byte>, pat: seq<Byte>, repl: seq<Byte>)
    requires pat != []
    ensures var spans := Visits(s, pat, 0);
            && Advancing(s, 0, spans) && |spans| <= |s| + 1
            && (forall k | 0 <= k < |spans| :: spans[k].start + spans[k].len <= |s|)
            && s == Weave(Gaps(s, 0, spans), Texts(s, spans))
            && Substituted(s, pat, repl) == Weave(Gaps(s, 0, spans), seq(|spans|, _ => repl))
  {
    VisitsAdvance(s, pat, 0);
    WeavingTextsRestores(s, 0, Visits(s, pat, 0));
    assert s[0..] == s;
    ReplacedIsWoven(s, 0, Visits(s, pat, 0), repl);
  }

  lemma {:induction false} ReplacedLength(s: seq<Byte>, from: nat, spans: seq<Span>, repl: seq<Byte>)
    requires from <= |s| && Advancing(s, from, spans)
    ensures |Replaced(s, from, spans, repl)| <= |s| - from + |spans| * |repl|
    decreases |spans|
  {
    if spans != [] {
      AdvancingAfter(s, spans);
      var b := spans[0].start + spans[0].len;
      ReplacedLength(s, b, spans[1..], repl);
      assert |spans| * |repl| == |repl| + |spans[1..]| * |repl|;
    }
  }

  /** The size bound the caller allocates by, with room to spare. */
  lemma GsubLength(s: seq<Byte>, pat: seq<Byte>, repl: seq<Byte>)
    ensures |Substituted(s, pat, repl)| <= (|s| + 1) * (|repl| + 1) - 1
  {
    if pat != [] {
      VisitsAdvance(s, pat, 0);
      ReplacedLength(s, 0, Visits(s, pat, 0), repl);
      assert |Visits(s, pat, 0)| * |repl| <= (|s| + 1) * |repl| by {
        MulMonotone(|Visits(s, pat, 0)|, |s| + 1, |repl|);
      }
      assert (|s| + 1) * (|repl| + 1) == (|s| + 1) * |repl| + |s| + 1;
    } else {
      MulMonotone(1, |repl| + 1, |s| + 1);
    }
  }

  lemma {:induction false} MulMonotone(a: nat, b: nat, c: nat)
    requires a <= b
    ensures a * c <= b * c
  {
    assert (b - a) * c >= 0;
  }

  // ----- gsub -----

  /** `out` holds the first bytes of `full`, as many as `max` allows, and is otherwise as it was. */
  ghost predicate Holds(out: array<Byte>, was: seq<Byte>, max: nat, wrote: nat, full: seq<Byte>)
    requires |was| == out.Length
    reads out
  {
    && wrote == Min(max, |full|)
    && wrote <= out.Length
    && out[..wrote] == full[..wrote]
    && out[wrote..] == was[wrote..]
  }

  method WriteByte(out: array<Byte>, ghost was: seq<Byte>, max: nat, wrote: nat, b: Byte, ghost full: seq<Byte>)
    returns (w: nat)
    requires |was| == out.Length && max <= out.Length && Holds(out, was, max, wrote, full)
    modifies out
    ensures Holds(out, was, max, w, full + [b])
  {
    w := wrote;
    if w < max {
      out[w] := b;
      w := w + 1;
    }
  }

  method WriteSlice(out: array<Byte>, ghost was: seq<Byte>, max: nat, wrote: nat, bytes: seq<Byte>, ghost full: seq<Byte>)
    returns (w: nat)
    requires |was| == out.Length && max <= out.Length && Holds(out, was, max, wrote, full)
    modifies out
    ensures Holds(out, was, max, w, full + bytes)
  {
    w := wrote;
    var i := 0;
    assert full + bytes[..0] == full;
    while i < |bytes|
      invariant i <= |bytes|
      invariant Holds(out, was, max, w, full + bytes[..i])
    {
      w := WriteByte(out, was, max, w, bytes[i], full + bytes[..i]);
      i := i + 1;
      assert full + bytes[..i - 1] + [bytes[i - 1]] == full + bytes[..i];
    }
    assert full + bytes[..i] == full + bytes;
  }

  /** What a match contributes: the bytes before it, the replacement, and the byte after an empty match. */
  function Contribution(s: seq<Byte>, cursor: nat, span: Span, repl: seq<Byte>): seq<Byte>
    requires cursor <= span.start && span.start + span.len <= |s|
  {
    s[cursor..span.start] + repl + if span.len == 0 && span.start < |s| then [s[span.start]] else []
  }

  /** Everything the loop emits from `cursor` on, were the buffer large enough. */
  ghost function Emitted(s: seq<Byte>, pat: seq<Byte>, cursor: nat, repl: seq<Byte>): seq<Byte>
    requires pat != []
    decreases |s| + 1 - cursor
  {
    if cursor > |s| then []
    else match NextSpan(s, pat, cursor)
      case None => s[cursor..]
      case Some(span) => Contribution(s, cursor, span, repl) + Emitted(s, pat, Resume(span), repl)
  }

  method EmitMatch(s: seq<Byte>, repl: seq<Byte>, cursor: nat, span: Span,
                   out: array<Byte>, ghost was: seq<Byte>, max: nat, wrote: nat, ghost full: seq<Byte>)
    returns (w: nat, next: nat)
    requires cursor <= span.start && span.start + span.len <= |s|
    requires |was| == out.Length && max <= out.Length && Holds(out, was, max, wrote, full)
    modifies out
    ensures Holds(out, was, max, w, full + Contribution(s, cursor, span, repl))
    ensures next == Resume(span)
  {
    ghost var before := full + s[cursor..span.start];
    w := WriteSlice(out, was, max, wrote, s[cursor..span.start], full);
    w := WriteSlice(out, was, max, w, repl, before);
    if span.len == 0 {
      if span.start < |s| {
        w := WriteByte(out, was, max, w, s[span.start], before + repl);
      }
      next := span.start + 1;
    } else {
      next := span.start + span.len;
    }
    assert full + (s[cursor..span.start] + repl) == before + repl;
    assert full + Contribution(s, cursor, span, repl)
        == before + repl + if span.len == 0 && span.start < |s| then [s[span.start]] else [];
  }

  /**
   The bytes written are the longest prefix of the substituted text that fits; nothing behind them
   in the buffer changes.
   */
  method GsubStringRepl(s: seq<Byte>, pat: seq<Byte>, repl: seq<Byte>, out: array<Byte>, outMax: int)
    returns (wrote: nat)
    requires outMax <= out.Length
    modifies out
    ensures wrote == Min(if outMax < 0 then 0 else outMax, |Substituted(s, pat, repl)|)
    ensures out[..wrote] == Substituted(s, pat, repl)[..wrote]
    ensures out[wrote..] == old(out[wrote..])
  {
    var max := if outMax < 0 then 0 else outMax;
    ghost var was := out[..];
    wrote := 0;
    if |pat| == 0 {
      wrote := WriteSlice(out, was, max, wrote, s, []);
      assert [] + s == s;
    } else {
      wrote := GsubLoop(s, pat, repl, out, was, max);
      VisitsAdvance(s, pat, 0);
      EmittedIsReplaced(s, pat, 0, repl);
    }
    assert Holds(out, was, max, wrote, Substituted(s, pat, repl));
  }

  method GsubLoop(s: seq<Byte>, pat: seq<Byte>, repl: seq<Byte>, out: array<Byte>, ghost was: seq<Byte>, max: nat)
    returns (wrote: nat)
    requires pat != [] && was == out[..] && max <= out.Length
    modifies out
    ensures Holds(out, was, max, wrote, Emitted(s, pat, 0, repl))
  {
    ghost var done: seq<Byte>, ahead := [], Emitted(s, pat, 0, repl);
    ghost var whole := ahead;
    wrote := 0;
    var cursor := 0;
    while cursor <= |s|
      invariant cursor <= |s| + 1
      invariant Holds(out, was, max, wrote, done)
      invariant ahead == Emitted(s, pat, cursor, repl)
      invariant done + ahead == whole
      decreases |s| + 1 - cursor
    {
      var r := FindSpan(s, pat, cursor);
      match r
      case Some(span) =>
        ghost var part := Contribution(s, cursor, span, repl);
        wrote, cursor := EmitMatch(s, repl, cursor, span, out, was, max, wrote, done);
        ahead := Emitted(s, pat, cursor, repl);
        Regroup(done, part, ahead);
        done := done + part;
      case None =>
        wrote := WriteSlice(out, was, max, wrote, s[cursor..], done);
        return;
    }
    assert done == whole;
  }

  /** Copying one byte of a gap ahead of time leaves the rest of the gap. */
  lemma StepIntoGap(s: seq<Byte>, from: nat, spans: seq<Span>, repl: seq<Byte>)
    requires from < |s| && Advancing(s, from, spans) && Advancing(s, from + 1, spans)
    ensures Replaced(s, from, spans, repl) == [s[from]] + Replaced(s, from + 1, spans, repl)
  {
    if spans == [] {
      assert s[from..] == [s[from]] + s[from + 1..];
    } else {
      AdvancingAfter(s, spans);
      var gap, rest := s[from + 1..spans[0].start], Replaced(s, spans[0].start + spans[0].len, spans[1..], repl);
      assert s[from..spans[0].start] == [s[from]] + gap;
      Regroup([s[from]], gap + repl, rest);
      Regroup([s[from]], gap, repl);
    }
  }

  /** A match at the subject's end is the last. */
  lemma AfterTheEnd(s: seq<Byte>, pat: seq<Byte>, repl: seq<Byte>)
    requires pat != []
    ensures Visits(s, pat, |s| + 1) == [] && Advancing(s, |s|, []) && Replaced(s, |s|, [], repl) == []
    ensures Emitted(s, pat, |s| + 1, repl) == []
  {
    VisitsAdvance(s, pat, |s| + 1);
  }

  /** What follows one span, in the loop's terms and in those of the replaced subject. */
  lemma AfterSpan(s: seq<Byte>, pat: seq<Byte>, span: Span, repl: seq<Byte>)
    requires pat != [] && span.start + span.len <= |s|
    requires Advancing(s, Resume(span), Visits(s, pat, Resume(span)))
    requires Advancing(s, span.start + span.len, Visits(s, pat, Resume(span)))
    requires Resume(span) <= |s| ==>
               Emitted(s, pat, Resume(span), repl) == Replaced(s, Resume(span), Visits(s, pat, Resume(span)), repl)
    ensures (if span.len == 0 && span.start < |s| then [s[span.start]] else []) + Emitted(s, pat, Resume(span), repl)
         == Replaced(s, span.start + span.len, Visits(s, pat, Resume(span)), repl)
  {
    var rest := Visits(s, pat, Resume(span));
    if span.len > 0 {
      assert [] + Emitted(s, pat, Resume(span), repl) == Emitted(s, pat, Resume(span), repl);
    } else if span.start < |s| {
      StepIntoGap(s, span.start, rest, repl);
    } else {
      AfterTheEnd(s, pat, repl);
    }
  }

  lemma ReplacedCons(s: seq<Byte>, from: nat, span: Span, rest: seq<Span>, repl: seq<Byte>)
    requires from <= |s| && Advancing(s, from, [span] + rest)
    ensures Advancing(s, span.start + span.len, rest)
    ensures Replaced(s, from, [span] + rest, repl)
         == s[from..span.start] + repl + Replaced(s, span.start + span.len, rest, repl)
  {
    assert ([span] + rest)[1..] == rest;
    AdvancingAfter(s, [span] + rest);
  }

  /** The cursor loop, which copies a byte past each empty match, emits exactly the replaced subject. */
  lemma {:induction false} EmittedIsReplaced(s: seq<Byte>, pat: seq<Byte>, cursor: nat, repl: seq<Byte>)
    requires pat != [] && cursor <= |s| && Advancing(s, cursor, Visits(s, pat, cursor))
    ensures Emitted(s, pat, cursor, repl) == Replaced(s, cursor, Visits(s, pat, cursor), repl)
    decreases |s| + 1 - cursor
  {
    if NextSpan(s, pat, cursor).Some? {
      var span := NextSpan(s, pat, cursor).value;
      VisitsAdvance(s, pat, Resume(span));
      ReplacedCons(s, cursor, span, Visits(s, pat, Resume(span)), repl);
      if Resume(span) <= |s| {
        EmittedIsReplaced(s, pat, Resume(span), repl);
      }
      EmittedCons(s, pat, cursor, span, repl);
    }
  }

  lemma EmittedCons(s: seq<Byte>, pat: seq<Byte>, cursor: nat, span: Span, repl: seq<Byte>)
    requires pat != [] && cursor <= |s| && NextSpan(s, pat, cursor) == Some(span)
    requires Advancing(s, Resume(span), Visits(s, pat, Resume(span)))
    requires Advancing(s, span.start + span.len, Visits(s, pat, Resume(span)))
    requires Resume(span) <= |s| ==>
               Emitted(s, pat, Resume(span), repl) == Replaced(s, Resume(span), Visits(s, pat, Resume(span)), repl)
    ensures Emitted(s, pat, cursor, repl)
         == s[cursor..span.start] + repl + Replaced(s, span.start + span.len, Visits(s, pat, Resume(span)), repl)
  {
    AfterSpan(s, pat, span, repl);
    var step := if span.len == 0 && span.start < |s| then [s[span.start]] else [];
    Regroup(s[cursor..span.start] + repl, step, Emitted(s, pat, Resume(span), repl));
  }

  lemma Regroup(a: seq<Byte>, b: seq<Byte>, c: seq<Byte>)
    ensures a + (b + c) == a + b + c
  {}

  // ----- gmatch -----

  /**
   The closure `gmatch` returns: it searches from a captured one-based position and moves that position
   past each match.  `visited` records the spans handed out so far.
   */
  class GmatchIterator {
    const s: seq<Byte>
    const p: seq<Byte>
    var pos: nat
    ghost var visited: seq<Span>

    /** What was handed out and what is still to come are together the walk `gsub` makes. */
    ghost predicate Valid()
      reads this
    {
      && |s| + 1 < HALF_WORD
      && pos >= 1
      && (p != [] ==> visited + Visits(s, p, pos - 1) == Visits(s, p, 0))
    }

    constructor (s: seq<Byte>, p: seq<Byte>)
      requires |s| + 1 < HALF_WORD
      ensures Valid() && this.s == s && this.p == p && visited == []
    {
      this.s, this.p := s, p;
      pos, visited := 1, [];
    }

    /** One call of the iterator; on an empty pattern it never ends. */
    method Next() returns (r: Option<seq<Byte>>)
      requires Valid()
      modifies this
      ensures Valid()
      ensures p == [] ==> r.Some? && r.value == []
      ensures p != [] && r.None? ==> visited == old(visited) == Visits(s, p, 0)
      ensures p != [] && r.Some? ==>
        exists span ::
          && visited == old(visited) + [span]
          && visited <= Visits(s, p, 0)
          && span.start + span.len <= |s|
          && r == Some(s[span.start..span.start + span.len])
    {
      var found, s0, e0 := FindExtent(s, p, pos);
      if !found {
        return None;
      }
      ghost var span := Span(s0 - 1, e0 + 1 - s0);
      if p != [] {
        assert visited + ([span] + Visits(s, p, Resume(span))) == visited + [span] + Visits(s, p, Resume(span));
      }
      if e0 < s0 {
        pos := s0 + 1;
      } else {
        pos := e0 + 1;
      }
      visited := visited + [span];
      r := Some(s[s0 - 1..e0]);
    }
  }

  /** `local s0, e0 = string.find(s, p, pos)`: the packed result, taken apart. */
  method FindExtent(s: seq<Byte>, p: seq<Byte>, pos: nat) returns (found: bool, s0: nat, e0: int)
    requires |s| + 1 < HALF_WORD && pos >= 1
    ensures found <==> NextSpan(s, p, pos - 1).Some?
    ensures found ==> s0 >= 1 && e0 + 1 >= s0 && NextSpan(s, p, pos - 1) == Some(Span(s0 - 1, e0 + 1 - s0))
  {
    var packed := FindInit(s, p, pos);
    PackedFindUnpacks(s, p, pos - 1);
    found, s0, e0 := packed != 0, UnpackPos(packed), UnpackPos(packed) + UnpackLen(packed) - 1;
  }
}

/**
 Where this runtime's patterns are Lua's.  `SharedPattern`, a test on the text of a pattern, leaves out what the
 runtime reads otherwise; on the patterns that pass it the two matchers find the same match everywhere, and
 `find` and `gsub` return what Lua's return under exact conditions.
 */
module LuaAgreement {
  import opened Wrappers
  import opened Bytes
  import opened PatternSyntax
  import opened PatternSemantics
  import opened PatternSearch
  import opened PatternReplace
  import opened PatternWalks
  import opened LuaPatterns

  // ----- Classes and sets -----

  const LOWER_G: Byte := 0x67

  /** A byte behind `%` that stands for the same class, or for itself, on both sides. */
  predicate SharedClass(cls: Byte) { MeansAtom(cls) && ToLower(cls) != LOWER_G }

  lemma LettersAre(c: Byte)
    ensures IsUpper(c) <==> c in UPPER
    ensures IsLower(c) <==> c in LOWER
    ensures IsDigit(c) <==> c in DIGITS
  {}

  lemma SpacesAre(c: Byte)
    ensures IsHex(c) <==> c in DIGITS || c in HEX_LETTERS
    ensures IsSpace(c) <==> c in SPACES
  {}

  lemma PunctuationIs(c: Byte)
    ensures IsPunct(c) <==> c in PUNCTUATION
  {}

  lemma ControlsAre(c: Byte)
    ensures IsControl(c) <==> c in CONTROLS
  {}

  lemma ClassAgrees(c: Byte, cls: Byte)
    requires ToLower(cls) != LOWER_G
    ensures MatchesClass(c, cls) == LuaClass(c, cls)
  {
    LettersAre(c);
    SpacesAre(c);
    PunctuationIs(c);
    ControlsAre(c);
    LettersAre(cls);
  }

  /** The runtime has every class of Lua but `%g` and its complement. */
  lemma ClassesAgree(cls: Byte)
    ensures (forall c: Byte :: MatchesClass(c, cls) == LuaClass(c, cls)) <==> ToLower(cls) != LOWER_G
  {
    if ToLower(cls) == LOWER_G {
      assert MatchesClass(0x61, cls) != LuaClass(0x61, cls) || MatchesClass(0x20, cls) != LuaClass(0x20, cls);
    } else {
      forall c: Byte ensures MatchesClass(c, cls) == LuaClass(c, cls) {
        ClassAgrees(c, cls);
      }
    }
  }

  predicate SameElem(e: SetElem) { e.Class? ==> SharedClass(e.cls) }

  /** The set is closed, `]` does not open it, no range runs into its end, and its classes are shared. */
  predicate SharedSet(pat: seq<Byte>, p: nat)
    requires p < |pat|
  {
    var body := SetBody(pat, p);
    && body < |pat| && pat[body] != RBRACKET
    && CleanRanges(pat, body) && SetStop(pat, body) < |pat|
    && forall e | e in SetElems(pat, body) :: SameElem(e)
  }

  lemma {:induction false} SetEndsAgree(pat: seq<Byte>, j: nat)
    requires j < |pat| && pat[j] != RBRACKET && SetClose(pat, j) < |pat|
    ensures LuaSetEnd(pat, j) == Some(SetClose(pat, j))
    decreases |pat| - j
  {
    var next := if EscapeAt(pat, j) then j + 2 else j + 1;
    assert SetClose(pat, j) == SetClose(pat, next);
    if pat[next] != RBRACKET {
      SetEndsAgree(pat, next);
    }
  }

  lemma {:induction false} ElemsAgree(pat: seq<Byte>, j: nat, close: nat)
    requires j <= close < |pat| && SetStop(pat, j) == close
    ensures LuaElems(pat, j, close) == SetElems(pat, j)
    decreases |pat| - j
  {
    if j < close {
      ElemAgrees(pat, j, close);
      LuaElemsCons(pat, j, close);
      ElemsAgree(pat, j + ElemLen(pat, j), close);
    }
  }

  lemma LuaElemsCons(pat: seq<Byte>, j: nat, close: nat)
    requires j < close < |pat| && (pat[j] == PERCENT <==> EscapeAt(pat, j))
    requires !EscapeAt(pat, j) ==> (pat[j + 1] == DASH && j + 2 < close <==> RangeAt(pat, j))
    ensures LuaElems(pat, j, close) == [ElemAt(pat, j)] + LuaElems(pat, j + ElemLen(pat, j), close)
  {}

  /** A range is a range on both sides: its upper end lies before the closing `]`, which is not one. */
  lemma ElemAgrees(pat: seq<Byte>, j: nat, close: nat)
    requires j < close < |pat| && SetStop(pat, j) == close
    ensures pat[j] != RBRACKET && j + ElemLen(pat, j) <= close && SetStop(pat, j + ElemLen(pat, j)) == close
    ensures pat[j] == PERCENT <==> EscapeAt(pat, j)
    ensures !EscapeAt(pat, j) ==> (pat[j + 1] == DASH && j + 2 < close <==> RangeAt(pat, j))
  {
    if !EscapeAt(pat, j) && pat[j + 1] == DASH && pat[j + 2..] != [] && pat[j + 2] == RBRACKET {
      assert SetStop(pat, j) == SetStop(pat, j + 1) == SetStop(pat, j + 2) == j + 2;
    }
  }

  lemma SetsAgree(pat: seq<Byte>, p: nat)
    requires p < |pat| && pat[p] == LBRACKET && SharedSet(pat, p)
    ensures LuaSet(pat, p) == Some((SetAt(pat, p), p + AtomLen(pat, p)))
    ensures forall c: Byte :: LuaSetAdmits(SetAt(pat, p), c) == SetAdmits(SetAt(pat, p), c)
  {
    var body := SetBody(pat, p);
    SetWalkersAgree(pat, body);
    SetEndsAgree(pat, body);
    ElemsAgree(pat, body, SetStop(pat, body));
    SharedElemsAgree(SetAt(pat, p));
  }

  lemma SharedElemsAgree(set_: ByteSet)
    requires forall e | e in set_.elems :: SameElem(e)
    ensures MeaningfulElems(set_.elems)
    ensures forall c: Byte :: LuaSetAdmits(set_, c) == SetAdmits(set_, c)
  {
    forall k | 0 <= k < |set_.elems| && set_.elems[k].Class? ensures MeansAtom(set_.elems[k].cls) {
      assert SameElem(set_.elems[k]);
    }
    forall c: Byte ensures LuaSetAdmits(set_, c) == SetAdmits(set_, c) {
      forall k | 0 <= k < |set_.elems| ensures LuaElemAdmits(set_.elems[k], c) == ElemAdmits(set_.elems[k], c) {
        assert SameElem(set_.elems[k]);
        if set_.elems[k].Class? {
          ClassesAgree(set_.elems[k].cls);
        }
      }
    }
  }

  // ----- Atoms and items -----

  predicate SharedAtom(pat: seq<Byte>, p: nat)
    requires p < |pat|
  {
    if pat[p] == PERCENT then p + 1 < |pat| && SharedClass(pat[p + 1])
    else pat[p] == LBRACKET ==> SharedSet(pat, p)
  }

  ghost predicate MeansSame(atom: Atom) { forall c: Byte :: LuaAdmits(atom, c) == Admits(atom, c) }

  lemma AtomsAgree(pat: seq<Byte>, p: nat)
    requires p < |pat| && SharedAtom(pat, p)
    ensures p + AtomLen(pat, p) <= |pat|
    ensures LuaAtom(pat, p) == Some((AtomAt(pat, p), p + AtomLen(pat, p))) && MeansSame(AtomAt(pat, p))
  {
    if pat[p] == PERCENT {
      ClassesAgree(pat[p + 1]);
    } else if pat[p] == LBRACKET {
      SetsAgree(pat, p);
    }
  }

  /**
   The pattern bytes from `p` on, behind `groups` groups of which the last may be `open`, hold nothing that Lua
   reads otherwise: no lazy repetition, no nested or unclosed group, no back reference, no `%g`, no `%bxx`.
   */
  predicate Shared(pat: seq<Byte>, p: nat, open: bool, groups: nat)
    decreases |pat| - p
  {
    if p >= |pat| || (p + 1 == |pat| && pat[p] == DOLLAR) then !open
    else if pat[p] == LPAREN then !open && groups < MAX_GROUPS && Shared(pat, p + 1, true, groups + 1)
    else if pat[p] == RPAREN then open && Shared(pat, p + 1, false, groups)
    else if BalancedAt(pat, p) then pat[p + 2] != pat[p + 3] && Shared(pat, p + 4, open, groups)
    else if FrontierAt(pat, p) then
      SharedSet(pat, p + 2) && Shared(pat, p + 2 + AtomLen(pat, p + 2), open, groups)
    else
      var after := p + AtomLen(pat, p);
      && SharedAtom(pat, p) && !(after < |pat| && pat[after] == DASH)
      && Shared(pat, if QuantifierAt(pat, after) then after + 1 else after, open, groups)
  }

  function Unanchored(pat: seq<Byte>): seq<Byte> { if Anchored(pat) then pat[1..] else pat }

  predicate SharedPattern(pat: seq<Byte>) { Shared(Unanchored(pat), 0, false, 0) }

  /** `l` is Lua's form of the item. */
  ghost predicate SameItem(item: Item, l: LuaItem) {
    match item
    case Close => l == Common(Close) || l == Locate
    case Truncated => false
    case Balanced(x, y) => l == Common(item) && x != y
    case Frontier(set_) => l == Common(item) && forall c: Byte :: LuaSetAdmits(set_, c) == SetAdmits(set_, c)
    case One(atom) => l == Common(item) && MeansSame(atom)
    case Many(atom, _) => l == Common(item) && MeansSame(atom)
    case Maybe(atom) => l == Common(item) && MeansSame(atom)
    case _ => l == Common(item)
  }

  /** Item for item the same, with groups that open and close in turn. */
  ghost predicate SameItems(items: seq<Item>, ls: seq<LuaItem>, open: bool)
    decreases |items|
  {
    && |items| == |ls|
    && (items == [] ==> !open)
    && (items != [] ==>
          && SameItem(items[0], ls[0])
          && (items[0].Open? ==> !open) && (items[0].Close? ==> open)
          && SameItems(items[1..], ls[1..], items[0].Open? || (open && !items[0].Close?)))
  }

  function Groups(n: nat, open: bool): seq<bool>
    requires open ==> n > 0
  {
    seq(n, k => open && k == n - 1)
  }

  lemma {:induction false} GroupsOpen(n: nat, open: bool)
    requires open ==> n > 0
    ensures LastOpen(Groups(n, open)) == if open then Some(n - 1) else None
  {
    if !open && n > 0 {
      assert Groups(n, open)[..n - 1] == Groups(n - 1, open);
      GroupsOpen(n - 1, open);
    }
  }

  lemma SameCons(item: Item, items: seq<Item>, l: LuaItem, rest: Option<seq<LuaItem>>, open: bool)
    requires SameItem(item, l) && (item.Open? ==> !open) && (item.Close? ==> open)
    requires rest.Some? && SameItems(items, rest.value, item.Open? || (open && !item.Close?))
    ensures Cons(l, rest).Some? && SameItems([item] + items, Cons(l, rest).value, open)
  {
    assert ([item] + items)[1..] == items && ([l] + rest.value)[1..] == rest.value;
  }

  /** On shared patterns the two readings are item for item the same. */
  lemma {:induction false} ItemsAgree(pat: seq<Byte>, p: nat, open: bool, n: nat)
    requires Shared(pat, p, open, n) && (open ==> n > 0)
    ensures LuaItems(pat, p, Groups(n, open)).Some?
    ensures SameItems(Items(pat, p), LuaItems(pat, p, Groups(n, open)).value, open)
    decreases |pat| - p
  {
    GroupsOpen(n, open);
    if p >= |pat| {
    } else if p + 1 == |pat| && pat[p] == DOLLAR {
      SameCons(AnchorEnd, [], Common(AnchorEnd), Some([]), open);
      assert [AnchorEnd] + [] == [AnchorEnd];
      assert LuaItems(pat, p + 1, Groups(n, open)) == Some([]);
    } else if pat[p] == LPAREN {
      GroupAgrees(pat, p, n);
    } else if pat[p] == RPAREN {
      CloseAgrees(pat, p, n);
    } else if BalancedAt(pat, p) || FrontierAt(pat, p) {
      PercentAgrees(pat, p, open, n);
    } else {
      AtomAgrees(pat, p, open, n);
    }
  }

  lemma {:induction false} CloseAgrees(pat: seq<Byte>, p: nat, n: nat)
    requires p < |pat| && pat[p] == RPAREN && Shared(pat, p, true, n) && n > 0
    ensures LuaItems(pat, p, Groups(n, true)).Some?
    ensures SameItems(Items(pat, p), LuaItems(pat, p, Groups(n, true)).value, true)
    decreases |pat| - p, 0
  {
    GroupsOpen(n, true);
    ItemsAgree(pat, p + 1, false, n);
    assert Groups(n, true)[n - 1 := false] == Groups(n, false);
    SameCons(Close, Items(pat, p + 1), Common(Close), LuaItems(pat, p + 1, Groups(n, false)), true);
  }

  /** `%bxy` and `%f[set]`. */
  lemma {:induction false} PercentAgrees(pat: seq<Byte>, p: nat, open: bool, n: nat)
    requires Shared(pat, p, open, n) && (open ==> n > 0) && (BalancedAt(pat, p) || FrontierAt(pat, p))
    ensures LuaItems(pat, p, Groups(n, open)).Some?
    ensures SameItems(Items(pat, p), LuaItems(pat, p, Groups(n, open)).value, open)
    decreases |pat| - p, 0
  {
    var groups := Groups(n, open);
    if BalancedAt(pat, p) {
      var item := Balanced(pat[p + 2], pat[p + 3]);
      ItemsAgree(pat, p + 4, open, n);
      SameCons(item, Items(pat, p + 4), Common(item), LuaItems(pat, p + 4, groups), open);
    } else {
      var next, item := p + 2 + AtomLen(pat, p + 2), Frontier(SetAt(pat, p + 2));
      SetsAgree(pat, p + 2);
      ItemsAgree(pat, next, open, n);
      SameCons(item, Items(pat, next), Common(item), LuaItems(pat, next, groups), open);
      assert LuaItems(pat, p, groups) == Cons(Common(item), LuaItems(pat, next, groups));
    }
  }

  /** A group opens; `()` is a group of no width on both sides. */
  lemma {:induction false} GroupAgrees(pat: seq<Byte>, p: nat, n: nat)
    requires p < |pat| && pat[p] == LPAREN && Shared(pat, p, false, n) && !(p + 1 == |pat| && pat[p] == DOLLAR)
    ensures LuaItems(pat, p, Groups(n, false)).Some?
    ensures SameItems(Items(pat, p), LuaItems(pat, p, Groups(n, false)).value, false)
    decreases |pat| - p, 0
  {
    assert n < MAX_GROUPS && |Groups(n, false)| == n;
    if p + 1 < |pat| && pat[p + 1] == RPAREN {
      assert Groups(n, false) + [false] == Groups(n + 1, false);
      ItemsAgree(pat, p + 2, false, n + 1);
      var rest := LuaItems(pat, p + 2, Groups(n + 1, false));
      SameCons(Close, Items(pat, p + 2), Locate, rest, true);
      assert Items(pat, p + 1) == [Close] + Items(pat, p + 2);
      SameCons(Open, Items(pat, p + 1), Common(Open), Cons(Locate, rest), false);
    } else {
      assert Groups(n, false) + [true] == Groups(n + 1, true);
      ItemsAgree(pat, p + 1, true, n + 1);
      SameCons(Open, Items(pat, p + 1), Common(Open), LuaItems(pat, p + 1, Groups(n + 1, true)), false);
    }
  }

  /** Where the item behind the atom at `p` begins. */
  function Behind(pat: seq<Byte>, p: nat): nat
    requires p < |pat|
  {
    var after := p + AtomLen(pat, p);
    if QuantifierAt(pat, after) then after + 1 else after
  }

  /** An atom and its quantifier. */
  lemma {:induction false} AtomAgrees(pat: seq<Byte>, p: nat, open: bool, n: nat)
    requires p < |pat| && SharedAtom(pat, p) && Shared(pat, Behind(pat, p), open, n) && (open ==> n > 0)
    requires p + AtomLen(pat, p) < |pat| ==> pat[p + AtomLen(pat, p)] != DASH
    requires !(p + 1 == |pat| && pat[p] == DOLLAR) && pat[p] != LPAREN && pat[p] != RPAREN
    requires !BalancedAt(pat, p) && !FrontierAt(pat, p)
    ensures LuaItems(pat, p, Groups(n, open)).Some?
    ensures SameItems(Items(pat, p), LuaItems(pat, p, Groups(n, open)).value, open)
    decreases |pat| - p, 0
  {
    QuantifiedSame(pat, p);
    AtomUnfolds(pat, p, Groups(n, open));
    ItemsAgree(pat, Behind(pat, p), open, n);
    var item := QuantifiedItem(pat, p);
    SameCons(item, Items(pat, Behind(pat, p)), Common(item), LuaItems(pat, Behind(pat, p), Groups(n, open)), open);
  }

  lemma QuantifiedSame(pat: seq<Byte>, p: nat)
    requires p < |pat| && SharedAtom(pat, p)
    ensures p + AtomLen(pat, p) <= |pat|
    ensures var item := QuantifiedItem(pat, p); SameItem(item, Common(item)) && !item.Open? && !item.Close?
  {
    AtomsAgree(pat, p);
  }

  lemma AtomUnfolds(pat: seq<Byte>, p: nat, groups: seq<bool>)
    requires p < |pat| && SharedAtom(pat, p) && pat[p] != LPAREN && pat[p] != RPAREN
    requires !(p + 1 == |pat| && pat[p] == DOLLAR) && !BalancedAt(pat, p) && !FrontierAt(pat, p)
    requires p + AtomLen(pat, p) < |pat| ==> pat[p + AtomLen(pat, p)] != DASH
    ensures p + AtomLen(pat, p) <= |pat|
    ensures Items(pat, p) == [QuantifiedItem(pat, p)] + Items(pat, Behind(pat, p))
    ensures LuaItems(pat, p, groups) == Cons(Common(QuantifiedItem(pat, p)), LuaItems(pat, Behind(pat, p), groups))
  {
    AtomsAgree(pat, p);
    assert LuaQuantified(pat, AtomAt(pat, p), p + AtomLen(pat, p)) == (Common(QuantifiedItem(pat, p)), Behind(pat, p));
    assert Items(pat, p) == [QuantifiedItem(pat, p)] + Items(pat, Behind(pat, p));
    if pat[p] == PERCENT {
      NoItem(pat, p);
    }
  }

  /** An escape that is a shared class is none of `%b`, `%f` and `%1` to `%9`. */
  lemma NoItem(pat: seq<Byte>, p: nat)
    requires p + 1 < |pat| && pat[p] == PERCENT && SharedClass(pat[p + 1])
    ensures pat[p + 1] != LOWER_B && pat[p + 1] != LOWER_F && pat[p + 1] !in DIGITS
  {}

  // ----- The matchers -----

  /** The last of Lua's captures is the runtime's. */
  predicate SameCapture(cap: Cap, caps: seq<LuaCap>) {
    if cap.hasPending then caps != [] && caps[|caps| - 1] == Pending(cap.pendingStart)
    else if cap.captured then
      caps != [] && (caps[|caps| - 1] == Closed(cap.capStart, cap.capEnd) || caps[|caps| - 1] == Position(cap.capEnd))
    else caps == []
  }

  lemma {:induction false} DepthsAgree(t: seq<Byte>, x: Byte, y: Byte)
    requires t != [] && t[0] == x && x != y
    ensures LuaDepth(t, x, y) == Depth(t, x, y)
  {
    if |t| == 1 {
      assert t[..0] == [];
    } else {
      DepthsAgree(t[..|t| - 1], x, y);
    }
  }

  lemma BalancedAgrees(t: seq<Byte>, x: Byte, y: Byte)
    requires x != y
    ensures LuaBalanced(t, x, y) == IsBalanced(t, x, y)
  {
    if t != [] && t[0] == x {
      DepthsAgree(t, x, y);
      forall n | 0 < n < |t| ensures LuaDepth(t[..n], x, y) == Depth(t[..n], x, y) {
        DepthsAgree(t[..n], x, y);
      }
    }
  }

  lemma TakesAgree(s: seq<Byte>, i: nat, item: Item, l: LuaItem, width: nat, cap: Cap, caps: seq<LuaCap>)
    requires i + width <= |s| && SameItem(item, l)
    requires (item.Open? ==> !cap.hasPending) && (item.Close? ==> cap.hasPending)
    ensures Takes(s, i, item, width, cap) == LuaTakes(s, i, l, width, caps)
  {
    if item.Balanced? {
      BalancedAgrees(s[i..i + width], item.x, item.y);
    }
  }

  lemma CapturesAgree(item: Item, l: LuaItem, i: nat, cap: Cap, caps: seq<LuaCap>)
    requires SameItem(item, l) && SameCapture(cap, caps)
    requires (item.Open? ==> !cap.hasPending) && (item.Close? ==> cap.hasPending)
    ensures SameCapture(CapAfter(item, i, cap), CapsAfter(l, i, caps))
    ensures CapAfter(item, i, cap).hasPending == (item.Open? || (cap.hasPending && !item.Close?))
  {}

  /** The same outcome, but for the form of the captures. */
  predicate SameOutcome(r: Option<Match>, l: Option<LuaMatch>) {
    match r
    case None => l.None?
    case Some(m) => l.Some? && l.value.end == m.end && l.value.widths == m.widths && SameCapture(m.cap, l.value.caps)
                    && !m.cap.hasPending
  }

  lemma {:induction false} SearchesAgree(
      s: seq<Byte>, i: nat, items: seq<Item>, ls: seq<LuaItem>, cap: Cap, caps: seq<LuaCap>)
    requires i <= |s| && SameItems(items, ls, cap.hasPending) && SameCapture(cap, caps)
    ensures SameOutcome(Greedy(s, i, items, cap), LuaSearch(s, i, ls, caps))
    decreases |items|, |s| + 1
  {
    if items != [] {
      TriesAgree(s, i, items, ls, cap, caps, 0);
    }
  }

  lemma {:induction false} TriesAgree(
      s: seq<Byte>, i: nat, items: seq<Item>, ls: seq<LuaItem>, cap: Cap, caps: seq<LuaCap>, k: nat)
    requires i + k <= |s| && items != [] && SameItems(items, ls, cap.hasPending) && SameCapture(cap, caps)
    ensures SameOutcome(TryWidths(s, i, items[0], items[1..], cap, |s| - i - k), LuaTry(s, i, ls, caps, k))
    decreases |items|, |s| - i - k
  {
    var width := |s| - i - k;
    TryAgrees(s, i, items, ls, cap, caps, width);
    if TryWidth(s, i, items[0], items[1..], cap, width).None? && width > 0 {
      TriesAgree(s, i, items, ls, cap, caps, k + 1);
    }
  }

  lemma {:induction false} TryAgrees(
      s: seq<Byte>, i: nat, items: seq<Item>, ls: seq<LuaItem>, cap: Cap, caps: seq<LuaCap>, width: nat)
    requires i + width <= |s| && items != [] && SameItems(items, ls, cap.hasPending) && SameCapture(cap, caps)
    ensures SameOutcome(TryWidth(s, i, items[0], items[1..], cap, width), LuaTryOne(s, i, ls, caps, width))
    decreases |items| - 1, |s| + 2
  {
    TakesAgree(s, i, items[0], ls[0], width, cap, caps);
    if Takes(s, i, items[0], width, cap) {
      CapturesAgree(items[0], ls[0], i, cap, caps);
      SearchesAgree(s, i + width, items[1..], ls[1..], CapAfter(items[0], i, cap), CapsAfter(ls[0], i, caps));
    }
  }

  /** Lua's match at `start`. */
  function LuaMatchAt(s: seq<Byte>, start: nat, pat: seq<Byte>): Option<LuaMatch>
    requires start <= |s| && LuaPattern(pat).Some?
  {
    LuaSearch(s, start, LuaPattern(pat).value, [])
  }

  /** On a shared pattern the runtime finds Lua's match at every place: the same text, and the same last capture. */
  lemma MatchersAgree(s: seq<Byte>, start: nat, pat: seq<Byte>)
    requires start <= |s| && SharedPattern(pat)
    ensures LuaPattern(pat).Some?
    ensures match MatchAt(s, start, PatternItems(pat))
      case None => LuaMatchAt(s, start, pat).None?
      case Some(f) =>
        && LuaMatchAt(s, start, pat).Some?
        && f.start == start && start + f.len == LuaMatchAt(s, start, pat).value.end
        && SameCapture(f.cap, LuaMatchAt(s, start, pat).value.caps)
  {
    assert Groups(0, false) == [];
    ItemsAgree(Unanchored(pat), 0, false, 0);
    SearchesAgree(s, start, PatternItems(pat), LuaPattern(pat).value, NO_CAP, []);
  }

  // ----- find -----

  /** `string.find` in Lua, from the zero-based `init`: an anchored pattern is tried there only. */
  function LuaFind(s: seq<Byte>, pat: seq<Byte>, init: nat): Option<Span>
    requires LuaPattern(pat).Some?
    decreases |s| + 1 - init
  {
    if init > |s| then None
    else match LuaMatchAt(s, init, pat)
      case Some(m) => Some(Span(init, m.end - init))
      case None => if LuaAnchored(pat) then None else LuaFind(s, pat, init + 1)
  }

  lemma {:induction false} SearchFromAgrees(s: seq<Byte>, pat: seq<Byte>, init: nat)
    requires SharedPattern(pat) && LuaPattern(pat).Some? && init <= |s|
    ensures match FirstMatch(s, PatternItems(pat), init, if Anchored(pat) then init else |s|)
      case None => LuaFind(s, pat, init) == None
      case Some(f) => LuaFind(s, pat, init) == Some(Span(f.start, f.len))
    decreases |s| - init
  {
    MatchersAgree(s, init, pat);
    if init < |s| && !Anchored(pat) {
      SearchFromAgrees(s, pat, init + 1);
    }
  }

  /**
   On a shared pattern `find` returns the extent Lua's does exactly unless the pattern is empty and `init` lies
   behind the subject, where Lua finds nothing, or the pattern is anchored and matches at an `init` other than
   the first place, which Lua takes for an anchor too.
   */
  lemma FindAgreesWithLua(s: seq<Byte>, pat: seq<Byte>, init: nat)
    requires SharedPattern(pat)
    ensures LuaPattern(pat).Some?
    ensures NextSpan(s, pat, init) == LuaFind(s, pat, init)
       <==> (pat == [] ==> init <= |s|) && (Anchored(pat) && 0 < init <= |s| ==> LuaMatchAt(s, init, pat).None?)
  {
    MatchersAgree(s, 0, pat);
    if init <= |s| {
      SearchFromAgrees(s, pat, init);
      if pat == [] {
        MatchersAgree(s, init, pat);
        assert MatchAt(s, init, PatternItems([])) == Some(Found(init, 0, NO_CAP));
      }
    }
  }

  // ----- gsub and gmatch -----

  /** The lengths of the matches Lua finds. */
  function LuaLengths(s: seq<Byte>, pat: seq<Byte>): (lens: Lengths)
    requires LuaPattern(pat).Some?
    ensures |lens| == |s| + 1 && InSubject(lens)
  {
    seq(|s| + 1, k requires 0 <= k <= |s| =>
      match LuaMatchAt(s, k, pat)
      case None => None
      case Some(m) => Some(m.end - k))
  }

  /** Lua's walk over Lua's matches. */
  function LuaWalk(s: seq<Byte>, pat: seq<Byte>): seq<Span>
    requires LuaPattern(pat).Some?
  {
    StrictVisits(LuaLengths(s, pat), LuaAnchored(pat), 0, None)
  }

  /** What Lua's `gsub` returns for a replacement without `%`, which stands for itself. */
  function LuaSubstituted(s: seq<Byte>, pat: seq<Byte>, repl: seq<Byte>): seq<Byte>
    requires LuaPattern(pat).Some? && PERCENT !in repl
  {
    StrictlyReplaced(s, LuaLengths(s, pat), LuaAnchored(pat), repl)
  }

  lemma LengthsAgree(s: seq<Byte>, pat: seq<Byte>)
    requires SharedPattern(pat)
    ensures LuaPattern(pat).Some? && LuaLengths(s, pat) == MatchLengths(s, pat)
  {
    MatchersAgree(s, 0, pat);
    forall k | 0 <= k <= |s| ensures LuaLengths(s, pat)[k] == MatchLengths(s, pat)[k] {
      MatchersAgree(s, k, pat);
    }
  }

  /**
   On a shared pattern `gsub` and, unless it is anchored, `gmatch` visit what Lua's do exactly when no visited span
   is empty and starts where its predecessor ends.
   */
  lemma WalkAgreesWithLua(s: seq<Byte>, pat: seq<Byte>)
    requires SharedPattern(pat) && pat != []
    ensures LuaPattern(pat).Some?
    ensures Visits(s, pat, 0) == LuaWalk(s, pat) <==> forall k: nat :: !Touches(Visits(s, pat, 0), k)
  {
    LengthsAgree(s, pat);
    WalksAgree(s, pat);
  }

  /**
   On a shared pattern `gsub` returns what Lua's does exactly when it deletes, or when the pattern is not empty
   and no visited span is empty and starts where its predecessor ends.
   */
  lemma GsubAgreesWithLua(s: seq<Byte>, pat: seq<Byte>, repl: seq<Byte>)
    requires SharedPattern(pat) && PERCENT !in repl
    ensures LuaPattern(pat).Some?
    ensures Substituted(s, pat, repl) == LuaSubstituted(s, pat, repl)
       <==> repl == [] || (pat != [] && forall k: nat :: !Touches(Visits(s, pat, 0), k))
  {
    LengthsAgree(s, pat);
    SubstitutionsAgree(s, pat, repl);
  }

  /** Patterns without magic bytes are shared, whatever their text. */
  lemma {:induction false} PlainIsShared(pat: seq<Byte>, p: nat, n: nat)
    requires forall k | 0 <= k < |pat| ::
               pat[k] !in {PERCENT, DOT, LBRACKET, LPAREN, RPAREN, STAR, PLUS, QUESTION, DASH, DOLLAR}
    ensures Shared(pat, p, false, n)
    decreases |pat| - p
  {
    if p < |pat| {
      PlainIsShared(pat, p + 1, n);
      assert !QuantifierAt(pat, p + 1);
    }
  }
}

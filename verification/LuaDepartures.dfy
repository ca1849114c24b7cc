/** Patterns outside the shared ones, each at a subject where this runtime and Lua differ. */
module LuaDepartures {
  import opened Wrappers
  import opened Bytes
  import opened PatternSyntax
  import opened PatternSemantics
  import opened PatternMatcher
  import opened PatternSearch
  import opened PatternReplace
  import opened PatternWalks
  import opened LuaPatterns
  import opened LuaAgreement

  const LOWER_A: Byte := 0x61
  const LOWER_X: Byte := 0x78
  const QUOTE: Byte := 0x27
  const ONE: Byte := 0x31

  // ----- A whole subject Lua matches and the runtime does not -----

  ghost predicate Fails(s: seq<Byte>, items: seq<Item>) {
    forall start: nat, widths | start <= |s| :: !Fits(s, start, items, widths, NO_CAP)
  }

  /** Lua replaces the subject by the replacement; the runtime leaves it alone. */
  ghost predicate Departs(s: seq<Byte>, pat: seq<Byte>) {
    && LuaPattern(pat).Some? && !SharedPattern(pat)
    && forall repl: seq<Byte> | PERCENT !in repl ::
         LuaSubstituted(s, pat, repl) == repl && Substituted(s, pat, repl) == s
  }

  lemma WholeReplaced(s: seq<Byte>, pat: seq<Byte>, repl: seq<Byte>)
    requires LuaPattern(pat).Some? && PERCENT !in repl && s != []
    requires LuaMatchAt(s, 0, pat).Some? && LuaMatchAt(s, 0, pat).value.end == |s|
    ensures LuaSubstituted(s, pat, repl) == repl
  {
    WholeWalk(LuaLengths(s, pat), LuaAnchored(pat));
    assert Replaced(s, |s|, [], repl) == [];
    assert [Span(0, |s|)] + [] == [Span(0, |s|)];
    ReplacedCons(s, 0, Span(0, |s|), [], repl);
  }

  lemma WholeWalk(lens: Lengths, once: bool)
    requires InSubject(lens) && |lens| > 1 && lens[0] == Some(|lens| - 1)
    ensures StrictVisits(lens, once, 0, None) == [Span(0, |lens| - 1)]
  {
    var end := |lens| - 1;
    assert StrictVisits(lens, once, end, Some(end)) == [];
    assert [Span(0, end)] + [] == [Span(0, end)];
  }

  lemma NothingReplaced(s: seq<Byte>, pat: seq<Byte>, repl: seq<Byte>)
    requires pat != [] && Fails(s, PatternItems(pat))
    ensures Substituted(s, pat, repl) == s
  {
    FindIsLeftmost(s, pat, 0);
    assert NextSpan(s, pat, 0).None?;
    assert s[0..] == s;
  }

  lemma DepartsAt(s: seq<Byte>, pat: seq<Byte>, widths: seq<nat>)
    requires pat != [] && s != [] && LuaPattern(pat).Some? && !SharedPattern(pat)
    requires LuaFits(s, 0, LuaPattern(pat).value, widths, []) && Sum(widths) == |s|
    requires forall other | LuaFits(s, 0, LuaPattern(pat).value, other, []) :: other == widths
    requires Fails(s, PatternItems(pat))
    ensures Departs(s, pat)
  {
    OnlyMatch(s, 0, LuaPattern(pat).value, [], widths);
    forall repl: seq<Byte> | PERCENT !in repl
      ensures LuaSubstituted(s, pat, repl) == repl && Substituted(s, pat, repl) == s
    {
      WholeReplaced(s, pat, repl);
      NothingReplaced(s, pat, repl);
    }
  }

  // ----- Lists of items -----

  lemma LuaFirst(s: seq<Byte>, i: nat, l: LuaItem, rest: seq<LuaItem>, w: seq<nat>, caps: seq<LuaCap>)
    requires i <= |s| && LuaFits(s, i, [l] + rest, w, caps)
    ensures w != [] && w == [w[0]] + w[1..] && i + w[0] <= |s| && LuaTakes(s, i, l, w[0], caps)
    ensures LuaFits(s, i + w[0], rest, w[1..], CapsAfter(l, i, caps))
  {
    assert ([l] + rest)[1..] == rest;
  }

  lemma LuaPrepend(s: seq<Byte>, i: nat, l: LuaItem, rest: seq<LuaItem>, width: nat, w: seq<nat>, caps: seq<LuaCap>)
    requires i + width <= |s| && LuaTakes(s, i, l, width, caps)
    requires LuaFits(s, i + width, rest, w, CapsAfter(l, i, caps))
    ensures LuaFits(s, i, [l] + rest, [width] + w, caps)
  {
    hide LuaTakes, CapsAfter;
    assert ([l] + rest)[1..] == rest && ([width] + w)[1..] == w;
  }

  lemma FitsFirst(s: seq<Byte>, i: nat, item: Item, rest: seq<Item>, w: seq<nat>, cap: Cap)
    requires i <= |s| && Fits(s, i, [item] + rest, w, cap)
    ensures w != [] && i + w[0] <= |s| && Takes(s, i, item, w[0], cap)
    ensures Fits(s, i + w[0], rest, w[1..], CapAfter(item, i, cap))
  {
    assert ([item] + rest)[1..] == rest;
  }

  /** A byte that means itself, with no quantifier behind it. */
  predicate PlainAt(pat: seq<Byte>, p: nat) {
    && p < |pat| && pat[p] !in {PERCENT, DOT, LBRACKET, LPAREN, RPAREN}
    && !(p + 1 == |pat| && pat[p] == DOLLAR)
    && (p + 1 < |pat| ==> pat[p + 1] !in {STAR, PLUS, QUESTION})
  }

  lemma PlainItem(pat: seq<Byte>, p: nat)
    requires PlainAt(pat, p)
    ensures Items(pat, p) == [One(Literal(pat[p]))] + Items(pat, p + 1)
  {}

  lemma LuaPlainItem(pat: seq<Byte>, p: nat, groups: seq<bool>)
    requires PlainAt(pat, p) && (p + 1 < |pat| ==> pat[p + 1] != DASH)
    ensures LuaItems(pat, p, groups) == Cons(Common(One(Literal(pat[p]))), LuaItems(pat, p + 1, groups))
  {}

  lemma PatternEnds(pat: seq<Byte>, groups: seq<bool>)
    requires LastOpen(groups).None?
    ensures Items(pat, |pat|) == [] && LuaItems(pat, |pat|, groups) == Some([])
  {}

  // ----- Lazy repetition -----

  const AAB: seq<Byte> := [LOWER_A, LOWER_A, LOWER_B]
  const LAZY: seq<Byte> := [LOWER_A, DASH, LOWER_B]

  /** `gsub("aab", "a-b", "x")` is `x` in Lua; here `-` stands for itself, and it is `aab`. */
  lemma LazyDeparts()
    ensures Departs(AAB, LAZY)
    ensures LuaPattern(LAZY).Some? && LuaSubstituted(AAB, LAZY, [LOWER_X]) == [LOWER_X]
    ensures Substituted(AAB, LAZY, [LOWER_X]) == AAB
  {
    LazyParsed();
    LazyFits();
    forall start: nat, w | start <= 3 ensures !Fits(AAB, start, PatternItems(LAZY), w, NO_CAP) {
      if Fits(AAB, start, PatternItems(LAZY), w, NO_CAP) {
        FitsFirst(AAB, start, One(Literal(LOWER_A)), Items(LAZY, 1), w, NO_CAP);
        FitsFirst(AAB, start + w[0], One(Literal(DASH)), Items(LAZY, 2), w[1..], NO_CAP);
      }
    }
    DepartsAt(AAB, LAZY, [2] + ([1] + []));
  }

  lemma LazyParsed()
    ensures LuaPattern(LAZY) == Some([Lazy(Literal(LOWER_A))] + ([Common(One(Literal(LOWER_B)))] + []))
    ensures PatternItems(LAZY) == [One(Literal(LOWER_A))] + Items(LAZY, 1)
    ensures Items(LAZY, 1) == [One(Literal(DASH))] + Items(LAZY, 2)
    ensures !SharedPattern(LAZY)
  {
    PlainItem(LAZY, 0);
    PlainItem(LAZY, 1);
    LuaPlainItem(LAZY, 2, []);
    PatternEnds(LAZY, []);
    assert LuaItems(LAZY, 0, []) == Cons(Lazy(Literal(LOWER_A)), LuaItems(LAZY, 2, []));
  }

  lemma LazyFits()
    ensures var ls := [Lazy(Literal(LOWER_A))] + ([Common(One(Literal(LOWER_B)))] + []);
            forall w :: LuaFits(AAB, 0, ls, w, []) <==> w == [2] + ([1] + [])
    ensures Sum([2] + ([1] + [])) == 3
  {
    var l, b := Lazy(Literal(LOWER_A)), Common(One(Literal(LOWER_B)));
    LuaPrepend(AAB, 2, b, [], 1, [], []);
    LuaPrepend(AAB, 0, l, [b] + [], 2, [1] + [], []);
    forall w | LuaFits(AAB, 0, [l] + ([b] + []), w, []) ensures w == [2] + ([1] + []) {
      LuaFirst(AAB, 0, l, [b] + [], w, []);
      LuaFirst(AAB, w[0], b, [], w[1..], []);
    }
    assert ([2] + ([1] + []))[1..] == [1] && [1][1..] == [];
  }

  // ----- The class of printable characters -----

  const GRAPH: seq<Byte> := [PERCENT, LOWER_G]

  /** `gsub("abc", "%g", "x")` is `xxx` in Lua; here `%g` is the letter g, and it is `abc`. */
  lemma GraphDeparts()
    ensures LuaPattern(GRAPH).Some? && !SharedPattern(GRAPH)
    ensures LuaSubstituted(ABC, GRAPH, [LOWER_X]) == [LOWER_X, LOWER_X, LOWER_X]
    ensures Substituted(ABC, GRAPH, [LOWER_X]) == ABC
  {
    GraphParsed();
    forall start: nat, w | start <= 3 ensures !Fits(ABC, start, PatternItems(GRAPH), w, NO_CAP) {
      if Fits(ABC, start, PatternItems(GRAPH), w, NO_CAP) {
        FitsFirst(ABC, start, One(ClassAtom(LOWER_G)), [], w, NO_CAP);
      }
    }
    NothingReplaced(ABC, GRAPH, [LOWER_X]);
    GraphLengths();
    var x, y, z := Span(0, 1), Span(1, 1), Span(2, 1);
    GraphWalk(LuaLengths(ABC, GRAPH));
    GraphReplaced(x, y, z);
  }

  lemma GraphParsed()
    ensures LuaPattern(GRAPH) == Some([Common(One(ClassAtom(LOWER_G)))] + [])
    ensures PatternItems(GRAPH) == [One(ClassAtom(LOWER_G))] + []
    ensures !SharedPattern(GRAPH) && !Anchored(GRAPH)
  {
    PatternEnds(GRAPH, []);
    assert LuaItems(GRAPH, 0, []) == Cons(Common(One(ClassAtom(LOWER_G))), LuaItems(GRAPH, 2, []));
  }

  lemma LuaSingle(s: seq<Byte>, i: nat, l: LuaItem, w: seq<nat>, caps: seq<LuaCap>)
    requires i <= |s| && LuaFits(s, i, [l] + [], w, caps)
    ensures w != [] && w == [w[0]] && i + w[0] <= |s| && LuaTakes(s, i, l, w[0], caps)
  {
    LuaFirst(s, i, l, [], w, caps);
  }

  lemma SingleFits(s: seq<Byte>, i: nat, l: LuaItem, width: nat, caps: seq<LuaCap>)
    requires i + width <= |s| && LuaTakes(s, i, l, width, caps)
    ensures LuaFits(s, i, [l] + [], [width], caps)
  {
    LuaPrepend(s, i, l, [], width, [], caps);
    assert [width] + [] == [width];
  }

  lemma GraphLengths()
    requires LuaPattern(GRAPH) == Some([Common(One(ClassAtom(LOWER_G)))] + [])
    ensures LuaLengths(ABC, GRAPH) == [Some(1), Some(1), Some(1), None]
  {
    hide LuaFits;
    var l := Common(One(ClassAtom(LOWER_G)));
    forall k: nat | k <= 3 ensures LuaLengths(ABC, GRAPH)[k] == if k < 3 then Some(1) else None {
      LuaSearchIsBest(ABC, k, [l] + [], []);
      if k < 3 {
        SingleFits(ABC, k, l, 1, []);
      }
      if LuaMatchAt(ABC, k, GRAPH).Some? {
        LuaSingle(ABC, k, l, LuaMatchAt(ABC, k, GRAPH).value.widths, []);
        assert Sum([1]) == 1;
      }
    }
  }

  lemma GraphWalk(lens: Lengths)
    requires lens == [Some(1), Some(1), Some(1), None]
    ensures StrictVisits(lens, false, 0, None) == [Span(0, 1)] + ([Span(1, 1)] + [Span(2, 1)])
  {
    assert StrictVisits(lens, false, 3, Some(3)) == [];
    assert [Span(2, 1)] + [] == [Span(2, 1)];
    assert StrictVisits(lens, false, 2, Some(2)) == [Span(2, 1)];
    assert StrictVisits(lens, false, 1, Some(1)) == [Span(1, 1)] + [Span(2, 1)];
  }

  lemma GraphReplaced(x: Span, y: Span, z: Span)
    requires x == Span(0, 1) && y == Span(1, 1) && z == Span(2, 1)
    ensures Advancing(ABC, 0, [x] + ([y] + [z]))
    ensures Replaced(ABC, 0, [x] + ([y] + [z]), [LOWER_X]) == [LOWER_X, LOWER_X, LOWER_X]
  {
    assert [z] == [z] + [] && ([z] + [])[1..] == [];
    assert Advancing(ABC, 2, [z]);
    ReplacedCons(ABC, 2, z, [], [LOWER_X]);
    assert ([y] + [z])[1..] == [z] && Advancing(ABC, 1, [y] + [z]);
    ReplacedCons(ABC, 1, y, [z], [LOWER_X]);
    assert ([x] + ([y] + [z]))[1..] == [y] + [z];
    ReplacedCons(ABC, 0, x, [y] + [z], [LOWER_X]);
  }

  // ----- Nested groups -----

  const NESTED: seq<Byte> := [LPAREN, LPAREN, LOWER_A, RPAREN, RPAREN]

  /** `((a))` matches `a` in Lua; here a group inside a group never matches. */
  lemma NestedDeparts()
    ensures Departs([LOWER_A], NESTED)
  {
    NestedParsed();
    NestedFits();
    forall start: nat, w | start <= 1 ensures !Fits([LOWER_A], start, PatternItems(NESTED), w, NO_CAP) {
      if Fits([LOWER_A], start, PatternItems(NESTED), w, NO_CAP) {
        FitsFirst([LOWER_A], start, Open, [Open] + Items(NESTED, 2), w, NO_CAP);
      }
    }
    DepartsAt([LOWER_A], NESTED, NESTED_WIDTHS);
  }

  const NESTED_ITEMS :=
    [Common(Open)] + ([Common(Open)] + ([Common(One(Literal(LOWER_A)))] + ([Common(Close)] + ([Common(Close)] + []))))
  const NESTED_WIDTHS: seq<nat> := [0] + ([0] + ([1] + ([0] + ([0] + []))))

  lemma NestedParsed()
    ensures LuaPattern(NESTED) == Some(NESTED_ITEMS) && !SharedPattern(NESTED)
    ensures PatternItems(NESTED) == [Open] + ([Open] + Items(NESTED, 2))
  {
    var g0, g1, g2 := [true] + [true], ([true] + [true])[1 := false], [false, false];
    assert LastOpen(g0) == Some(1);
    assert g1[..1] == [true] && LastOpen([true]) == Some(0) && LastOpen(g1) == Some(0) && g1[0 := false] == g2;
    assert g2[..1] == [false] && [false][..0] == [] && LastOpen(g2) == None;
    PatternEnds(NESTED, g2);
    LuaPlainItem(NESTED, 2, g0);
    assert LuaItems(NESTED, 4, g1) == Cons(Common(Close), LuaItems(NESTED, 5, g2));
    assert LuaItems(NESTED, 3, g0) == Cons(Common(Close), LuaItems(NESTED, 4, g1));
    assert [] + [true] == [true];
    assert LuaItems(NESTED, 1, [true]) == Cons(Common(Open), LuaItems(NESTED, 2, g0));
    assert LuaItems(NESTED, 0, []) == Cons(Common(Open), LuaItems(NESTED, 1, [true]));
    assert !Shared(NESTED, 1, true, 1);
    assert Items(NESTED, 1) == [Open] + Items(NESTED, 2);
  }

  lemma NestedFits()
    ensures forall w :: LuaFits([LOWER_A], 0, NESTED_ITEMS, w, []) <==> w == NESTED_WIDTHS
    ensures Sum(NESTED_WIDTHS) == 1
  {
    var s, o, a, c := [LOWER_A], Common(Open), Common(One(Literal(LOWER_A))), Common(Close);
    var c1, c2 := CapsAfter(o, 0, []), CapsAfter(o, 0, CapsAfter(o, 0, []));
    var c3, c4 := CapsAfter(c, 1, c2), CapsAfter(c, 1, CapsAfter(c, 1, c2));
    LuaPrepend(s, 1, c, [], 0, [], c3);
    LuaPrepend(s, 1, c, [c] + [], 0, [0] + [], c2);
    LuaPrepend(s, 0, a, [c] + ([c] + []), 1, [0] + ([0] + []), c2);
    LuaPrepend(s, 0, o, [a] + ([c] + ([c] + [])), 0, [1] + ([0] + ([0] + [])), c1);
    LuaPrepend(s, 0, o, [o] + ([a] + ([c] + ([c] + []))), 0, [0] + ([1] + ([0] + ([0] + []))), []);
    forall w | LuaFits(s, 0, NESTED_ITEMS, w, []) ensures w == NESTED_WIDTHS {
      LuaFirst(s, 0, o, [o] + ([a] + ([c] + ([c] + []))), w, []);
      LuaFirst(s, 0, o, [a] + ([c] + ([c] + [])), w[1..], c1);
      LuaFirst(s, 0, a, [c] + ([c] + []), w[1..][1..], c2);
      LuaFirst(s, 1, c, [c] + [], w[1..][1..][1..], c2);
      LuaFirst(s, 1, c, [], w[1..][1..][1..][1..], c3);
    }
    SumCons(0, [0] + ([1] + ([0] + ([0] + []))));
    SumCons(0, [1] + ([0] + ([0] + [])));
    SumCons(1, [0] + ([0] + []));
    SumCons(0, [0] + []);
    SumCons(0, []);
  }

  lemma SumCons(width: nat, w: seq<nat>)
    ensures Sum([width] + w) == width + Sum(w)
  {
    assert ([width] + w)[1..] == w;
  }

  // ----- Equal delimiters -----

  const QUOTED: seq<Byte> := [PERCENT, LOWER_B, QUOTE, QUOTE]

  /** `%b''` matches `''` in Lua, where the closing delimiter is tested first; here it never matches. */
  lemma QuotedDeparts()
    ensures Departs([QUOTE, QUOTE], QUOTED)
  {
    var s := [QUOTE, QUOTE];
    QuotedParsed();
    QuotedFits();
    forall start: nat, w | start <= 2 ensures !Fits(s, start, PatternItems(QUOTED), w, NO_CAP) {
      if Fits(s, start, PatternItems(QUOTED), w, NO_CAP) {
        FitsFirst(s, start, Balanced(QUOTE, QUOTE), [], w, NO_CAP);
        EqualDelimitersNeverClose(s[start..start + w[0]], QUOTE);
      }
    }
    DepartsAt(s, QUOTED, [2] + []);
  }

  lemma QuotedParsed()
    ensures LuaPattern(QUOTED) == Some([Common(Balanced(QUOTE, QUOTE))] + []) && !SharedPattern(QUOTED)
    ensures PatternItems(QUOTED) == [Balanced(QUOTE, QUOTE)] + []
  {
    PatternEnds(QUOTED, []);
    assert LuaItems(QUOTED, 0, []) == Cons(Common(Balanced(QUOTE, QUOTE)), LuaItems(QUOTED, 4, []));
  }

  lemma QuotedFits()
    ensures forall w :: LuaFits([QUOTE, QUOTE], 0, [Common(Balanced(QUOTE, QUOTE))] + [], w, []) <==> w == [2] + []
    ensures Sum([2] + []) == 2
  {
    var s, l := [QUOTE, QUOTE], Common(Balanced(QUOTE, QUOTE));
    assert s[0..2] == s && s[..1] == [QUOTE];
    assert LuaDepth([QUOTE], QUOTE, QUOTE) == 1 && LuaDepth(s, QUOTE, QUOTE) == 0;
    LuaPrepend(s, 0, l, [], 2, [], []);
    forall w | LuaFits(s, 0, [l] + [], w, []) ensures w == [2] + [] {
      LuaFirst(s, 0, l, [], w, []);
    }
    SumCons(2, []);
  }

  // ----- A bracket that opens a set -----

  const BRACKET_SET: seq<Byte> := [LBRACKET, RBRACKET, RBRACKET]

  /** `[]]` is the set of `]` in Lua; here it is the empty set and a `]` behind it. */
  lemma BracketDeparts()
    ensures Departs([RBRACKET], BRACKET_SET)
  {
    var s, empty := [RBRACKET], SetAtom(ByteSet(false, []));
    BracketParsed();
    BracketFits();
    forall start: nat, w | start <= 1 ensures !Fits(s, start, PatternItems(BRACKET_SET), w, NO_CAP) {
      if Fits(s, start, PatternItems(BRACKET_SET), w, NO_CAP) {
        FitsFirst(s, start, One(empty), Items(BRACKET_SET, 2), w, NO_CAP);
      }
    }
    DepartsAt(s, BRACKET_SET, [1] + []);
  }

  lemma BracketParsed()
    ensures LuaPattern(BRACKET_SET) == Some([Common(One(SetAtom(ByteSet(false, [Single(RBRACKET)]))))] + [])
    ensures PatternItems(BRACKET_SET) == [One(SetAtom(ByteSet(false, [])))] + Items(BRACKET_SET, 2)
    ensures !SharedPattern(BRACKET_SET)
  {
    var pat := BRACKET_SET;
    PatternEnds(pat, []);
    assert LuaSetEnd(pat, 1) == Some(2);
    assert LuaElems(pat, 2, 2) == [] && [Single(RBRACKET)] + [] == [Single(RBRACKET)];
    assert LuaElems(pat, 1, 2) == [Single(RBRACKET)];
    assert LuaSet(pat, 0) == Some((ByteSet(false, [Single(RBRACKET)]), 3));
    assert SetClose(pat, 1) == 1 && SetElems(pat, 1) == [];
    assert QuantifiedItem(pat, 0) == One(SetAtom(ByteSet(false, [])));
  }

  lemma BracketFits()
    ensures var l := Common(One(SetAtom(ByteSet(false, [Single(RBRACKET)]))));
            forall w :: LuaFits([RBRACKET], 0, [l] + [], w, []) <==> w == [1] + []
    ensures Sum([1] + []) == 1
  {
    var s, set_ := [RBRACKET], ByteSet(false, [Single(RBRACKET)]);
    var l := Common(One(SetAtom(set_)));
    assert LuaElemAdmits(set_.elems[0], RBRACKET);
    LuaPrepend(s, 0, l, [], 1, [], []);
    forall w | LuaFits(s, 0, [l] + [], w, []) ensures w == [1] + [] {
      LuaFirst(s, 0, l, [], w, []);
    }
    SumCons(1, []);
  }

  // ----- Back references -----

  const TWICE: seq<Byte> := [LPAREN, LOWER_A, RPAREN, PERCENT, ONE]

  /** `(a)%1` matches `aa` in Lua; here `%1` is the digit 1. */
  lemma BackReferenceDeparts()
    ensures Departs([LOWER_A, LOWER_A], TWICE)
  {
    var s := [LOWER_A, LOWER_A];
    TwiceParsed();
    TwiceFits();
    forall start: nat, w | start <= 2 ensures !Fits(s, start, PatternItems(TWICE), w, NO_CAP) {
      if Fits(s, start, PatternItems(TWICE), w, NO_CAP) {
        TwiceFails(s, start, w);
      }
    }
    DepartsAt(s, TWICE, TWICE_WIDTHS);
  }

  const TWICE_ITEMS := [Common(Open)] + ([Common(One(Literal(LOWER_A)))] + ([Common(Close)] + ([Back(0)] + [])))
  const TWICE_WIDTHS: seq<nat> := [0] + ([1] + ([0] + ([1] + [])))

  lemma TwiceParsed()
    ensures LuaPattern(TWICE) == Some(TWICE_ITEMS) && !SharedPattern(TWICE)
    ensures PatternItems(TWICE) == [Open] + ([One(Literal(LOWER_A))] + ([Close] + ([One(ClassAtom(ONE))] + [])))
  {
    var g := [true][0 := false];
    assert LastOpen([true]) == Some(0);
    assert g == [false] && g[..0] == [] && LastOpen(g) == None;
    PatternEnds(TWICE, g);
    LuaPlainItem(TWICE, 1, [true]);
    PlainItem(TWICE, 1);
    assert LuaItems(TWICE, 3, g) == Cons(Back(0), LuaItems(TWICE, 5, g));
    assert LuaItems(TWICE, 2, [true]) == Cons(Common(Close), LuaItems(TWICE, 3, g));
    assert [] + [true] == [true];
    assert LuaItems(TWICE, 0, []) == Cons(Common(Open), LuaItems(TWICE, 1, [true]));
    assert Items(TWICE, 3) == [One(ClassAtom(ONE))] + Items(TWICE, 5);
    assert Items(TWICE, 2) == [Close] + Items(TWICE, 3);
    assert !Shared(TWICE, 3, false, 1) && !Shared(TWICE, 2, true, 1) && !Shared(TWICE, 1, true, 1);
  }

  lemma TwiceFits()
    ensures forall w :: LuaFits([LOWER_A, LOWER_A], 0, TWICE_ITEMS, w, []) <==> w == TWICE_WIDTHS
    ensures Sum(TWICE_WIDTHS) == 2
  {
    var s, o, a, c, back := [LOWER_A, LOWER_A], Common(Open), Common(One(Literal(LOWER_A))), Common(Close), Back(0);
    var c1 := CapsAfter(o, 0, []);
    var c2 := CapsAfter(c, 1, c1);
    assert c2 == [Closed(0, 1)] && s[1..2] == s[0..1];
    LuaPrepend(s, 1, back, [], 1, [], c2);
    LuaPrepend(s, 1, c, [back] + [], 0, [1] + [], c1);
    LuaPrepend(s, 0, a, [c] + ([back] + []), 1, [0] + ([1] + []), c1);
    LuaPrepend(s, 0, o, [a] + ([c] + ([back] + [])), 0, [1] + ([0] + ([1] + [])), []);
    forall w | LuaFits(s, 0, TWICE_ITEMS, w, []) ensures w == TWICE_WIDTHS {
      LuaFirst(s, 0, o, [a] + ([c] + ([back] + [])), w, []);
      LuaFirst(s, 0, a, [c] + ([back] + []), w[1..], c1);
      LuaFirst(s, 1, c, [back] + [], w[1..][1..], c1);
      LuaFirst(s, 1, back, [], w[1..][1..][1..], c2);
      assert |s[1..1 + w[1..][1..][1..][0]]| == |s[0..1]|;
    }
    SumCons(0, [1] + ([0] + ([1] + [])));
    SumCons(1, [0] + ([1] + []));
    SumCons(0, [1] + []);
    SumCons(1, []);
  }

  lemma TwiceFails(s: seq<Byte>, start: nat, w: seq<nat>)
    requires start <= |s| && ONE !in s
    ensures !Fits(s, start, [Open] + ([One(Literal(LOWER_A))] + ([Close] + ([One(ClassAtom(ONE))] + []))), w, NO_CAP)
  {
    var a, last := One(Literal(LOWER_A)), One(ClassAtom(ONE));
    if Fits(s, start, [Open] + ([a] + ([Close] + ([last] + []))), w, NO_CAP) {
      var cap := CapAfter(Open, start, NO_CAP);
      FitsFirst(s, start, Open, [a] + ([Close] + ([last] + [])), w, NO_CAP);
      FitsFirst(s, start, a, [Close] + ([last] + []), w[1..], cap);
      FitsFirst(s, start + 1, Close, [last] + [], w[1..][1..], cap);
    }
  }

  // ----- Touching matches -----

  /** `gsub("abc", "b*", "-")` is `-a--c-` here and `-a-c-` in Lua, although the pattern is shared. */
  lemma TouchingDeparts()
    ensures SharedPattern(B_STAR) && LuaPattern(B_STAR).Some?
    ensures Substituted(ABC, B_STAR, [DASH]) == [DASH, 0x61, DASH, DASH, 0x63, DASH]
    ensures LuaSubstituted(ABC, B_STAR, [DASH]) == [DASH, 0x61, DASH, 0x63, DASH]
  {
    assert Shared(B_STAR, 2, false, 0) && !Anchored(B_STAR);
    LengthsAgree(ABC, B_STAR);
    TouchingExample();
  }

  // ----- find from a later place -----

  const ANCHORED_B: seq<Byte> := [CARET, LOWER_B]

  /** `find("ab", "^b", 2)` finds the `b` in Lua, which anchors at `init`; here an anchor is the subject's start. */
  lemma AnchorDeparts()
    ensures SharedPattern(ANCHORED_B) && LuaPattern(ANCHORED_B).Some?
    ensures LuaFind([LOWER_A, LOWER_B], ANCHORED_B, 1) == Some(Span(1, 1))
    ensures NextSpan([LOWER_A, LOWER_B], ANCHORED_B, 1) == None
  {
    var s, l, rest := [LOWER_A, LOWER_B], Common(One(Literal(LOWER_B))), Unanchored(ANCHORED_B);
    assert rest == [LOWER_B];
    assert Shared(rest, 1, false, 0);
    PatternEnds(rest, []);
    LuaPlainItem(rest, 0, []);
    LuaPrepend(s, 1, l, [], 1, [], []);
    LuaSearchIsBest(s, 1, [l] + [], []);
    var m := LuaMatchAt(s, 1, ANCHORED_B).value;
    LuaFirst(s, 1, l, [], m.widths, []);
    assert m.widths[1..] == [] && Sum(m.widths) == 1;
  }
}

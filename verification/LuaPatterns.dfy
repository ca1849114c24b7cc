/**
 Patterns as Lua 5.4 means them (section 6.4.1 of its Reference Manual; sets, where the manual leaves them
 open, as lstrlib.c reads them).  Nothing here depends on how the runtime matches.

 Lua has items the runtime has not: lazy repetition, position captures, back references, nested groups, the
 class `%g`, a `]` that opens a set, and `%bxx`.  A match is again a list of widths, and Lua prefers longer
 widths for every item but the lazy ones.
 */
module LuaPatterns {
  import opened Wrappers
  import opened Bytes
  import opened PatternSyntax
  import opened PatternSemantics

  // ----- Classes and sets -----

  const UPPER: set<Byte> := {
    0x41, 0x42, 0x43, 0x44, 0x45, 0x46, 0x47, 0x48, 0x49, 0x4A, 0x4B, 0x4C, 0x4D, 0x4E, 0x4F, 0x50, 0x51, 0x52,
    0x53, 0x54, 0x55, 0x56, 0x57, 0x58, 0x59, 0x5A
  }
  const LOWER: set<Byte> := {
    0x61, 0x62, 0x63, 0x64, 0x65, 0x66, 0x67, 0x68, 0x69, 0x6A, 0x6B, 0x6C, 0x6D, 0x6E, 0x6F, 0x70, 0x71, 0x72,
    0x73, 0x74, 0x75, 0x76, 0x77, 0x78, 0x79, 0x7A
  }
  const DIGITS: set<Byte> := {0x30, 0x31, 0x32, 0x33, 0x34, 0x35, 0x36, 0x37, 0x38, 0x39}
  const HEX_LETTERS: set<Byte> := {0x41, 0x42, 0x43, 0x44, 0x45, 0x46, 0x61, 0x62, 0x63, 0x64, 0x65, 0x66}
  const SPACES: set<Byte> := {0x09, 0x0A, 0x0B, 0x0C, 0x0D, 0x20}
  const PUNCTUATION: set<Byte> := {
    0x21, 0x22, 0x23, 0x24, 0x25, 0x26, 0x27, 0x28, 0x29, 0x2A, 0x2B, 0x2C, 0x2D, 0x2E, 0x2F, 0x3A, 0x3B, 0x3C,
    0x3D, 0x3E, 0x3F, 0x40, 0x5B, 0x5C, 0x5D, 0x5E, 0x5F, 0x60, 0x7B, 0x7C, 0x7D, 0x7E
  }
  const CONTROLS: set<Byte> := {
    0x00, 0x01, 0x02, 0x03, 0x04, 0x05, 0x06, 0x07, 0x08, 0x09, 0x0A, 0x0B, 0x0C, 0x0D, 0x0E, 0x0F, 0x10, 0x11,
    0x12, 0x13, 0x14, 0x15, 0x16, 0x17, 0x18, 0x19, 0x1A, 0x1B, 0x1C, 0x1D, 0x1E, 0x1F, 0x7F
  }

  /** The letters that name a class: a, c, d, g, l, p, s, u, w and x, in either case. */
  const CLASS_NAMES: set<Byte> := {0x61, 0x63, 0x64, 0x67, 0x6C, 0x70, 0x73, 0x75, 0x77, 0x78}

  /** The bytes with a meaning of their own are those of their characters. */
  lemma MagicBytes()
    ensures var bytes := [PERCENT, DOT, LBRACKET, RBRACKET, CARET, DASH, DOLLAR, LPAREN, RPAREN, STAR, PLUS, QUESTION];
            |bytes| == |"%.[]^-$()*+?"| && forall k | 0 <= k < |bytes| :: bytes[k] as int == "%.[]^-$()*+?"[k] as int
    ensures LOWER_B as int == 'b' as int && LOWER_F as int == 'f' as int
  {}

  predicate IsLetter(c: Byte) { c in UPPER || c in LOWER }

  function ToLower(c: Byte): Byte { if c in UPPER then c + 0x20 else c }

  predicate NamesClass(cls: Byte) { ToLower(cls) in CLASS_NAMES }

  predicate InClass(c: Byte, name: Byte)
    requires name in CLASS_NAMES
  {
    if name == 0x61 then IsLetter(c)
    else if name == 0x63 then c in CONTROLS
    else if name == 0x64 then c in DIGITS
    else if name == 0x67 then IsLetter(c) || c in DIGITS || c in PUNCTUATION
    else if name == 0x6C then c in LOWER
    else if name == 0x70 then c in PUNCTUATION
    else if name == 0x73 then c in SPACES
    else if name == 0x75 then c in UPPER
    else if name == 0x77 then IsLetter(c) || c in DIGITS
    else c in DIGITS || c in HEX_LETTERS
  }

  /** `%X`: a class, its complement for an upper-case letter, or the byte X itself. */
  predicate LuaClass(c: Byte, cls: Byte) {
    if NamesClass(cls) then InClass(c, ToLower(cls)) != (cls in UPPER) else c == cls
  }

  /** An alphanumeric byte behind `%` has a meaning as an atom only if it names a class. */
  predicate MeansAtom(cls: Byte) { NamesClass(cls) || !(IsLetter(cls) || cls in DIGITS) }

  predicate LuaElemAdmits(e: SetElem, c: Byte) {
    match e
    case Class(cls) => LuaClass(c, cls)
    case Range(lo, hi) => lo <= c <= hi
    case Single(b) => c == b
  }

  predicate LuaSetAdmits(set_: ByteSet, c: Byte) {
    (exists k | 0 <= k < |set_.elems| :: LuaElemAdmits(set_.elems[k], c)) != set_.negate
  }

  predicate LuaAdmits(atom: Atom, c: Byte) {
    match atom
    case AnyByte => true
    case ClassAtom(cls) => LuaClass(c, cls)
    case SetAtom(set_) => LuaSetAdmits(set_, c)
    case Literal(b) => c == b
  }

  /** The `]` that closes a set whose body starts at `j`: the first byte of the body never does. */
  function LuaSetEnd(pat: seq<Byte>, j: nat): (r: Option<nat>)
    ensures r.Some? ==> j < r.value < |pat|
    decreases |pat| - j
  {
    if j >= |pat| then None
    else
      var next := if pat[j] == PERCENT && j + 1 < |pat| then j + 2 else j + 1;
      if next < |pat| && pat[next] == RBRACKET then Some(next) else LuaSetEnd(pat, next)
  }

  /** The elements between `j` and the closing `]`. */
  function LuaElems(pat: seq<Byte>, j: nat, close: nat): seq<SetElem>
    requires close < |pat|
    decreases |pat| - j
  {
    if j >= close then []
    else if pat[j] == PERCENT then [Class(pat[j + 1])] + LuaElems(pat, j + 2, close)
    else if pat[j + 1] == DASH && j + 2 < close then [Range(pat[j], pat[j + 2])] + LuaElems(pat, j + 3, close)
    else [Single(pat[j])] + LuaElems(pat, j + 1, close)
  }

  predicate MeaningfulElems(elems: seq<SetElem>) {
    forall k | 0 <= k < |elems| :: elems[k].Class? ==> MeansAtom(elems[k].cls)
  }

  /** The set whose `[` is at `p`, and the index behind its `]`; `None` if it is malformed. */
  function LuaSet(pat: seq<Byte>, p: nat): (r: Option<(ByteSet, nat)>)
    requires p < |pat|
    ensures r.Some? ==> p < r.value.1 <= |pat|
  {
    var negated := p + 1 < |pat| && pat[p + 1] == CARET;
    var body := if negated then p + 2 else p + 1;
    match LuaSetEnd(pat, body)
    case None => None
    case Some(close) =>
      var elems := LuaElems(pat, body, close);
      if MeaningfulElems(elems) then Some((ByteSet(negated, elems), close + 1)) else None
  }

  // ----- Items -----

  /** `Common` items are those the runtime has too.  `Locate` closes the group of a position capture `()`. */
  datatype LuaItem =
    | Common(item: Item)
    | Lazy(atom: Atom)
    | Locate
    | Back(n: nat)

  /** The atom at `p` and the index behind it. */
  function LuaAtom(pat: seq<Byte>, p: nat): (r: Option<(Atom, nat)>)
    requires p < |pat|
    ensures r.Some? ==> p < r.value.1 <= |pat|
  {
    if pat[p] == PERCENT then
      if p + 1 < |pat| && MeansAtom(pat[p + 1]) then Some((ClassAtom(pat[p + 1]), p + 2)) else None
    else if pat[p] == DOT then Some((AnyByte, p + 1))
    else if pat[p] == LBRACKET then
      match LuaSet(pat, p)
      case None => None
      case Some(r) => Some((SetAtom(r.0), r.1))
    else Some((Literal(pat[p]), p + 1))
  }

  /** An atom with its quantifier, if one stands at `after`, and the index behind both. */
  function LuaQuantified(pat: seq<Byte>, atom: Atom, after: nat): (r: (LuaItem, nat))
    ensures after <= |pat| ==> after <= r.1 <= |pat|
  {
    if after >= |pat| then (Common(One(atom)), after)
    else if pat[after] == STAR then (Common(Many(atom, 0)), after + 1)
    else if pat[after] == PLUS then (Common(Many(atom, 1)), after + 1)
    else if pat[after] == DASH then (Lazy(atom), after + 1)
    else if pat[after] == QUESTION then (Common(Maybe(atom)), after + 1)
    else (Common(One(atom)), after)
  }

  /** The last group still open. */
  function LastOpen(groups: seq<bool>): (r: Option<nat>)
    ensures r.Some? ==> r.value < |groups| && groups[r.value]
  {
    if groups == [] then None
    else if groups[|groups| - 1] then Some(|groups| - 1)
    else LastOpen(groups[..|groups| - 1])
  }

  function Cons(item: LuaItem, rest: Option<seq<LuaItem>>): Option<seq<LuaItem>> {
    match rest
    case None => None
    case Some(items) => Some([item] + items)
  }

  const MAX_GROUPS := 32

  /** The digit names a group met and closed before. */
  predicate NamesGroup(b: Byte, groups: seq<bool>) {
    0x31 <= b <= 0x39 && b as int - 0x31 < |groups| && !groups[b as int - 0x31]
  }

  /**
   The items of the pattern bytes from `p` on, where `groups` tells of each group met so far whether it is
   still open; `None` if the pattern is malformed, or has no meaning.
   */
  function LuaItems(pat: seq<Byte>, p: nat, groups: seq<bool>): Option<seq<LuaItem>>
    decreases |pat| - p
  {
    if p >= |pat| then if LastOpen(groups).None? then Some([]) else None
    else if p + 1 == |pat| && pat[p] == DOLLAR then Cons(Common(AnchorEnd), LuaItems(pat, p + 1, groups))
    else if pat[p] == LPAREN then
      if |groups| == MAX_GROUPS then None
      else if p + 1 < |pat| && pat[p + 1] == RPAREN then
        Cons(Common(Open), Cons(Locate, LuaItems(pat, p + 2, groups + [false])))
      else Cons(Common(Open), LuaItems(pat, p + 1, groups + [true]))
    else if pat[p] == RPAREN then
      match LastOpen(groups)
      case None => None
      case Some(g) => Cons(Common(Close), LuaItems(pat, p + 1, groups[g := false]))
    else if pat[p] == PERCENT && p + 1 < |pat| && pat[p + 1] == LOWER_B then
      if p + 3 < |pat| then Cons(Common(Balanced(pat[p + 2], pat[p + 3])), LuaItems(pat, p + 4, groups)) else None
    else if pat[p] == PERCENT && p + 1 < |pat| && pat[p + 1] == LOWER_F then
      if p + 2 < |pat| && pat[p + 2] == LBRACKET && LuaSet(pat, p + 2).Some? then
        var r := LuaSet(pat, p + 2).value;
        Cons(Common(Frontier(r.0)), LuaItems(pat, r.1, groups))
      else None
    else if pat[p] == PERCENT && p + 1 < |pat| && pat[p + 1] in DIGITS then
      if NamesGroup(pat[p + 1], groups) then Cons(Back((pat[p + 1] - 0x31) as nat), LuaItems(pat, p + 2, groups))
      else None
    else match LuaAtom(pat, p)
      case None => None
      case Some(a) =>
        var q := LuaQuantified(pat, a.0, a.1);
        Cons(q.0, LuaItems(pat, q.1, groups))
  }

  /** A `^` that opens a pattern is no item but an anchor. */
  predicate LuaAnchored(pat: seq<Byte>) { pat != [] && pat[0] == CARET }

  function LuaPattern(pat: seq<Byte>): Option<seq<LuaItem>> {
    LuaItems(if LuaAnchored(pat) then pat[1..] else pat, 0, [])
  }

  // ----- Captures -----

  datatype LuaCap = Pending(start: nat) | Closed(start: nat, end: nat) | Position(at: nat)

  function LastPending(caps: seq<LuaCap>): (r: Option<nat>)
    ensures r.Some? ==> r.value < |caps| && caps[r.value].Pending?
  {
    if caps == [] then None
    else if caps[|caps| - 1].Pending? then Some(|caps| - 1)
    else LastPending(caps[..|caps| - 1])
  }

  function CapsAfter(item: LuaItem, i: nat, caps: seq<LuaCap>): seq<LuaCap> {
    match item
    case Common(Open) => caps + [Pending(i)]
    case Common(Close) =>
      (match LastPending(caps)
       case None => caps
       case Some(g) => caps[g := Closed(caps[g].start, i)])
    case Locate =>
      (match LastPending(caps)
       case None => caps
       case Some(g) => caps[g := Position(i)])
    case _ => caps
  }

  // ----- The declarative match relation -----

  /** Opening minus closing delimiters behind the first byte of `t`, which opens; `y` closes even if it is `x`. */
  function LuaDepth(t: seq<Byte>, x: Byte, y: Byte): int {
    if |t| <= 1 then 1
    else LuaDepth(t[..|t| - 1], x, y) + if t[|t| - 1] == y then -1 else if t[|t| - 1] == x then 1 else 0
  }

  predicate LuaBalanced(t: seq<Byte>, x: Byte, y: Byte) {
    t != [] && t[0] == x && LuaDepth(t, x, y) == 0 && forall n | 0 < n < |t| :: LuaDepth(t[..n], x, y) > 0
  }

  predicate AllLua(atom: Atom, t: seq<Byte>) { forall n | 0 <= n < |t| :: LuaAdmits(atom, t[n]) }

  predicate CommonTakes(s: seq<Byte>, i: nat, item: Item, width: nat)
    requires i + width <= |s|
  {
    match item
    case AnchorEnd => width == 0 && i == |s|
    case Balanced(x, y) => LuaBalanced(s[i..i + width], x, y)
    case Frontier(set_) =>
      // Both ends of the subject count as NUL.
      && width == 0
      && !LuaSetAdmits(set_, if i > 0 then s[i - 1] else 0) && LuaSetAdmits(set_, if i < |s| then s[i] else 0)
    case Open => width == 0
    case Close => width == 0
    case Truncated => false
    case One(atom) => width == 1 && LuaAdmits(atom, s[i])
    case Many(atom, min) => width >= min && AllLua(atom, s[i..i + width])
    case Maybe(atom) => width <= 1 && AllLua(atom, s[i..i + width])
  }

  /** Lua's item `item` may take exactly `width` bytes of `s` from `i` on; a back reference, the text of its group. */
  predicate LuaTakes(s: seq<Byte>, i: nat, item: LuaItem, width: nat, caps: seq<LuaCap>)
    requires i + width <= |s|
  {
    match item
    case Common(c) => CommonTakes(s, i, c, width)
    case Lazy(atom) => AllLua(atom, s[i..i + width])
    case Locate => width == 0
    case Back(n) =>
      && n < |caps| && caps[n].Closed? && caps[n].start <= caps[n].end <= |s|
      && s[i..i + width] == s[caps[n].start..caps[n].end]
  }

  predicate LuaFits(s: seq<Byte>, i: nat, items: seq<LuaItem>, widths: seq<nat>, caps: seq<LuaCap>)
    requires i <= |s|
    decreases |items|
  {
    if items == [] then widths == []
    else
      && widths != []
      && i + widths[0] <= |s|
      && LuaTakes(s, i, items[0], widths[0], caps)
      && LuaFits(s, i + widths[0], items[1..], widths[1..], CapsAfter(items[0], i, caps))
  }

  /** Lua's order: of the first widths that differ, the smaller for a lazy item and the larger for any other. */
  predicate Preferred(items: seq<LuaItem>, a: seq<nat>, b: seq<nat>)
    requires |a| == |b| == |items|
    decreases |items|
  {
    || items == []
    || (if items[0].Lazy? then a[0] < b[0] else a[0] > b[0])
    || (a[0] == b[0] && Preferred(items[1..], a[1..], b[1..]))
  }

  lemma {:induction false} PreferredAntisymmetric(items: seq<LuaItem>, a: seq<nat>, b: seq<nat>)
    requires |a| == |b| == |items| && Preferred(items, a, b) && Preferred(items, b, a)
    ensures a == b
    decreases |items|
  {
    if items != [] {
      PreferredAntisymmetric(items[1..], a[1..], b[1..]);
      assert a == [a[0]] + a[1..] && b == [b[0]] + b[1..];
    }
  }

  lemma {:induction false} LuaFitsLength(s: seq<Byte>, i: nat, items: seq<LuaItem>, widths: seq<nat>, caps: seq<LuaCap>)
    requires i <= |s| && LuaFits(s, i, items, widths, caps)
    ensures |items| == |widths| && i + Sum(widths) <= |s|
    decreases |items|
  {
    if items != [] {
      LuaFitsLength(s, i + widths[0], items[1..], widths[1..], CapsAfter(items[0], i, caps));
    }
  }

  /** The match Lua finds: the one it prefers to every other. */
  ghost predicate LuaBest(s: seq<Byte>, i: nat, items: seq<LuaItem>, widths: seq<nat>, caps: seq<LuaCap>)
    requires i <= |s|
  {
    && LuaFits(s, i, items, widths, caps)
    && |widths| == |items|
    && forall other | LuaFits(s, i, items, other, caps) :: |other| == |items| && Preferred(items, widths, other)
  }

  // ----- The search for it -----

  datatype LuaMatch = LuaMatch(end: nat, widths: seq<nat>, caps: seq<LuaCap>)

  function LuaSearch(s: seq<Byte>, i: nat, items: seq<LuaItem>, caps: seq<LuaCap>): (r: Option<LuaMatch>)
    requires i <= |s|
    ensures r.Some? ==> i <= r.value.end <= |s|
    decreases |items|, |s| + 1
  {
    if items == [] then Some(LuaMatch(i, [], caps)) else LuaTry(s, i, items, caps, 0)
  }

  /** The `k`-th width to try when `room` bytes are left. */
  function Candidate(item: LuaItem, room: nat, k: nat): nat
    requires k <= room
  {
    if item.Lazy? then k else room - k
  }

  function LuaTry(s: seq<Byte>, i: nat, items: seq<LuaItem>, caps: seq<LuaCap>, k: nat): (r: Option<LuaMatch>)
    requires items != [] && i + k <= |s|
    ensures r.Some? ==> i <= r.value.end <= |s|
    decreases |items|, |s| - i - k
  {
    match LuaTryOne(s, i, items, caps, Candidate(items[0], |s| - i, k))
    case Some(m) => Some(m)
    case None => if i + k == |s| then None else LuaTry(s, i, items, caps, k + 1)
  }

  function LuaTryOne(s: seq<Byte>, i: nat, items: seq<LuaItem>, caps: seq<LuaCap>, width: nat): (r: Option<LuaMatch>)
    requires items != [] && i + width <= |s|
    ensures r.Some? ==> i <= r.value.end <= |s|
    decreases |items| - 1, |s| + 2
  {
    if !LuaTakes(s, i, items[0], width, caps) then None
    else match LuaSearch(s, i + width, items[1..], CapsAfter(items[0], i, caps))
      case None => None
      case Some(m) => Some(m.(widths := [width] + m.widths))
  }

  predicate LuaDescribes(s: seq<Byte>, i: nat, items: seq<LuaItem>, caps: seq<LuaCap>, m: LuaMatch)
    requires i <= |s|
  {
    |m.widths| == |items| && LuaFits(s, i, items, m.widths, caps) && m.end == i + Sum(m.widths) <= |s|
  }

  /** The search finds the match Lua prefers, and fails only if there is no match. */
  lemma LuaSearchIsBest(s: seq<Byte>, i: nat, items: seq<LuaItem>, caps: seq<LuaCap>)
    requires i <= |s|
    ensures match LuaSearch(s, i, items, caps)
      case Some(m) => LuaBest(s, i, items, m.widths, caps) && LuaDescribes(s, i, items, caps, m)
      case None => forall widths :: !LuaFits(s, i, items, widths, caps)
  {
    LuaSearchDescribes(s, i, items, caps);
    forall other | LuaFits(s, i, items, other, caps)
      ensures LuaSearch(s, i, items, caps).Some? && |other| == |items|
      ensures Preferred(items, LuaSearch(s, i, items, caps).value.widths, other)
    {
      LuaSearchBeats(s, i, items, caps, other);
    }
  }

  lemma {:induction false} LuaSearchDescribes(s: seq<Byte>, i: nat, items: seq<LuaItem>, caps: seq<LuaCap>)
    requires i <= |s|
    ensures var r := LuaSearch(s, i, items, caps); r.Some? ==> LuaDescribes(s, i, items, caps, r.value)
    decreases |items|, |s| + 1
  {
    if items != [] {
      LuaTryDescribes(s, i, items, caps, 0);
    }
  }

  lemma {:induction false} LuaTryDescribes(s: seq<Byte>, i: nat, items: seq<LuaItem>, caps: seq<LuaCap>, k: nat)
    requires items != [] && i + k <= |s|
    ensures var r := LuaTry(s, i, items, caps, k); r.Some? ==> LuaDescribes(s, i, items, caps, r.value)
    decreases |items|, |s| - i - k
  {
    var width := Candidate(items[0], |s| - i, k);
    if LuaTryOne(s, i, items, caps, width).Some? {
      LuaTryOneDescribes(s, i, items, caps, width);
    } else if i + k < |s| {
      LuaTryDescribes(s, i, items, caps, k + 1);
    }
  }

  lemma {:induction false} LuaTryOneDescribes(s: seq<Byte>, i: nat, items: seq<LuaItem>, caps: seq<LuaCap>, width: nat)
    requires items != [] && i + width <= |s| && LuaTryOne(s, i, items, caps, width).Some?
    ensures var m := LuaTryOne(s, i, items, caps, width).value;
            LuaDescribes(s, i, items, caps, m) && m.widths[0] == width
    decreases |items| - 1, |s| + 2
  {
    LuaSearchDescribes(s, i + width, items[1..], CapsAfter(items[0], i, caps));
    var m := LuaSearch(s, i + width, items[1..], CapsAfter(items[0], i, caps)).value;
    assert ([width] + m.widths)[1..] == m.widths;
  }

  lemma {:induction false} LuaSearchBeats(
      s: seq<Byte>, i: nat, items: seq<LuaItem>, caps: seq<LuaCap>, other: seq<nat>)
    requires i <= |s| && LuaFits(s, i, items, other, caps)
    ensures var r := LuaSearch(s, i, items, caps);
            r.Some? && |r.value.widths| == |other| == |items| && Preferred(items, r.value.widths, other)
    decreases |items|, |s| + 1
  {
    if items != [] {
      var room := |s| - i;
      LuaTryBeats(s, i, items, caps, 0, other, if items[0].Lazy? then other[0] else room - other[0]);
    }
  }

  /** `other` starts with the width that is tried as number `at`. */
  lemma {:induction false} LuaTryBeats(
      s: seq<Byte>, i: nat, items: seq<LuaItem>, caps: seq<LuaCap>, k: nat, other: seq<nat>, at: nat)
    requires i + k <= |s| && items != [] && LuaFits(s, i, items, other, caps)
    requires k <= at <= |s| - i && other[0] == Candidate(items[0], |s| - i, at)
    ensures var r := LuaTry(s, i, items, caps, k);
            r.Some? && |r.value.widths| == |other| == |items| && Preferred(items, r.value.widths, other)
    decreases |items|, |s| - i - k
  {
    var width := Candidate(items[0], |s| - i, k);
    LuaFitsLength(s, i, items, other, caps);
    if k == at {
      LuaTryOneBeats(s, i, items, caps, other);
    } else if LuaTryOne(s, i, items, caps, width).Some? {
      LuaTryOneDescribes(s, i, items, caps, width);
    } else {
      LuaTryBeats(s, i, items, caps, k + 1, other, at);
    }
  }

  lemma {:induction false} LuaTryOneBeats(
      s: seq<Byte>, i: nat, items: seq<LuaItem>, caps: seq<LuaCap>, other: seq<nat>)
    requires i <= |s| && items != [] && LuaFits(s, i, items, other, caps)
    ensures var r := LuaTryOne(s, i, items, caps, other[0]);
            r.Some? && |r.value.widths| == |other| == |items| && Preferred(items, r.value.widths, other)
    decreases |items| - 1, |s| + 2
  {
    var width, rest, capsRest := other[0], items[1..], CapsAfter(items[0], i, caps);
    LuaSearchBeats(s, i + width, rest, capsRest, other[1..]);
    var m := LuaSearch(s, i + width, rest, capsRest).value;
    assert ([width] + m.widths)[1..] == m.widths;
  }

  /** If there is one match only, it is found. */
  lemma OnlyMatch(s: seq<Byte>, i: nat, items: seq<LuaItem>, caps: seq<LuaCap>, widths: seq<nat>)
    requires i <= |s| && LuaFits(s, i, items, widths, caps)
    requires forall other | LuaFits(s, i, items, other, caps) :: other == widths
    ensures LuaSearch(s, i, items, caps).Some? && LuaSearch(s, i, items, caps).value.end == i + Sum(widths)
  {
    LuaSearchIsBest(s, i, items, caps);
  }
}

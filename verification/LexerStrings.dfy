/**
 Short strings by their text: which spellings stand for which characters (Lua 5.4, section 3.1, within the limits
 this lexer sets), and where a string that does not read goes wrong.
 */
module LexerStrings {
  import opened Wrappers
  import opened Numerals
  import opened LexerRules
  import opened LexerRoundTrip
  import Utf8

  // ----- Spellings -----

  const DIGIT_VALUES: map<char, nat> := map[
    '0' := 0, '1' := 1, '2' := 2, '3' := 3, '4' := 4, '5' := 5, '6' := 6, '7' := 7, '8' := 8, '9' := 9,
    'a' := 10, 'b' := 11, 'c' := 12, 'd' := 13, 'e' := 14, 'f' := 15,
    'A' := 10, 'B' := 11, 'C' := 12, 'D' := 13, 'E' := 14, 'F' := 15
  ]

  /** What a letter behind a backslash stands for: bell, backspace, form feed and vertical tab have no literal. */
  const LETTERS: map<char, char> := map[
    'n' := '\n', 't' := '\t', 'r' := '\r', '\\' := '\\', '"' := '"', '\'' := '\'',
    'a' := 7 as char, 'b' := 8 as char, 'f' := 12 as char, 'v' := 11 as char
  ]

  /** Space, tab, newline, form feed and carriage return. */
  const SPACES: set<char> := {' ', '\t', '\n', 12 as char, '\r'}

  predicate IsNumeral(text: string, base: nat) {
    text != "" && forall k | 0 <= k < |text| :: text[k] in DIGIT_VALUES && DIGIT_VALUES[text[k]] < base
  }

  function ValueOf(text: string, base: nat): nat {
    if text == "" then 0
    else
      var last := text[|text| - 1];
      ValueOf(text[..|text| - 1], base) * base + if last in DIGIT_VALUES then DIGIT_VALUES[last] else 0
  }

  /** `\xHH`, one to three decimal digits, `\u{...}`, and `\z` with the spaces it skips. */
  datatype Piece =
    | Plain(c: char)
    | Letter(c: char)
    | Hex(hi: char, lo: char)
    | Digits(digits: string)
    | Unicode(digits: string)
    | Gap(spaces: string)

  function Slashed(digits: string): (text: string)
    ensures |text| == |digits| + 1
  {
    "\\" + digits
  }

  function Braced(digits: string): (text: string)
    ensures |text| == |digits| + 4
  {
    "\\u{" + digits + "}"
  }

  function Spelling(p: Piece): string {
    match p
    case Plain(c) => [c]
    case Letter(c) => ['\\', c]
    case Hex(hi, lo) => ['\\', 'x', hi, lo]
    case Digits(digits) => Slashed(digits)
    case Unicode(digits) => Braced(digits)
    case Gap(spaces) => "\\z" + spaces
  }

  predicate Valid(p: Piece, quote: char) {
    match p
    case Plain(c) => c != quote && c != '\n' && c != '\\'
    case Letter(c) => c in LETTERS
    case Hex(hi, lo) => IsNumeral([hi, lo], 16) && ValueOf([hi, lo], 16) < 128
    case Digits(digits) => IsNumeral(digits, 10) && |digits| <= 3 && ValueOf(digits, 10) < 128
    case Unicode(digits) =>
      IsNumeral(digits, 16) && (ValueOf(digits, 16) < 0xD800 || 0xE000 <= ValueOf(digits, 16) < 0x11_0000)
    case Gap(spaces) => forall k | 0 <= k < |spaces| :: spaces[k] in SPACES
  }

  /** The character of that number. */
  function Scalar(n: nat): string {
    if n < 0xD800 || 0xE000 <= n < 0x11_0000 then [n as char] else ""
  }

  /** The character a piece stands for; a gap stands for none. */
  function Meaning(p: Piece): string {
    match p
    case Plain(c) => [c]
    case Letter(c) => if c in LETTERS then [LETTERS[c]] else ""
    case Hex(hi, lo) => Scalar(ValueOf([hi, lo], 16))
    case Digits(digits) => Scalar(ValueOf(digits, 10))
    case Unicode(digits) => Scalar(ValueOf(digits, 16))
    case Gap(_) => ""
  }

  /** Less than three digits are no longer digits, and the spaces of a gap are all there are. */
  predicate StopsAt(p: Piece, src: string, j: nat) {
    match p
    case Digits(digits) => |digits| == 3 || !(j < |src| && IsNumeral([src[j]], 10))
    case Gap(_) => !(j < |src| && src[j] in SPACES)
    case _ => true
  }

  /** The piece is spelled at `i`. */
  predicate SpelledAt(src: string, i: nat, p: Piece) {
    Stands(src, i, Spelling(p)) && StopsAt(p, src, i + |Spelling(p)|)
  }

  predicate PieceAt(src: string, i: nat, p: Piece, quote: char) { Valid(p, quote) && SpelledAt(src, i, p) }

  /** The pieces stand between `i` and `j`. */
  predicate PiecesAt(src: string, i: nat, ps: seq<Piece>, j: nat, quote: char)
    decreases |ps|
  {
    if ps == [] then i == j
    else PieceAt(src, i, ps[0], quote) && PiecesAt(src, i + |Spelling(ps[0])|, ps[1..], j, quote)
  }

  function Text(ps: seq<Piece>): string { if ps == [] then "" else Meaning(ps[0]) + Text(ps[1..]) }

  lemma {:induction false} PiecesInside(src: string, i: nat, ps: seq<Piece>, j: nat, quote: char)
    requires PiecesAt(src, i, ps, j, quote) && i <= |src|
    ensures i <= j <= |src|
    decreases |ps|
  {
    hide Valid, StopsAt, Spelling;
    if ps != [] {
      PiecesInside(src, i + |Spelling(ps[0])|, ps[1..], j, quote);
    }
  }

  // ----- Digits -----

  lemma DigitsAre(c: char)
    ensures c in DIGIT_VALUES <==> IsHexDigit(c)
    ensures c in DIGIT_VALUES && DIGIT_VALUES[c] < 10 <==> IsDigit(c)
    ensures IsHexDigit(c) ==> DIGIT_VALUES[c] == DigitValue(c) < 16
  {}

  lemma SpacesAre(c: char)
    ensures c in SPACES <==> IsSpace(c)
  {}

  lemma LettersAre(c: char)
    ensures SimpleEscape(c) == if c in LETTERS then Some(LETTERS[c]) else None
    ensures c in LETTERS ==> c != 'z' && c != 'x' && c != 'u' && !IsDigit(c)
  {}

  lemma {:induction false} ValuesAre(text: string, base: nat)
    requires AllHexDigits(text)
    ensures ValueOf(text, base) == NumeralValue(text, base)
    decreases |text|
  {
    if text != "" {
      ValuesAre(text[..|text| - 1], base);
      DigitsAre(text[|text| - 1]);
    }
  }

  lemma NumeralsAre(text: string)
    ensures IsNumeral(text, 16) <==> text != "" && AllHexDigits(text)
    ensures IsNumeral(text, 10) <==> text != "" && AllDigits(text)
    ensures AllDigits(text) ==> AllHexDigits(text)
  {
    forall c: char
      ensures c in DIGIT_VALUES && DIGIT_VALUES[c] < 16 <==> IsHexDigit(c)
      ensures c in DIGIT_VALUES && DIGIT_VALUES[c] < 10 <==> IsDigit(c)
    {
      DigitsAre(c);
    }
  }

  lemma DigitIs(src: string, j: nat)
    ensures j < |src| && IsNumeral([src[j]], 10) <==> ClassAt(src, j, DecimalDigit)
  {
    if j < |src| {
      DigitsAre(src[j]);
      assert [src[j]][0] == src[j];
    }
  }

  lemma SpaceIs(src: string, j: nat)
    ensures j < |src| && src[j] in SPACES <==> ClassAt(src, j, Space)
  {
    if j < |src| {
      SpacesAre(src[j]);
    }
  }

  // ----- Escapes that are spelled read -----

  /** What the lexer reads for a piece behind its backslash, at `e`. */
  function ReadAs(p: Piece, quote: char, e: nat): Escape
    requires Valid(p, quote) && !p.Plain? && e > 0
  {
    var next := e - 1 + |Spelling(p)|;
    if p.Gap? then Nothing(next) else Yields(Meaning(p)[0], next)
  }

  lemma LetterReads(src: string, e: nat, p: Piece, quote: char)
    requires e > 0 && PieceAt(src, e - 1, p, quote) && p.Letter?
    ensures e < |src| && EscapeAt(src, e) == ReadAs(p, quote, e)
  {
    StandsAt(src, e - 1, Spelling(p), 1);
    LettersAre(p.c);
  }

  lemma HexReads(src: string, e: nat, p: Piece, quote: char)
    requires e > 0 && PieceAt(src, e - 1, p, quote) && p.Hex?
    ensures e < |src| && EscapeAt(src, e) == ReadAs(p, quote, e)
  {
    StandsAt(src, e - 1, Spelling(p), 1);
    StandsAt(src, e - 1, Spelling(p), 2);
    StandsAt(src, e - 1, Spelling(p), 3);
    HexPair(p.hi, p.lo);
    LettersAre('x');
    assert HexEscape(src, e) == Yields(ValueOf([p.hi, p.lo], 16) as char, e + 3);
  }

  lemma HexPair(hi: char, lo: char)
    ensures IsNumeral([hi, lo], 16) <==> IsHexDigit(hi) && IsHexDigit(lo)
    ensures IsHexDigit(hi) && IsHexDigit(lo) ==> ValueOf([hi, lo], 16) == DigitValue(hi) * 16 + DigitValue(lo)
  {
    NumeralsAre([hi, lo]);
    assert [hi, lo][0] == hi && [hi, lo][1] == lo;
    DigitsAre(hi);
    DigitsAre(lo);
    if IsHexDigit(hi) && IsHexDigit(lo) {
      assert [hi, lo][..1] == [hi] && [hi][..0] == [];
      assert ValueOf([hi], 16) == DIGIT_VALUES[hi];
    }
  }

  lemma DecimalReads(src: string, e: nat, p: Piece, quote: char)
    requires e > 0 && PieceAt(src, e - 1, p, quote) && p.Digits?
    ensures e < |src| && EscapeAt(src, e) == ReadAs(p, quote, e)
  {
    DecimalStands(src, e, p);
    DecimalMeaning(p, quote, e);
    DecimalDigitsRead(src, e, p.digits);
  }

  lemma DecimalStands(src: string, e: nat, p: Piece)
    requires e > 0 && SpelledAt(src, e - 1, p) && p.Digits?
    ensures Stands(src, e, p.digits)
    ensures |p.digits| == 3 || !(e + |p.digits| < |src| && IsNumeral([src[e + |p.digits|]], 10))
  {
    hide Slashed, Braced, IsNumeral;
    SlashSplit(src, e, p.digits);
  }

  lemma SlashSplit(src: string, e: nat, digits: string)
    requires e > 0 && Stands(src, e - 1, Slashed(digits))
    ensures Stands(src, e, digits)
  {
    StandsSplit(src, e - 1, "\\", digits);
  }

  lemma DecimalMeaning(p: Piece, quote: char, e: nat)
    requires e > 0 && Valid(p, quote) && p.Digits?
    ensures AllDigits(p.digits) && 1 <= |p.digits| <= 3 && NumeralValue(p.digits, 10) < 128
    ensures ReadAs(p, quote, e) == Yields(NumeralValue(p.digits, 10) as char, e + |p.digits|)
  {
    NumeralsAre(p.digits);
    ValuesAre(p.digits, 10);
  }

  lemma DecimalDigitsRead(src: string, e: nat, digits: string)
    requires Stands(src, e, digits) && AllDigits(digits) && 1 <= |digits| <= 3 && NumeralValue(digits, 10) < 128
    requires |digits| == 3 || !(e + |digits| < |src| && IsNumeral([src[e + |digits|]], 10))
    ensures e < |src| && EscapeAt(src, e) == Yields(NumeralValue(digits, 10) as char, e + |digits|)
  {
    DigitsStand(src, e, digits);
    DigitIs(src, e + |digits|);
    LettersAre(src[e]);
  }

  lemma DigitsStand(src: string, e: nat, digits: string)
    requires Stands(src, e, digits) && AllDigits(digits) && 1 <= |digits| <= 3
    ensures ClassAt(src, e, DecimalDigit)
    ensures |digits| > 1 ==> ClassAt(src, e + 1, DecimalDigit)
    ensures |digits| > 2 ==> ClassAt(src, e + 2, DecimalDigit)
  {
    StandsAt(src, e, digits, 0);
    if |digits| > 1 {
      StandsAt(src, e, digits, 1);
    }
    if |digits| > 2 {
      StandsAt(src, e, digits, 2);
    }
  }

  lemma GapReads(src: string, e: nat, p: Piece, quote: char)
    requires e > 0 && PieceAt(src, e - 1, p, quote) && p.Gap?
    ensures e < |src| && EscapeAt(src, e) == ReadAs(p, quote, e)
  {
    GapSplit(src, e, Spelling(p), p.spaces);
    SpacesEnd(src, e + 1, p.spaces);
  }

  lemma GapSplit(src: string, e: nat, text: string, spaces: string)
    requires e > 0 && Stands(src, e - 1, text) && text == "\\z" + spaces
    ensures At(src, e, 'z') && Stands(src, e + 1, spaces)
  {
    StandsSplit(src, e - 1, "\\z", spaces);
    StandsAt(src, e - 1, "\\z", 1);
  }

  lemma SpacesEnd(src: string, j: nat, spaces: string)
    requires Stands(src, j, spaces) && (forall k | 0 <= k < |spaces| :: spaces[k] in SPACES)
    requires !(j + |spaces| < |src| && src[j + |spaces|] in SPACES)
    ensures RunEnd(src, j, Space) == j + |spaces|
  {
    forall m | j <= m < j + |spaces| ensures InClass(src[m], Space) {
      StandsAt(src, j, spaces, m - j);
      SpacesAre(src[m]);
    }
    SpaceIs(src, j + |spaces|);
    RunEndIsMaximal(src, j, Space, j + |spaces|);
  }

  lemma {:induction false} ValueGrows(src: string, i: nat, j: nat, k: nat)
    requires i <= j <= k <= |src|
    ensures NumeralValue(src[i..j], 16) <= NumeralValue(src[i..k], 16)
    decreases k - j
  {
    if j < k {
      ValueGrows(src, i, j, k - 1);
      assert src[i..k][..k - i - 1] == src[i..k - 1];
    }
  }

  lemma NextDigit(src: string, i: nat, j: nat)
    requires i <= j < |src|
    ensures NumeralValue(src[i..j + 1], 16) == NumeralValue(src[i..j], 16) * 16 + DigitValue(src[j])
  {
    assert src[i..j + 1][..j - i] == src[i..j];
  }

  /** Hexadecimal digits from `i` to a brace at `k`, of which those before `j` are read. */
  lemma {:induction false} BracedReads(src: string, i: nat, j: nat, k: nat, e: nat)
    requires e < i <= j <= k && i < k && At(src, k, '}')
    requires forall m | i <= m < k :: IsHexDigit(src[m])
    requires Utf8.IsScalar(NumeralValue(src[i..k], 16))
    ensures UnicodeDigits(src, j, NumeralValue(src[i..j], 16), j - i, e)
         == Yields(NumeralValue(src[i..k], 16) as char, k + 1)
    decreases k - j
  {
    if j < k {
      NextDigit(src, i, j);
      ValueGrows(src, i, j + 1, k);
      BracedReads(src, i, j + 1, k, e);
    }
  }

  lemma UnicodeReads(src: string, e: nat, p: Piece, quote: char)
    requires e > 0 && PieceAt(src, e - 1, p, quote) && p.Unicode?
    ensures e < |src| && EscapeAt(src, e) == ReadAs(p, quote, e)
  {
    BracesSplit(src, e, Spelling(p), p.digits);
    UnicodeMeaning(p, quote, e);
    BracedDigitsRead(src, e + 2, p.digits, e);
    UnicodeDispatch(src, e);
  }

  lemma UnicodeMeaning(p: Piece, quote: char, e: nat)
    requires e > 0 && Valid(p, quote) && p.Unicode?
    ensures p.digits != "" && AllHexDigits(p.digits) && Utf8.IsScalar(NumeralValue(p.digits, 16))
    ensures ReadAs(p, quote, e) == Yields(NumeralValue(p.digits, 16) as char, e + 2 + |p.digits| + 1)
  {
    NumeralsAre(p.digits);
    ValuesAre(p.digits, 16);
  }

  lemma UnicodeDispatch(src: string, e: nat)
    requires At(src, e, 'u') && At(src, e + 1, '{')
    ensures EscapeAt(src, e) == UnicodeDigits(src, e + 2, 0, 0, e)
  {
    LettersAre('u');
  }

  lemma BracesSplit(src: string, e: nat, text: string, digits: string)
    requires e > 0 && Stands(src, e - 1, text) && text == Braced(digits)
    ensures At(src, e, 'u') && At(src, e + 1, '{') && Stands(src, e + 2, digits) && At(src, e + 2 + |digits|, '}')
  {
    StandsSplit(src, e - 1, "\\u{" + digits, "}");
    StandsSplit(src, e - 1, "\\u{", digits);
    StandsAt(src, e - 1, "\\u{", 1);
    StandsAt(src, e - 1, "\\u{", 2);
    StandsAt(src, e + 2 + |digits|, "}", 0);
  }

  lemma BracedDigitsRead(src: string, i: nat, digits: string, e: nat)
    requires e < i && Stands(src, i, digits) && At(src, i + |digits|, '}')
    requires digits != "" && AllHexDigits(digits) && Utf8.IsScalar(NumeralValue(digits, 16))
    ensures UnicodeDigits(src, i, 0, 0, e) == Yields(NumeralValue(digits, 16) as char, i + |digits| + 1)
  {
    forall m | i <= m < i + |digits| ensures IsHexDigit(src[m]) {
      StandsAt(src, i, digits, m - i);
    }
    assert src[i..i] == "";
    BracedReads(src, i, i, i + |digits|, e);
  }

  /** An escape reads as what it is spelled for. */
  lemma EscapeReads(src: string, e: nat, p: Piece, quote: char)
    requires e > 0 && PieceAt(src, e - 1, p, quote) && !p.Plain?
    ensures e < |src| && EscapeAt(src, e) == ReadAs(p, quote, e)
  {
    match p
    case Letter(_) => LetterReads(src, e, p, quote);
    case Hex(_, _) => HexReads(src, e, p, quote);
    case Digits(_) => DecimalReads(src, e, p, quote);
    case Unicode(_) => UnicodeReads(src, e, p, quote);
    case Gap(_) => GapReads(src, e, p, quote);
  }

  // ----- Escapes that read are spelled -----

  lemma StandsJoin(src: string, j: nat, a: string, b: string)
    requires Stands(src, j, a) && Stands(src, j + |a|, b)
    ensures Stands(src, j, a + b)
  {}

  lemma SliceStands(src: string, i: nat, j: nat)
    requires i <= j <= |src|
    ensures Stands(src, i, src[i..j])
  {}

  /** A piece that stands at `e - 1` and reads. */
  predicate SpellsEscape(src: string, e: nat, p: Piece, quote: char) {
    0 < e < |src| && !p.Plain? && PieceAt(src, e - 1, p, quote) && EscapeAt(src, e) == ReadAs(p, quote, e)
  }

  lemma LetterSpelled(src: string, e: nat, quote: char)
    requires 0 < e < |src| && src[e - 1] == '\\' && SimpleEscape(src[e]).Some?
    ensures SpellsEscape(src, e, Letter(src[e]), quote)
  {
    LettersAre(src[e]);
    assert PieceAt(src, e - 1, Letter(src[e]), quote);
    LetterReads(src, e, Letter(src[e]), quote);
  }

  lemma HexSpelled(src: string, e: nat, quote: char)
    requires 0 < e < |src| && src[e - 1] == '\\' && src[e] == 'x' && HexEscape(src, e).Yields?
    ensures e + 2 < |src| && SpellsEscape(src, e, Hex(src[e + 1], src[e + 2]), quote)
  {
    HexPair(src[e + 1], src[e + 2]);
    FourStand(src, e - 1);
    HexReads(src, e, Hex(src[e + 1], src[e + 2]), quote);
  }

  lemma FourStand(src: string, j: nat)
    requires j + 4 <= |src|
    ensures Stands(src, j, [src[j], src[j + 1], src[j + 2], src[j + 3]])
  {}

  lemma DecimalSpelled(src: string, e: nat, quote: char) returns (p: Piece)
    requires 0 < e < |src| && src[e - 1] == '\\' && IsDigit(src[e]) && DecimalEscape(src, e).Yields?
    ensures SpellsEscape(src, e, p, quote)
  {
    p := Digits(src[e..ThreeDigitsEnd(src, e)]);
    DigitsValid(src, e, p, quote);
    DigitsSpelled(src, e, p);
    DecimalReads(src, e, p, quote);
  }

  lemma DigitsValid(src: string, e: nat, p: Piece, quote: char)
    requires ClassAt(src, e, DecimalDigit) && DecimalEscape(src, e).Yields?
    requires p == Digits(src[e..ThreeDigitsEnd(src, e)])
    ensures Valid(p, quote)
  {
    NumeralsAre(p.digits);
    ValuesAre(p.digits, 10);
  }

  lemma DigitsSpelled(src: string, e: nat, p: Piece)
    requires 0 < e < |src| && src[e - 1] == '\\' && ClassAt(src, e, DecimalDigit)
    requires p == Digits(src[e..ThreeDigitsEnd(src, e)])
    ensures SpelledAt(src, e - 1, p)
  {
    SliceStands(src, e, ThreeDigitsEnd(src, e));
    SlashJoin(src, e, p.digits);
    DigitIs(src, ThreeDigitsEnd(src, e));
  }

  lemma SlashJoin(src: string, e: nat, digits: string)
    requires 0 < e <= |src| && src[e - 1] == '\\' && Stands(src, e, digits)
    ensures Stands(src, e - 1, Slashed(digits))
  {
    assert Stands(src, e - 1, "\\");
    StandsJoin(src, e - 1, "\\", digits);
  }

  lemma GapSpelled(src: string, e: nat, quote: char) returns (p: Piece)
    requires 0 < e < |src| && src[e - 1] == '\\' && src[e] == 'z'
    ensures SpellsEscape(src, e, p, quote)
  {
    var end := RunEnd(src, e + 1, Space);
    p := Gap(src[e + 1..end]);
    RunEndIsMaximal(src, e + 1, Space, end);
    forall k | 0 <= k < |p.spaces| ensures p.spaces[k] in SPACES {
      SpacesAre(src[e + 1 + k]);
      assert InClass(src[e + 1 + k], Space);
    }
    SliceStands(src, e + 1, end);
    assert Stands(src, e - 1, "\\z");
    StandsJoin(src, e - 1, "\\z", p.spaces);
    SpaceIs(src, end);
    GapReads(src, e, p, quote);
  }

  /** What the digits of `\u{...}` were, when they read. */
  lemma {:induction false} BracedWere(src: string, i: nat, j: nat, e: nat) returns (k: nat)
    requires e < i <= j <= |src| && (forall m | i <= m < j :: IsHexDigit(src[m]))
    requires !UnicodeDigits(src, j, NumeralValue(src[i..j], 16), j - i, e).Invalid?
    ensures j <= k && i < k && At(src, k, '}') && forall m | i <= m < k :: IsHexDigit(src[m])
    ensures Utf8.IsScalar(NumeralValue(src[i..k], 16))
    decreases |src| - j
  {
    if At(src, j, '}') {
      k := j;
    } else {
      NextDigit(src, i, j);
      k := BracedWere(src, i, j + 1, e);
    }
  }

  lemma UnicodeSpelled(src: string, e: nat, quote: char) returns (p: Piece)
    requires 0 < e < |src| && src[e - 1] == '\\' && src[e] == 'u' && At(src, e + 1, '{')
    requires !UnicodeDigits(src, e + 2, 0, 0, e).Invalid?
    ensures SpellsEscape(src, e, p, quote)
  {
    assert src[e + 2..e + 2] == "";
    var k := BracedWere(src, e + 2, e + 2, e);
    p := Unicode(src[e + 2..k]);
    NumeralsAre(p.digits);
    ValuesAre(p.digits, 16);
    BracesStand(src, e, k);
    UnicodeReads(src, e, p, quote);
  }

  lemma BracesStand(src: string, e: nat, k: nat)
    requires 0 < e < e + 2 <= k < |src| && src[e - 1] == '\\' && src[e] == 'u' && src[e + 1] == '{' && src[k] == '}'
    ensures Stands(src, e - 1, Braced(src[e + 2..k]))
  {
    SliceStands(src, e + 2, k);
    assert Stands(src, e - 1, "\\u{") && Stands(src, k, "}");
    StandsJoin(src, e - 1, "\\u{", src[e + 2..k]);
    StandsJoin(src, e - 1, "\\u{" + src[e + 2..k], "}");
  }

  /** An escape that reads is spelled so. */
  lemma EscapeSpelled(src: string, e: nat, quote: char) returns (p: Piece)
    requires 0 < e < |src| && src[e - 1] == '\\' && !EscapeAt(src, e).Invalid?
    ensures SpellsEscape(src, e, p, quote)
  {
    if src[e] == 'z' {
      p := GapSpelled(src, e, quote);
    } else if SimpleEscape(src[e]).Some? {
      p := Letter(src[e]);
      LetterSpelled(src, e, quote);
    } else if src[e] == 'x' {
      p := Hex(src[e + 1], src[e + 2]);
      HexSpelled(src, e, quote);
    } else if src[e] == 'u' {
      p := UnicodeSpelled(src, e, quote);
    } else {
      p := DecimalSpelled(src, e, quote);
    }
  }

  // ----- Strings -----

  predicate IsQuote(c: char) { c == '"' || c == '\'' }

  lemma SpellingStarts(src: string, i: nat, p: Piece)
    requires SpelledAt(src, i, p)
    ensures i < i + |Spelling(p)| <= |src| && src[i] == (if p.Plain? then p.c else '\\')
  {
    assert Spelling(p) != "" && Spelling(p)[0] == (if p.Plain? then p.c else '\\');
    StandsAt(src, i, Spelling(p), 0);
  }

  /** A piece adds what it stands for. */
  lemma PieceStep(src: string, i: nat, p: Piece, quote: char, open: nat)
    requires PieceAt(src, i, p, quote) && IsQuote(quote)
    ensures i < i + |Spelling(p)| <= |src|
    ensures StringBody(src, i, quote, open)
         == Prepend(Meaning(p), StringBody(src, i + |Spelling(p)|, quote, open))
  {
    SpellingStarts(src, i, p);
    if !p.Plain? {
      EscapeReads(src, i + 1, p, quote);
      EscapeStep(src, i, p, quote, open);
    }
  }

  lemma EscapeStep(src: string, i: nat, p: Piece, quote: char, open: nat)
    requires i + 1 < |src| && src[i] == '\\' && IsQuote(quote) && Valid(p, quote) && !p.Plain?
    requires EscapeAt(src, i + 1) == ReadAs(p, quote, i + 1) && i + |Spelling(p)| <= |src|
    ensures StringBody(src, i, quote, open)
         == Prepend(Meaning(p), StringBody(src, i + |Spelling(p)|, quote, open))
  {
    var rest := StringBody(src, i + |Spelling(p)|, quote, open);
    if p.Gap? {
      assert rest.Closed? ==> "" + rest.text == rest.text;
    } else {
      assert Meaning(p) == [Meaning(p)[0]];
    }
  }

  lemma TextFirst(ps: seq<Piece>)
    requires ps != []
    ensures Text(ps) == Meaning(ps[0]) + Text(ps[1..])
  {}

  /** `body` is the rest of the string from each place. */
  ghost predicate IsBody(body: nat -> Body, src: string, quote: char, open: nat) {
    forall j: nat {:trigger StringBody(src, j, quote, open)} | j <= |src| :: body(j) == StringBody(src, j, quote, open)
  }

  lemma PieceAdds(body: nat -> Body, src: string, i: nat, p: Piece, quote: char, open: nat)
    requires IsBody(body, src, quote, open) && PieceAt(src, i, p, quote) && IsQuote(quote)
    ensures i < i + |Spelling(p)| <= |src| && body(i) == Prepend(Meaning(p), body(i + |Spelling(p)|))
  {
    PieceStep(src, i, p, quote, open);
  }

  lemma QuoteEnds(body: nat -> Body, src: string, j: nat, quote: char, open: nat)
    requires IsBody(body, src, quote, open) && At(src, j, quote)
    ensures body(j) == Closed("", j + 1)
  {
    assert StringBody(src, j, quote, open) == Closed("", j + 1);
  }

  /** Pieces with a quote behind them read as what they stand for. */
  lemma {:induction false} PiecesRead(
      body: nat -> Body, src: string, i: nat, ps: seq<Piece>, j: nat, quote: char, open: nat)
    requires IsBody(body, src, quote, open) && PiecesAt(src, i, ps, j, quote) && At(src, j, quote) && IsQuote(quote)
    ensures i <= |src| && body(i) == Closed(Text(ps), j + 1)
    decreases |ps|
  {
    hide PieceAt, Spelling, Meaning, StringBody;
    if ps == [] {
      QuoteEnds(body, src, j, quote, open);
    } else {
      PieceAdds(body, src, i, ps[0], quote, open);
      PiecesRead(body, src, i + |Spelling(ps[0])|, ps[1..], j, quote, open);
      TextFirst(ps);
    }
  }

  /** The string ends here without its quote: at the end of the source, of the line, or in a lone backslash. */
  predicate CutOff(src: string, j: nat) {
    j == |src| || (j < |src| && src[j] == '\n') || (j + 1 == |src| && src[j] == '\\')
  }

  /** A backslash with no escape behind it. */
  ghost predicate NoEscape(src: string, j: nat, quote: char) {
    j + 1 < |src| && src[j] == '\\' && forall p: Piece | !p.Plain? :: !PieceAt(src, j, p, quote)
  }

  /** How a string body goes on from `j`, which it reaches. */
  ghost predicate EndsAs(b: Body, src: string, j: nat, text: string, quote: char, open: nat) {
    match b
    case Closed(t, next) => At(src, j, quote) && next == j + 1 && t == text
    case Broken(error) =>
      || (CutOff(src, j) && error == UnterminatedString(open))
      || (NoEscape(src, j, quote) && error == InvalidEscape(FaultText(src, j + 1), Offset(src, j + 1)))
  }

  lemma InvalidNoEscape(src: string, j: nat, quote: char)
    requires j + 1 < |src| && src[j] == '\\' && EscapeAt(src, j + 1).Invalid?
    ensures NoEscape(src, j, quote)
  {
    forall p: Piece | !p.Plain? ensures !PieceAt(src, j, p, quote) {
      if PieceAt(src, j, p, quote) {
        EscapeReads(src, j + 1, p, quote);
      }
    }
  }

  /** How an error names the escape whose first character is at `e`. */
  function FaultText(src: string, e: nat): string
    requires e < |src|
  {
    if src[e] == 'x' then
      if e + 2 < |src| && IsNumeral(src[e + 1..e + 3], 16) then "\\x" + Hexadecimal(ValueOf(src[e + 1..e + 3], 16))
      else "\\x"
    else if src[e] == 'u' then
      if !At(src, e + 1, '{') then "\\u"
      else
        var end := RunEnd(src, e + 2, HexadecimalDigit);
        var value := ValueOf(src[e + 2..end], 16);
        if value > 0xFFFF_FFFF then "\\u{...}"
        else if !At(src, end, '}') then "\\u{"
        else if end == e + 2 then "\\u{}"
        else "\\u{" + Hexadecimal(value) + "}"
    else if IsNumeral([src[e]], 10) then
      var end := RunEnd(src, e, DecimalDigit);
      "\\" + Decimal(ValueOf(src[e..if end < e + 3 then end else e + 3], 10))
    else ['\\', src[e]]
  }

  /** An escape that does not read is named, with its place. */
  lemma FaultIs(src: string, e: nat)
    requires e < |src| && EscapeAt(src, e).Invalid?
    ensures EscapeAt(src, e).error == InvalidEscape(FaultText(src, e), Offset(src, e))
  {
    LettersAre(src[e]);
    DigitIs(src, e);
    if src[e] == 'x' {
      HexFault(src, e);
    } else if src[e] == 'u' {
      if At(src, e + 1, '{') {
        BracedFault(src, e);
      }
    } else if IsDigit(src[e]) {
      DecimalFault(src, e);
    }
  }

  lemma HexFault(src: string, e: nat)
    requires e < |src| && src[e] == 'x' && HexEscape(src, e).Invalid?
    ensures HexEscape(src, e).error == InvalidEscape(FaultText(src, e), Offset(src, e))
  {
    hide ValueOf, NumeralValue, Hexadecimal, IsNumeral, RunEnd, Decimal;
    if e + 2 < |src| {
      assert src[e + 1..e + 3] == [src[e + 1], src[e + 2]];
      HexPair(src[e + 1], src[e + 2]);
    }
  }

  lemma DecimalFault(src: string, e: nat)
    requires ClassAt(src, e, DecimalDigit) && DecimalEscape(src, e).Invalid?
    ensures DecimalEscape(src, e).error == InvalidEscape(FaultText(src, e), Offset(src, e))
  {
    hide ValueOf, NumeralValue, Hexadecimal, IsNumeral, RunEnd, Decimal;
    var stop := ThreeDigitsEnd(src, e);
    var digits := src[e..stop];
    DigitIs(src, e);
    ThreeDigitsEndIs(src, e);
    NumeralsAre(digits);
    ValuesAre(digits, 10);
  }

  lemma ThreeDigitsEndIs(src: string, e: nat)
    requires ClassAt(src, e, DecimalDigit)
    ensures var end := RunEnd(src, e, DecimalDigit); ThreeDigitsEnd(src, e) == if end < e + 3 then end else e + 3
  {
    var end := RunEnd(src, e, DecimalDigit);
    RunEndIsMaximal(src, e, DecimalDigit, end);
    assert end > e + 1 ==> InClass(src[e + 1], DecimalDigit);
    assert end > e + 2 ==> InClass(src[e + 2], DecimalDigit);
  }

  lemma BracedFault(src: string, e: nat)
    requires e + 1 < |src| && src[e] == 'u' && src[e + 1] == '{' && UnicodeDigits(src, e + 2, 0, 0, e).Invalid?
    ensures UnicodeDigits(src, e + 2, 0, 0, e).error == InvalidEscape(FaultText(src, e), Offset(src, e))
  {
    hide ValueOf, Hexadecimal, IsNumeral, Decimal, UnicodeDigits;
    var end := RunEnd(src, e + 2, HexadecimalDigit);
    RunEndIsMaximal(src, e + 2, HexadecimalDigit, end);
    assert AllHexDigits(src[e + 2..end]) && src[e + 2..e + 2] == "";
    ValuesAre(src[e + 2..end], 16);
    DigitsFault(src, e + 2, e + 2, end, e);
  }

  /** The error of the digits between `i` and `end`, of which those before `j` are read. */
  lemma {:induction false} DigitsFault(src: string, i: nat, j: nat, end: nat, e: nat)
    requires e < i <= j <= end <= |src| && !ClassAt(src, end, HexadecimalDigit)
    requires (forall m | i <= m < end :: IsHexDigit(src[m])) && NumeralValue(src[i..j], 16) <= MAX_U32
    requires UnicodeDigits(src, j, NumeralValue(src[i..j], 16), j - i, e).Invalid?
    ensures var value := NumeralValue(src[i..end], 16);
            UnicodeDigits(src, j, NumeralValue(src[i..j], 16), j - i, e).error
            == InvalidEscape(
                 if value > MAX_U32 then "\\u{...}"
                 else if !At(src, end, '}') then "\\u{"
                 else if end == i then "\\u{}"
                 else "\\u{" + Hexadecimal(value) + "}", Offset(src, e))
    decreases end - j
  {
    hide NumeralValue, Hexadecimal;
    if j < end {
      NextDigit(src, i, j);
      if NumeralValue(src[i..j + 1], 16) > MAX_U32 {
        ValueGrows(src, i, j + 1, end);
      } else {
        DigitsFault(src, i, j + 1, end, e);
      }
    }
  }

  /** The piece a string body starts with, if it goes on at all. */
  lemma FirstPiece(src: string, i: nat, quote: char) returns (p: Piece)
    requires i <= |src| && IsQuote(quote) && !Stops(src, i, quote)
    ensures PieceAt(src, i, p, quote)
  {
    if src[i] == '\\' {
      p := EscapeSpelled(src, i + 1, quote);
    } else {
      p := Plain(src[i]);
    }
  }

  /** Every string body is a list of pieces, up to its quote or to its first fault. */
  lemma {:induction false} BodyPieces(body: nat -> Body, src: string, i: nat, quote: char, open: nat)
    returns (ps: seq<Piece>, j: nat)
    requires IsBody(body, src, quote, open) && i <= |src| && IsQuote(quote)
    ensures PiecesAt(src, i, ps, j, quote)
    ensures EndsAs(body(i), src, j, Text(ps), quote, open)
    decreases |src| - i
  {
    hide PieceAt, Spelling, Meaning, StringBody, EscapeAt, Stops;
    if Stops(src, i, quote) {
      ps, j := [], i;
      BodyStops(body, src, i, quote, open);
    } else {
      var p := FirstPiece(src, i, quote);
      PieceAdds(body, src, i, p, quote, open);
      var rest;
      rest, j := BodyPieces(body, src, i + |Spelling(p)|, quote, open);
      ps := [p] + rest;
      PiecesMore(src, i, p, rest, j, quote);
    }
  }

  /** No piece follows. */
  predicate Stops(src: string, i: nat, quote: char)
    requires i <= |src|
  {
    CutOff(src, i) || src[i] == quote || (src[i] == '\\' && EscapeAt(src, i + 1).Invalid?)
  }

  lemma BodyStops(body: nat -> Body, src: string, i: nat, quote: char, open: nat)
    requires IsBody(body, src, quote, open) && i <= |src| && IsQuote(quote) && Stops(src, i, quote)
    ensures EndsAs(body(i), src, i, "", quote, open)
  {
    if !CutOff(src, i) && src[i] != quote {
      InvalidNoEscape(src, i, quote);
      FaultIs(src, i + 1);
    }
    assert body(i) == StringBody(src, i, quote, open);
  }

  lemma PiecesMore(src: string, i: nat, p: Piece, rest: seq<Piece>, j: nat, quote: char)
    requires PieceAt(src, i, p, quote) && PiecesAt(src, i + |Spelling(p)|, rest, j, quote)
    ensures PiecesAt(src, i, [p] + rest, j, quote)
    ensures Text([p] + rest) == Meaning(p) + Text(rest)
  {
    hide PieceAt, Spelling, Meaning;
    assert ([p] + rest)[1..] == rest;
  }

  /** Between its quotes, a string of this text is spelled at `i`. */
  ghost predicate StringSpelled(src: string, i: nat, text: string, next: nat) {
    exists ps :: SpelledBy(src, i, ps, text, next)
  }

  predicate SpelledBy(src: string, i: nat, ps: seq<Piece>, text: string, next: nat) {
    && i + 2 <= next <= |src| && src[next - 1] == src[i]
    && PiecesAt(src, i + 1, ps, next - 1, src[i]) && Text(ps) == text
  }

  /** The string that opens at `i`, from each place on. */
  ghost function BodyOf(src: string, i: nat): (body: nat -> Body)
    requires i < |src|
    ensures IsBody(body, src, src[i], Offset(src, i))
  {
    (j: nat) => if j <= |src| then StringBody(src, j, src[i], Offset(src, i)) else Closed("", 0)
  }

  lemma ReadsAsBody(src: string, i: nat)
    requires i < |src| && IsQuote(src[i])
    ensures StepAt(src, i)
         == match BodyOf(src, i)(i + 1)
            case Closed(text, next) => Emit(Str(text), next)
            case Broken(error) => Fail(error)
  {
    assert StepAt(src, i) == StringAt(src, i);
  }

  lemma SpelledIfRead(src: string, i: nat, text: string, next: nat)
    requires i < |src| && IsQuote(src[i]) && BodyOf(src, i)(i + 1) == Closed(text, next)
    ensures StringSpelled(src, i, text, next)
  {
    hide PieceAt, Spelling, Meaning, StringBody;
    var ps, j := BodyPieces(BodyOf(src, i), src, i + 1, src[i], Offset(src, i));
    PiecesInside(src, i + 1, ps, j, src[i]);
    assert SpelledBy(src, i, ps, text, next);
  }

  lemma ReadIfSpelled(src: string, i: nat, text: string, next: nat)
    requires i < |src| && IsQuote(src[i]) && StringSpelled(src, i, text, next)
    ensures BodyOf(src, i)(i + 1) == Closed(text, next)
  {
    hide PieceAt, Spelling, Meaning, StringBody;
    var ps :| SpelledBy(src, i, ps, text, next);
    PiecesRead(BodyOf(src, i), src, i + 1, ps, next - 1, src[i], Offset(src, i));
  }

  /** A short string reads as a text exactly if it spells that text. */
  lemma StringReads(src: string, i: nat, text: string, next: nat)
    requires i < |src| && IsQuote(src[i])
    ensures StepAt(src, i) == Emit(Str(text), next) <==> StringSpelled(src, i, text, next)
  {
    ReadsAsBody(src, i);
    if StringSpelled(src, i, text, next) {
      ReadIfSpelled(src, i, text, next);
    }
    if StepAt(src, i) == Emit(Str(text), next) {
      SpelledIfRead(src, i, text, next);
    }
  }

  /** One that does not is reported at its first fault: cut off, or with a backslash that starts no escape. */
  lemma StringFails(src: string, i: nat) returns (ps: seq<Piece>, j: nat)
    requires i < |src| && IsQuote(src[i]) && !StepAt(src, i).Emit?
    ensures StepAt(src, i).Fail? && PiecesAt(src, i + 1, ps, j, src[i])
    ensures var error := StepAt(src, i).error;
            || (CutOff(src, j) && error == UnterminatedString(Offset(src, i)))
            || (NoEscape(src, j, src[i]) && error == InvalidEscape(FaultText(src, j + 1), Offset(src, j + 1)))
  {
    ReadsAsBody(src, i);
    ps, j := BodyPieces(BodyOf(src, i), src, i + 1, src[i], Offset(src, i));
  }
}

/** Printing tokens and lexing the text gives the tokens back. */
module LexerRoundTrip {
  import opened Wrappers
  import opened Numerals
  import opened LexerRules
  import Bits
  import Int64

  // ----- Canonical texts -----

  function PunctuationText(p: Punctuation): string {
    match p
    case LParen => "("
    case RParen => ")"
    case Plus => "+"
    case Minus => "-"
    case Star => "*"
    case Slash => "/"
    case SlashSlash => "//"
    case Percent => "%"
    case Caret => "^"
    case Amp => "&"
    case Pipe => "|"
    case Tilde => "~"
    case LtLt => "<<"
    case GtGt => ">>"
    case DotDot => ".."
    case DotDotDot => "..."
    case Dot => "."
    case Hash => "#"
    case Equals => "="
    case EqEq => "=="
    case TildeEq => "~="
    case Lt => "<"
    case LtEq => "<="
    case Gt => ">"
    case GtEq => ">="
    case Comma => ","
    case Semicolon => ";"
    case Colon => ":"
    case LBrace => "{"
    case RBrace => "}"
    case LBracket => "["
    case RBracket => "]"
  }

  function EscapeLetter(c: char): Option<char> {
    if c == '\n' then Some('n')
    else if c == '\t' then Some('t')
    else if c == '\r' then Some('r')
    else if c == '\\' || c == '"' then Some(c)
    else if c == 7 as char then Some('a')
    else if c == 8 as char then Some('b')
    else if c == 12 as char then Some('f')
    else if c == 11 as char then Some('v')
    else None
  }

  function ThreeDigits(n: nat): string
    requires n < 1000
  {
    [Digit(n / 100), Digit(n / 10 % 10), Digit(n % 10)]
  }

  /** One character inside double quotes: a letter escape, three digits for a control character, or itself. */
  function Escaped(c: char): string {
    if EscapeLetter(c).Some? then ['\\', EscapeLetter(c).value]
    else if c as int < 32 || c as int == 127 then ['\\'] + ThreeDigits(c as int)
    else [c]
  }

  function EscapedText(text: string): string {
    if text == "" then "" else Escaped(text[0]) + EscapedText(text[1..])
  }

  predicate IsName(name: string) {
    name != "" && IsNameStart(name[0]) && forall k | 0 <= k < |name| :: IsNameChar(name[k])
  }

  predicate IsFraction(s: string) { s == "" || (|s| > 1 && s[0] == '.' && AllDigits(s[1..])) }

  /** Where the digits of an exponent begin: behind its letter and sign. */
  function ExponentDigits(s: string): nat { if |s| > 1 && (s[1] == '+' || s[1] == '-') then 2 else 1 }

  predicate IsExponent(s: string) {
    s == "" || (|s| > ExponentDigits(s) && (s[0] == 'e' || s[0] == 'E') && AllDigits(s[ExponentDigits(s)..]))
  }

  /** The parts of a float: digits, a fraction and an exponent, of which one is there if the digits fit an integer. */
  predicate FloatParts(whole: string, fraction: string, exponent: string) {
    && whole != "" && AllDigits(whole) && IsFraction(fraction) && IsExponent(exponent)
    && (fraction == "" && exponent == "" ==> NumeralValue(whole, 10) > Int64.MAX)
  }

  ghost predicate FloatLexeme(t: string) {
    exists whole, fraction, exponent :: t == whole + fraction + exponent && FloatParts(whole, fraction, exponent)
  }

  /** Every kind of token but the end marker. */
  ghost predicate Printable(k: Kind) {
    match k
    case Integer(_) => true
    case Float(lexeme) => FloatLexeme(lexeme)
    case Str(_) => true
    case Ident(name) => IsName(name) && KeywordOf(name).None?
    case Word(_) => true
    case Punct(_) => true
    case Eof => false
  }

  /** Lua has no negative literals: a negative integer is printed as the word that wraps to it. */
  function Print(k: Kind): string
    requires Printable(k)
  {
    match k
    case Integer(i) => if i >= 0 then Decimal(i) else "0x" + Hexadecimal(Int64.Unsigned(i))
    case Float(lexeme) => lexeme
    case Str(text) => "\"" + EscapedText(text) + "\""
    case Ident(name) => name
    case Word(word) => KeywordText(word)
    case Punct(p) => PunctuationText(p)
  }

  ghost predicate AllPrintable(ks: seq<Kind>) { forall j | 0 <= j < |ks| :: Printable(ks[j]) }

  function Texts(ks: seq<Kind>): (texts: seq<string>)
    requires AllPrintable(ks)
    ensures |texts| == |ks|
  {
    if ks == [] then [] else [Print(ks[0])] + Texts(ks[1..])
  }

  /** Each text followed by a space. */
  function Spread(texts: seq<string>): string {
    if texts == [] then "" else texts[0] + " " + Spread(texts[1..])
  }

  function PrintAll(ks: seq<Kind>): string
    requires AllPrintable(ks)
  {
    Spread(Texts(ks))
  }

  function Kinds(ls: seq<Lexeme>): seq<Kind> {
    seq(|ls|, k requires 0 <= k < |ls| => ls[k].kind)
  }

  /** `text` stands at `i`, with a space behind it. */
  predicate Spaced(src: string, i: nat, text: string) {
    i + |text| < |src| && src[i..i + |text|] == text && src[i + |text|] == ' '
  }

  lemma SpacedAt(src: string, i: nat, text: string)
    requires Spaced(src, i, text)
    ensures forall k | 0 <= k < |text| :: src[i + k] == text[k]
  {
    forall k | 0 <= k < |text| ensures src[i + k] == text[k] {
      assert src[i..i + |text|][k] == text[k];
    }
  }

  /** A run of text of one class ends at the space. */
  lemma RunOfText(src: string, i: nat, text: string, k: CharClass)
    requires Spaced(src, i, text) && forall j | 0 <= j < |text| :: InClass(text[j], k)
    requires !InClass(' ', k)
    ensures RunEnd(src, i, k) == i + |text|
  {
    SpacedAt(src, i, text);
    forall m | i <= m < i + |text| ensures InClass(src[m], k) {
      assert src[i + (m - i)] == text[m - i];
    }
    RunEndIsMaximal(src, i, k, i + |text|);
  }

  // ----- One token -----

  /** The text of every keyword is a name that reads back as that keyword. */
  lemma KeywordNames(k: Keyword)
    ensures IsName(KeywordText(k)) && KeywordOf(KeywordText(k)) == Some(k)
  {
    KeywordIsName(k);
    KeywordReads(k);
  }

  lemma KeywordIsName(k: Keyword)
    ensures IsName(KeywordText(k))
  {}

  lemma KeywordReads(k: Keyword)
    ensures KeywordOf(KeywordText(k)) == Some(k)
  {}

  lemma NameStep(src: string, i: nat, name: string)
    requires Spaced(src, i, name) && IsName(name)
    ensures StepAt(src, i) ==
            Emit(if KeywordOf(name).Some? then Word(KeywordOf(name).value) else Ident(name), i + |name|)
  {
    hide StepAt, KeywordOf, RunEnd;
    SpacedAt(src, i, name);
    assert src[i + 0] == name[0];
    RunOfText(src, i, name, NameChar);
    NameDispatch(src, i);
  }

  lemma NameDispatch(src: string, i: nat)
    requires i < |src| && IsNameStart(src[i])
    ensures StepAt(src, i) == WordAt(src, i)
  {}

  lemma DigitDispatch(src: string, i: nat)
    requires ClassAt(src, i, DecimalDigit)
    ensures StepAt(src, i) == NumberAt(src, i)
  {}

  lemma IntegerStep(src: string, i: nat, n: nat)
    requires n <= Int64.MAX && Spaced(src, i, Decimal(n))
    ensures StepAt(src, i) == Emit(Integer(n), i + |Decimal(n)|)
  {
    var text := Decimal(n);
    DecimalValue(n);
    SpacedAt(src, i, text);
    RunOfText(src, i, text, DecimalDigit);
    assert src[i + 0] == text[0];
    assert !At(src, i + 1, 'x') && !At(src, i + 1, 'X') by {
      if |text| > 1 {
        assert src[i + 1] == text[1];
      }
    }
    DigitDispatch(src, i);
    assert NumberAt(src, i) == Emit(Integer(n), i + |text|);
  }

  lemma HexPrefix(src: string, i: nat, digits: string)
    requires Stands(src, i, "0x" + digits) && digits != "" && AllHexDigits(digits)
    ensures ClassAt(src, i, DecimalDigit) && HexPrefixAt(src, i) && Stands(src, i + 2, digits)
  {
    StandsSplit(src, i, "0x", digits);
    StandsAt(src, i, "0x", 0);
    StandsAt(src, i, "0x", 1);
    StandsAt(src, i + 2, digits, 0);
  }

  lemma HexDigitsEnd(src: string, j: nat, digits: string)
    requires Stands(src, j, digits) && AllHexDigits(digits) && !ClassAt(src, j + |digits|, HexadecimalDigit)
    ensures RunEnd(src, j, HexadecimalDigit) == j + |digits|
  {
    forall m | j <= m < j + |digits| ensures InClass(src[m], HexadecimalDigit) {
      StandsAt(src, j, digits, m - j);
    }
    RunEndIsMaximal(src, j, HexadecimalDigit, j + |digits|);
  }

  lemma HexNumber(src: string, i: nat, value: nat)
    requires ClassAt(src, i, DecimalDigit) && HexPrefixAt(src, i)
    requires NumeralValue(src[i + 2..RunEnd(src, i + 2, HexadecimalDigit)], 16) == value < Bits.WORD
    ensures NumberAt(src, i) == Emit(Integer(Int64.Signed(value)), RunEnd(src, i + 2, HexadecimalDigit))
  {}

  lemma HexadecimalStep(src: string, i: nat, n: Int64.I64)
    requires n < 0 && Spaced(src, i, Print(Integer(n)))
    ensures StepAt(src, i) == Emit(Integer(n), i + |Print(Integer(n))|)
  {
    var digits := Hexadecimal(Int64.Unsigned(n));
    HexadecimalValue(Int64.Unsigned(n));
    HexPrefix(src, i, digits);
    HexDigitsEnd(src, i + 2, digits);
    HexNumber(src, i, Int64.Unsigned(n));
    Int64.WrapInRange(n);
    DigitDispatch(src, i);
  }

  // ----- Floats -----

  lemma DigitsEnd(src: string, j: nat, digits: string)
    requires Stands(src, j, digits) && AllDigits(digits) && !ClassAt(src, j + |digits|, DecimalDigit)
    ensures RunEnd(src, j, DecimalDigit) == j + |digits|
  {
    forall m | j <= m < j + |digits| ensures InClass(src[m], DecimalDigit) {
      StandsAt(src, j, digits, m - j);
    }
    RunEndIsMaximal(src, j, DecimalDigit, j + |digits|);
  }

  lemma FractionReads(src: string, j: nat, fraction: string)
    requires Stands(src, j, fraction) && IsFraction(fraction)
    requires !ClassAt(src, j + |fraction|, DecimalDigit) && !At(src, j + |fraction|, '.')
    ensures FractionEnd(src, j) == j + |fraction|
  {
    if fraction != "" {
      StandsAt(src, j, fraction, 0);
      StandsAt(src, j, fraction, 1);
      assert fraction == [fraction[0]] + fraction[1..];
      StandsSplit(src, j, [fraction[0]], fraction[1..]);
      DigitsEnd(src, j + 1, fraction[1..]);
    }
  }

  lemma ExponentReads(src: string, j: nat, exponent: string)
    requires Stands(src, j, exponent) && IsExponent(exponent) && At(src, j + |exponent|, ' ')
    ensures ExponentEnd(src, j) == j + |exponent|
  {
    if exponent != "" {
      var k := ExponentDigits(exponent);
      StandsAt(src, j, exponent, 0);
      StandsAt(src, j, exponent, 1);
      StandsAt(src, j, exponent, k);
      assert exponent[k..][0] == exponent[k];
      assert exponent == exponent[..k] + exponent[k..];
      StandsSplit(src, j, exponent[..k], exponent[k..]);
      DigitsEnd(src, j + k, exponent[k..]);
    }
  }

  /** What stands behind the digits of a float. */
  lemma FloatEnds(src: string, i: nat, whole: string, fraction: string, exponent: string)
    requires FloatParts(whole, fraction, exponent) && Spaced(src, i, whole + fraction + exponent)
    ensures Stands(src, i, whole) && Stands(src, i + |whole|, fraction)
    ensures Stands(src, i + |whole| + |fraction|, exponent)
    ensures var f := i + |whole| + |fraction|;
            !ClassAt(src, f, DecimalDigit) && !At(src, f, '.') && !At(src, f, 'x') && !At(src, f, 'X')
    ensures fraction != "" ==> At(src, i + |whole|, '.')
  {
    StandsSplit(src, i, whole + fraction, exponent);
    StandsSplit(src, i, whole, fraction);
    if fraction != "" {
      StandsAt(src, i + |whole|, fraction, 0);
    }
    if exponent != "" {
      StandsAt(src, i + |whole| + |fraction|, exponent, 0);
    }
  }

  lemma FloatStep(src: string, i: nat, whole: string, fraction: string, exponent: string)
    requires FloatParts(whole, fraction, exponent) && Spaced(src, i, whole + fraction + exponent)
    ensures var t := whole + fraction + exponent; StepAt(src, i) == Emit(Float(t), i + |t|)
  {
    FloatEnds(src, i, whole, fraction, exponent);
    FloatPlaces(src, i, whole, fraction, exponent);
    FloatNumber(src, i, whole + fraction + exponent);
    DigitDispatch(src, i);
  }

  lemma FloatPlaces(src: string, i: nat, whole: string, fraction: string, exponent: string)
    requires FloatParts(whole, fraction, exponent)
    requires Stands(src, i, whole) && Stands(src, i + |whole|, fraction)
    requires Stands(src, i + |whole| + |fraction|, exponent) && At(src, i + |whole| + |fraction| + |exponent|, ' ')
    requires var f := i + |whole| + |fraction|;
             !ClassAt(src, f, DecimalDigit) && !At(src, f, '.') && !At(src, f, 'x') && !At(src, f, 'X')
    requires fraction != "" ==> At(src, i + |whole|, '.')
    ensures ClassAt(src, i, DecimalDigit) && !HexPrefixAt(src, i)
    ensures RunEnd(src, i, DecimalDigit) == i + |whole|
    ensures ExponentEnd(src, FractionEnd(src, i + |whole|)) == i + |whole| + |fraction| + |exponent|
  {
    FloatFirst(src, i, whole);
    DigitsEnd(src, i, whole);
    FractionReads(src, i + |whole|, fraction);
    ExponentReads(src, i + |whole| + |fraction|, exponent);
  }

  lemma FloatFirst(src: string, i: nat, whole: string)
    requires Stands(src, i, whole) && whole != "" && AllDigits(whole)
    requires |whole| == 1 ==> !At(src, i + 1, 'x') && !At(src, i + 1, 'X')
    ensures ClassAt(src, i, DecimalDigit) && !HexPrefixAt(src, i)
  {
    StandsAt(src, i, whole, 0);
    if |whole| > 1 {
      StandsAt(src, i, whole, 1);
    }
  }

  lemma FloatNumber(src: string, i: nat, t: string)
    requires ClassAt(src, i, DecimalDigit) && !HexPrefixAt(src, i) && Stands(src, i, t)
    requires var w := RunEnd(src, i, DecimalDigit);
             && ExponentEnd(src, FractionEnd(src, w)) == i + |t|
             && (w == i + |t| ==> NumeralValue(src[i..w], 10) > Int64.MAX)
    ensures NumberAt(src, i) == Emit(Float(t), i + |t|)
  {}

  /** What the lexer takes for a float has the parts of one. */
  lemma FloatRead(src: string, i: nat)
    requires ClassAt(src, i, DecimalDigit) && NumberAt(src, i).Emit? && NumberAt(src, i).kind.Float?
    ensures FloatLexeme(NumberAt(src, i).kind.lexeme)
  {
    var w := RunEnd(src, i, DecimalDigit);
    var f := FractionEnd(src, w);
    var end := ExponentEnd(src, f);
    FloatText(src, i);
    DigitsRead(src, i);
    FractionRead(src, w);
    ExponentRead(src, f);
    PartsMakeLexeme(src, i, w, f, end);
  }

  lemma PartsMakeLexeme(src: string, i: nat, w: nat, f: nat, end: nat)
    requires i <= w <= f <= end <= |src| && FloatParts(src[i..w], src[w..f], src[f..end])
    ensures FloatLexeme(src[i..end])
  {
    SlicesJoin(src, i, w, f);
    SlicesJoin(src, i, f, end);
  }

  lemma SlicesJoin(src: string, i: nat, j: nat, k: nat)
    requires i <= j <= k <= |src|
    ensures src[i..j] + src[j..k] == src[i..k]
  {}

  lemma FloatText(src: string, i: nat)
    requires ClassAt(src, i, DecimalDigit) && NumberAt(src, i).Emit? && NumberAt(src, i).kind.Float?
    ensures var w := RunEnd(src, i, DecimalDigit);
            var end := ExponentEnd(src, FractionEnd(src, w));
            && NumberAt(src, i).kind.lexeme == src[i..end]
            && (end == w ==> NumeralValue(src[i..w], 10) > Int64.MAX)
  {}

  lemma DigitsRead(src: string, j: nat)
    requires j <= |src|
    ensures AllDigits(src[j..RunEnd(src, j, DecimalDigit)])
    ensures ClassAt(src, j, DecimalDigit) ==> j < RunEnd(src, j, DecimalDigit)
  {
    RunEndIsMaximal(src, j, DecimalDigit, RunEnd(src, j, DecimalDigit));
  }

  lemma FractionRead(src: string, j: nat)
    requires j <= |src|
    ensures IsFraction(src[j..FractionEnd(src, j)])
  {
    var end := FractionEnd(src, j);
    if end > j {
      DigitsRead(src, j + 1);
      assert src[j..end][1..] == src[j + 1..end];
    }
  }

  lemma ExponentRead(src: string, j: nat)
    requires j <= |src|
    ensures IsExponent(src[j..ExponentEnd(src, j)])
  {
    var end := ExponentEnd(src, j);
    if end > j {
      var s, k := src[j..end], if At(src, j + 1, '+') || At(src, j + 1, '-') then 2 else 1;
      DigitsRead(src, j + k);
      assert s[k..] == src[j + k..end];
      assert s[1] == src[j + 1] && ExponentDigits(s) == k;
    }
  }

  lemma ThreeDigitNumeral(a: char, b: char, c: char)
    ensures NumeralValue([a, b, c], 10) == DigitValue(a) * 100 + DigitValue(b) * 10 + DigitValue(c)
  {
    assert [a][..0] == "" && [a, b][..1] == [a] && [a, b, c][..2] == [a, b];
    assert NumeralValue([a], 10) == DigitValue(a);
    assert NumeralValue([a, b], 10) == DigitValue(a) * 10 + DigitValue(b);
  }

  lemma ThreeDigitsValue(n: nat)
    requires n < 1000
    ensures NumeralValue(ThreeDigits(n), 10) == n
  {
    ThreeDigitNumeral(Digit(n / 100), Digit(n / 10 % 10), Digit(n % 10));
    assert n == n / 100 * 100 + n / 10 % 10 * 10 + n % 10;
  }

  /** `text` stands at `j`. */
  predicate Stands(src: string, j: nat, text: string) { j + |text| <= |src| && src[j..j + |text|] == text }

  lemma StandsAt(src: string, j: nat, text: string, k: nat)
    requires Stands(src, j, text) && k < |text|
    ensures src[j + k] == text[k]
  {
    assert src[j..j + |text|][k] == text[k];
  }

  lemma StandsSplit(src: string, j: nat, a: string, b: string)
    requires Stands(src, j, a + b)
    ensures Stands(src, j, a) && Stands(src, j + |a|, b)
  {
    var s := src[j..j + |a + b|];
    assert s[..|a|] == a && s[|a|..] == b;
    assert src[j..j + |a|] == s[..|a|] && src[j + |a|..j + |a| + |b|] == s[|a|..];
  }

  /** Inside double quotes, the escaped form of `c` reads as `c`. */
  lemma EscapedStep(src: string, j: nat, c: char, open: nat)
    requires Stands(src, j, Escaped(c))
    ensures StringBody(src, j, '"', open) == Prepend([c], StringBody(src, j + |Escaped(c)|, '"', open))
  {
    var e := Escaped(c);
    StandsAt(src, j, e, 0);
    if EscapeLetter(c).Some? {
      StandsAt(src, j, e, 1);
      assert EscapeAt(src, j + 1) == Yields(c, j + 2);
    } else if |e| > 1 {
      StandsAt(src, j, e, 1);
      StandsAt(src, j, e, 2);
      StandsAt(src, j, e, 3);
      ThreeDigitsValue(c as int);
      assert src[j + 1..j + 4] == ThreeDigits(c as int);
      assert ThreeDigitsEnd(src, j + 1) == j + 4;
      assert DecimalEscape(src, j + 1) == Yields(c, j + 4);
    }
  }

  lemma QuoteCloses(src: string, j: nat, open: nat)
    requires At(src, j, '"')
    ensures StringBody(src, j, '"', open) == Closed("", j + 1)
  {}

  /** The rest of a body behind one character. */
  lemma ClosedCons(b: Body, rest: Body, text: string, next: nat)
    requires text != "" && b == Prepend([text[0]], rest) && rest == Closed(text[1..], next)
    ensures b == Closed(text, next)
  {
    assert [text[0]] + text[1..] == text;
  }

  /** The first character of a body and what stands behind it. */
  lemma EscapedTextFirst(src: string, j: nat, text: string, open: nat) returns (next: nat)
    requires text != "" && Stands(src, j, EscapedText(text))
    ensures j < next <= |src| && Stands(src, next, EscapedText(text[1..]))
    ensures next + |EscapedText(text[1..])| == j + |EscapedText(text)|
    ensures StringBody(src, j, '"', open) == Prepend([text[0]], StringBody(src, next, '"', open))
  {
    next := EscapedTextNext(src, j, text);
    EscapedStep(src, j, text[0], open);
  }

  lemma EscapedTextNext(src: string, j: nat, text: string) returns (next: nat)
    requires text != "" && Stands(src, j, EscapedText(text))
    ensures next == j + |Escaped(text[0])| && Stands(src, j, Escaped(text[0]))
    ensures j < next <= |src| && Stands(src, next, EscapedText(text[1..]))
    ensures next + |EscapedText(text[1..])| == j + |EscapedText(text)|
  {
    next := j + |Escaped(text[0])|;
    StandsSplit(src, j, Escaped(text[0]), EscapedText(text[1..]));
  }

  lemma {:induction false} EscapedTextReads(src: string, j: nat, text: string, open: nat) returns (b: Body)
    requires Stands(src, j, EscapedText(text)) && At(src, j + |EscapedText(text)|, '"')
    ensures b == StringBody(src, j, '"', open) && b == Closed(text, j + |EscapedText(text)| + 1)
    decreases |text|
  {
    b := StringBody(src, j, '"', open);
    if text == "" {
      QuoteCloses(src, j, open);
    } else {
      var next := EscapedTextFirst(src, j, text, open);
      var rest := EscapedTextReads(src, next, text[1..], open);
      ClosedCons(b, rest, text, j + |EscapedText(text)| + 1);
    }
  }

  lemma StringStep(src: string, i: nat, text: string)
    requires Spaced(src, i, Print(Str(text)))
    ensures StepAt(src, i) == Emit(Str(text), i + |Print(Str(text))|)
  {
    var printed, body := Print(Str(text)), EscapedText(text);
    StandsAt(src, i, printed, 0);
    StandsAt(src, i, printed, |printed| - 1);
    assert printed == "\"" + (body + "\"");
    StandsSplit(src, i, "\"", body + "\"");
    StandsSplit(src, i + 1, body, "\"");
    var _ := EscapedTextReads(src, i + 1, text, Offset(src, i));
    QuoteDispatch(src, i);
  }

  lemma QuoteDispatch(src: string, i: nat)
    requires At(src, i, '"')
    ensures StepAt(src, i) == StringAt(src, i)
  {}

  lemma PunctuationStep(src: string, i: nat, p: Punctuation)
    requires Spaced(src, i, PunctuationText(p))
    ensures StepAt(src, i) == Emit(Punct(p), i + |PunctuationText(p)|)
  {
    PunctuationFirst(p);
    SpacedAt(src, i, PunctuationText(p));
    assert src[i + 0] == PunctuationText(p)[0];
    PunctuationDispatch(src, i);
    PunctuationAtStep(src, i, p);
  }

  lemma PunctuationFirst(p: Punctuation)
    ensures var text := PunctuationText(p);
            && text != ""
            && !IsSpace(text[0]) && !IsDigit(text[0]) && text[0] !in {'"', '\''} && !IsNameStart(text[0])
            && (text[0] == '-' || text[0] == '[' ==> |text| == 1)
  {}

  lemma PunctuationAtStep(src: string, i: nat, p: Punctuation)
    requires Spaced(src, i, PunctuationText(p))
    ensures PunctuationAt(src, i) == Emit(Punct(p), i + |PunctuationText(p)|)
  {
    var text := PunctuationText(p);
    SpacedAt(src, i, text);
    assert src[i + 0] == text[0];
    if SingleAt(text[0]).None? {
      OperatorStep(src, i, p);
    } else {
      assert SingleAt(text[0]) == Some(p);
    }
  }

  /** Punctuation other than a comment or a long bracket is left for the last test. */
  lemma PunctuationDispatch(src: string, i: nat)
    requires i < |src| && !IsSpace(src[i]) && !IsDigit(src[i]) && src[i] !in {'"', '\''} && !IsNameStart(src[i])
    requires src[i] == '-' || src[i] == '[' ==> At(src, i + 1, ' ')
    ensures StepAt(src, i) == PunctuationAt(src, i)
  {
    if src[i] == '[' {
      assert RunEnd(src, i + 1, EqualsSign) == i + 1;
    }
  }

  lemma OperatorStep(src: string, i: nat, p: Punctuation)
    requires Spaced(src, i, PunctuationText(p)) && SingleAt(PunctuationText(p)[0]).None?
    ensures PunctuationAt(src, i) == Emit(Punct(p), i + |PunctuationText(p)|)
  {
    var text := PunctuationText(p);
    SpacedAt(src, i, text);
    assert src[i + 0] == text[0];
    if |text| > 1 {
      assert src[i + 1] == text[1];
    }
  }

  /** Where the text of a punctuation token stands, the token read is one that stands there, and no shorter. */
  lemma PunctuationLongest(src: string, i: nat, p: Punctuation)
    requires Stands(src, i, PunctuationText(p))
    ensures PunctuationAt(src, i).Emit? && PunctuationAt(src, i).kind.Punct?
    ensures var q, next := PunctuationAt(src, i).kind.p, PunctuationAt(src, i).next;
            Stands(src, i, PunctuationText(q)) && next == i + |PunctuationText(q)| >= i + |PunctuationText(p)|
  {
    PunctuationReads(src, i, p);
    PunctuationStands(src, i);
  }

  lemma PunctuationReads(src: string, i: nat, p: Punctuation)
    requires Stands(src, i, PunctuationText(p))
    ensures i < |src| && PunctuationAt(src, i).Emit? && PunctuationAt(src, i).next >= i + |PunctuationText(p)|
  {
    var text := PunctuationText(p);
    StandsAt(src, i, text, 0);
    if |text| > 1 {
      StandsAt(src, i, text, 1);
    }
    if |text| > 2 {
      StandsAt(src, i, text, 2);
    }
  }

  lemma PunctuationStands(src: string, i: nat)
    requires i < |src| && PunctuationAt(src, i).Emit?
    ensures PunctuationAt(src, i).kind.Punct?
    ensures var q, next := PunctuationAt(src, i).kind.p, PunctuationAt(src, i).next;
            Stands(src, i, PunctuationText(q)) && next == i + |PunctuationText(q)|
  {
    if SingleAt(src[i]).Some? {
      SingleText(src[i]);
    } else {
      OperatorText(src, i);
    }
    ShortStands(src, i, PunctuationText(PunctuationAt(src, i).kind.p));
  }

  lemma SingleText(c: char)
    requires SingleAt(c).Some?
    ensures PunctuationText(SingleAt(c).value) == [c]
    ensures c !in {'=', '<', '>', '~', '/', '.'}
  {}

  lemma OperatorText(src: string, i: nat)
    requires i < |src| && PunctuationAt(src, i).Emit? && SingleAt(src[i]).None?
    ensures PunctuationAt(src, i).kind.Punct?
    ensures var text := PunctuationText(PunctuationAt(src, i).kind.p);
            && 0 < |text| <= 3 && PunctuationAt(src, i).next == i + |text| && src[i] == text[0]
            && (|text| > 1 ==> src[i + 1] == text[1]) && (|text| > 2 ==> src[i + 2] == text[2])
  {}

  lemma ShortStands(src: string, i: nat, text: string)
    requires 0 < |text| <= 3 && i + |text| <= |src| && src[i] == text[0]
    requires (|text| > 1 ==> src[i + 1] == text[1]) && (|text| > 2 ==> src[i + 2] == text[2])
    ensures Stands(src, i, text)
  {
    forall k | 0 <= k < |text| ensures src[i + k] == text[k] {
      assert k == 0 || k == 1 || k == 2;
    }
    assert src[i..i + |text|] == text;
  }

  lemma PrintedStep(src: string, i: nat, k: Kind)
    requires Printable(k) && Spaced(src, i, Print(k))
    ensures StepAt(src, i) == Emit(k, i + |Print(k)|)
  {
    match k
    case Integer(n) =>
      if n >= 0 {
        IntegerStep(src, i, n);
      } else {
        HexadecimalStep(src, i, n);
      }
    case Float(t) =>
      var whole, fraction, exponent :| t == whole + fraction + exponent && FloatParts(whole, fraction, exponent);
      FloatStep(src, i, whole, fraction, exponent);
    case Str(text) => StringStep(src, i, text);
    case Ident(name) => NameStep(src, i, name);
    case Word(word) =>
      KeywordNames(word);
      NameStep(src, i, KeywordText(word));
    case Punct(p) => PunctuationStep(src, i, p);
  }

  // ----- Whole lists -----

  lemma LexFromEmit(src: string, i: nat, kind: Kind, next: nat)
    requires i < |src| && StepAt(src, i) == Emit(kind, next)
    ensures LexFrom(src, i) == AddLexeme(Lexeme(kind, i, next), LexFrom(src, next))
  {}

  lemma LexFromSkip(src: string, i: nat, next: nat)
    requires i < |src| && StepAt(src, i) == Skip(next)
    ensures LexFrom(src, i) == LexFrom(src, next)
  {}

  lemma SpaceSkips(src: string, i: nat)
    requires At(src, i, ' ')
    ensures LexFrom(src, i) == LexFrom(src, i + 1)
  {
    LexFromSkip(src, i, i + 1);
  }

  /** A token that ends the source. */
  lemma LexFromLast(src: string, kind: Kind)
    requires src != "" && StepAt(src, 0) == Emit(kind, |src|)
    ensures LexFrom(src, 0) == Ok([Lexeme(kind, 0, |src|), Lexeme(Eof, |src|, |src|)])
  {
    LexFromEmit(src, 0, kind, |src|);
    LexFromEnd(src);
    var l, e := Lexeme(kind, 0, |src|), Lexeme(Eof, |src|, |src|);
    assert [l] + [e] == [l, e];
  }

  lemma LexFromEnd(src: string)
    ensures LexFrom(src, |src|) == Ok([Lexeme(Eof, |src|, |src|)])
  {}

  lemma SpreadSplit(src: string, i: nat, texts: seq<string>)
    requires texts != [] && i <= |src| && src[i..] == Spread(texts)
    ensures Spaced(src, i, texts[0]) && src[i + |texts[0]| + 1..] == Spread(texts[1..])
  {
    var text := texts[0];
    assert src[i..] == text + " " + Spread(texts[1..]);
    assert src[i..][..|text|] == text && src[i..][|text|] == ' ';
    assert src[i..][|text| + 1..] == Spread(texts[1..]);
  }

  lemma EmitThenSpace(src: string, i: nat, kind: Kind, end: nat)
    requires i < |src| && StepAt(src, i) == Emit(kind, end) && At(src, end, ' ')
    ensures LexFrom(src, i) == AddLexeme(Lexeme(kind, i, end), LexFrom(src, end + 1))
  {
    LexFromEmit(src, i, kind, end);
    SpaceSkips(src, end);
  }

  /** The texts stand one after the other from `i` to the end, each with a space behind it. */
  predicate InARow(src: string, i: nat, texts: seq<string>)
    decreases |texts|
  {
    if texts == [] then i == |src|
    else Spaced(src, i, texts[0]) && InARow(src, i + |texts[0]| + 1, texts[1..])
  }

  lemma {:induction false} SpreadInARow(src: string, i: nat, texts: seq<string>)
    requires i <= |src| && src[i..] == Spread(texts)
    ensures InARow(src, i, texts)
    decreases |texts|
  {
    if texts == [] {
      assert |src[i..]| == 0;
    } else {
      SpreadSplit(src, i, texts);
      SpreadInARow(src, i + |texts[0]| + 1, texts[1..]);
    }
  }

  /** `lex` is the lexer of `src`, as a function of the place it starts at. */
  ghost predicate IsLexer(lex: nat -> Lexing<seq<Lexeme>>, src: string) {
    forall i: nat {:trigger LexFrom(src, i)} | i <= |src| :: lex(i) == LexFrom(src, i)
  }

  /** If the text of `k` stands at `i` with a space behind it, `lex` reads `k` there and goes on behind the space. */
  ghost predicate ReadsToken(lex: nat -> Lexing<seq<Lexeme>>, src: string, i: nat, k: Kind) {
    Printable(k) && Spaced(src, i, Print(k)) ==>
      lex(i) == AddLexeme(Lexeme(k, i, i + |Print(k)|), lex(i + |Print(k)| + 1))
  }

  ghost predicate ReadsPrinted(lex: nat -> Lexing<seq<Lexeme>>, src: string) {
    forall i: nat, k: Kind :: ReadsToken(lex, src, i, k)
  }

  lemma PrintedReads(lex: nat -> Lexing<seq<Lexeme>>, src: string)
    requires IsLexer(lex, src)
    ensures ReadsPrinted(lex, src)
  {
    forall i: nat, k: Kind ensures ReadsToken(lex, src, i, k) {
      PrintedToken(src, i, k, lex);
    }
  }

  lemma PrintedToken(src: string, i: nat, k: Kind, lex: nat -> Lexing<seq<Lexeme>>)
    requires IsLexer(lex, src)
    ensures ReadsToken(lex, src, i, k)
  {
    if Printable(k) && Spaced(src, i, Print(k)) {
      PrintedStep(src, i, k);
      EmitThenSpace(src, i, k, i + |Print(k)|);
    }
  }

  lemma {:induction false} ReadInARow(lex: nat -> Lexing<seq<Lexeme>>, src: string, i: nat, ks: seq<Kind>)
    requires AllPrintable(ks) && ReadsPrinted(lex, src) && InARow(src, i, Texts(ks)) && Spells(lex(|src|), [])
    ensures Spells(lex(i), ks)
    decreases |ks|
  {
    if ks != [] {
      var next := i + |Print(ks[0])| + 1;
      assert Texts(ks)[1..] == Texts(ks[1..]);
      assert ReadsToken(lex, src, i, ks[0]);
      ReadInARow(lex, src, next, ks[1..]);
      ConsSpells(ks, Lexeme(ks[0], i, i + |Print(ks[0])|), lex(next));
    }
  }

  /** The tokens are those given and the end marker. */
  predicate Spells(r: Lexing<seq<Lexeme>>, ks: seq<Kind>) { r.Ok? && Kinds(r.value) == ks + [Eof] }

  lemma PrintedNothing(src: string)
    ensures Spells(LexFrom(src, |src|), [])
  {
    LexFromEnd(src);
    assert Kinds([Lexeme(Eof, |src|, |src|)]) == [] + [Eof];
  }

  lemma ConsSpells(ks: seq<Kind>, l: Lexeme, rest: Lexing<seq<Lexeme>>)
    requires ks != [] && l.kind == ks[0] && Spells(rest, ks[1..])
    ensures Spells(AddLexeme(l, rest), ks)
  {
    assert Kinds([l] + rest.value) == [l.kind] + Kinds(rest.value);
    assert [ks[0]] + (ks[1..] + [Eof]) == ks + [Eof];
  }

  lemma FloatStarts(t: string)
    requires FloatLexeme(t)
    ensures t != "" && IsDigit(t[0])
  {
    var whole, fraction, exponent :| t == whole + fraction + exponent && FloatParts(whole, fraction, exponent);
    assert t[0] == whole[0];
  }

  /** No printed text looks like a shebang line. */
  lemma PrintedStart(ks: seq<Kind>)
    requires AllPrintable(ks)
    ensures Start(PrintAll(ks)) == 0
  {
    var src := PrintAll(ks);
    if At(src, 0, '#') {
      var text := Print(ks[0]);
      assert src == text + " " + Spread(Texts(ks)[1..]);
      assert src[0] == (text + " ")[0] && src[|text|] == ' ';
      if ks[0].Word? {
        KeywordNames(ks[0].keyword);
      }
      if ks[0].Integer? && ks[0].i >= 0 {
        DecimalValue(ks[0].i);
      }
      if ks[0].Float? {
        FloatStarts(text);
      }
      assert text == "#";
    }
  }

  /** Printing any list of tokens and lexing the text gives back exactly that list, and the end marker. */
  lemma TokenRoundTrip(ks: seq<Kind>)
    requires AllPrintable(ks)
    ensures Spells(Lexemes(PrintAll(ks)), ks)
  {
    PrintedStart(ks);
    var src := PrintAll(ks);
    assert src[0..] == src;
    SpreadInARow(src, 0, Texts(ks));
    PrintedNothing(src);
    var lex: nat -> Lexing<seq<Lexeme>> := (i: nat) => if i <= |src| then LexFrom(src, i) else Ok([]);
    PrintedReads(lex, src);
    ReadInARow(lex, src, 0, ks);
  }

  // ----- Reprinting -----

  lemma WordPrintable(src: string, i: nat)
    requires i < |src| && IsNameStart(src[i])
    ensures WordAt(src, i).Emit? && Printable(WordAt(src, i).kind)
  {
    var end := RunEnd(src, i, NameChar);
    RunEndIsMaximal(src, i, NameChar, end);
    var name := src[i..end];
    assert name[0] == src[i];
  }

  lemma NumberPrintable(src: string, i: nat)
    requires ClassAt(src, i, DecimalDigit) && NumberAt(src, i).Emit?
    ensures Printable(NumberAt(src, i).kind)
  {
    if NumberAt(src, i).kind.Float? {
      FloatRead(src, i);
    }
  }

  lemma EmitPrintable(src: string, i: nat)
    requires i < |src| && StepAt(src, i).Emit?
    ensures Printable(StepAt(src, i).kind)
  {
    if IsNameStart(src[i]) {
      WordPrintable(src, i);
    } else if IsDigit(src[i]) {
      NumberPrintable(src, i);
    }
  }

  lemma {:induction false} LexedPrintable(src: string, i: nat)
    requires i <= |src| && LexFrom(src, i).Ok?
    ensures var ls := LexFrom(src, i).value;
            && ls != [] && ls[|ls| - 1].kind == Eof
            && forall k | 0 <= k < |ls| - 1 :: Printable(ls[k].kind)
    decreases |src| - i
  {
    if i == |src| {
      LexFromEnd(src);
    } else if StepAt(src, i).Skip? {
      LexFromSkip(src, i, StepAt(src, i).next);
      LexedPrintable(src, StepAt(src, i).next);
    } else {
      EmitPrintable(src, i);
      LexFromEmit(src, i, StepAt(src, i).kind, StepAt(src, i).next);
      LexedPrintable(src, StepAt(src, i).next);
    }
  }

  /** Printing what was lexed, from any source that lexes, keeps its token list. */
  lemma Reprint(src: string)
    requires Lexemes(src).Ok?
    ensures var ks := Kinds(Lexemes(src).value);
            && ks != [] && AllPrintable(ks[..|ks| - 1])
            && var again := Lexemes(PrintAll(ks[..|ks| - 1]));
               again.Ok? && Kinds(again.value) == ks
  {
    LexedPrintable(src, Start(src));
    ReprintList(Lexemes(src).value);
  }

  lemma ReprintList(ls: seq<Lexeme>)
    requires ls != [] && ls[|ls| - 1].kind == Eof
    requires forall k | 0 <= k < |ls| - 1 :: Printable(ls[k].kind)
    ensures var ks := Kinds(ls);
            && AllPrintable(ks[..|ks| - 1])
            && var again := Lexemes(PrintAll(ks[..|ks| - 1]));
               again.Ok? && Kinds(again.value) == ks
  {
    var ks := Kinds(ls);
    TokenRoundTrip(ks[..|ks| - 1]);
    assert ks[..|ks| - 1] + [Eof] == ks;
  }

  // ----- Long brackets -----

  function EqualsSigns(n: nat): string { seq(n, _ => '=') }

  function LongCloser(level: nat): string { "]" + EqualsSigns(level) + "]" }

  function LongText(body: string, level: nat): string {
    "[" + EqualsSigns(level) + "[" + body + LongCloser(level)
  }

  /** From `k` on, nothing in `body` closes a long bracket of this level before its end. */
  predicate Fits(body: string, k: nat, level: nat) {
    forall m | k <= m < |body| :: !LongCloseAt(body + LongCloser(level), m, level)
  }

  lemma {:induction false} RunEndShift(src: string, base: nat, i: nat, k: CharClass)
    requires base + i <= |src|
    ensures RunEnd(src, base + i, k) == base + RunEnd(src[base..], i, k)
    decreases |src| - (base + i)
  {
    if ClassAt(src, base + i, k) {
      RunEndShift(src, base, i + 1, k);
    }
  }

  lemma LongCloseShift(src: string, base: nat, i: nat, level: nat)
    requires base <= |src|
    ensures LongCloseAt(src, base + i, level) <==> LongCloseAt(src[base..], i, level)
  {
    if base + i < |src| {
      RunEndShift(src, base, i + 1, EqualsSign);
    }
  }

  /** The first close, declaratively. */
  lemma {:induction false} LongCloseIsFirst(src: string, i: nat, level: nat, close: nat)
    requires i <= |src|
    ensures LongClose(src, i, level) == Some(close) <==>
            i <= close < |src| && LongCloseAt(src, close, level) && forall m | i <= m < close :: !LongCloseAt(src, m, level)
    decreases |src| - i
  {
    if i < |src| && !LongCloseAt(src, i, level) {
      LongCloseIsFirst(src, i + 1, level, close);
    }
  }

  lemma CloserCloses(body: string, level: nat)
    ensures LongCloseAt(body + LongCloser(level), |body|, level)
  {
    var src := body + LongCloser(level);
    var end := |body| + 1 + level;
    assert src[|body|] == ']' && src[end] == ']';
    forall m | |body| + 1 <= m < end ensures InClass(src[m], EqualsSign) {
      assert src[m] == EqualsSigns(level)[m - (|body| + 1)];
    }
    RunEndIsMaximal(src, |body| + 1, EqualsSign, end);
  }

  lemma LongTextShape(body: string, level: nat)
    ensures var src := LongText(body, level);
            && |src| == |body| + 2 * (level + 2)
            && src[level + 2..] == body + LongCloser(level)
            && LongOpen(src, 0) == Some(level)
  {
    var src := LongText(body, level);
    assert src[0] == '[' && src[level + 1] == '[';
    forall m | 1 <= m < level + 1 ensures InClass(src[m], EqualsSign) {
      assert src[m] == EqualsSigns(level)[m - 1];
    }
    RunEndIsMaximal(src, 1, EqualsSign, level + 1);
  }

  /** Closes of the whole text, seen from behind the opening bracket. */
  lemma LongTextCloses(body: string, level: nat, m: nat)
    ensures LongCloseAt(LongText(body, level), level + 2 + m, level) <==> LongCloseAt(body + LongCloser(level), m, level)
  {
    LongTextShape(body, level);
    LongCloseShift(LongText(body, level), level + 2, m, level);
  }

  /** Where the first close is: at the end of a body that fits, before it otherwise. */
  lemma LongTextClose(body: string, level: nat, st: nat)
    requires st <= |body|
    ensures var src, base := LongText(body, level), level + 2;
            var close := LongClose(src, base + st, level);
            && close.Some? && base + st <= close.value <= base + |body|
            && (close.value == base + |body| <==> Fits(body, st, level))
  {
    var src, base := LongText(body, level), level + 2;
    LongTextShape(body, level);
    CloserCloses(body, level);
    LongTextCloses(body, level, |body|);
    LongFirstClose(src, base + st, base + |body|, level);
    var close := LongClose(src, base + st, level).value;
    LongCloseIsFirst(src, base + st, level, close);
    LongTextCloses(body, level, close - base);
    if close == base + |body| {
      forall m | st <= m < |body| ensures !LongCloseAt(body + LongCloser(level), m, level) {
        LongTextCloses(body, level, m);
      }
    }
  }

  lemma LongTextStart(body: string, level: nat)
    ensures BodyStart(LongText(body, level), level + 2) == level + 2 + BodyStart(body, 0)
  {
    var src, base := LongText(body, level), level + 2;
    LongTextShape(body, level);
    assert src[base] == src[base..][0];
  }

  /** A body with an early close, if any, ends there. */
  lemma LongStep(body: string, level: nat)
    ensures var src, st := LongText(body, level), BodyStart(body, 0);
            && LongStringAt(src, 0, level).Emit?
            && (LongStringAt(src, 0, level).next == |src| <==> Fits(body, st, level))
            && (Fits(body, st, level) ==> LongStringAt(src, 0, level) == Emit(Str(body[st..]), |src|))
  {
    hide LongCloseAt, RunEnd, LongOpen, LongClose;
    var src, base, st := LongText(body, level), level + 2, BodyStart(body, 0);
    LongTextShape(body, level);
    LongTextStart(body, level);
    LongTextClose(body, level, st);
    if Fits(body, st, level) {
      assert src[base + st..base + |body|] == src[base..][st..|body|] == body[st..];
    }
  }

  lemma LongTextStep(body: string, level: nat)
    ensures StepAt(LongText(body, level), 0) == LongStringAt(LongText(body, level), 0, level)
    ensures Start(LongText(body, level)) == 0
  {
    LongTextShape(body, level);
    assert LongText(body, level)[0] == '[';
  }

  /** There is a first close at or before a known one. */
  lemma {:induction false} LongFirstClose(src: string, i: nat, known: nat, level: nat)
    requires i <= known < |src| && LongCloseAt(src, known, level)
    ensures LongClose(src, i, level).Some? && LongClose(src, i, level).value <= known
    decreases known - i
  {
    if !LongCloseAt(src, i, level) {
      LongFirstClose(src, i + 1, known, level);
    }
  }

  function LongAlone(text: string, n: nat): seq<Lexeme> { [Lexeme(Str(text), 0, n), Lexeme(Eof, n, n)] }

  /** A text survives long brackets of a level exactly when it has no early close and no newline in front. */
  lemma LongRoundTrip(text: string, level: nat)
    ensures var src := LongText(text, level);
            Lexemes(src) == Ok(LongAlone(text, |src|)) <==> !At(text, 0, '\n') && Fits(text, 0, level)
  {
    var src, st := LongText(text, level), BodyStart(text, 0);
    LongTextShape(text, level);
    LongStep(text, level);
    LongTextStep(text, level);
    var step := LongStringAt(src, 0, level);
    LexFromEmit(src, 0, step.kind, step.next);
    if Fits(text, st, level) {
      LexFromLast(src, step.kind);
      if st == 1 {
        assert LongAlone(text[st..], |src|)[0] != LongAlone(text, |src|)[0];
      }
    } else if Lexemes(src).Ok? {
      assert Lexemes(src).value[0].to == step.next;
      assert LongAlone(text, |src|)[0].to == |src|;
    }
  }

  /** Any level above the length of the text fits, so such a level always exists. */
  lemma FittingLevel(text: string)
    ensures Fits(text, 0, |text| + 1)
  {
    var level := |text| + 1;
    var tail := text + LongCloser(level);
    forall m | 0 <= m < |text| ensures !LongCloseAt(tail, m, level) {
      RunEndIsMaximal(tail, m + 1, EqualsSign, m + 1 + level);
      assert tail[|text|] == ']' && !InClass(tail[|text|], EqualsSign);
    }
  }

  /** With one newline put in front, every text survives at a level that fits it. */
  lemma LongRoundTripWithNewline(text: string, level: nat)
    requires Fits(text, 0, level)
    ensures var src := LongText("\n" + text, level); Lexemes(src) == Ok(LongAlone(text, |src|))
  {
    var body := "\n" + text;
    var src := LongText(body, level);
    var tail, shifted := text + LongCloser(level), body + LongCloser(level);
    assert shifted[1..] == tail;
    forall m | 1 <= m < |body| ensures !LongCloseAt(shifted, m, level) {
      LongCloseShift(shifted, 1, m - 1, level);
      assert !LongCloseAt(tail, m - 1, level);
    }
    LongStep(body, level);
    LongTextStep(body, level);
    assert body[1..] == text;
    LexFromLast(src, Str(text));
  }
}

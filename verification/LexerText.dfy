/**
 Tokens and their text: which words and marks there are, what text a token covers, that its span holds the bytes of
 that text, and what is wrong where a source does not lex.
 */
module LexerText {
  import opened Wrappers
  import opened Numerals
  import opened LexerRules
  import opened LexerScanner
  import opened LexerRoundTrip
  import opened LexerStrings
  import opened LexerPartition

  // ----- Words and marks -----

  const KEYWORDS: seq<(string, Keyword)> := [
    ("and", And), ("break", Break), ("do", Do), ("else", Else), ("elseif", Elseif), ("end", End), ("false", False),
    ("for", For), ("function", Function), ("if", If), ("in", In), ("local", Local), ("nil", Nil), ("not", Not),
    ("or", Or), ("repeat", Repeat), ("return", Return), ("then", Then), ("true", True), ("until", Until),
    ("while", While)
  ]

  const MARKS: seq<(string, Punctuation)> := [
    ("+", Plus), ("-", Minus), ("*", Star), ("/", Slash), ("//", SlashSlash), ("%", Percent), ("^", Caret),
    ("&", Amp), ("|", Pipe), ("~", Tilde), ("<<", LtLt), (">>", GtGt), ("#", Hash), ("=", Equals), ("==", EqEq),
    ("~=", TildeEq), ("<", Lt), ("<=", LtEq), (">", Gt), (">=", GtEq), (".", Dot), ("..", DotDot), ("...", DotDotDot),
    ("(", LParen), (")", RParen), ("{", LBrace), ("}", RBrace), ("[", LBracket), ("]", RBracket), (",", Comma),
    (";", Semicolon), (":", Colon)
  ]

  /** These words, and no others, are keywords. */
  lemma KeywordsAre(k: nat, text: string)
    ensures k < |KEYWORDS| ==> KeywordOf(KEYWORDS[k].0) == Some(KEYWORDS[k].1)
    ensures KeywordOf(text).Some? ==> (text, KeywordOf(text).value) in KEYWORDS
  {}

  /** These are the texts of the punctuation tokens. */
  lemma MarksAre(p: Punctuation)
    ensures (PunctuationText(p), p) in MARKS
  {}

  const LOWER_LETTERS: set<char> := {
    'a', 'b', 'c', 'd', 'e', 'f', 'g', 'h', 'i', 'j', 'k', 'l', 'm', 'n', 'o', 'p', 'q', 'r', 's', 't', 'u', 'v',
    'w', 'x', 'y', 'z'
  }
  const UPPER_LETTERS: set<char> := {
    'A', 'B', 'C', 'D', 'E', 'F', 'G', 'H', 'I', 'J', 'K', 'L', 'M', 'N', 'O', 'P', 'Q', 'R', 'S', 'T', 'U', 'V',
    'W', 'X', 'Y', 'Z'
  }

  lemma LowerLettersAre(c: char)
    ensures 'a' <= c <= 'z' <==> c in LOWER_LETTERS
  {
    if c < 'n' {
      assert 'a' <= c ==> c in {'a', 'b', 'c', 'd', 'e', 'f', 'g', 'h', 'i', 'j', 'k', 'l', 'm'};
    }
  }

  lemma UpperLettersAre(c: char)
    ensures 'A' <= c <= 'Z' <==> c in UPPER_LETTERS
  {
    if c < 'N' {
      assert 'A' <= c ==> c in {'A', 'B', 'C', 'D', 'E', 'F', 'G', 'H', 'I', 'J', 'K', 'L', 'M'};
    }
  }

  /** Names begin with a letter of the English alphabet or an underscore, and go on with these or digits. */
  lemma NameCharactersAre(c: char)
    ensures IsNameStart(c) <==> c == '_' || c in LOWER_LETTERS || c in UPPER_LETTERS
    ensures IsNameChar(c) <==> IsNameStart(c) || IsNumeral([c], 10)
  {
    hide LOWER_LETTERS, UPPER_LETTERS;
    LowerLettersAre(c);
    UpperLettersAre(c);
    DigitsAre(c);
    assert [c][0] == c;
  }

  // ----- The text of a token -----

  /** The integer a word of 64 bits stands for. */
  function SignedWord(value: nat): int {
    if value < 0x8000_0000_0000_0000 then value else value - 0x1_0000_0000_0000_0000
  }

  /** `text` is a decimal or a hexadecimal literal of the integer. */
  predicate SpellsInteger(text: string, n: int) {
    || (IsNumeral(text, 10) && n == ValueOf(text, 10))
    || (|text| > 2 && text[0] == '0' && text[1] in {'x', 'X'}
        && IsNumeral(text[2..], 16) && n == SignedWord(ValueOf(text[2..], 16)))
  }

  /** The opening bracket, perhaps a newline, the text and the closing bracket. */
  ghost predicate SpellsLong(text: string, content: string) {
    exists level: nat :: text == LongText(content, level) || text == LongText("\n" + content, level)
  }

  /** What stands at `i` up to `next` spells the token. */
  ghost predicate Covers(src: string, i: nat, next: nat, kind: Kind)
    requires i <= next <= |src|
  {
    var text := src[i..next];
    match kind
    case Ident(name) => text == name
    case Word(word) => text == KeywordText(word)
    case Punct(p) => text == PunctuationText(p)
    case Float(lexeme) => text == lexeme
    case Integer(n) => SpellsInteger(text, n)
    case Str(content) => StringSpelled(src, i, content, next) || SpellsLong(text, content)
    case Eof => text == ""
  }

  lemma WordCovers(src: string, i: nat)
    requires i < |src| && IsNameStart(src[i]) && StepAt(src, i) == WordAt(src, i)
    ensures StepAt(src, i).Emit? && Covers(src, i, StepAt(src, i).next, StepAt(src, i).kind)
  {
    var name := src[i..RunEnd(src, i, NameChar)];
    if KeywordOf(name).Some? {
      KeywordSpelled(name);
    }
  }

  lemma KeywordSpelled(text: string)
    requires KeywordOf(text).Some?
    ensures KeywordText(KeywordOf(text).value) == text
  {}

  lemma NumberCovers(src: string, i: nat)
    requires ClassAt(src, i, DecimalDigit) && NumberAt(src, i).Emit?
    ensures Covers(src, i, NumberAt(src, i).next, NumberAt(src, i).kind)
  {
    if HexPrefixAt(src, i) {
      HexCovers(src, i);
    } else {
      DecimalCovers(src, i);
    }
  }

  lemma HexCovers(src: string, i: nat)
    requires ClassAt(src, i, DecimalDigit) && HexPrefixAt(src, i) && NumberAt(src, i).Emit?
    ensures Covers(src, i, NumberAt(src, i).next, NumberAt(src, i).kind)
  {
    hide ValueOf, NumeralValue, IsNumeral;
    var end := RunEnd(src, i + 2, HexadecimalDigit);
    var text, digits := src[i..end], src[i + 2..end];
    RunEndIsMaximal(src, i + 2, HexadecimalDigit, end);
    assert text[2..] == digits && AllHexDigits(digits);
    NumeralsAre(digits);
    ValuesAre(digits, 16);
    assert text[0] == src[i] && text[1] == src[i + 1];
  }

  lemma DecimalCovers(src: string, i: nat)
    requires ClassAt(src, i, DecimalDigit) && !HexPrefixAt(src, i) && NumberAt(src, i).Emit?
    ensures Covers(src, i, NumberAt(src, i).next, NumberAt(src, i).kind)
  {
    var whole := RunEnd(src, i, DecimalDigit);
    RunEndIsMaximal(src, i, DecimalDigit, whole);
    assert AllDigits(src[i..whole]);
    NumeralsAre(src[i..whole]);
    ValuesAre(src[i..whole], 10);
  }

  lemma LongCovers(src: string, i: nat, level: nat)
    requires i < |src| && LongOpen(src, i) == Some(level) && LongStringAt(src, i, level).Emit?
    ensures SpellsLong(src[i..LongStringAt(src, i, level).next], LongStringAt(src, i, level).kind.text)
  {
    var base := i + level + 2;
    var start := BodyStart(src, base);
    var close := LongClose(src, start, level).value;
    LongCloseIsFirst(src, start, level, close);
    OpenSpelled(src, i, level);
    CloseSpelled(src, close, level);
    LongJoins(src, i, base, close, level);
    if start > base {
      assert src[base..close] == "\n" + src[start..close];
    }
  }

  lemma EqualsSpelled(src: string, i: nat, level: nat)
    requires i + level <= |src| && RunEnd(src, i, EqualsSign) == i + level
    ensures src[i..i + level] == EqualsSigns(level)
  {
    var text := src[i..i + level];
    RunEndIsMaximal(src, i, EqualsSign, i + level);
    forall m | 0 <= m < |text| ensures text[m] == '=' {
      assert InClass(src[i + m], EqualsSign);
    }
  }

  lemma OpenSpelled(src: string, i: nat, level: nat)
    requires i < |src| && LongOpen(src, i) == Some(level)
    ensures src[i..i + level + 2] == "[" + EqualsSigns(level) + "["
  {
    EqualsSpelled(src, i + 1, level);
    assert src[i..i + level + 2] == [src[i]] + src[i + 1..i + 1 + level] + [src[i + 1 + level]];
  }

  lemma CloseSpelled(src: string, i: nat, level: nat)
    requires LongCloseAt(src, i, level)
    ensures i + level + 2 <= |src| && src[i..i + level + 2] == LongCloser(level)
  {
    EqualsSpelled(src, i + 1, level);
    assert src[i..i + level + 2] == [src[i]] + src[i + 1..i + 1 + level] + [src[i + 1 + level]];
  }

  lemma LongJoins(src: string, i: nat, base: nat, close: nat, level: nat)
    requires i + level + 2 == base <= close && close + level + 2 <= |src|
    requires src[i..base] == "[" + EqualsSigns(level) + "[" && src[close..close + level + 2] == LongCloser(level)
    ensures src[i..close + level + 2] == LongText(src[base..close], level)
  {
    assert src[i..close + level + 2] == src[i..base] + src[base..close] + src[close..close + level + 2];
  }

  /** Every token spells itself. */
  lemma EmitCovers(src: string, i: nat)
    requires i < |src| && StepAt(src, i).Emit?
    ensures StepAt(src, i).kind != Eof && Covers(src, i, StepAt(src, i).next, StepAt(src, i).kind)
  {
    if IsDigit(src[i]) {
      NumberCovers(src, i);
    } else if IsQuote(src[i]) {
      StringReads(src, i, StepAt(src, i).kind.text, StepAt(src, i).next);
    } else if LongOpen(src, i).Some? {
      LongCovers(src, i, LongOpen(src, i).value);
    } else if IsNameStart(src[i]) {
      WordCovers(src, i);
    } else {
      PunctuationStands(src, i);
    }
  }

  // ----- Spans -----

  /** Every lexeme but the end marker is read in one step. */
  lemma {:induction false} LexemeIsStep(src: string, i: nat, k: nat)
    requires i <= |src| && LexFrom(src, i).Ok? && k < |LexFrom(src, i).value|
    ensures var l := LexFrom(src, i).value[k];
            && l.from <= l.to <= |src|
            && (l == Lexeme(Eof, |src|, |src|) || (l.from < |src| && StepAt(src, l.from) == Emit(l.kind, l.to)))
    decreases |src| - i
  {
    if i == |src| {
      LexFromEnd(src);
    } else {
      var step := StepAt(src, i);
      if step.Skip? {
        LexFromSkip(src, i, step.next);
        LexemeIsStep(src, step.next, k);
      } else if step.Emit? {
        LexFromEmit(src, i, step.kind, step.next);
        if k > 0 {
          LexemeIsStep(src, step.next, k - 1);
        }
      }
    }
  }

  /** The bytes between two places of a source are those of the text between them. */
  lemma BytesBetween(src: string, i: nat, j: nat)
    requires i <= j <= |src|
    ensures Offset(src, i) <= Offset(src, j) <= |SourceBytes(src)|
    ensures SourceBytes(src)[Offset(src, i)..Offset(src, j)] == SourceBytes(src[i..j])
  {
    OffsetIsLength(src, i);
    OffsetIsLength(src, j);
    assert src[..j] == src[..i] + src[i..j] && src == src[..j] + src[j..];
    SourceBytesAppend(src[..i], src[i..j]);
    SourceBytesAppend(src[..j], src[j..]);
  }

  /** The span of a token holds the bytes of a text that spells it. */
  lemma SpanHoldsText(src: string, k: nat)
    requires Lex(src).Ok? && k < |Lex(src).value|
    ensures var t, l := Lex(src).value[k], Lexemes(src).value[k];
            && l.from <= l.to <= |src| && Covers(src, l.from, l.to, t.kind)
            && t.span.start <= t.span.end <= |SourceBytes(src)|
            && SourceBytes(src)[t.span.start..t.span.end] == SourceBytes(src[l.from..l.to])
  {
    hide LexFrom, StepAt, Covers;
    var l := Lexemes(src).value[k];
    LexemeIsStep(src, Start(src), k);
    BytesBetween(src, l.from, l.to);
    if l == Lexeme(Eof, |src|, |src|) {
      EndCovers(src);
    } else {
      EmitCovers(src, l.from);
    }
  }

  lemma EndCovers(src: string)
    ensures Covers(src, |src|, |src|, Eof)
  {}

  // ----- Literals by their text -----

  /** Hexadecimal digits in either case behind `0x` or `0X`: all of them, as a word of 64 bits, or a panic. */
  lemma HexLiteralReads(src: string, i: nat, digits: string)
    requires At(src, i, '0') && (At(src, i + 1, 'x') || At(src, i + 1, 'X'))
    requires IsNumeral(digits, 16) && Stands(src, i + 2, digits)
    requires !(i + 2 + |digits| < |src| && IsNumeral([src[i + 2 + |digits|]], 16))
    ensures StepAt(src, i) ==
            if ValueOf(digits, 16) < 0x1_0000_0000_0000_0000
            then Emit(Integer(SignedWord(ValueOf(digits, 16))), i + 2 + |digits|)
            else Fail(HexOverflow(Offset(src, i)))
  {
    hide NumberAt, StepAt, RunEnd, IsNumeral, ValueOf, NumeralValue;
    NumeralsAre(digits);
    ValuesAre(digits, 16);
    HexBehind(src, i + 2, digits);
    HexDigitsEnd(src, i + 2, digits);
    StandsAt(src, i + 2, digits, 0);
    DigitDispatch(src, i);
    HexNumberReads(src, i, digits);
  }

  lemma HexNumberReads(src: string, i: nat, digits: string)
    requires HexPrefixAt(src, i) && Stands(src, i + 2, digits)
    requires RunEnd(src, i + 2, HexadecimalDigit) == i + 2 + |digits|
    ensures NumberAt(src, i) ==
            if NumeralValue(digits, 16) < 0x1_0000_0000_0000_0000
            then Emit(Integer(SignedWord(NumeralValue(digits, 16))), i + 2 + |digits|)
            else Fail(HexOverflow(Offset(src, i)))
  {}

  lemma HexBehind(src: string, j: nat, digits: string)
    requires !(j + |digits| < |src| && IsNumeral([src[j + |digits|]], 16))
    ensures !ClassAt(src, j + |digits|, HexadecimalDigit)
  {
    if j + |digits| < |src| {
      DigitsAre(src[j + |digits|]);
      assert [src[j + |digits|]][0] == src[j + |digits|];
    }
  }

  // ----- Sources that do not lex -----

  /** The characters a token, a space or a comment may begin with. */
  predicate Begins(c: char) {
    || c in LexerStrings.SPACES || IsNumeral([c], 10) || c in LOWER_LETTERS || c in UPPER_LETTERS
    || c in {'_', '"', '\'', '+', '-', '*', '/', '%', '^', '&', '|', '~', '<', '>', '#', '=', '.', '(', ')', '{', '}',
             '[', ']', ',', ';', ':'}
  }

  lemma BeginsIs(c: char)
    ensures Begins(c) <==>
            || IsSpace(c) || IsDigit(c) || IsNameStart(c) || c == '"' || c == '\'' || SingleAt(c).Some?
            || c in {'=', '<', '>', '~', '/', '.'}
  {
    hide LOWER_LETTERS, UPPER_LETTERS, LexerStrings.SPACES;
    SpacesAre(c);
    DigitsAre(c);
    assert [c][0] == c;
    NameCharactersAre(c);
  }

  /** No close of this level follows the opening bracket at `i`. */
  ghost predicate NeverCloses(src: string, i: nat, level: nat) {
    && i < |src| && LongOpen(src, i) == Some(level)
    && forall m | BodyStart(src, i + level + 2) <= m < |src| :: !LongCloseAt(src, m, level)
  }

  ghost predicate Unclosed(src: string, i: nat) { exists level: nat :: NeverCloses(src, i, level) }

  /** From `i` on, pieces of a string lead to where it is cut off. */
  ghost predicate CutsOff(src: string, i: nat, quote: char) {
    exists ps: seq<Piece>, j: nat :: PiecesAt(src, i, ps, j, quote) && CutOff(src, j)
  }

  /** They lead to a backslash that starts no escape; the error is one character behind it. */
  ghost predicate EscapesNot(src: string, i: nat, quote: char, error: LexError) {
    exists ps: seq<Piece>, j: nat ::
      PiecesAt(src, i, ps, j, quote) && NoEscape(src, j, quote)
      && error == InvalidEscape(FaultText(src, j + 1), Offset(src, j + 1))
  }

  /** Spaces are skipped, and so are comments: to the end of the line, or to where their bracket closes. */
  lemma TriviaAreSkipped(src: string, i: nat)
    requires i < |src|
    ensures src[i] in LexerStrings.SPACES ==> StepAt(src, i) == Skip(i + 1)
    ensures Dashes(src, i) && LongOpen(src, i + 2).None? ==>
              StepAt(src, i).Skip? && LineComment(src, i, StepAt(src, i).next)
    ensures Dashes(src, i) && LongOpen(src, i + 2).Some? ==>
              if Unclosed(src, i + 2) then StepAt(src, i) == Fail(UnterminatedComment(Offset(src, i)))
              else StepAt(src, i).Skip? && BlockComment(src, i, StepAt(src, i).next)
  {
    SpacesAre(src[i]);
    if Dashes(src, i) {
      CommentSteps(src, i);
    }
  }

  lemma CommentSteps(src: string, i: nat)
    requires Dashes(src, i)
    ensures LongOpen(src, i + 2).None? ==> StepAt(src, i).Skip? && LineComment(src, i, StepAt(src, i).next)
    ensures LongOpen(src, i + 2).Some? ==>
              if Unclosed(src, i + 2) then StepAt(src, i) == Fail(UnterminatedComment(Offset(src, i)))
              else StepAt(src, i).Skip? && BlockComment(src, i, StepAt(src, i).next)
  {
    assert StepAt(src, i) == CommentAt(src, i);
    if CommentAt(src, i).Skip? {
      CommentIsTrivium(src, i);
    }
    if LongOpen(src, i + 2).Some? {
      CommentCloses(src, i + 2, LongOpen(src, i + 2).value);
    }
  }

  lemma CommentCloses(src: string, i: nat, level: nat)
    requires i < |src| && LongOpen(src, i) == Some(level)
    ensures Unclosed(src, i) <==> LongClose(src, BodyStart(src, i + level + 2), level).None?
  {
    var start := BodyStart(src, i + level + 2);
    if LongClose(src, start, level).Some? {
      LongCloseIsFirst(src, start, level, LongClose(src, start, level).value);
    } else {
      OpenFails(src, i, level);
    }
  }

  /** Where a mark stands that opens no comment and no long bracket, a mark is read, and the longest. */
  lemma MarksRead(src: string, i: nat, p: Punctuation)
    requires Stands(src, i, PunctuationText(p)) && !Dashes(src, i) && LongOpen(src, i).None?
    ensures StepAt(src, i).Emit? && StepAt(src, i).kind.Punct?
    ensures var q, next := StepAt(src, i).kind.p, StepAt(src, i).next;
            Stands(src, i, PunctuationText(q)) && next == i + |PunctuationText(q)| >= i + |PunctuationText(p)|
  {
    PunctuationFirst(p);
    StandsAt(src, i, PunctuationText(p), 0);
    PunctuationLongest(src, i, p);
    assert StepAt(src, i) == PunctuationAt(src, i);
  }

  /** What is wrong at `i`. */
  ghost predicate Wrong(src: string, i: nat, error: LexError)
    requires i < |src|
  {
    match error
    case Unexpected(c, offset) => c == src[i] && offset == Offset(src, i) && !Begins(c)
    case UnterminatedComment(offset) =>
      offset == Offset(src, i) && At(src, i, '-') && At(src, i + 1, '-')
      && Unclosed(src, i + 2)
    case UnterminatedBracket(offset) => offset == Offset(src, i) && Unclosed(src, i)
    case HexOverflow(offset) =>
      offset == Offset(src, i) && HexPrefixAt(src, i)
      && Significant(src[i + 2..RunEnd(src, i + 2, HexadecimalDigit)]) > 16
    case UnterminatedString(offset) =>
      offset == Offset(src, i) && IsQuote(src[i]) && CutsOff(src, i + 1, src[i])
    case InvalidEscape(_, _) => IsQuote(src[i]) && EscapesNot(src, i + 1, src[i], error)
  }

  lemma {:induction false} NoLongClose(src: string, i: nat, level: nat)
    requires i <= |src| && LongClose(src, i, level).None?
    ensures forall m | i <= m < |src| :: !LongCloseAt(src, m, level)
    decreases |src| - i
  {
    if i < |src| {
      NoLongClose(src, i + 1, level);
    }
  }

  lemma OpenFails(src: string, i: nat, level: nat)
    requires i < |src| && LongOpen(src, i) == Some(level)
    requires LongClose(src, BodyStart(src, i + level + 2), level).None?
    ensures NeverCloses(src, i, level)
  {
    NoLongClose(src, BodyStart(src, i + level + 2), level);
  }

  lemma PunctuationFails(src: string, i: nat)
    requires i < |src| && PunctuationAt(src, i).Fail? && StepAt(src, i) == PunctuationAt(src, i)
    requires !IsSpace(src[i]) && !IsDigit(src[i]) && !IsQuote(src[i]) && !IsNameStart(src[i])
    ensures Wrong(src, i, PunctuationAt(src, i).error)
  {
    BeginsIs(src[i]);
  }

  lemma StringWrong(src: string, i: nat)
    requires i < |src| && IsQuote(src[i]) && StepAt(src, i).Fail?
    ensures Wrong(src, i, StepAt(src, i).error)
  {
    hide StepAt;
    var ps, j := StringFails(src, i);
  }

  /** A failure says what is wrong where it is. */
  lemma FailsAs(src: string, i: nat)
    requires i < |src| && StepAt(src, i).Fail?
    ensures Wrong(src, i, StepAt(src, i).error)
  {
    if At(src, i, '-') && At(src, i + 1, '-') {
      OpenFails(src, i + 2, LongOpen(src, i + 2).value);
    } else if IsDigit(src[i]) {
      HexOverflows(src, i);
    } else if IsQuote(src[i]) {
      StringWrong(src, i);
    } else if LongOpen(src, i).Some? {
      OpenFails(src, i, LongOpen(src, i).value);
    } else {
      PunctuationFails(src, i);
    }
  }

  /** A character nothing begins with always fails. */
  lemma UnexpectedFails(src: string, i: nat)
    requires i < |src| && !Begins(src[i])
    ensures StepAt(src, i) == Fail(Unexpected(src[i], Offset(src, i)))
  {
    BeginsIs(src[i]);
  }

  /** Steps lead from `i` to `j`. */
  ghost predicate Leads(src: string, i: nat, j: nat)
    requires i <= |src|
    decreases |src| - i
  {
    i == j || (i < |src| && match StepAt(src, i)
                            case Skip(next) => Leads(src, next, j)
                            case Emit(_, next) => Leads(src, next, j)
                            case Fail(_) => false)
  }

  /** A source that does not lex is reported at the first place where something is wrong. */
  lemma LexFails(src: string) returns (j: nat)
    requires Lex(src).Err?
    ensures Leads(src, Start(src), j) && j < |src| && StepAt(src, j) == Fail(Lex(src).error)
    ensures Wrong(src, j, Lex(src).error)
  {
    j := LexFromFails(src, Start(src));
    FailsAs(src, j);
  }

  lemma {:induction false} LexFromFails(src: string, i: nat) returns (j: nat)
    requires i <= |src| && LexFrom(src, i).Err?
    ensures Leads(src, i, j) && j < |src| && StepAt(src, j) == Fail(LexFrom(src, i).error)
    decreases |src| - i
  {
    if StepAt(src, i).Fail? {
      j := i;
    } else {
      j := LexFromFails(src, StepAt(src, i).next);
    }
  }
}

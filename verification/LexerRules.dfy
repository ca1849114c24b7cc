/**
 The lexical rules of Lua 5.4 (section 3.1 of its Reference Manual) as the lexer applies them: what one
 token, comment or space at a given place is, and the token list of a whole source.  Places are counted in
 characters; token spans and errors are in bytes of the UTF-8 text.
 */
module LexerRules {
  import opened Wrappers
  import Int64
  import Bits
  import opened Numerals
  import Utf8

  // ----- Tokens -----

  datatype Keyword =
    | Local | Do | End | True | False | Nil | If | Then | Else | Elseif | While | And | Or | Not
    | For | Break | Function | Return | Repeat | Until | In

  datatype Punctuation =
    | LParen | RParen | Plus | Minus | Star | Slash | SlashSlash | Percent | Caret | Amp | Pipe | Tilde
    | LtLt | GtGt | DotDot | DotDotDot | Dot | Hash | Equals | EqEq | TildeEq | Lt | LtEq | Gt | GtEq
    | Comma | Semicolon | Colon | LBrace | RBrace | LBracket | RBracket

  /** A float is kept as its lexeme. */
  datatype Kind =
    | Integer(i: Int64.I64)
    | Float(lexeme: string)
    | Str(text: string)
    | Ident(name: string)
    | Word(keyword: Keyword)
    | Punct(p: Punctuation)
    | Eof

  datatype Span = Span(start: nat, end: nat)

  datatype Token = Token(kind: Kind, span: Span)

  /** `HexOverflow` stands for the panic on a hexadecimal literal beyond 64 bits. */
  datatype LexError =
    | Unexpected(ch: char, offset: nat)
    | UnterminatedString(offset: nat)
    | InvalidEscape(text: string, offset: nat)
    | UnterminatedComment(offset: nat)
    | UnterminatedBracket(offset: nat)
    | HexOverflow(offset: nat)

  datatype Lexing<+T> = Ok(value: T) | Err(error: LexError)

  function KeywordText(k: Keyword): string {
    match k
    case Local => "local"
    case Do => "do"
    case End => "end"
    case True => "true"
    case False => "false"
    case Nil => "nil"
    case If => "if"
    case Then => "then"
    case Else => "else"
    case Elseif => "elseif"
    case While => "while"
    case And => "and"
    case Or => "or"
    case Not => "not"
    case For => "for"
    case Break => "break"
    case Function => "function"
    case Return => "return"
    case Repeat => "repeat"
    case Until => "until"
    case In => "in"
  }

  function KeywordOf(text: string): Option<Keyword> {
    if text == "local" then Some(Local)
    else if text == "do" then Some(Do)
    else if text == "end" then Some(End)
    else if text == "true" then Some(True)
    else if text == "false" then Some(False)
    else if text == "nil" then Some(Nil)
    else if text == "if" then Some(If)
    else if text == "then" then Some(Then)
    else if text == "else" then Some(Else)
    else if text == "elseif" then Some(Elseif)
    else if text == "while" then Some(While)
    else if text == "and" then Some(And)
    else if text == "or" then Some(Or)
    else if text == "not" then Some(Not)
    else if text == "for" then Some(For)
    else if text == "break" then Some(Break)
    else if text == "function" then Some(Function)
    else if text == "return" then Some(Return)
    else if text == "repeat" then Some(Repeat)
    else if text == "until" then Some(Until)
    else if text == "in" then Some(In)
    else None
  }

  // ----- Characters and places -----

  datatype CharClass = Space | DecimalDigit | HexadecimalDigit | NameChar | EqualsSign | NotNewline

  predicate IsSpace(c: char) { c == ' ' || c == '\t' || c == '\n' || c == 12 as char || c == '\r' }
  predicate IsLetter(c: char) { 'a' <= c <= 'z' || 'A' <= c <= 'Z' }
  predicate IsNameStart(c: char) { c == '_' || IsLetter(c) }
  predicate IsNameChar(c: char) { IsNameStart(c) || IsDigit(c) }

  predicate InClass(c: char, k: CharClass) {
    match k
    case Space => IsSpace(c)
    case DecimalDigit => IsDigit(c)
    case HexadecimalDigit => IsHexDigit(c)
    case NameChar => IsNameChar(c)
    case EqualsSign => c == '='
    case NotNewline => c != '\n'
  }

  predicate At(src: string, i: nat, c: char) { i < |src| && src[i] == c }
  predicate ClassAt(src: string, i: nat, k: CharClass) { i < |src| && InClass(src[i], k) }

  /** Where the longest run of class-`k` characters from `i` ends. */
  function RunEnd(src: string, i: nat, k: CharClass): (j: nat)
    requires i <= |src|
    ensures i <= j <= |src|
    decreases |src| - i
  {
    if ClassAt(src, i, k) then RunEnd(src, i + 1, k) else i
  }

  lemma {:induction false} RunEndIsMaximal(src: string, i: nat, k: CharClass, j: nat)
    requires i <= |src|
    ensures j == RunEnd(src, i, k) <==>
            i <= j <= |src| && (forall m | i <= m < j :: InClass(src[m], k)) && !ClassAt(src, j, k)
    decreases |src| - i
  {
    if ClassAt(src, i, k) {
      RunEndIsMaximal(src, i + 1, k, j);
    }
  }

  function Utf8Length(c: char): nat {
    if c as int < 0x80 then 1 else if c as int < 0x800 then 2 else if c as int < 0x1_0000 then 3 else 4
  }

  /** The byte at which character `i` begins. */
  function Offset(src: string, i: nat): nat
    requires i <= |src|
  {
    if i == 0 then 0 else Offset(src, i - 1) + Utf8Length(src[i - 1])
  }

  // ----- Long brackets -----

  /** The level of a long bracket that opens at `i`. */
  function LongOpen(src: string, i: nat): (level: Option<nat>)
    ensures level.Some? ==> i + level.value + 2 <= |src|
  {
    if !At(src, i, '[') then None
    else
      var e := RunEnd(src, i + 1, EqualsSign);
      if At(src, e, '[') then Some(e - (i + 1)) else None
  }

  /** A long bracket of this level closes at `i`. */
  predicate LongCloseAt(src: string, i: nat, level: nat) {
    At(src, i, ']') && RunEnd(src, i + 1, EqualsSign) == i + 1 + level && At(src, i + 1 + level, ']')
  }

  /** The first such place from `i` on. */
  function LongClose(src: string, i: nat, level: nat): (r: Option<nat>)
    requires i <= |src|
    ensures r.Some? ==> i <= r.value && r.value + level + 2 <= |src|
    decreases |src| - i
  {
    if i == |src| then None
    else if LongCloseAt(src, i, level) then Some(i)
    else LongClose(src, i + 1, level)
  }

  /** A newline right after the opening bracket is not part of the body. */
  function BodyStart(src: string, i: nat): (j: nat)
    ensures i <= |src| ==> i <= j <= |src|
  {
    if At(src, i, '\n') then i + 1 else i
  }

  // ----- What stands at one place -----

  datatype Step = Skip(next: nat) | Emit(kind: Kind, next: nat) | Fail(error: LexError)

  /** A step moves forward, within the source. */
  predicate Forward(s: Step, src: string, i: nat) {
    match s
    case Skip(next) => i < next <= |src|
    case Emit(_, next) => i < next <= |src|
    case Fail(_) => true
  }

  /** The rest of a comment whose two dashes start at `i`. */
  function CommentAt(src: string, i: nat): (s: Step)
    requires i + 2 <= |src|
    ensures Forward(s, src, i)
  {
    match LongOpen(src, i + 2)
    case None => Skip(RunEnd(src, i + 2, NotNewline))
    case Some(level) =>
      match LongClose(src, BodyStart(src, i + level + 4), level)
      case None => Fail(UnterminatedComment(Offset(src, i)))
      case Some(close) => Skip(close + level + 2)
  }

  function LongStringAt(src: string, i: nat, level: nat): (s: Step)
    requires i + level + 2 <= |src|
    ensures Forward(s, src, i)
  {
    var start := BodyStart(src, i + level + 2);
    match LongClose(src, start, level)
    case None => Fail(UnterminatedBracket(Offset(src, i)))
    case Some(close) => Emit(Str(src[start..close]), close + level + 2)
  }

  // ----- Numbers -----

  /** A hexadecimal prefix counts only with a digit behind it. */
  predicate HexPrefixAt(src: string, i: nat) {
    At(src, i, '0') && (At(src, i + 1, 'x') || At(src, i + 1, 'X')) && ClassAt(src, i + 2, HexadecimalDigit)
  }

  function FractionEnd(src: string, i: nat): (j: nat)
    requires i <= |src|
    ensures i <= j <= |src|
  {
    if At(src, i, '.') && ClassAt(src, i + 1, DecimalDigit) then RunEnd(src, i + 1, DecimalDigit) else i
  }

  function ExponentEnd(src: string, i: nat): (j: nat)
    requires i <= |src|
    ensures i <= j <= |src|
  {
    if !At(src, i, 'e') && !At(src, i, 'E') then i
    else
      var probe := if At(src, i + 1, '+') || At(src, i + 1, '-') then i + 2 else i + 1;
      if ClassAt(src, probe, DecimalDigit) then RunEnd(src, probe, DecimalDigit) else i
  }

  function NumberAt(src: string, i: nat): (s: Step)
    requires ClassAt(src, i, DecimalDigit)
    ensures Forward(s, src, i)
  {
    if HexPrefixAt(src, i) then
      var end := RunEnd(src, i + 2, HexadecimalDigit);
      var value := NumeralValue(src[i + 2..end], 16);
      // The bits of the literal, read as a signed word.
      if value < Bits.WORD then Emit(Integer(Int64.Signed(value)), end) else Fail(HexOverflow(Offset(src, i)))
    else
      var whole := RunEnd(src, i, DecimalDigit);
      var end := ExponentEnd(src, FractionEnd(src, whole));
      var value := NumeralValue(src[i..whole], 10);
      if end == whole && value <= Int64.MAX then Emit(Integer(value), end) else Emit(Float(src[i..end]), end)
  }

  // ----- Short strings -----

  datatype Escape = Yields(c: char, next: nat) | Nothing(next: nat) | Invalid(error: LexError)

  predicate EscapeForward(r: Escape, src: string, e: nat) {
    match r
    case Yields(_, next) => e < next <= |src|
    case Nothing(next) => e < next <= |src|
    case Invalid(_) => true
  }

  function SimpleEscape(c: char): Option<char> {
    if c == 'n' then Some('\n')
    else if c == 't' then Some('\t')
    else if c == 'r' then Some('\r')
    else if c == '\\' || c == '"' || c == '\'' then Some(c)
    else if c == 'a' then Some(7 as char)
    else if c == 'b' then Some(8 as char)
    else if c == 'f' then Some(12 as char)
    else if c == 'v' then Some(11 as char)
    else None
  }

  /** `\xHH` at its `x`: exactly two digits, up to 7F. */
  function HexEscape(src: string, e: nat): (r: Escape)
    requires e < |src|
    ensures EscapeForward(r, src, e)
  {
    if !ClassAt(src, e + 1, HexadecimalDigit) || !ClassAt(src, e + 2, HexadecimalDigit) then
      Invalid(InvalidEscape("\\x", Offset(src, e)))
    else
      var value := DigitValue(src[e + 1]) * 16 + DigitValue(src[e + 2]);
      if value > 0x7F then Invalid(InvalidEscape("\\x" + Hexadecimal(value), Offset(src, e)))
      else Yields(value as char, e + 3)
  }

  /** The end of a run of at most three digits. */
  function ThreeDigitsEnd(src: string, e: nat): (j: nat)
    requires ClassAt(src, e, DecimalDigit)
    ensures e < j <= e + 3 && j <= |src| && forall m | e <= m < j :: IsDigit(src[m])
  {
    if !ClassAt(src, e + 1, DecimalDigit) then e + 1
    else if !ClassAt(src, e + 2, DecimalDigit) then e + 2
    else e + 3
  }

  /** `\ddd` at its first digit: one to three digits, up to 127. */
  function DecimalEscape(src: string, e: nat): (r: Escape)
    requires ClassAt(src, e, DecimalDigit)
    ensures EscapeForward(r, src, e)
  {
    var end := ThreeDigitsEnd(src, e);
    var value := NumeralValue(src[e..end], 10);
    if value > 127 then Invalid(InvalidEscape("\\" + Decimal(value), Offset(src, e))) else Yields(value as char, end)
  }

  const MAX_U32: nat := 0xFFFF_FFFF

  /** The digits of `\u{...}` from `j`, given the value and the number of those before; `e` is at the `u`. */
  function UnicodeDigits(src: string, j: nat, value: nat, digits: nat, e: nat): (r: Escape)
    requires e < j <= |src|
    ensures EscapeForward(r, src, e)
    decreases |src| - j
  {
    if At(src, j, '}') then
      if digits == 0 then Invalid(InvalidEscape("\\u{}", Offset(src, e)))
      else if !Utf8.IsScalar(value) then Invalid(InvalidEscape("\\u{" + Hexadecimal(value) + "}", Offset(src, e)))
      else Yields(value as char, j + 1)
    else if ClassAt(src, j, HexadecimalDigit) then
      var next := value * 16 + DigitValue(src[j]);
      if next > MAX_U32 then Invalid(InvalidEscape("\\u{...}", Offset(src, e)))
      else UnicodeDigits(src, j + 1, next, digits + 1, e)
    else Invalid(InvalidEscape("\\u{", Offset(src, e)))
  }

  /** An escape sequence, at the character after its backslash. */
  function EscapeAt(src: string, e: nat): (r: Escape)
    requires e < |src|
    ensures EscapeForward(r, src, e)
  {
    var c := src[e];
    if c == 'z' then Nothing(RunEnd(src, e + 1, Space))
    else if SimpleEscape(c).Some? then Yields(SimpleEscape(c).value, e + 1)
    else if c == 'x' then HexEscape(src, e)
    else if c == 'u' then
      if At(src, e + 1, '{') then UnicodeDigits(src, e + 2, 0, 0, e)
      else Invalid(InvalidEscape("\\u", Offset(src, e)))
    else if IsDigit(c) then DecimalEscape(src, e)
    else Invalid(InvalidEscape("\\" + [c], Offset(src, e)))
  }

  datatype Body = Closed(text: string, next: nat) | Broken(error: LexError)

  function Prepend(text: string, b: Body): Body {
    match b
    case Closed(rest, next) => Closed(text + rest, next)
    case Broken(error) => Broken(error)
  }

  /** The rest of a short string from `j`; `open` is the offset of its opening quote. */
  function StringBody(src: string, j: nat, quote: char, open: nat): (b: Body)
    requires j <= |src|
    ensures b.Closed? ==> j < b.next <= |src|
    decreases |src| - j
  {
    if j == |src| then Broken(UnterminatedString(open))
    else if src[j] == quote then Closed("", j + 1)
    else if src[j] == '\n' then Broken(UnterminatedString(open))
    else if src[j] != '\\' then Prepend([src[j]], StringBody(src, j + 1, quote, open))
    else if j + 1 == |src| then Broken(UnterminatedString(open))
    else match EscapeAt(src, j + 1)
      case Yields(c, next) => Prepend([c], StringBody(src, next, quote, open))
      case Nothing(next) => StringBody(src, next, quote, open)
      case Invalid(error) => Broken(error)
  }

  function StringAt(src: string, i: nat): (s: Step)
    requires i < |src|
    ensures Forward(s, src, i)
  {
    match StringBody(src, i + 1, src[i], Offset(src, i))
    case Closed(text, next) => Emit(Str(text), next)
    case Broken(error) => Fail(error)
  }

  // ----- Words and punctuation -----

  function WordAt(src: string, i: nat): (s: Step)
    requires i < |src| && IsNameStart(src[i])
    ensures Forward(s, src, i)
  {
    var end := RunEnd(src, i, NameChar);
    var name := src[i..end];
    Emit(if KeywordOf(name).Some? then Word(KeywordOf(name).value) else Ident(name), end)
  }

  /** One of two tokens, the longer if the next character is `c`. */
  function Longer(src: string, i: nat, c: char, long: Punctuation, short: Step): Step {
    if At(src, i + 1, c) then Emit(Punct(long), i + 2) else short
  }

  function SingleAt(c: char): Option<Punctuation> {
    if c == '(' then Some(LParen)
    else if c == ')' then Some(RParen)
    else if c == '+' then Some(Plus)
    else if c == '-' then Some(Minus)
    else if c == '*' then Some(Star)
    else if c == '%' then Some(Percent)
    else if c == '^' then Some(Caret)
    else if c == '&' then Some(Amp)
    else if c == '|' then Some(Pipe)
    else if c == '#' then Some(Hash)
    else if c == ',' then Some(Comma)
    else if c == ';' then Some(Semicolon)
    else if c == ':' then Some(Colon)
    else if c == '{' then Some(LBrace)
    else if c == '}' then Some(RBrace)
    else if c == '[' then Some(LBracket)
    else if c == ']' then Some(RBracket)
    else None
  }

  function PunctuationAt(src: string, i: nat): (s: Step)
    requires i < |src|
    ensures Forward(s, src, i)
  {
    var c := src[i];
    if c == '=' then Longer(src, i, '=', EqEq, Emit(Punct(Equals), i + 1))
    else if c == '<' then Longer(src, i, '=', LtEq, Longer(src, i, '<', LtLt, Emit(Punct(Lt), i + 1)))
    else if c == '>' then Longer(src, i, '=', GtEq, Longer(src, i, '>', GtGt, Emit(Punct(Gt), i + 1)))
    else if c == '~' then Longer(src, i, '=', TildeEq, Emit(Punct(Tilde), i + 1))
    else if c == '/' then Longer(src, i, '/', SlashSlash, Emit(Punct(Slash), i + 1))
    else if c == '.' then
      if At(src, i + 1, '.') && At(src, i + 2, '.') then Emit(Punct(DotDotDot), i + 3)
      else Longer(src, i, '.', DotDot, Emit(Punct(Dot), i + 1))
    else match SingleAt(c)
      case Some(p) => Emit(Punct(p), i + 1)
      case None => Fail(Unexpected(c, Offset(src, i)))
  }

  function StepAt(src: string, i: nat): (s: Step)
    requires i < |src|
    ensures Forward(s, src, i)
  {
    var c := src[i];
    if IsSpace(c) then Skip(i + 1)
    else if c == '-' && At(src, i + 1, '-') then CommentAt(src, i)
    else if IsDigit(c) then NumberAt(src, i)
    else if c == '"' || c == '\'' then StringAt(src, i)
    else if LongOpen(src, i).Some? then LongStringAt(src, i, LongOpen(src, i).value)
    else if IsNameStart(c) then WordAt(src, i)
    else PunctuationAt(src, i)
  }

  // ----- The whole source -----

  /** A first line beginning `#!` is skipped. */
  function Start(src: string): (i: nat)
    ensures i <= |src|
  {
    if At(src, 0, '#') && At(src, 1, '!') then
      var end := RunEnd(src, 0, NotNewline);
      if end < |src| then end + 1 else end
    else 0
  }

  /** A token and the characters it covers. */
  datatype Lexeme = Lexeme(kind: Kind, from: nat, to: nat)

  function AddLexeme(l: Lexeme, rest: Lexing<seq<Lexeme>>): Lexing<seq<Lexeme>> {
    match rest
    case Ok(ls) => Ok([l] + ls)
    case Err(error) => Err(error)
  }

  function LexFrom(src: string, i: nat): Lexing<seq<Lexeme>>
    requires i <= |src|
    decreases |src| - i
  {
    if i == |src| then Ok([Lexeme(Eof, i, i)])
    else match StepAt(src, i)
      case Skip(next) => LexFrom(src, next)
      case Emit(kind, next) => AddLexeme(Lexeme(kind, i, next), LexFrom(src, next))
      case Fail(error) => Err(error)
  }

  function Lexemes(src: string): Lexing<seq<Lexeme>> { LexFrom(src, Start(src)) }

  predicate Within(src: string, ls: seq<Lexeme>) {
    forall k | 0 <= k < |ls| :: ls[k].from <= |src| && ls[k].to <= |src|
  }

  function TokenOf(src: string, l: Lexeme): Token
    requires l.from <= |src| && l.to <= |src|
  {
    Token(l.kind, Span(Offset(src, l.from), Offset(src, l.to)))
  }

  function TokensOf(src: string, ls: seq<Lexeme>): (ts: seq<Token>)
    requires Within(src, ls)
    ensures |ts| == |ls|
  {
    seq(|ls|, k requires 0 <= k < |ls| => TokenOf(src, ls[k]))
  }

  lemma {:induction false} LexFromWithin(src: string, i: nat)
    requires i <= |src|
    ensures LexFrom(src, i).Ok? ==> Within(src, LexFrom(src, i).value)
    decreases |src| - i
  {
    if i < |src| {
      match StepAt(src, i) {
        case Skip(next) => LexFromWithin(src, next);
        case Emit(_, next) => LexFromWithin(src, next);
        case Fail(_) =>
      }
    }
  }

  /** The token list of a source. */
  function Lex(src: string): Lexing<seq<Token>> {
    LexFromWithin(src, Start(src));
    match Lexemes(src)
    case Ok(ls) => Ok(TokensOf(src, ls))
    case Err(error) => Err(error)
  }
}

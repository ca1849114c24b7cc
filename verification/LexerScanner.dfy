/**
 The lexer as it runs: a cursor advanced one character at a time, lookahead in the bytes behind it, and
 tokens and string bodies that grow.  Each method is proved to do what the rules of `LexerRules` say.
 */
module LexerScanner {
  import opened Wrappers
  import opened Numerals
  import opened LexerRules
  import opened Bytes
  import Int64
  import Bits
  import Utf8

  // ----- Bytes and characters -----

  function Scalars(src: string): (cps: seq<int>)
    ensures |cps| == |src| && forall k | 0 <= k < |src| :: cps[k] == src[k] as int && Utf8.IsScalar(cps[k])
  {
    seq(|src|, k requires 0 <= k < |src| => src[k] as int)
  }

  /** The bytes of a source text. */
  function SourceBytes(src: string): seq<Byte> { Utf8.EncodeAll(Scalars(src)) }

  lemma {:induction false} OffsetSplit(src: string, i: nat)
    requires i < |src|
    ensures Offset(src, i + 1) == Offset(src, i) + |Utf8.Encode(src[i] as int)|
    ensures |SourceBytes(src[..i])| == Offset(src, i)
    ensures SourceBytes(src) == SourceBytes(src[..i]) + Utf8.Encode(src[i] as int) + SourceBytes(src[i + 1..])
  {
    assert src == src[..i] + [src[i]] + src[i + 1..];
    SourceBytesAppend(src[..i] + [src[i]], src[i + 1..]);
    SourceBytesAppend(src[..i], [src[i]]);
    OneByteText(src[i]);
    OffsetIsLength(src, i);
  }

  lemma OneByteText(c: char)
    ensures SourceBytes([c]) == Utf8.Encode(c as int)
  {
    assert Scalars([c]) == [c as int];
    assert [c as int][..0] == [] && Utf8.EncodeAll([]) == [];
    assert [] + Utf8.Encode(c as int) == Utf8.Encode(c as int);
  }

  lemma {:induction false} SourceBytesAppend(a: string, b: string)
    ensures SourceBytes(a + b) == SourceBytes(a) + SourceBytes(b)
    decreases |b|
  {
    if b == "" {
      assert a + b == a;
    } else {
      var init := b[..|b| - 1];
      SourceBytesAppend(a, init);
      assert Scalars(a + b)[..|a + b| - 1] == Scalars(a + init) && Scalars(b)[..|b| - 1] == Scalars(init);
    }
  }

  lemma {:induction false} OffsetIsLength(src: string, i: nat)
    requires i <= |src|
    ensures |SourceBytes(src[..i])| == Offset(src, i)
    decreases i
  {
    if i > 0 {
      assert src[..i] == src[..i - 1] + [src[i - 1]];
      SourceBytesAppend(src[..i - 1], [src[i - 1]]);
      OneByteText(src[i - 1]);
      OffsetIsLength(src, i - 1);
    }
  }

  predicate ByteIs(bytes: seq<Byte>, at: nat, c: char) { at < |bytes| && bytes[at] as int == c as int }

  predicate ByteIn(bytes: seq<Byte>, at: nat, k: CharClass) {
    at < |bytes| && (bytes[at] as int) < 0x80 && InClass(bytes[at] as int as char, k)
  }

  /** Looking for an ASCII byte where a character begins is looking for that character. */
  lemma AsciiLookahead(src: string, i: nat, c: char)
    requires i <= |src| && c as int < 0x80
    ensures At(src, i, c) <==> ByteIs(SourceBytes(src), Offset(src, i), c)
    ensures At(src, i, c) ==> Offset(src, i + 1) == Offset(src, i) + 1
  {
    if i < |src| {
      OffsetSplit(src, i);
      var code := Utf8.Encode(src[i] as int);
      assert SourceBytes(src)[Offset(src, i)] == code[0];
    } else {
      OffsetIsLength(src, i);
      assert src[..i] == src;
    }
  }

  lemma DigitLookahead(src: string, i: nat, k: CharClass)
    requires i <= |src| && (k.DecimalDigit? || k.HexadecimalDigit?)
    ensures ClassAt(src, i, k) <==> ByteIn(SourceBytes(src), Offset(src, i), k)
    ensures ClassAt(src, i, k) ==> Offset(src, i + 1) == Offset(src, i) + 1
  {
    if i < |src| {
      OffsetSplit(src, i);
      assert SourceBytes(src)[Offset(src, i)] == Utf8.Encode(src[i] as int)[0];
    } else {
      OffsetIsLength(src, i);
      assert src[..i] == src;
    }
  }

  // ----- Tokens so far -----

  function AddAll(done: seq<Lexeme>, rest: Lexing<seq<Lexeme>>): Lexing<seq<Lexeme>> {
    match rest
    case Ok(ls) => Ok(done + ls)
    case Err(error) => Err(error)
  }

  lemma AddOne(done: seq<Lexeme>, l: Lexeme, rest: Lexing<seq<Lexeme>>)
    ensures AddAll(done, AddLexeme(l, rest)) == AddAll(done + [l], rest)
  {
    if rest.Ok? {
      assert done + ([l] + rest.value) == done + [l] + rest.value;
    }
  }

  class Cursor {
    const src: string
    var pos: nat
    var offset: nat

    ghost predicate Valid()
      reads this
    {
      pos <= |src| && offset == Offset(src, pos)
    }

    /** The bytes of the source. */
    function Bytes(): seq<Byte> { SourceBytes(src) }

    constructor (src: string)
      ensures Valid() && this.src == src && pos == 0
    {
      this.src, pos, offset := src, 0, 0;
    }

    /** Whether byte `at`, where character `i` begins, is the ASCII character `c`. */
    method ByteAt(at: nat, c: char, ghost i: nat) returns (r: bool)
      requires Valid() && i <= |src| && at == Offset(src, i) && c as int < 0x80
      ensures r == At(src, i, c) && (r ==> Offset(src, i + 1) == at + 1)
    {
      AsciiLookahead(src, i, c);
      r := ByteIs(Bytes(), at, c);
    }

    /** Whether byte `at`, where character `i` begins, is a digit. */
    method DigitAt(at: nat, k: CharClass, ghost i: nat) returns (r: bool)
      requires Valid() && i <= |src| && at == Offset(src, i) && (k.DecimalDigit? || k.HexadecimalDigit?)
      ensures r == ClassAt(src, i, k) && (r ==> Offset(src, i + 1) == at + 1)
    {
      DigitLookahead(src, i, k);
      r := ByteIn(Bytes(), at, k);
    }

    method Advance()
      requires Valid() && pos < |src|
      modifies this
      ensures Valid() && pos == old(pos) + 1
    {
      offset := offset + Utf8Length(src[pos]);
      pos := pos + 1;
    }

    /** Advance while the next character is of class `k`. */
    method SkipRun(k: CharClass)
      requires Valid()
      modifies this
      ensures Valid() && pos == RunEnd(src, old(pos), k)
    {
      while pos < |src| && InClass(src[pos], k)
        invariant Valid() && RunEnd(src, pos, k) == RunEnd(src, old(pos), k)
        decreases |src| - pos
      {
        Advance();
      }
    }

    /** The same for digits, looking at the bytes. */
    method SkipDigits(k: CharClass)
      requires Valid() && (k.DecimalDigit? || k.HexadecimalDigit?)
      modifies this
      ensures Valid() && pos == RunEnd(src, old(pos), k)
    {
      var more := DigitAt(offset, k, pos);
      while more
        invariant Valid() && RunEnd(src, pos, k) == RunEnd(src, old(pos), k) && more == ClassAt(src, pos, k)
        decreases |src| - pos
      {
        Advance();
        more := DigitAt(offset, k, pos);
      }
    }

    method AdvanceBy(n: nat)
      requires Valid() && pos + n <= |src|
      modifies this
      ensures Valid() && pos == old(pos) + n
    {
      for k := 0 to n
        invariant Valid() && pos == old(pos) + k
      {
        Advance();
      }
    }

    // ----- Long brackets -----

    /** Count the equals signs at byte `at`, which is character `i`. */
    method CountEquals(at: nat, ghost i: nat) returns (level: nat)
      requires Valid() && i <= |src| && at == Offset(src, i)
      ensures i + level == RunEnd(src, i, EqualsSign) && Offset(src, i + level) == at + level
    {
      level := 0;
      var more := ByteAt(at, '=', i);
      while more
        invariant i + level <= |src| && Offset(src, i + level) == at + level
        invariant RunEnd(src, i + level, EqualsSign) == RunEnd(src, i, EqualsSign)
        invariant more == At(src, i + level, '=') && (more ==> Offset(src, i + level + 1) == at + level + 1)
        decreases |src| - (i + level)
      {
        level := level + 1;
        more := ByteAt(at + level, '=', i + level);
      }
    }

    method TryMatchLongOpen(at: nat, ghost i: nat) returns (r: Option<nat>)
      requires Valid() && i <= |src| && at == Offset(src, i)
      ensures r == LongOpen(src, i)
    {
      var opens := ByteAt(at, '[', i);
      if !opens {
        return None;
      }
      var level := CountEquals(at + 1, i + 1);
      opens := ByteAt(at + 1 + level, '[', i + 1 + level);
      r := if opens then Some(level) else None;
    }

    /** Whether the bracket just consumed begins a close of this level. */
    method ClosesHere(level: nat) returns (closes: bool)
      requires Valid() && 0 < pos && src[pos - 1] == ']'
      ensures closes == LongCloseAt(src, pos - 1, level)
    {
      var k := CountEquals(offset, pos);
      var bracket := ByteAt(offset + k, ']', pos + k);
      closes := k == level && bracket;
    }

    /** The body up to the first close of this level, or `None` at the end of the source. */
    method ScanLongBracketBody(level: nat) returns (r: Option<string>)
      requires Valid()
      modifies this
      ensures Valid()
      ensures var start := BodyStart(src, old(pos));
              match LongClose(src, start, level)
              case None => r == None
              case Some(close) => r == Some(src[start..close]) && pos == close + level + 2
    {
      hide RunEnd, Offset;
      if pos < |src| && src[pos] == '\n' {
        Advance();
      }
      var body, from := "", pos;
      while pos < |src|
        invariant Valid() && from <= pos && body == src[from..pos]
        invariant LongClose(src, pos, level) == LongClose(src, from, level)
        decreases |src| - pos
      {
        var c := src[pos];
        LongCloseStep(src, pos, level);
        assert src[from..pos + 1] == body + [c];
        Advance();
        if c == ']' {
          var closes := ClosesHere(level);
          if closes {
            AdvanceBy(level + 1);
            return Some(body);
          }
        }
        body := body + [c];
      }
      r := None;
    }

    // ----- Numbers -----

    method ScanHex() returns (r: Lexing<Kind>)
      requires Valid() && HexPrefixAt(src, pos)
      modifies this
      ensures Valid()
      ensures NumberAt(src, old(pos)) == if r.Ok? then Emit(r.value, pos) else Fail(r.error)
    {
      var start, at := pos, offset;
      Advance();
      Advance();
      SkipDigits(HexadecimalDigit);
      var value := NumeralValue(src[start + 2..pos], 16);
      r := if value < Bits.WORD then Ok(Integer(Int64.Signed(value))) else Err(HexOverflow(at));
    }

    method ScanNumber() returns (r: Lexing<Kind>)
      requires Valid() && ClassAt(src, pos, DecimalDigit)
      modifies this
      ensures Valid()
      ensures NumberAt(src, old(pos)) == if r.Ok? then Emit(r.value, pos) else Fail(r.error)
    {
      var hex := LooksHex();
      if hex {
        r := ScanHex();
        return;
      }
      var start := pos;
      SkipDigits(DecimalDigit);
      var whole := pos;
      var isFloat := ScanFraction();
      var exponent := ScanExponent();
      isFloat := isFloat || exponent;
      if !isFloat && NumeralValue(src[start..whole], 10) <= Int64.MAX {
        return Ok(Integer(NumeralValue(src[start..whole], 10)));
      }
      r := Ok(Float(src[start..pos]));
    }

    /** A fraction is taken only with a digit behind its dot. */
    method ScanFraction() returns (found: bool)
      requires Valid()
      modifies this
      ensures Valid() && pos == FractionEnd(src, old(pos)) && found == (pos != old(pos))
    {
      var dot := ByteAt(offset, '.', pos);
      if !dot {
        return false;
      }
      var digit := DigitAt(offset + 1, DecimalDigit, pos + 1);
      if !digit {
        return false;
      }
      Advance();
      SkipDigits(DecimalDigit);
      found := true;
    }

    method LooksHex() returns (hex: bool)
      requires Valid()
      ensures hex == HexPrefixAt(src, pos)
    {
      var zero := ByteAt(offset, '0', pos);
      if !zero {
        return false;
      }
      var lower := ByteAt(offset + 1, 'x', pos + 1);
      var upper := ByteAt(offset + 1, 'X', pos + 1);
      if !lower && !upper {
        return false;
      }
      hex := DigitAt(offset + 2, HexadecimalDigit, pos + 2);
    }

    /** An exponent is taken only with a digit behind its optional sign. */
    method ScanExponent() returns (found: bool)
      requires Valid()
      modifies this
      ensures Valid() && pos == ExponentEnd(src, old(pos)) && found == (pos != old(pos))
    {
      var lower := ByteAt(offset, 'e', pos);
      var upper := ByteAt(offset, 'E', pos);
      if !lower && !upper {
        return false;
      }
      var plus := ByteAt(offset + 1, '+', pos + 1);
      var minus := ByteAt(offset + 1, '-', pos + 1);
      var signed := plus || minus;
      var probe := if signed then 2 else 1;
      var digit := DigitAt(offset + probe, DecimalDigit, pos + probe);
      if !digit {
        return false;
      }
      AdvanceBy(probe);
      SkipDigits(DecimalDigit);
      found := true;
    }

    // ----- Strings -----

    /** At an escape whose first character is at `e`: the character it denotes, `None` for `\z`. */
    method ReadEscape() returns (r: Lexing<Option<char>>)
      requires Valid() && pos < |src|
      modifies this
      ensures Valid()
      ensures match EscapeAt(src, old(pos))
              case Yields(c, next) => r == Ok(Some(c)) && pos == next
              case Nothing(next) => r == Ok(None) && pos == next
              case Invalid(error) => r == Err(error)
    {
      var c, at := src[pos], offset;
      ghost var e := pos;
      Advance();
      if c == 'z' {
        SkipRun(Space);
        return Ok(None);
      }
      if SimpleEscape(c).Some? {
        return Ok(SimpleEscape(c));
      }
      if c == 'x' {
        r := ReadHexEscape(at);
      } else if c == 'u' {
        r := ReadUnicodeEscape(at);
      } else if IsDigit(c) {
        r := ReadDecimalEscape(c, at);
      } else {
        r := Err(InvalidEscape("\\" + [c], at));
      }
    }

    method ReadHexEscape(at: nat) returns (r: Lexing<Option<char>>)
      requires Valid() && pos > 0 && at == Offset(src, pos - 1)
      modifies this
      ensures Valid()
      ensures match HexEscape(src, old(pos) - 1)
              case Yields(c, next) => r == Ok(Some(c)) && pos == next
              case Nothing(_) => false
              case Invalid(error) => r == Err(error)
    {
      var first := TakeHexDigit();
      var second := TakeHexDigit();
      if first.None? || second.None? {
        return Err(InvalidEscape("\\x", at));
      }
      var value := first.value * 16 + second.value;
      r := if value > 0x7F then Err(InvalidEscape("\\x" + Hexadecimal(value), at)) else Ok(Some(value as char));
    }

    /** The next character is consumed, digit or not. */
    method TakeHexDigit() returns (d: Option<nat>)
      requires Valid()
      modifies this
      ensures Valid() && pos == if old(pos) < |src| then old(pos) + 1 else old(pos)
      ensures d == if ClassAt(src, old(pos), HexadecimalDigit) then Some(DigitValue(src[old(pos)])) else None
    {
      d := None;
      if pos < |src| {
        d := if IsHexDigit(src[pos]) then Some(DigitValue(src[pos])) else None;
        Advance();
      }
    }

    method ReadDecimalEscape(first: char, at: nat) returns (r: Lexing<Option<char>>)
      requires Valid() && pos > 0 && at == Offset(src, pos - 1) && first == src[pos - 1] && IsDigit(first)
      modifies this
      ensures Valid()
      ensures match DecimalEscape(src, old(pos) - 1)
              case Yields(c, next) => r == Ok(Some(c)) && pos == next
              case Nothing(_) => false
              case Invalid(error) => r == Err(error)
    {
      ghost var e := pos - 1;
      var value := DigitValue(first);
      NumeralStep(src, e, e);
      var k := 0;
      while k < 2 && pos < |src| && IsDigit(src[pos])
        invariant k <= 2 && Valid() && pos == e + 1 + k
        invariant forall m | e <= m < pos :: IsDigit(src[m])
        invariant value == NumeralValue(src[e..pos], 10)
      {
        NumeralStep(src, e, pos);
        value := value * 10 + DigitValue(src[pos]);
        Advance();
        k := k + 1;
      }
      assert pos == ThreeDigitsEnd(src, e);
      r := if value > 127 then Err(InvalidEscape("\\" + Decimal(value), at)) else Ok(Some(value as char));
    }

    method ReadUnicodeEscape(at: nat) returns (r: Lexing<Option<char>>)
      requires Valid() && pos > 0 && at == Offset(src, pos - 1)
      modifies this
      ensures Valid()
      ensures match if At(src, old(pos), '{') then UnicodeDigits(src, old(pos) + 1, 0, 0, old(pos) - 1)
                    else Invalid(InvalidEscape("\\u", at))
              case Yields(c, next) => r == Ok(Some(c)) && pos == next
              case Nothing(_) => false
              case Invalid(error) => r == Err(error)
    {
      ghost var e := pos - 1;
      if pos == |src| || src[pos] != '{' {
        return Err(InvalidEscape("\\u", at));
      }
      Advance();
      var value: nat, digits: nat := 0, 0;
      while pos < |src| && src[pos] != '}'
        invariant Valid() && e + 1 < pos
        invariant UnicodeDigits(src, pos, value, digits, e) == UnicodeDigits(src, e + 2, 0, 0, e)
        decreases |src| - pos
      {
        if !IsHexDigit(src[pos]) {
          return Err(InvalidEscape("\\u{", at));
        }
        if value * 16 + DigitValue(src[pos]) > MAX_U32 {
          return Err(InvalidEscape("\\u{...}", at));
        }
        value := value * 16 + DigitValue(src[pos]);
        digits := digits + 1;
        Advance();
      }
      if pos == |src| {
        return Err(InvalidEscape("\\u{", at));
      }
      Advance();
      if digits == 0 {
        return Err(InvalidEscape("\\u{}", at));
      }
      r := if Utf8.IsScalar(value) then Ok(Some(value as char))
           else Err(InvalidEscape("\\u{" + Hexadecimal(value) + "}", at));
    }

    /** From an opening quote to just behind the closing one. */
    method ScanString(quote: char) returns (r: Lexing<string>)
      requires Valid() && pos < |src| && src[pos] == quote
      modifies this
      ensures Valid()
      ensures StringAt(src, old(pos)) == if r.Ok? then Emit(Str(r.value), pos) else Fail(r.error)
    {
      var open := offset;
      Advance();
      var value := "";
      ghost var from := pos;
      PrependNothing(StringBody(src, from, quote, open));
      while pos < |src| && src[pos] != quote
        invariant Valid()
        invariant Prepend(value, StringBody(src, pos, quote, open)) == StringBody(src, from, quote, open)
        decreases |src| - pos
      {
        var c := src[pos];
        if c == '\n' {
          return Err(UnterminatedString(open));
        }
        if c != '\\' {
          PrependTwice(value, [c], StringBody(src, pos + 1, quote, open));
          Advance();
          value := value + [c];
        } else {
          Advance();
          if pos == |src| {
            return Err(UnterminatedString(open));
          }
          ghost var e := pos;
          var escaped := ReadEscape();
          if escaped.Err? {
            return Err(escaped.error);
          }
          if escaped.value.Some? {
            PrependTwice(value, [escaped.value.value], StringBody(src, pos, quote, open));
            value := value + [escaped.value.value];
          }
        }
      }
      if pos == |src| {
        return Err(UnterminatedString(open));
      }
      assert StringBody(src, pos, quote, open) == Closed("", pos + 1);
      assert value + "" == value;
      Advance();
      r := Ok(value);
    }

    // ----- One step -----

    method DashesAhead() returns (r: bool)
      requires Valid() && pos < |src|
      ensures r == (src[pos] == '-' && At(src, pos + 1, '-'))
    {
      if src[pos] != '-' {
        return false;
      }
      r := ByteAt(offset + 1, '-', pos + 1);
    }

    /** A comment, whose two dashes come next. */
    method SkipComment() returns (r: Lexing<()>)
      requires Valid() && pos + 2 <= |src|
      modifies this
      ensures Valid()
      ensures CommentAt(src, old(pos)) == if r.Ok? then Skip(pos) else Fail(r.error)
    {
      var at := offset;
      AdvanceBy(2);
      var level := TryMatchLongOpen(offset, pos);
      if level.None? {
        SkipRun(NotNewline);
        return Ok(());
      }
      AdvanceBy(level.value + 2);
      var body := ScanLongBracketBody(level.value);
      r := if body.Some? then Ok(()) else Err(UnterminatedComment(at));
    }

    /** The token that begins here; no space, comment or bad character does. */
    method ScanToken() returns (r: Lexing<Kind>)
      requires Valid() && pos < |src| && !IsSpace(src[pos]) && !(src[pos] == '-' && At(src, pos + 1, '-'))
      modifies this
      ensures Valid()
      ensures StepAt(src, old(pos)) == if r.Ok? then Emit(r.value, pos) else Fail(r.error)
    {
      var c, at := src[pos], offset;
      if IsDigit(c) {
        r := ScanNumber();
        return;
      }
      if c == '"' || c == '\'' {
        var text := ScanString(c);
        return if text.Ok? then Ok(Str(text.value)) else Err(text.error);
      }
      var level := TryMatchLongOpen(offset, pos);
      if c == '[' && level.Some? {
        AdvanceBy(level.value + 2);
        var body := ScanLongBracketBody(level.value);
        return if body.Some? then Ok(Str(body.value)) else Err(UnterminatedBracket(at));
      }
      if IsNameStart(c) {
        var start := pos;
        SkipRun(NameChar);
        var name := src[start..pos];
        return Ok(if KeywordOf(name).Some? then Word(KeywordOf(name).value) else Ident(name));
      }
      r := ScanPunctuation();
    }

    method ScanPunctuation() returns (r: Lexing<Kind>)
      requires Valid() && pos < |src|
      modifies this
      ensures Valid()
      ensures PunctuationAt(src, old(pos)) == if r.Ok? then Emit(r.value, pos) else Fail(r.error)
    {
      var c, at := src[pos], offset;
      if c !in {'=', '<', '>', '~', '/', '.'} {
        if SingleAt(c).None? {
          return Err(Unexpected(c, at));
        }
        Advance();
        return Ok(Punct(SingleAt(c).value));
      }
      Advance();
      var next := if pos < |src| then src[pos] else c;
      var more := pos < |src|;
      var long: Option<Punctuation> :=
        if !more then None
        else if c == '=' && next == '=' then Some(EqEq)
        else if c == '<' && next == '=' then Some(LtEq)
        else if c == '<' && next == '<' then Some(LtLt)
        else if c == '>' && next == '=' then Some(GtEq)
        else if c == '>' && next == '>' then Some(GtGt)
        else if c == '~' && next == '=' then Some(TildeEq)
        else if c == '/' && next == '/' then Some(SlashSlash)
        else if c == '.' && next == '.' then Some(DotDot)
        else None;
      if long.None? {
        var short := if c == '=' then Equals else if c == '<' then Lt else if c == '>' then Gt
                     else if c == '~' then Tilde else if c == '/' then Slash else Dot;
        return Ok(Punct(short));
      }
      Advance();
      if long.value.DotDot? && pos < |src| && src[pos] == '.' {
        Advance();
        return Ok(Punct(DotDotDot));
      }
      r := Ok(Punct(long.value));
    }

    /** One step of the lexer: a token, or `None` for a space or a comment. */
    method Step() returns (r: Lexing<Option<Kind>>)
      requires Valid() && pos < |src|
      modifies this
      ensures Valid()
      ensures StepAt(src, old(pos)) ==
              if r.Err? then Fail(r.error) else if r.value.Some? then Emit(r.value.value, pos) else Skip(pos)
    {
      if IsSpace(src[pos]) {
        Advance();
        return Ok(None);
      }
      var dashes := DashesAhead();
      if dashes {
        var comment := SkipComment();
        return if comment.Ok? then Ok(None) else Err(comment.error);
      }
      var kind := ScanToken();
      r := if kind.Ok? then Ok(Some(kind.value)) else Err(kind.error);
    }
  }

  lemma LongCloseStep(src: string, i: nat, level: nat)
    requires i < |src|
    ensures LongCloseAt(src, i, level) ==> LongClose(src, i, level) == Some(i)
    ensures !LongCloseAt(src, i, level) ==> LongClose(src, i, level) == LongClose(src, i + 1, level)
    ensures LongCloseAt(src, i, level) ==> src[i] == ']'
  {}

  lemma NumeralStep(src: string, e: nat, p: nat)
    requires e <= p < |src| && forall m | e <= m <= p :: IsDigit(src[m])
    ensures NumeralValue(src[e..p + 1], 10) == NumeralValue(src[e..p], 10) * 10 + DigitValue(src[p])
  {
    var s := src[e..p + 1];
    assert s[..|s| - 1] == src[e..p];
  }

  lemma PrependNothing(b: Body)
    ensures Prepend("", b) == b
  {
    if b.Closed? {
      assert "" + b.text == b.text;
    }
  }

  lemma PrependTwice(a: string, c: string, b: Body)
    ensures Prepend(a, Prepend(c, b)) == Prepend(a + c, b)
  {
    if b.Closed? {
      assert a + (c + b.text) == a + c + b.text;
    }
  }

  /** The lexer: token by token from the start of the source, behind a shebang line if there is one. */
  method LexSource(src: string) returns (r: Lexing<seq<Token>>)
    ensures r == Lex(src)
  {
    var cursor := new Cursor(src);
    if At(src, 0, '#') && At(src, 1, '!') {
      cursor.SkipRun(NotNewline);
      if cursor.pos < |src| {
        cursor.Advance();
      }
    }
    var tokens: seq<Token> := [];
    ghost var ls: seq<Lexeme> := [];
    ghost var all := Lexemes(src);
    AddNothing(all);
    while cursor.pos < |src|
      invariant cursor.Valid() && cursor.src == src && fresh(cursor)
      invariant AddAll(ls, LexFrom(src, cursor.pos)) == all
      invariant Within(src, ls) && tokens == TokensOf(src, ls)
      decreases |src| - cursor.pos
    {
      var from, offset := cursor.pos, cursor.offset;
      var kind := cursor.Step();
      LexFromStep(src, from);
      if kind.Err? {
        return Err(kind.error);
      }
      if kind.value.Some? {
        TokenAdded(src, ls, Lexeme(kind.value.value, from, cursor.pos));
        ls := ls + [Lexeme(kind.value.value, from, cursor.pos)];
        tokens := tokens + [Token(kind.value.value, Span(offset, cursor.offset))];
      }
    }
    AddEof(src, ls);
    TokensSnoc(src, ls, Lexeme(Eof, |src|, |src|));
    r := Ok(tokens + [Token(Eof, Span(cursor.offset, cursor.offset))]);
  }

  lemma AddNothing(rest: Lexing<seq<Lexeme>>)
    ensures AddAll([], rest) == rest
  {
    if rest.Ok? {
      assert [] + rest.value == rest.value;
    }
  }

  lemma LexFromStep(src: string, i: nat)
    requires i < |src|
    ensures StepAt(src, i).Skip? ==> LexFrom(src, i) == LexFrom(src, StepAt(src, i).next)
    ensures StepAt(src, i).Fail? ==> LexFrom(src, i) == Err(StepAt(src, i).error)
  {}

  lemma TokenAdded(src: string, ls: seq<Lexeme>, l: Lexeme)
    requires Within(src, ls) && l.from < |src| && StepAt(src, l.from) == Emit(l.kind, l.to)
    ensures AddAll(ls + [l], LexFrom(src, l.to)) == AddAll(ls, LexFrom(src, l.from))
    ensures Within(src, ls + [l]) && TokensOf(src, ls + [l]) == TokensOf(src, ls) + [TokenOf(src, l)]
  {
    AddOne(ls, l, LexFrom(src, l.to));
    TokensSnoc(src, ls, l);
  }

  lemma AddEof(src: string, ls: seq<Lexeme>)
    requires Within(src, ls)
    ensures var l := Lexeme(Eof, |src|, |src|);
            AddAll(ls, LexFrom(src, |src|)) == Ok(ls + [l]) && Within(src, ls + [l])
  {}

  lemma TokensSnoc(src: string, ls: seq<Lexeme>, l: Lexeme)
    requires Within(src, ls) && l.from <= |src| && l.to <= |src|
    ensures Within(src, ls + [l]) && TokensOf(src, ls + [l]) == TokensOf(src, ls) + [TokenOf(src, l)]
  {
    var all, init := TokensOf(src, ls + [l]), TokensOf(src, ls);
    forall k | 0 <= k < |all| ensures all[k] == (init + [TokenOf(src, l)])[k] {}
  }
}

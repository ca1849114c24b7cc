/** How the tokens of a source lie in its text. */
module LexerPartition {
  import opened Numerals
  import opened LexerRules
  import opened LexerScanner
  import opened LexerRoundTrip
  import Bits

  // ----- What may stand between tokens -----

  predicate Dashes(src: string, i: nat) { At(src, i, '-') && At(src, i + 1, '-') }

  /** A comment to the end of its line; the newline is not part of it. */
  predicate LineComment(src: string, i: nat, k: nat) {
    && Dashes(src, i) && LongOpen(src, i + 2).None?
    && i + 2 <= k <= |src| && (forall m | i + 2 <= m < k :: src[m] != '\n') && (k == |src| || src[k] == '\n')
  }

  /** A comment in long brackets, to the first close of its level. */
  ghost predicate BlockComment(src: string, i: nat, k: nat) {
    && Dashes(src, i) && LongOpen(src, i + 2).Some?
    && var level := LongOpen(src, i + 2).value;
       exists close: nat ::
         && BodyStart(src, i + level + 4) <= close && k == close + level + 2
         && LongCloseAt(src, close, level)
         && forall m | BodyStart(src, i + level + 4) <= m < close :: !LongCloseAt(src, m, level)
  }

  ghost predicate Trivium(src: string, i: nat, k: nat) {
    || (k == i + 1 && i < |src| && IsSpace(src[i]))
    || LineComment(src, i, k)
    || BlockComment(src, i, k)
  }

  /** Spaces and comments only, from `i` to `j`. */
  ghost predicate Trivia(src: string, i: nat, j: nat)
    decreases j - i
  {
    i == j || exists k: nat | i < k <= j :: Trivium(src, i, k) && Trivia(src, k, j)
  }

  /** From `i` on, the source is trivia and the given tokens in turn, with the end marker last. */
  ghost predicate Tiled(src: string, i: nat, ls: seq<Lexeme>)
    requires i <= |src|
    decreases |ls|
  {
    && ls != []
    && i <= ls[0].from <= |src| && Trivia(src, i, ls[0].from)
    && if |ls| == 1 then ls[0] == Lexeme(Eof, |src|, |src|)
       else ls[0].from < ls[0].to <= |src| && ls[0].kind != Eof && Tiled(src, ls[0].to, ls[1..])
  }

  lemma CommentIsTrivium(src: string, i: nat)
    requires Dashes(src, i) && CommentAt(src, i).Skip?
    ensures Trivium(src, i, CommentAt(src, i).next)
  {
    var open, k := LongOpen(src, i + 2), CommentAt(src, i).next;
    if open.None? {
      RunEndIsMaximal(src, i + 2, NotNewline, k);
    } else {
      var start := BodyStart(src, i + open.value + 4);
      var close := LongClose(src, start, open.value).value;
      LongCloseIsFirst(src, start, open.value, close);
      assert BlockComment(src, i, k);
    }
  }

  lemma SkipIsTrivium(src: string, i: nat)
    requires i < |src| && StepAt(src, i).Skip?
    ensures Trivium(src, i, StepAt(src, i).next)
  {
    if Dashes(src, i) {
      CommentIsTrivium(src, i);
    }
  }

  lemma EmitIsNotEof(src: string, i: nat)
    requires i < |src| && StepAt(src, i).Emit?
    ensures StepAt(src, i).kind != Eof
  {}

  lemma TriviaFirst(src: string, i: nat, k: nat, ls: seq<Lexeme>)
    requires i < k <= |src| && Trivium(src, i, k) && Tiled(src, k, ls)
    ensures Tiled(src, i, ls)
  {
    assert Trivia(src, i, ls[0].from);
  }

  /** Lexing partitions the source. */
  lemma {:induction false} LexFromTiles(src: string, i: nat)
    requires i <= |src| && LexFrom(src, i).Ok?
    ensures Tiled(src, i, LexFrom(src, i).value)
    decreases |src| - i
  {
    if i == |src| {
      LexFromEnd(src);
    } else {
      var step := StepAt(src, i);
      if step.Skip? {
        LexFromTiles(src, step.next);
        SkipIsTrivium(src, i);
        TriviaFirst(src, i, step.next, LexFrom(src, step.next).value);
      } else {
        EmitTiles(src, i, step.kind, step.next);
        LexFromTiles(src, step.next);
      }
    }
  }

  lemma EmitTiles(src: string, i: nat, kind: Kind, next: nat)
    requires i < |src| && StepAt(src, i) == Emit(kind, next) && LexFrom(src, i).Ok?
    ensures LexFrom(src, next).Ok?
    ensures Tiled(src, next, LexFrom(src, next).value) ==> Tiled(src, i, LexFrom(src, i).value)
  {
    LexFromEmit(src, i, kind, next);
    EmitIsNotEof(src, i);
    if Tiled(src, next, LexFrom(src, next).value) {
      TiledCons(src, Lexeme(kind, i, next), LexFrom(src, next).value);
    }
  }

  lemma TiledCons(src: string, l: Lexeme, ls: seq<Lexeme>)
    requires l.from < l.to <= |src| && l.kind != Eof && Tiled(src, l.to, ls)
    ensures Tiled(src, l.from, [l] + ls)
  {
    assert ([l] + ls)[1..] == ls;
    assert Trivia(src, l.from, l.from);
  }

  /** `end` is behind the first newline, or is the end of a source without any. */
  predicate FirstLine(src: string, end: nat) {
    || (0 < end <= |src| && src[end - 1] == '\n' && forall m | 0 <= m < end - 1 :: src[m] != '\n')
    || (end == |src| && forall m | 0 <= m < |src| :: src[m] != '\n')
  }

  /** The shebang line, if there is one, comes first; after it the source is tiled. */
  lemma Partition(src: string)
    requires Lexemes(src).Ok?
    ensures Tiled(src, Start(src), Lexemes(src).value)
    ensures Start(src) > 0 <==> At(src, 0, '#') && At(src, 1, '!')
    ensures Start(src) > 0 ==> FirstLine(src, Start(src))
  {
    LexFromTiles(src, Start(src));
    RunEndIsMaximal(src, 0, NotNewline, RunEnd(src, 0, NotNewline));
  }

  // ----- Spans in bytes -----

  lemma {:induction false} OffsetGrows(src: string, i: nat, j: nat)
    requires i <= j <= |src|
    ensures Offset(src, i) <= Offset(src, j) && (i < j ==> Offset(src, i) < Offset(src, j))
    decreases j
  {
    if i < j {
      OffsetGrows(src, i, j - 1);
    }
  }

  /** Token `k` is not empty unless it is the last, and ends before the next begins. */
  lemma {:induction false} TiledInOrder(src: string, i: nat, ls: seq<Lexeme>, k: nat)
    requires i <= |src| && Tiled(src, i, ls) && k < |ls|
    ensures i <= ls[k].from <= ls[k].to <= |src|
    ensures k == |ls| - 1 ==> ls[k] == Lexeme(Eof, |src|, |src|)
    ensures k < |ls| - 1 ==>
              ls[k].kind != Eof && ls[k].from < ls[k].to <= ls[k + 1].from && Trivia(src, ls[k].to, ls[k + 1].from)
    decreases |ls|
  {
    if k > 0 {
      TiledInOrder(src, ls[0].to, ls[1..], k - 1);
    }
  }

  /**
   The spans of the tokens are in bounds, in order and disjoint; only the last one is empty, and it is the
   end marker.
   */
  lemma SpansInOrder(src: string, k: nat)
    requires Lex(src).Ok? && k < |Lex(src).value|
    ensures var ts, size := Lex(src).value, |SourceBytes(src)|;
            && ts[k].span.start <= ts[k].span.end <= size
            && (k == |ts| - 1 ==> ts[k] == Token(Eof, Span(size, size)))
            && (k < |ts| - 1 ==>
                  ts[k].kind != Eof && ts[k].span.start < ts[k].span.end <= ts[k + 1].span.start)
  {
    var ls := Lexemes(src).value;
    Partition(src);
    TiledInOrder(src, Start(src), ls, k);
    OffsetIsLength(src, |src|);
    assert src[..|src|] == src;
    OffsetGrows(src, ls[k].from, ls[k].to);
    OffsetGrows(src, ls[k].to, |src|);
    if k < |ls| - 1 {
      TiledInOrder(src, Start(src), ls, k + 1);
      OffsetGrows(src, ls[k].to, ls[k + 1].from);
    }
  }

  // ----- Hexadecimal literals -----

  /** A hexadecimal literal is too large exactly when it has more than sixteen significant digits. */
  lemma HexOverflows(src: string, i: nat)
    requires HexPrefixAt(src, i)
    ensures NumberAt(src, i).Fail? <==>
            Significant(src[i + 2..RunEnd(src, i + 2, HexadecimalDigit)]) > 16
  {
    var end := RunEnd(src, i + 2, HexadecimalDigit);
    RunEndIsMaximal(src, i + 2, HexadecimalDigit, end);
    var digits := src[i + 2..end];
    assert AllHexDigits(digits);
    SignificantBound(digits, 16);
    assert Power16(16) == Bits.WORD by {
      assert Power16(4) == 0x1_0000;
      assert Power16(8) == 0x1_0000_0000;
      assert Power16(12) == 0x1_0000_0000_0000;
    }
  }
}

# Lumelir in Dafny

Lumelir compiles Lua 5.4 to native code.  This project models three of its components and proves that the
low-level form of each agrees with a much simpler meaning.

**The pattern runtime** (`src/bridge_runtime.rs`).  A hand-written backtracking matcher threads one mutable
capture through five mutually recursive functions; leftmost search, `find`, `match`, `gsub`, `gmatch` and the
UTF-8 helpers sit on top.  Here a pattern is parsed into a list of items, a match is a list of widths that fit
the items, and Lua's greedy order picks the lexicographically greatest one.  The matcher, kept as methods over
a capture object, is proved sound, complete and greedy against that relation.

**The lowering to HIR** (`src/hir/mod.rs`).  Names become flat slots, `break` and `return` become boolean flags
with a guard on every statement, integer literals are folded and kinds are inferred.  The source language has
a big-step semantics over a stack of name frames with the outcomes normal, broken, returned, trapped, stopped
at a zero step and out of fuel; the target has one flat store, no `break` and no `return`.  Fuel is spent by loop
iterations only, so equal fuel means the same number of iterations on both sides.  A simulation shows that the code
prints the same, ends alike and agrees on every variable.  `HirLower` gives the lowering as functions of the context;
`HirLowerer` is the lowering as it is carried out, a context object updated in place, proved equal to them.
`HirTyping` says, on the source alone, which programs are well typed; `HirChecking` proves that exactly these are
lowered and that the others are rejected with their first fault.
The resolution of aliases for methods, a loop to a fixed point, is in `Aliases`.

**The lexer** (`src/lexer/mod.rs`).  `LexerRules` says what stands at each place of a source; `LexerScanner` is the
cursor loop, proved to compute it, with its lookahead in the bytes of the UTF-8 text.  Printing tokens and
lexing them is the identity, and the token spans partition the source.  `LexerStrings` and `LexerText` state by the
text alone what strings, numerals, words and marks stand for, and where a source that does not lex goes wrong.

## Where to start

| file | main result |
|---|---|
| `PatternMatcher.dfy` | the matcher computes the greedy match and restores its capture |
| `PatternSemantics.dfy` | the greedy match is the lexicographically greatest of all matches |
| `PatternReplace.dfy` | `gsub` decomposes the subject; `gmatch` visits the same spans |
| `LuaPatterns.dfy`, `LuaAgreement.dfy` | Lua's own matcher; the patterns on which the two agree, and exactly when `find` and `gsub` do |
| `LuaDepartures.dfy` | patterns Lua reads otherwise |
| `HirSimulation.dfy`, `HirFunctions.dfy`, `HirFuel.dfy` | the code of a chunk and of a function body does what the source does |
| `HirTyping.dfy`, `HirChecking.dfy` | which programs are lowered, and the error of every other |
| `HirReturns.dfy` | every `return` outside `repeat` has a result slot for each of its values |
| `HirMeaning.dfy`, `Operators.dfy` | what scopes, loops and operators come to, apart from their definitions |
| `HirKinds.dfy`, `HirRecords.dfy`, `HirResults.dfy` | slots, result slots included, keep their kinds over every run |
| `HirConditions.dfy`, `HirDepartures.dfy`, `HirCaptures.dfy` | programs outside the fragment whose code does something else |
| `Aliases.dfy` | the alias table is the least fixed point, in terms of the statements of the chunk |
| `LexerRoundTrip.dfy`, `LexerPartition.dfy` | round trips and the partition of the source |
| `LexerStrings.dfy`, `LexerText.dfy` | tokens, spans and errors by the text |

## The fragment of the lowering, and why each condition is there

The correctness of the lowering holds for statements over integers, booleans and nil: `local`, assignment,
parallel forms, `do`, `if`, `while`, `repeat`, numeric `for` with any step, `break`, `return` and a `print` that
makes runs observable.  `FragStmt` in `HirFragment.dfy` and, for names, `UserStmts` in `HirContext.dfy` are the
predicates; they can be decided before any code runs.  Each condition answers a departure of the lowering from
Lua, which the lemma named with it proves:

- Nothing in a `do ... end` follows a statement that may be left by `break` or `return`
  (`HirDepartures.BlockRunsOn`).  `docs/design/0015-phase2-4-break.md` (line 65) says the guards recurse into `do`
  bodies; the code lowers them unguarded.  The model follows the code.
- There is no `return` inside a loop, since loops consult only their own flag (`HirDepartures.ReturnLoopsOn`).  In a
  `repeat` it may also lose its values, because the scan that reserves result slots does not look there
  (`HirCaptures.RepeatLosesResult`), or hit an out-of-range slot (`HirCaptures.RepeatPanics`).  In other loops its values
  reach their slots (`HirReturns.ReturnStores`), but the loop goes on (`HirDepartures.ForReturnsLast`).
- Every `break` is inside a loop: elsewhere in a function body it is lowered like a `return`
  (`HirDepartures.BreakReturns`).
- The condition of a loop that can be left by `break` cannot trap, since it is evaluated once more.  For `while` the
  exact condition is `HirConditions.ConditionRunsOn`: the code differs just where the loop is left with a condition
  that traps.
- No name is `_returned`, or is `_broken_`, `_multi_tmp_` or `_ret_value_` with a decimal numeral behind it
  (`HirLower.NumberedBySpelling`).  The lowering declares its own slots under these names, where they capture the
  program's: `HirCaptures.FlagCapturesName`, `TemporaryCapturesName`, `ReturnedCapturesName` and
  `ResultCapturesName`.
- Assigned names are declared: an unknown one gets a slot of the kind of the assigned value, which cannot hold the
  nil the source sees before the assignment (`HirCaptures.UnknownNameStarts`).
- No folded division is inexact with a negative divisor (`Int64.FoldIsExact` is the exact condition and
  `HirDepartures.MisfoldExample` a program), and no folded equality drops an operand that could trap
  (`HirKinds.EqualityFoldExact` is the exact condition).

A numeric loop with step zero is an error in Lua, and the code does not detect it.  Unless the source stops at a
zero step, the code agrees with it; if it does, the code has printed what was printed before
(`HirFunctions.ChunkCorrect`, `HirFunctions.FunctionCorrect`) and goes on as `HirDepartures.ZeroStepRuns` says.

Whether a statement behind a `break` is ever reached, or a `return` in a loop ever executed, cannot be decided,
so no condition a caller can check is exact for these; the fragment asks for their absence.  No kinds need to
be assumed of programs: a program is lowered exactly if it is well typed (`HirChecking.ChunkChecks`).  The typed
starting store is the one the code generator provides, which allocates every slot by its kind.

## Patterns here and in Lua

`LuaPatterns` has Lua's own reading of a pattern and its own match relation, written from section 6.4.1 of the Lua 5.4
Reference Manual; nothing in it depends on this runtime.  `LuaAgreement.SharedPattern` is a test on the text of a
pattern.  It leaves out lazy `-`, `%g`, a `]` that opens a set, back references, nested groups and `%b` with equal
delimiters, for each of which `LuaDepartures` has an input where the two differ; and unclosed groups, ranges that run
into the end of their set, and what is malformed or without meaning in Lua.  On a shared pattern the two matchers
find the same match at every place of every subject (`LuaAgreement.MatchersAgree`).

The comment on empty matches in `src/bridge_runtime.rs` (lines 694 to 695) promises Lua's semantics.  Lua remembers
the end of the last match and turns down a match that ends there; the code does not.  So on a shared pattern `gsub`
returns what Lua's does exactly when the replacement is empty, or the pattern is not empty and no visited span is
empty and starts where its predecessor ends (`LuaAgreement.GsubAgreesWithLua`; `LuaDepartures.TouchingDeparts` is an
input where they differ).  `LuaAgreement.FindAgreesWithLua` is the exact condition for `find`.

## Model

| member | source | states |
|---|---|---|
| `PatternSyntax.MatchesSet` | src/bridge_runtime.rs:123-158 | The set walk answers whether the byte is in the set that the walk reads: ranges, classes, negation, an unclosed set running to the end of the pattern. |
| `PatternSyntax.UnclosedSet` | src/bridge_runtime.rs:123-158 | A set that is never closed has the elements it has with a closing bracket put behind the pattern, unless the pattern ends in `%`. |
| `PatternSyntax.MatchesAtom` | src/bridge_runtime.rs:164-175 | A one-byte atom admits the byte exactly as its parsed form does. |
| `PatternSyntax.MeasureAtom` | src/bridge_runtime.rs:180-208 | The measuring walk returns the length of the atom, with its own rule for where a set closes. |
| `PatternSyntax.SetWalkersAgree` | src/bridge_runtime.rs:123-208 | The testing walk and the measuring walk of a set stop at the same place if and only if no range ends in a run of `%` directly followed by `]`. |
| `PatternSyntax.WalkersOutOfStep` | src/bridge_runtime.rs:140-196 | Where such a range occurs, the measuring walk goes past the `]` at which the testing walk stops. |
| `PatternSyntax.NoPercentRangeIsClean` | src/bridge_runtime.rs:140-158 | A set in which no range ends in `%` meets that condition. |
| `PatternSyntax.WalkersDisagreeExample` | src/bridge_runtime.rs:140-196 | A concrete set on which the two walks disagree. |
| `PatternSemantics.BestIsUnique` | src/bridge_runtime.rs:350-411 | Among the matches of an item list at one place at most one is lexicographically greatest, so the end index is determined. |
| `PatternSemantics.GreedyIsBest` | src/bridge_runtime.rs:275-411 | Backtracking search finds the lexicographically greatest list of widths among all matches, and finds nothing only if there is no match at all. |
| `PatternSemantics.GreedyDescribes` | src/bridge_runtime.rs:275-411 | What the search returns is a match: its widths fit the items and its end and capture are those of the widths. |
| `PatternSemantics.GreedyBeats` | src/bridge_runtime.rs:367-411 | Whenever any match exists the search succeeds, with widths at least as greedy. |
| `PatternSemantics.CaptureIsLastGroup` | src/bridge_runtime.rs:307-336 | After a match the capture is present exactly when the pattern closes a group; it lies inside the match and is the text consumed between the last close and the open it pairs with. |
| `PatternSemantics.TruncatedNeverFits` | src/bridge_runtime.rs:338-343 | A pattern that ends in the middle of an escape matches nothing. |
| `PatternSemantics.UnclosedGroupFits` | src/bridge_runtime.rs:307-320 | A group that is opened and never closed does not change what matches. |
| `PatternSemantics.CloseNeedsOpen` | src/bridge_runtime.rs:321-336 | A close without an open group before it matches nothing. |
| `PatternMatcher.CapState.Restore` | src/bridge_runtime.rs:212-219 | Restoring a snapshot brings back exactly the saved capture. |
| `PatternMatcher.IsFrontier` | src/bridge_runtime.rs:255-267 | The frontier test compares the bytes on both sides, with NUL outside the subject. |
| `PatternMatcher.MatchBalanced` | src/bridge_runtime.rs:223-250 | Same result and same capture state as trying every width of a balanced item; a failure leaves the capture as it was. |
| `PatternMatcher.ScanBalanced` | src/bridge_runtime.rs:235-249 | The scan stops behind the first return to depth zero, or finds that there is none. |
| `PatternMatcher.ClosingWidth` | src/bridge_runtime.rs:233-249 | The first return to depth zero is the only width a balanced item can take. |
| `PatternMatcher.EqualDelimitersNeverClose` | src/bridge_runtime.rs:236-246 | `%bxx` never matches: with equal delimiters the depth only grows. |
| `PatternMatcher.CountRun` | src/bridge_runtime.rs:376-379 | The counting loop finds the longest run of bytes the atom admits. |
| `PatternMatcher.RunWidths` | src/bridge_runtime.rs:367-393 | The widths a repetition may take are those from its minimum to the longest run. |
| `PatternMatcher.MatchMax` | src/bridge_runtime.rs:367-393 | Greedy repetition, backwards from the longest run, has the result and capture of trying every width in decreasing order. |
| `PatternMatcher.MatchOpt` | src/bridge_runtime.rs:395-410 | The optional item, one byte first and none second, likewise. |
| `PatternMatcher.MatchOpen` | src/bridge_runtime.rs:307-320 | Opening a group records its start and undoes the record if the rest fails. |
| `PatternMatcher.MatchClose` | src/bridge_runtime.rs:321-336 | Closing a group records its end and undoes the record if the rest fails. |
| `PatternMatcher.MatchFrontier` | src/bridge_runtime.rs:299-305 | A frontier item has the result and capture of its declarative form. |
| `PatternMatcher.MatchOne` | src/bridge_runtime.rs:354-363 | A single atom without quantifier has the result and capture of its declarative form. |
| `PatternMatcher.MatchQuantified` | src/bridge_runtime.rs:337-365 | The tail of the matcher chooses among `*`, `+`, `?` and none as the parsed item says. |
| `PatternMatcher.MatchPattern` | src/bridge_runtime.rs:275-365 | The matcher over mutable capture state computes exactly the greedy match of the parsed pattern; a failing call leaves the capture state as it was; the recursion ends by the remaining pattern length. |
| `PatternSearch.TryMatchAt` | src/bridge_runtime.rs:415-419 | A match attempt at one start with a fresh capture. |
| `PatternSearch.RunPatternFrom` | src/bridge_runtime.rs:428-471 | The search loop returns the greedy match at the least allowed start at or after `init`, or none if no start has any match; an anchored pattern allows start 0 only; the empty pattern matches at once. |
| `PatternSearch.FindIsLeftmost` | src/bridge_runtime.rs:428-471 | The specification of the search is leftmost and exhaustive against the declarative match relation. |
| `PatternSearch.FoundInBounds` | src/bridge_runtime.rs:428-471 | A found match lies inside the subject and not before `init`. |
| `PatternSearch.FoundCapture` | src/bridge_runtime.rs:428-487 | Its capture is present exactly when the pattern closes a group, and lies inside it. |
| `PatternSearch.FindInit` | src/bridge_runtime.rs:730-748 | The packed result is that of the search from the clamped one-based start. |
| `PatternSearch.MatchCapture1` | src/bridge_runtime.rs:757-772 | The packed result is the capture if there is one, else the match. |
| `PatternSearch.PackedFindUnpacks` | src/codegen/emit.rs:6952-6990 | For subjects whose positions fit in 32 bits, unpacking gives back position and length, and zero means no match. |
| `PatternSearch.PackedCaptureUnpacks` | src/bridge_runtime.rs:757-772 | The same for the capture. |
| `Bits.PackUnpacks` | src/bridge_runtime.rs:478-487 | Packing two numbers into one word is undone by the masks and shifts if and only if both are below 2 to the 32nd. |
| `Bits.PackIsSum` | src/bridge_runtime.rs:478-487 | The position is the low half of the word and the length the high half. |
| `PatternSearch.FindPlain` | src/bridge_runtime.rs:782-812 | The substring search returns the first occurrence, or 0 when there is none. |
| `PatternSearch.PlainFits` | src/bridge_runtime.rs:275-365 | A pattern without magic bytes matches wherever its own text occurs, one byte for each item. |
| `PatternSearch.PlainFitsOnly` | src/bridge_runtime.rs:275-365 | It matches nowhere else, and always with that length. |
| `PatternSearch.PlainSearchAgrees` | src/bridge_runtime.rs:428-812 | On such patterns the pattern search and the plain search find the same place. |
| `PatternReplace.FindSpan` | src/bridge_runtime.rs:681-700 | The extent of the next match at or after the cursor. |
| `PatternReplace.VisitsAdvance` | src/bridge_runtime.rs:681-720 | A nonempty pattern visits finitely many spans, at most one more than the subject has bytes, each in bounds and not before the walk resumes. |
| `PatternReplace.AdvancingIsDisjoint` | src/bridge_runtime.rs:681-720 | Visited spans are strictly ordered and pairwise disjoint. |
| `PatternReplace.WeavingTextsRestores` | src/bridge_runtime.rs:681-720 | The gaps and the matched texts, in turn, are the whole subject: every byte once, in order. |
| `PatternReplace.GsubDecomposes` | src/bridge_runtime.rs:636-723 | The subject is its gaps between the visited spans woven with the texts of the spans; the untruncated output of `gsub` is the same gaps woven with the replacement. |
| `PatternReplace.GsubLength` | src/bridge_runtime.rs:636-723 | The output has at most (s+1)*(r+1)-1 bytes, for subject length s and replacement length r. |
| `PatternReplace.EmittedIsReplaced` | src/bridge_runtime.rs:681-720 | The cursor loop, which copies one byte past an empty match, emits exactly the subject with the visited spans replaced. |
| `PatternReplace.GsubLoop` | src/bridge_runtime.rs:681-720 | The loop fills the buffer with a prefix of everything it would emit. |
| `PatternReplace.GsubStringRepl` | src/bridge_runtime.rs:636-723 | With any buffer size the bytes written are a prefix of the full output of length min(size, full length), and the rest of the buffer is untouched; the empty pattern copies the subject. |
| `PatternReplace.GmatchIterator.constructor` | src/hir/mod.rs:6440-6459 | A fresh iterator has visited nothing. |
| `PatternReplace.GmatchIterator.Next` | src/hir/mod.rs:6460-6468 | The synthesized iterator hands out, in order, exactly the spans `gsub` visits, and ends after the last; on the empty pattern it never ends. |
| `PatternReplace.FindExtent` | src/codegen/emit.rs:6952-7004 | The pair of bounds taken from a packed result is the next span, with an empty match one byte short. |
| `PatternWalks.StrictFewer` | src/bridge_runtime.rs:681-720 | A walk over the same matches that turns down a match ending where the last one ended visits the same spans, without the empty ones that start where their predecessor ends. |
| `PatternWalks.WalksAgree` | src/bridge_runtime.rs:681-720 | That walk is the one `gsub` makes if and only if no visited span is empty and starts where its predecessor ends. |
| `PatternWalks.SubstitutionsAgree` | src/bridge_runtime.rs:636-723 | `gsub` returns what that walk gives if and only if the replacement is empty, or the pattern is not empty and no visited span is such. |
| `LuaPatterns.LuaSearchIsBest` | docs/design/0279-pattern-quantifiers.md:45 | The meaning of patterns in Lua, with its own items (lazy repetition, back references, nested groups among them): the search finds the match Lua prefers to every other, and fails only if there is none. |
| `LuaAgreement.ClassesAgree` | src/bridge_runtime.rs:84-110 | Each class letter and its complement admit exactly the bytes of the class of Lua, which are listed one by one, if and only if the letter is not `g`. |
| `LuaAgreement.SetsAgree` | src/bridge_runtime.rs:119-208 | A set that is closed, does not open with `]`, has no range running into its end and only shared classes is read by Lua as here, and admits the same bytes. |
| `LuaAgreement.ItemsAgree` | src/bridge_runtime.rs:275-365 | A pattern whose text passes the test for shared patterns has in Lua item for item the reading it has here. |
| `LuaAgreement.MatchersAgree` | src/bridge_runtime.rs:275-411 | On every shared pattern, subject and place the runtime finds the match Lua prefers, with the same last capture, or both find none. |
| `LuaAgreement.FindAgreesWithLua` | src/bridge_runtime.rs:428-471 | On shared patterns `find` returns the extent Lua does if and only if the pattern is not empty behind the end of the subject, and not anchored with a match at a later `init`. |
| `LuaAgreement.WalkAgreesWithLua` | src/bridge_runtime.rs:681-720 | On shared patterns `gsub` visits what Lua does, and so does `gmatch` on unanchored ones, if and only if no visited span is empty and starts where its predecessor ends. |
| `LuaAgreement.GsubAgreesWithLua` | src/bridge_runtime.rs:636-723 | On shared patterns, with a replacement without `%`, `gsub` returns what Lua does if and only if the replacement is empty, or the pattern is not empty and no visited span is empty and starts where its predecessor ends. |
| `LuaAgreement.PlainIsShared` | src/bridge_runtime.rs:275-365 | A pattern without magic bytes is shared. |
| `LuaDepartures.LazyDeparts` | docs/design/0279-pattern-quantifiers.md:13 | `gsub` of "aab" with `a-b` and "x" gives "x" in Lua and "aab" here. |
| `LuaDepartures.GraphDeparts` | src/bridge_runtime.rs:86-110 | `gsub` of "abc" with `%g` and "x" gives "xxx" in Lua and "abc" here. |
| `LuaDepartures.NestedDeparts` | docs/design/0281-pattern-single-capture.md:15 | `((a))` matches "a" in Lua and nothing here. |
| `LuaDepartures.BackReferenceDeparts` | docs/design/0281-pattern-single-capture.md:17 | `(a)%1` matches "aa" in Lua and nothing in it here. |
| `LuaDepartures.BracketDeparts` | docs/design/0282-pattern-sets.md:16 | `[]]` matches "]" in Lua and nothing in it here. |
| `LuaDepartures.QuotedDeparts` | src/bridge_runtime.rs:233-249 | `%b` with two equal delimiters matches a pair of them in Lua and nothing here. |
| `LuaDepartures.TouchingDeparts` | src/bridge_runtime.rs:693-707 | `gsub` of "abc" with `b*` and "-", a shared pattern, gives "-a--c-" here and "-a-c-" in Lua. |
| `LuaDepartures.AnchorDeparts` | src/bridge_runtime.rs:428-471 | `find` of `^b` in "ab" from the second place finds it in Lua and nothing here. |
| `Utf8.CharOne` | src/bridge_runtime.rs:597-626 | Writes the encoding of a scalar and returns its length; writes nothing and returns 0 otherwise. |
| `Utf8.DecodeEncode` | src/bridge_runtime.rs:528-590 | Decoding where an encoding starts gives back the scalar. |
| `Utf8.DecodedIsEncoded` | src/bridge_runtime.rs:528-590 | What decoding returns is a scalar encoded there if and only if the first two bytes are no overlong form, no surrogate and not above 10FFFF, as section 4 of RFC 3629 has it. |
| `Utf8.EncodingsAreUtf8` | src/bridge_runtime.rs:597-626 | What is written for a scalar is exactly a byte sequence of the grammar in section 4 of RFC 3629, and every such sequence is written for some scalar. |
| `Utf8.EncodingKeepsOrder` | src/bridge_runtime.rs:597-626 | The encodings are in byte order as the scalars are in numeric order. |
| `Utf8.DecodesWhole` | src/bridge_runtime.rs:528-590 | A position decodes if and only if a lead byte stands there with all its continuations; otherwise the result is -1. |
| `Utf8.OffsetFromStart` | src/bridge_runtime.rs:496-522 | Returns the position of the n-th character boundary, or -1 when there are fewer. |
| `Utf8.OffsetIsUnique` | src/bridge_runtime.rs:496-522 | That position is unique. |
| `Utf8.RoundTrip` | src/bridge_runtime.rs:496-626 | In any string of encoded scalars the offset of n is one past the encodings before it, the scalar decoded there is the n-th, the offset of count+1 is the end, later and negative ones are -1, and that of 0 is 1. |
| `Int64.FloorDivIsFloor` | src/hir/mod.rs:4812-4813 | The division the operators mean rounds toward minus infinity. |
| `Int64.FoldDivision` | src/hir/mod.rs:4812-4813 | Euclidean and floor division agree on positive divisors and exact divisions, and differ by one step otherwise. |
| `Int64.FoldIsExact` | src/hir/mod.rs:4797-4827 | A folded integer operator has its 64-bit wraparound value if and only if it is not an inexact division or remainder by a negative divisor; overflow never folds. |
| `Operators.FoldsExactly` | src/hir/mod.rs:4804-4827 | Which operators on two literals are folded, by operator and range; a division aborts the compiler exactly for the least integer and -1. |
| `Operators.SumsWrap` | src/hir/mod.rs:4809-4811 | Sums, differences and products are the 64-bit integers congruent to the exact results. |
| `Operators.QuotientsRoundDown` | src/hir/mod.rs:4812-4813 | A quotient is the integer below or at the exact one, except that the least integer divided by -1 wraps; zero does not divide. |
| `Operators.RemaindersFollowDivisor` | src/hir/mod.rs:4812-4813 | A remainder is what the quotient leaves, and has the sign of the divisor. |
| `Operators.BitsMean` | src/hir/mod.rs:4814-4818 | Each bit of a bitwise result is that operator on the bits of the operands; each bit of a shift is the bit so many places away, or zero. |
| `Operators.OrBits` | src/bridge_runtime.rs:478-487 | Each bit of the word a packed result is made of is set if and only if it is set in either half. |
| `HirLowerer.LowerCtx.constructor` | src/hir/mod.rs:2655-2682 | A new context has one empty scope and nothing else. |
| `HirLowerer.LowerCtx.ResolveName` | src/hir/mod.rs:3020-3027 | The loop over scopes finds the innermost binding. |
| `HirLowerer.LowerCtx.DeclareLocal` | src/hir/mod.rs:3029-3055 | A declaration takes the next slot and binds the name in the innermost scope. |
| `HirLowerer.LowerCtx.LowerExpression` | src/hir/mod.rs:4742-5050 | Computes the specified code or error of an expression over integers, booleans, nil and names: slots, integer folding, kind checks, folded equalities. |
| `HirLowerer.LowerCtx.LowerTarget` | src/hir/mod.rs:4236-4321 | An assignment to a name writes a writable slot of the same kind, fails otherwise, and declares an unknown name in the outermost scope outside functions. |
| `HirLowerer.LowerCtx.DeclareValues` | src/hir/mod.rs:4646-4674 | `local` with several names declares them left to right after all values are lowered. |
| `HirLowerer.LowerCtx.DeclareTemporaries` | src/hir/mod.rs:4485-4501 | A parallel assignment first stores its values in fresh temporaries. |
| `HirLowerer.LowerCtx.MoveTemporaries` | src/hir/mod.rs:4502-4511 | It then moves them to the targets in order. |
| `HirLowerer.LowerCtx.LowerParallel` | src/hir/mod.rs:4463-4516 | An assignment with several names and as many values computes the specified code, or the arity error. |
| `HirLowerer.LowerCtx.RaiseKinds` | src/hir/mod.rs:4577-4583 | The first `return` sets the kinds of the result slots. |
| `HirLowerer.LowerCtx.WidenKinds` | src/hir/mod.rs:4545-4576 | A later `return` tags the positions whose kind it contradicts; a position without a slot is an out-of-range access. |
| `HirLowerer.LowerCtx.LowerReturnWithValues` | src/hir/mod.rs:4524-4608 | A `return` becomes assignments to the result slots and then to the flag, after checking arity and kinds. |
| `HirLowerer.LowerCtx.OpenLoop` | src/hir/mod.rs:3184-3194 | A loop that breaks declares its flag around itself and becomes the innermost target. |
| `HirLowerer.LowerCtx.LowerStatements` | src/hir/mod.rs:3004-3018 | Each statement is lowered in turn and guarded if there is a flag. |
| `HirLowerer.LowerCtx.LowerScopedBody` | src/hir/mod.rs:2944-2952 | A body is lowered in its own scope, guarded by the innermost flag. |
| `HirLowerer.LowerCtx.LowerConditional` | src/hir/mod.rs:3154-3183 | Conditions and bodies of `if` are lowered in order, each body in its own scope. |
| `HirLowerer.LowerCtx.LowerLoop` | src/hir/mod.rs:3184-3239 | `while` and `repeat`, whose condition is lowered inside the scope of the body, compute the specified code. |
| `HirLowerer.LowerCtx.LowerNumericFor` | src/hir/mod.rs:3336-3403 | Bounds are lowered outside, checked to be numbers, and the loop variable is read-only in the body. |
| `HirLowerer.LowerCtx.LowerStatement` | src/hir/mod.rs:3084-3403 | The in-place lowering of any statement of the model computes the specified code and leaves the specified context, or reports the specified error. |
| `HirLowerer.GuardAfterwards` | src/hir/mod.rs:2925-2928 | Guarding all statements of a function body at the end is the same as guarding each as it is lowered. |
| `HirLowerer.VisitReturns` | src/hir/mod.rs:563-612 | The scan over a statement raises the maximum to the arity of its returns. |
| `HirLowerer.VisitBody` | src/hir/mod.rs:563-612 | The scan over a body finds the largest arity of its returns, not looking into `repeat`. |
| `HirLowerer.LowerCtx.DeclareResults` | src/hir/mod.rs:2819-2828 | One result slot for each result, directly behind the flag. |
| `HirLowerer.LowerCtx.InitializeResults` | src/hir/mod.rs:2897-2923 | Each result slot starts at the default of its final kind. |
| `HirLowerer.LowerCtx.LowerFunction` | src/hir/mod.rs:2819-2929 | A function body: flag and slots declared, cleared and defaulted, every statement guarded. |
| `HirLowerer.LowerWholeChunk` | src/hir/mod.rs:2931-2937 | The in-place lowering of a chunk returns exactly the specified code and context. |
| `HirLower.NumberedBySpelling` | src/hir/mod.rs:2819-2828 | Whether a name is one the lowering makes up, a prefix with a decimal numeral behind it, can be read off its spelling. |
| `HirMeaning.ResolvesInnermost` | src/hir/mod.rs:3020-3027 | A name resolves to its binding in the innermost frame that has one, and to none if and only if no frame has. |
| `HirMeaning.DeclarationShadows` | src/hir/mod.rs:3029-3068 | A name declared in an inner scope hides that name there and no other, and is gone behind the scope. |
| `HirChecking.ExprChecks` | src/hir/mod.rs:4742-5080 | An expression lowers if and only if its names are in scope, its operands have the kinds their operators take and no fold aborts; otherwise its first fault is reported. The code has the kind, and is the literal, that the judgement says. |
| `HirChecking.AnyExprChecks` | src/hir/mod.rs:4742-5080 | The same in every context and for every name, those the lowering makes up among them. |
| `HirChecking.EqualityFolds` | src/hir/mod.rs:4978-5005 | `==` and `~=` become a literal if and only if the kinds of the operands decide them: different and untagged, or both nil. |
| `HirChecking.TargetChecks` | src/hir/mod.rs:4236-4322 | An assignment lowers if and only if its target is writable and of the kind of the value, or is not in scope outside a function, where it is declared in the outermost scope. |
| `HirChecking.ReturnChecks` | src/hir/mod.rs:4524-4608 | A `return` lowers if and only if it is in a function, gives as many values as the first one and no new kind where there is no slot to tag; the kinds recorded are those the returns have in common. |
| `HirChecking.StmtChecks` | src/hir/mod.rs:3069-3403 | A statement lowers if and only if it is well typed by a judgement on the source alone; otherwise its first fault is the error. What is known behind it is what the judgement says. |
| `HirChecking.SeqNeedsLoop` | src/hir/mod.rs:439-470 | Statements well typed in a loop are so outside of loops if and only if the scan finds no `break` in them; so a loop gets a flag exactly if its body needs one. |
| `HirChecking.ChunkChecks` | src/hir/mod.rs:2931-2937 | A chunk lowers if and only if it is well typed, and otherwise fails with its first fault. |
| `HirChecking.FunctionChecks` | src/hir/mod.rs:2819-2929 | So does a function body, with as many result slots as the largest `return` outside `repeat` has values. |
| `HirChecking.ResultKinds` | src/hir/mod.rs:4540-4600 | After lowering, a result slot has the kind its returns have in common, or the tagged kind if they differ. |
| `HirReturns.ArityIsMost` | src/hir/mod.rs:561-612 | The number of slots reserved is the greatest number of values of any `return` that is not under `repeat`, in loops too, or zero. |
| `HirReturns.EveryReturnHasSlots` | src/hir/mod.rs:2819-2829 | In a body that is lowered every `return` has exactly one slot for each of its values if some `return` is not under `repeat`; otherwise there are no slots. |
| `HirReturns.ReturnStores` | src/hir/mod.rs:4524-4608 | The code of such a `return`, in a loop or not, leaves its values in the slots, raises the flag and changes nothing else, or traps with its values. |
| `HirContext.EnterLoopWF` | src/hir/mod.rs:3184-3198 | Entering a loop keeps names on distinct slots and takes a flag no user name stands for, exactly when the body breaks. |
| `HirContext.LowerStmtFlow` | src/hir/mod.rs:3084-3403 | Lowering any statement keeps the context well formed: user names stand for distinct slots in range, flags and result slots stay hidden, and a name only ever moves to a new slot. |
| `HirContext.LowerSeqFlow` | src/hir/mod.rs:3004-3018 | The same for a list of statements. |
| `HirContext.ReturnFlow` | src/hir/mod.rs:4524-4608 | A `return` changes kinds of result slots only. |
| `HirKinds.ExprKindSound` | src/hir/mod.rs:193-252 | An expression over kinded slots either traps or has a value of the inferred kind. |
| `HirKinds.EqualityFoldExact` | src/hir/mod.rs:4978-5005 | Folding `==` or `~=` on different kinds, or on two nils, agrees with evaluating it if and only if neither operand traps. |
| `HirKinds.RunKindSound` | src/hir/mod.rs:193-252 | However a run of kinded code ends, every slot still holds a value of its kind. |
| `HirKinds.LowerStmtKinded` | src/hir/mod.rs:4236-4260 | The code of every statement is kinded, as the finished table of locals sees it. |
| `HirKinds.ForKinded` | src/hir/mod.rs:3336-3403 | The code of a numeric loop is kinded, and its variable is a number slot. |
| `HirKinds.ChunkKindSound` | src/hir/mod.rs:193-433 | From slots of their kinds, any run of any lowered chunk, of any length, leaves every slot with a value of its declared kind. |
| `HirRecords.ReturnRecords` | src/hir/mod.rs:4545-4583 | The record of a function's results: the first `return` sets the kinds of the slots, a later one tags what it contradicts, and a kind once recorded only ever rises to tagged. |
| `HirRecords.StmtRecords` | src/hir/mod.rs:3084-3403 | Every statement keeps the record: recorded kinds only rise, and the result slots have the recorded kinds. |
| `HirResults.StmtAllowed` | src/hir/mod.rs:3084-3403 | Code stores to a slot outside the hidden ones only if it is writable or new, and to a result slot only values the finished table accepts there. |
| `HirResults.RunSpares` | src/hir/mod.rs:3384-3387 | A read-only slot keeps its value over any run of the code lowered under it, in the fragment or not. |
| `HirResults.RunResults` | src/hir/mod.rs:4524-4608 | Over any run of lowered code the result slots hold values of their final kinds, or are tagged. |
| `HirResults.FunctionKindSound` | src/hir/mod.rs:2819-2929 | From slots of their kinds, any run of any lowered function body, however long and however it ends, leaves every slot, each result slot included, tagged or with a value of its final kind. |
| `HirFragment.TotalSound` | src/hir/mod.rs:4845-4898 | Code accepted as total never traps on kinded slots. |
| `HirFragment.StmtFrames` | src/hir/mod.rs:3140-3153 | When every assigned name is declared, a statement changes no scope but the innermost, and `do ... end` and `if` change none. |
| `HirRelation.RelResolve` | src/hir/mod.rs:3020-3027 | A name resolves to a slot exactly when the source has it in scope, and the slot holds its value. |
| `HirRelation.UpdateRel` | src/hir/mod.rs:4297-4321 | Writing the slot of a name is assigning its innermost binding, under any shadowing. |
| `HirRelation.ExprSim` | src/hir/mod.rs:4742-5050 | Lowered expressions, folded trees included, have the value of the source expression and trap exactly when it does. |
| `HirRelation.InitsRun` | src/hir/mod.rs:4485-4501 | Initializing fresh slots in order stores the values of the starting state, since no value reads a fresh slot. |
| `HirRelation.MoveAllRel` | src/hir/mod.rs:4502-4511 | Moving temporaries one by one is the simultaneous assignment of Lua. |
| `HirRelation.RetAssignsRun` | src/hir/mod.rs:4584-4593 | Storing results one by one stores the values of the starting state, since no value reads a result slot. |
| `HirSteps.SimAssignMulti` | src/hir/mod.rs:4351-4516 | A parallel assignment through temporaries does what the source assignment does. |
| `HirSteps.SimReturn` | src/hir/mod.rs:4524-4608 | The code of `return` puts the values in the result slots, raises the flag and touches nothing else. |
| `HirSteps.SimBreak` | src/hir/mod.rs:3310-3335 | The code of `break` raises the flag of the innermost loop and touches nothing else. |
| `HirTraces.HExecExtends` | src/codegen/emit.rs:24400-24453 | Code only ever adds to what has been printed. |
| `HirSimulation.SkipGuarded` | src/hir/mod.rs:500-521 | Once its flag is up, a guarded list of statements does nothing. |
| `HirSimulation.GuardRuns` | src/hir/mod.rs:500-521 | While its flag is down, a guard is transparent. |
| `HirSimulation.WrapInitRuns` | src/hir/mod.rs:476-498 | The block around a loop runs it with its flag cleared. |
| `HirSimulation.SimSeq` | src/hir/mod.rs:3004-3018 | A guarded list of statements does what the source list does; after an early exit the rest is skipped. |
| `HirSimulation.SimArms` | src/hir/mod.rs:3154-3183 | The arms of `if` take the same branch. |
| `HirSimulation.SimWhile` | src/hir/mod.rs:3184-3208 | A flag-extended `while` runs the same iterations and ends alike. |
| `HirSimulation.SimRepeat` | src/hir/mod.rs:3213-3239 | The same for `repeat`, whose condition sees the names of its body. |
| `HirSimulation.SimFor` | src/hir/mod.rs:3336-3403 | The same for the numeric loop, whatever its step: the body leaves the counter alone and each iteration starts from it. |
| `HirSimulation.ForVarKept` | src/hir/mod.rs:3384-3387 | The read-only loop variable keeps its value through the body, however the body ends. |
| `HirSimulation.SimStmt` | src/hir/mod.rs:3084-3403 | Every statement of the fragment: unless the source stops at a zero step, its code prints the same, ends alike, agrees on all variables, and leaves flags, result slots and loop variables alone unless it exits through them; if the source stops there, the code has printed what it printed. |
| `HirFunctions.ChunkCorrect` | src/hir/mod.rs:2931-3018 | Unless the source stops at a zero step, a chunk of the fragment and its code print the same, end alike after the same number of iterations and agree on every variable; if it stops there, the code has printed all the source printed. |
| `HirFunctions.FlagTellsBreak` | src/hir/mod.rs:439-521 | After a loop that can break, its flag is up if and only if a `break` ended it, unless the source stopped at a zero step. |
| `HirFunctions.BodyYields` | src/hir/mod.rs:563-612 | If a body is lowered at all, each of its returns outside loops has exactly as many results as slots are reserved. |
| `HirFunctions.PrologueRuns` | src/hir/mod.rs:2884-2923 | The code in front of a body clears the flag and defaults the result slots, and changes nothing else. |
| `HirFunctions.FunctionCorrect` | src/hir/mod.rs:2819-2929 | Unless the source stops at a zero step, a function body of the fragment and its code print the same and end alike, the result slots hold exactly the returned values if the source returns, and they hold their defaults with `_returned` false if it runs off its end. |
| `HirFuel.ChunkHaltsAlike` | src/hir/mod.rs:3184-3239 | If a chunk of the fragment halts other than at a zero step, so does its code; if the code halts, so does the source; and their results agree unless the source stops at a zero step. |
| `HirFuel.FunctionHaltsAlike` | src/hir/mod.rs:2819-2929 | The same for a function body, with the returned values in the result slots. |
| `HirDepartures.BlockRunsOn` | src/hir/mod.rs:3140-3148 | `do break; print(n) end` prints n after lowering: the statements of a block are not guarded. |
| `HirDepartures.ReturnLoopsOn` | src/hir/mod.rs:3185-3198 | `while true do return end` returns in Lua; its code runs out of any amount of fuel. |
| `HirDepartures.ForReturnsLast` | src/hir/mod.rs:3336-3403 | `for v = a, b do return v end` returns a in Lua; its code goes on and leaves b in the result slot. |
| `HirDepartures.BreakReturns` | src/hir/mod.rs:3310-3335 | Outside loops, a function body lowers `break` to raising `_returned`. |
| `HirDepartures.ZeroStepRuns` | src/hir/mod.rs:3336-3403 | A numeric loop with step zero, with any body and bounds, is an error in Lua; its code ends at once, printing nothing, when the start is below the limit, and otherwise can end normally only by a `break`. |
| `HirDepartures.MisfoldExample` | src/hir/mod.rs:4804-4830 | `7 // (0 - 2)` lowers to -3 where it means -4; `7 // -2`, whose divisor is an operator on a literal, is not folded and is -4 on both sides. |
| `HirConditions.ConditionRunsOn` | src/hir/ir.rs:181-188 | A `while` whose body is in the fragment: where the source breaks out with a condition that would trap, the code of the loop traps; in every other case, zero steps apart, the code ends like the source and has printed the same. |
| `HirConditions.RepeatConditionRunsOn` | src/hir/ir.rs:189-200 | Once the body of a `repeat` has raised the flag, the code traps if and only if the condition does in the slots as they are. |
| `HirCaptures.FlagCapturesName` | src/hir/mod.rs:3184-3194 | `while true do print(v); break end`, with v spelled like the flag of the loop, prints v in the source and false in the code, in any context. |
| `HirCaptures.TemporaryCapturesName` | src/hir/mod.rs:4485-4501 | `x, x = 1, 2; print(v)`, with v spelled like the first temporary, prints v in the source and 1 in the code. |
| `HirCaptures.ReturnedCapturesName` | src/hir/mod.rs:2819-2829 | `print(_returned)` as a function body prints that variable in the source and false in the code. |
| `HirCaptures.ResultCapturesName` | src/hir/mod.rs:2819-2829 | `print(_ret_value_0); return 1` as a function body prints that variable in the source and 0 in the code. |
| `HirCaptures.UnknownNameStarts` | src/hir/mod.rs:4265-4288 | A name whose only assignment is not executed is nil in the source; in the code it is a number slot that nothing has stored to. |
| `HirCaptures.RepeatLosesResult` | src/hir/mod.rs:563-612 | `repeat return n until true` as a function body returns n in the source; its code reserves no result slot, raises the flag and stores nothing else. |
| `HirCaptures.RepeatPanics` | src/hir/mod.rs:4567-4575 | Two such loops that return values of different kinds are not lowered: a slot out of range is accessed. |
| `HirCaptures.SyntheticNames` | src/hir/mod.rs:2821-2825 | The names the lowering makes up, as they are spelled. |
| `Aliases.ChainIsPath` | src/hir/mod.rs:758-772 | An expression has a path exactly if it is the dotted spelling of that path. |
| `Aliases.ExtractIndexChain` | src/hir/mod.rs:774-805 | The iterative extraction, from the last segment backwards, agrees with the recursive one. |
| `Aliases.BindingsOfChunk` | src/hir/mod.rs:852-875 | The bindings of a chunk are those its statements make: a single `local` or assignment, or in lists of equal length the name and the value at the same place. |
| `Aliases.ListsAreSingles` | src/hir/mod.rs:866-874 | A multiple binding records what its single bindings, in order, record. |
| `Aliases.StandsForReaches` | src/hir/mod.rs:1879-1895 | Leading to a method in terms of statements is the same as in terms of recorded bindings. |
| `Aliases.LastMethodWins` | src/hir/mod.rs:1884-1886 | A name the chunk binds last to the path of a method stands for that method after the first pass. |
| `Aliases.AliasTable.RecordAliasBinding` | src/hir/mod.rs:821-847 | One binding is recorded, or not, as the specified pass over it says. |
| `Aliases.AliasTable.ProcessAliasStmt` | src/hir/mod.rs:852-875 | The bindings of a statement are recorded in order; uneven lists make none. |
| `Aliases.AliasTable.ProcessChunk` | src/hir/mod.rs:1881-1895 | A pass over the chunk records all its bindings in order and tells whether anything was recorded. |
| `Aliases.AliasTable.ResolveAliases` | src/hir/mod.rs:1879-1895 | The loop ends. The table then holds a name if and only if statements of the chunk lead from it, through rebinds, to the path of a method, and it stands for such a method; entries of the first pass stay, so a name bound last to the path of a method stands for that method. |
| `Aliases.PassGrows` | src/hir/mod.rs:1887-1895 | An insert-only pass keeps what is known and records a missing bound name, or nothing is missing. |
| `Aliases.PassJustified` | src/hir/mod.rs:821-847 | A pass, last-wins or insert-only, records only what a finite chain of rebinds justifies. |
| `Aliases.FixedPointIsDerivable` | src/hir/mod.rs:1884-1895 | A justified table to which no binding adds holds exactly the derivable names. |
| `Aliases.DerivableIsLeast` | src/hir/mod.rs:1884-1895 | The derivable names are the least set closed under the bindings. |
| `Aliases.OrderIrrelevant` | src/hir/mod.rs:1884-1895 | Which names are derivable, and to which methods, does not depend on the order of statements. |
| `LexerScanner.AsciiLookahead` | src/lexer/mod.rs:45 | Looking for an ASCII byte at the byte offset of a character is looking for that character. |
| `LexerScanner.DigitLookahead` | src/lexer/mod.rs:354-364 | The same for decimal and hexadecimal digits. |
| `LexerScanner.Cursor.TryMatchLongOpen` | src/lexer/mod.rs:231-244 | Counting in the bytes finds the level of a long bracket that opens here, if one does. |
| `LexerScanner.Cursor.ScanLongBracketBody` | src/lexer/mod.rs:262-292 | The body ends at the first close of its level, without a leading newline; no close is a failure. |
| `LexerScanner.Cursor.ScanHex` | src/lexer/mod.rs:354-371 | A hexadecimal literal takes all its digits, wraps to a signed word, and beyond 64 bits is the panic. |
| `LexerScanner.Cursor.ScanNumber` | src/lexer/mod.rs:344-425 | A numeric literal is scanned as the rules say: integer, or float when it has a fraction, an exponent or too large a value. |
| `LexerScanner.Cursor.ScanExponent` | src/lexer/mod.rs:392-412 | An exponent is taken only with a digit behind its optional sign. |
| `LexerScanner.Cursor.ScanFraction` | src/lexer/mod.rs:381-391 | A fraction is taken only with a digit behind its dot. |
| `LexerScanner.Cursor.ReadEscape` | src/lexer/mod.rs:471-525 | Each escape sequence yields its character, skips white space, or fails as the rules say. |
| `LexerScanner.Cursor.ReadHexEscape` | src/lexer/mod.rs:534-557 | Exactly two digits, up to 7F. |
| `LexerScanner.Cursor.ReadDecimalEscape` | src/lexer/mod.rs:564-590 | One to three digits, up to 127. |
| `LexerScanner.Cursor.ReadUnicodeEscape` | src/lexer/mod.rs:599-649 | Digits in braces, within 32 bits at every digit, naming a Unicode scalar. |
| `LexerScanner.Cursor.ScanString` | src/lexer/mod.rs:435-527 | A short string is read up to its quote, or fails where the rules say. |
| `LexerScanner.Cursor.SkipComment` | src/lexer/mod.rs:45-62 | A comment runs to the end of its line or to the first close of its long bracket. |
| `LexerScanner.Cursor.ScanPunctuation` | src/lexer/mod.rs:111-200 | The punctuation token the rules say is taken. |
| `LexerScanner.Cursor.ScanToken` | src/lexer/mod.rs:64-202 | One token, dispatched on its first character. |
| `LexerScanner.Cursor.Step` | src/lexer/mod.rs:34-203 | One round of the main loop emits a token, skips a space or a comment, or fails, as the rules say. |
| `LexerScanner.LexSource` | src/lexer/mod.rs:16-208 | The lexer returns exactly the specified tokens with their byte spans, or the specified error. |
| `LexerRules.StepAt` | src/lexer/mod.rs:34-203 | Each step of the main loop moves forward inside the source. |
| `LexerRules.RunEndIsMaximal` | src/lexer/mod.rs:651-666 | A run of characters of one class is the longest one. |
| `LexerRoundTrip.KeywordNames` | src/lexer/token.rs:143-169 | The text of every keyword is a name that reads back as that keyword. |
| `LexerText.KeywordsAre` | src/lexer/token.rs:143-169 | The listed words are the keywords they are listed with, and no other word is one. |
| `LexerText.MarksAre` | src/lexer/mod.rs:111-200 | The texts of the punctuation tokens, one by one. |
| `LexerText.NameCharactersAre` | src/lexer/mod.rs:314-322 | Names begin with a listed letter or an underscore and go on with these or decimal digits. |
| `LexerText.EmitCovers` | src/lexer/mod.rs:34-203 | Every token spells itself: its name, its keyword, its mark, its numeral with that value, or its string. |
| `LexerText.MarksRead` | src/lexer/mod.rs:111-200 | Where the text of a mark stands that opens no comment and no long bracket, the longest mark there is read. |
| `LexerText.TriviaAreSkipped` | src/lexer/mod.rs:34-62 | A space is skipped; two dashes are skipped with the rest of their line, or with a long bracket up to its first close, and fail if that never closes. |
| `LexerText.HexLiteralReads` | src/lexer/mod.rs:354-371 | Hexadecimal digits in either case behind `0x` or `0X` read as the signed reading of their 64-bit value, all of them, or overflow. |
| `LexerText.FailsAs` | src/lexer/mod.rs:34-203 | A failure reports what is wrong at its place: a character nothing begins with, a bracket or comment that never closes, a string cut off or with a wrong escape, or too large a literal. |
| `LexerText.UnexpectedFails` | src/lexer/mod.rs:200-202 | A character that begins no token, space or comment always fails. |
| `LexerText.LexFails` | src/lexer/mod.rs:16-208 | A source that does not lex is reported at the first place, after tokens, spaces and comments, where something is wrong. |
| `LexerRoundTrip.EscapedTextReads` | src/lexer/mod.rs:435-527 | The escaped form of any text reads as that text. |
| `LexerStrings.EscapeReads` | src/lexer/mod.rs:435-590 | Every spelling of an escape reads as its character: letters, two hexadecimal digits in either case below 128, one to three decimal digits up to 127, a braced numeral of any scalar, and none for `z` with the spaces behind it. |
| `LexerStrings.PiecesRead` | src/lexer/mod.rs:435-527 | Characters and escapes in a row, with the quote behind them, read as the text they stand for. |
| `LexerStrings.StringReads` | src/lexer/mod.rs:435-527 | A short string reads as a text if and only if what stands between its quotes spells that text. |
| `LexerStrings.StringFails` | src/lexer/mod.rs:435-527 | A short string that does not read is reported at its quote if it is cut off, and otherwise at the first backslash that starts no escape. |
| `LexerStrings.FaultIs` | src/lexer/mod.rs:435-650 | How the error names an escape that does not read: by its letter, its digits or its braces. |
| `LexerRoundTrip.IntegerStep` | src/lexer/mod.rs:344-425 | A decimal integer of 64 bits reads as its value. |
| `LexerRoundTrip.HexadecimalStep` | src/lexer/mod.rs:354-371 | A negative integer reads back from the hexadecimal digits of its 64-bit word. |
| `LexerRoundTrip.FloatStep` | src/lexer/mod.rs:344-425 | Digits with a fraction or an exponent behind them, or too large for an integer, read as that float. |
| `LexerRoundTrip.FloatRead` | src/lexer/mod.rs:344-425 | Whatever is read as a float has these parts. |
| `LexerRoundTrip.PunctuationLongest` | src/lexer/mod.rs:111-200 | Where the text of a punctuation token stands, the token taken is one whose text stands there, and it is no shorter. |
| `LexerRoundTrip.PunctuationStep` | src/lexer/mod.rs:111-200 | Each punctuation text followed by a space reads as that token. |
| `LexerRoundTrip.PrintedReads` | src/lexer/mod.rs:16-208 | Wherever in a source the canonical text of a printable token stands with a space behind it, the lexer reads that token and goes on behind the space. |
| `LexerRoundTrip.PrintedStep` | src/lexer/mod.rs:16-208 | The canonical text of any printable token followed by a space reads as that token. |
| `LexerRoundTrip.TokenRoundTrip` | src/lexer/mod.rs:16-208 | Printing any list of tokens and lexing the text gives back exactly that list and the end marker. |
| `LexerRoundTrip.Reprint` | src/lexer/mod.rs:16-208 | For any source that lexes, printing its tokens and lexing again gives the same tokens. |
| `LexerRoundTrip.LongCloseIsFirst` | src/lexer/mod.rs:262-292 | The close found is the first one of its level. |
| `LexerRoundTrip.LongRoundTrip` | src/lexer/mod.rs:80-97 | A text between long brackets of a level lexes to itself if and only if it has no newline in front and no earlier close of that level. |
| `LexerRoundTrip.FittingLevel` | src/lexer/mod.rs:231-292 | For every text there is a level at which nothing in it closes early. |
| `LexerRoundTrip.LongRoundTripWithNewline` | src/lexer/mod.rs:270-273 | With one newline put in front, every text lexes to itself at a level that fits. |
| `LexerPartition.Partition` | src/lexer/mod.rs:16-208 | On success the source, behind its shebang line if it has one, is tokens in order with only spaces and comments before, between and after them; the shebang line ends with the first newline or with the source. |
| `LexerPartition.SpansInOrder` | src/lexer/mod.rs:205-207 | Byte spans are in bounds, strictly increasing and disjoint; only the last token is empty, and it is the end marker. |
| `LexerText.SpanHoldsText` | src/lexer/mod.rs:205-207 | The bytes of the source in the span of a token are those of a text that spells it. |
| `LexerPartition.HexOverflows` | src/lexer/mod.rs:368-370 | A hexadecimal literal overflows if and only if it has more than sixteen significant digits. |

## Left out

- Code generation (`src/codegen/`): the target semantics of `HirSemantics` is written from the comments of
  `src/hir/ir.rs` and the order of evaluation in `src/codegen/emit.rs` (`emit_while`, `emit_repeat`,
  `emit_for_numeric`); memory, tables and garbage collection are not part of this model.
- Numeric `for` counters are unbounded integers on both sides; the generated code counts in floating point.
- The trap on integer division by zero and the 64-bit wraparound of the model are meanings at the level of HIR, which
  emitted code need not have: a chunk with a loop keeps its numbers as doubles (`mark_integer_slot_eligible` in
  `src/hir/mod.rs`), and there `1 // 0` is infinity; and `emit_binop` shifts right arithmetically where Lua and the
  fold shift logically.  A condition that traps in `HirConditions` is one of HIR.
- Floating-point values: the lexer keeps a float as its lexeme, and the lowering model has no floats, `/` or `^`.
- Strings, tables, calls, closures, methods, varargs, attributes of locals, generic `for` and tagged values in the
  lowering model; the one call modelled is `print`.  `if` without `else` is `if` with an empty one.
- The parser and its syntax tree beyond the statements above; offsets in the errors of the lowering.
- HirFunctions.ChunkCorrect: assignments to undeclared names, which the lowering declares in the outermost scope, are
  outside the fragment, because Lua makes them globals; so are the other programs listed above.  Synthetic names
  are excluded anywhere in a program, although they capture a name only where the lowering has declared them.
- HirChecking.ChunkChecks: programs that use a name the lowering makes up are excluded; such a name resolves to a slot
  of the lowering where one is in scope, so it may be accepted although the source does not declare it.
- HirChecking.FunctionChecks: likewise, for parameters too.
- HirLowerer.LowerCtx.LowerExpression: string, float, table, call and vararg expressions, concatenation, functions and
  upvalues under a name, and operands that are strings, tables or tagged are not modelled.
- HirLowerer.LowerCtx.LowerTarget: the error for assigning to the name of a declared function, because functions as
  values are not modelled, and the function a slot is known to hold.
- HirLowerer.LowerCtx.LowerParallel: the expansion of a single call on the right over several names, because calls are
  not modelled.
- HirLowerer.LowerCtx.LowerStatement: nested functions, calls, attributes of locals, generic `for` and assignment to
  table fields are not modelled.
- PatternReplace.GmatchIterator.constructor: subjects of 2 to the 32nd minus 1 bytes or more are excluded, because there
  the packed result of `find` no longer unpacks.
- LuaAgreement.GsubAgreesWithLua: replacements with `%`, which Lua expands and the code copies; and patterns that are
  not shared, on which agreement depends on the pattern and the subject.
- LuaAgreement.WalkAgreesWithLua: Lua's `gmatch` on patterns that begin with `^`, which is no anchor there.
- LuaAgreement.MatchersAgree: Lua returns every capture and the runtime the last one; only that one is compared.
- LuaPatterns.LuaSearchIsBest: the limit of 200 on the depth of Lua's matcher.
- PatternSearch.PackedFindUnpacks: subjects of 2 to the 32nd bytes or more; `Bits.PackUnpacks` shows the bound is exact.
- PatternReplace.GmatchIterator.Next: the closure and its upvalues are an object with fields; the embedded Lua text
  is represented by what it does.
- LexerScanner.LexSource: the conversion of a float lexeme to a number is not modelled.
- Raw pointers and unchecked indexing of the runtime: strings are byte sequences with bounds, buffers are arrays.
- The number-subtype lattice, builtin tables, command line and linking: no further state or search to reason about.

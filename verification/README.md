# ANTLR interval arithmetic and lexer matching, modelled in Dafny

This project models two self-contained parts of the ANTLR 3 tool and runtime:

- `org.antlr.misc.Interval`, an immutable inclusive integer range `a..b`. It has
  relational predicates: disjoint, adjacent, starts before or after, and
  containment. It also has set-like operations: union, intersection and a
  one-sided difference. The model is the datatype `Intervals.Interval` with one
  pure function per method (`interval.dfy`).
- The character-matching state machine of `org.antlr.runtime.Lexer`: `match(String)`,
  `match(int)`, `matchRange`, `matchAny`, `recover` and the two `emit` overloads
  (`lexer.dfy`). The lexer state is a value `Lexers.Lexer` holding the input
  stream and the current token. Each operation returns the next state.
  Exceptions become a `MatchResult` (`Ok`, `MismatchedToken(expecting)` or
  `MismatchedRange(a, b)`) returned with that state.

The character stream the lexer reads is not part of this model. It is abstracted
in `char_stream.dfy` as contents, an end-of-input value and a cursor. `LA(1)`
is the element under the cursor, or the end-of-input value past the end of
the contents. `consume()` moves the cursor on by one. `wrappers.dfy` holds the
`Option` type that stands for a possibly-null reference.

Element-level meaning is stated with `Contains(x, n)`, which says that `n` is an element of `x`.
The constructor accepts any pair of bounds, so an interval with `b < a` can be
built; it has no elements. Properties about elements therefore assume
well-formed operands (`a <= b`) wherever the code needs that.

Where a doc comment and the code disagree, the model follows the code:

- `startsAfter` (Interval.java:56-57) compares `this.a > other.a`, although its
  comment speaks of `other.b`. `Intervals.StartsAfterIgnoresUpperBound` exhibits
  well-formed intervals for which it holds while `this.a <= other.b`.
- The remark "this.b>=other.b implied" in `startsAfterNonDisjoint`
  (Interval.java:66) does not hold in general.
  `Intervals.StartsAfterNonDisjointDoesNotBoundEnd` exhibits well-formed intervals
  for which the predicate holds and `this.b < other.b`.
- `disjoint` is described as "no overlap". That holds for well-formed operands
  (`Intervals.DisjointIff`). With an ill-formed operand it is not even symmetric
  (`Intervals.DisjointAsymmetricWhenIllFormed`).

## Model

| member | source | states |
|---|---|---|
| `Intervals.Equals` | src/org/antlr/misc/Interval.java:41-44 | true exactly when the two intervals are the same value (both endpoints coincide) |
| `Intervals.EqualsIsEquivalence` | src/org/antlr/misc/Interval.java:41-44 | equals is reflexive, symmetric and transitive |
| `Intervals.StartsBeforeDisjoint` | src/org/antlr/misc/Interval.java:46-49 | when it holds, every element of this is smaller than every element of other |
| `Intervals.StartsBeforeDisjointIff` | src/org/antlr/misc/Interval.java:46-49 | for well-formed operands, it holds exactly when all of this lies below all of other |
| `Intervals.StartsBeforeNonDisjoint` | src/org/antlr/misc/Interval.java:51-54 | holds exactly when other's lower bound is an element of this; for well-formed other the two then share an element |
| `Intervals.StartsAfter` | src/org/antlr/misc/Interval.java:56-57 | when it holds, this does not start before other in the non-disjoint sense and the intervals are not equal |
| `Intervals.StartsAfterIsStrictOrder` | src/org/antlr/misc/Interval.java:56-57 | startsAfter is irreflexive, asymmetric and transitive, and any two intervals either start in one order or have equal lower bounds |
| `Intervals.StartsAfterIgnoresUpperBound` | src/org/antlr/misc/Interval.java:56-57 | some well-formed this starts after other although this.a is not beyond other.b (the comment's reading) |
| `Intervals.StartsAfterDisjoint` | src/org/antlr/misc/Interval.java:59-62 | when it holds, every element of other is smaller than every element of this |
| `Intervals.StartsAfterDisjointIff` | src/org/antlr/misc/Interval.java:59-62 | for well-formed operands, it holds exactly when all of other lies below all of this |
| `Intervals.StartsAfterNonDisjoint` | src/org/antlr/misc/Interval.java:64-67 | holds exactly when this starts after other and this.a is an element of other; for well-formed this the two then share an element |
| `Intervals.StartsAfterNonDisjointDoesNotBoundEnd` | src/org/antlr/misc/Interval.java:64-67 | the predicate can hold for well-formed intervals with this.b < other.b, so the upper bound is not implied |
| `Intervals.Disjoint` | src/org/antlr/misc/Interval.java:69-72 | when it holds, no integer lies in both intervals |
| `Intervals.DisjointIff` | src/org/antlr/misc/Interval.java:69-72 | for well-formed operands, disjoint holds exactly when no integer lies in both (no overlap) |
| `Intervals.DisjointSymmetric` | src/org/antlr/misc/Interval.java:69-72 | for well-formed operands, disjoint(x, y) equals disjoint(y, x) |
| `Intervals.DisjointAsymmetricWhenIllFormed` | src/org/antlr/misc/Interval.java:69-72 | with an ill-formed operand, disjoint can hold one way round and not the other |
| `Intervals.Adjacent` | src/org/antlr/misc/Interval.java:74-77 | a well-formed interval adjacent to another is disjoint from it |
| `Intervals.AdjacentSymmetric` | src/org/antlr/misc/Interval.java:74-77 | adjacent is symmetric, and 0..41 is adjacent to 42..42 |
| `Intervals.AdjacentUnionHasNoGap` | src/org/antlr/misc/Interval.java:74-86 | the union of two adjacent well-formed intervals holds exactly the elements of the two |
| `Intervals.ProperlyContains` | src/org/antlr/misc/Interval.java:79-81 | when it holds, every element of other is an element of this |
| `Intervals.ProperlyContainsIff` | src/org/antlr/misc/Interval.java:79-81 | for well-formed other, it holds exactly when every element of other is in this |
| `Intervals.ProperlyContainsIsPartialOrder` | src/org/antlr/misc/Interval.java:79-81 | reflexive despite its name (equal intervals count), transitive, and antisymmetric |
| `Intervals.Union` | src/org/antlr/misc/Interval.java:83-86 | the result contains both operands and is contained in every interval that contains both; it is well-formed when either operand is |
| `Intervals.UnionCommutativeIdempotent` | src/org/antlr/misc/Interval.java:83-86 | union is commutative and idempotent |
| `Intervals.Intersection` | src/org/antlr/misc/Interval.java:88-91 | both operands contain the result, which contains every interval both contain; its elements are exactly the common elements |
| `Intervals.IntersectionCommutative` | src/org/antlr/misc/Interval.java:88-91 | intersection is commutative; for well-formed operands the result is well-formed exactly when they are not disjoint |
| `Intervals.DifferenceNotProperlyContained` | src/org/antlr/misc/Interval.java:93-111 | for well-formed operands, null exactly when they are disjoint; a result lies within this and is disjoint from other; when other is not properly contained in this, its elements are exactly those of this not in other |
| `Intervals.DifferenceLosesUpperPartWhenEnclosed` | src/org/antlr/misc/Interval.java:93-97 | when other is properly contained with room on both sides, the result misses elements of this that are not in other, as the comment warns |
| `CharStreams.Consume` | src/org/antlr/runtime/Lexer.java:66 | consuming moves the cursor on by one and shifts the lookahead window by one position |
| `Lexers.Emit` | src/org/antlr/runtime/Lexer.java:55-57 | the current token becomes exactly the argument and the input is untouched |
| `Lexers.EmitFields` | src/org/antlr/runtime/Lexer.java:44-53 | the current token carries exactly the given type, channel, start, stop, line and char position; the input is untouched |
| `Lexers.EmitLastWins` | src/org/antlr/runtime/Lexer.java:44-57 | emitting twice keeps only the last token, and the six-value overload is emit of the token built from its arguments |
| `Lexers.MatchPrefix` | src/org/antlr/runtime/Lexer.java:59-68 | only the cursor moves and never by more than the string's length; success exactly when the next characters spell the string, then the cursor has moved by its length; otherwise the report expects the character at the first mismatch position i and exactly i characters stay consumed |
| `Lexers.Match` | src/org/antlr/runtime/Lexer.java:59-68 | the consuming loop computes the same result and state as the recursive definition, with no rollback on failure |
| `Lexers.MatchEmpty` | src/org/antlr/runtime/Lexer.java:60-61 | matching the empty string succeeds and leaves the state unchanged |
| `Lexers.MatchConcatAfterMatch` | src/org/antlr/runtime/Lexer.java:59-68 | once s has matched, matching s + t is matching t from the state s left behind |
| `Lexers.MatchConcatAfterMismatch` | src/org/antlr/runtime/Lexer.java:59-68 | a mismatch inside s makes s + t fail with the same report and the same state, before t is looked at |
| `Lexers.MatchSingleChar` | src/org/antlr/runtime/Lexer.java:59-79 | matching a one-character string behaves exactly as matching that character |
| `Lexers.MatchAny` | src/org/antlr/runtime/Lexer.java:70-72 | never fails; only the cursor moves, by exactly one |
| `Lexers.MatchChar` | src/org/antlr/runtime/Lexer.java:74-79 | succeeds exactly when LA(1) is c and then consumes one element; otherwise reports c as expected with the state unchanged |
| `Lexers.MatchRange` | src/org/antlr/runtime/Lexer.java:81-86 | succeeds exactly when LA(1) is an element of the interval a..b and then consumes one element; otherwise reports the range with the state unchanged; with a > b it always fails |
| `Lexers.MatchRangeSingleton` | src/org/antlr/runtime/Lexer.java:74-86 | matchRange(c, c) succeeds exactly when match(c) does and leaves the same state |
| `Lexers.Recover` | src/org/antlr/runtime/Lexer.java:157-160 | never fails; only the cursor moves, by exactly one |
| `Lexers.MatchAnyIsMatchOfLookahead` | src/org/antlr/runtime/Lexer.java:70-79 | matchAny is match(LA(1)), which always succeeds, and recover behaves as matchAny |

## Left out

- src/org/antlr/test/TestAttributes.java tests the action-reference translator (`ActionTranslatorLexer`, `Grammar`, `CodeGenerator`, template rendering). Those classes are not part of this model.
- gunit/src/main/java/org/antlr/gunit/swingui/WorkSpaceController.java is Swing user interface, file dialogs, file I/O and a background thread. It has no logic to model.
- `Lexer.reportError` (Lexer.java:107-155) only prints to the standard error stream and calls `Parser.getRuleInvocationStack`, which is not part of this model.
- `getLine`, `getCharPositionInLine`, `getCharIndex` and `getCharStream` (Lexer.java:40-42, 88-99) only hand back what the stream holds. The stream's line and column bookkeeping is not part of this model.
- The `CharStream` and `CommonToken` classes are not part of this model. Past the end of its contents, the stream yields a caller-chosen end-of-input value, and `consume()` always moves the cursor. A real stream may stop the cursor at the end. A token is reduced to the six values `emit` sets.
- The unused `inputBuffer` field and the constructor are left out. A lexer is built directly as `Lexer(input, None)`.
- Java `int` is 32 bits, but the model uses unbounded integers. The wrap-around of `other.b+1` and `other.a-1` (Interval.java:76, 102, 108) at the extremes of the range is not modelled.
- `Interval.equals` takes an `Object` and casts it (Interval.java:42). The cast failure for a non-interval argument is left out. The model compares two intervals.
- `Interval.toString` (Interval.java:113-115) is string formatting and is left out. `getA` and `getB` are the datatype's fields.
- Java's `String.charAt` yields UTF-16 code units. The model's strings are Dafny `char` sequences, and each character is compared with `LA(1)` through its integer code.
